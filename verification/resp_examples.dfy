/**
  The unit tests of src/resp.rs and src/resp/types.rs, stated for the model.
  Where the code as written disagrees with a test's expectation, the lemma
  states what the code does, and the intended parser is shown meeting the
  expectation.

  Each test is split in two: a lemma about the literal's bytes that never
  mentions the parser, and a lemma about the parser over any bytes of that
  shape. The test itself only puts the two together.
 */
module RespExamples {
  import opened Wrappers
  import opened Bytes
  import opened Utf8
  import opened Decimal
  import opened RespTypes
  import opened Resp
  import opened RespProperties

  /** `parse_all` over exactly one complete value. */
  lemma ParseAllOne(mode: Mode, buf: seq<byte>, v: RespValue)
    requires Parse(mode, buf) == Parsed(v, [])
    ensures ParseAll(mode, buf) == Drained([v], [])
  {
    assert ParseAll(mode, []) == Drained([], []);
  }

  /** `parse_all` over a buffer whose first parse yields nothing and consumes nothing. */
  lemma ParseAllNone(mode: Mode, buf: seq<byte>)
    requires Parse(mode, buf) == NoValue(buf)
    ensures ParseAll(mode, buf) == Drained([], buf)
  {
  }

  /** `parse_all` over one value followed by bytes that yield nothing. */
  lemma ParseAllStops(mode: Mode, buf: seq<byte>, v: RespValue, rest: seq<byte>)
    requires Parse(mode, buf) == Parsed(v, rest) && Parse(mode, rest) == NoValue(rest)
    ensures ParseAll(mode, buf) == Drained([v], rest)
  {
  }

  /** `parse_all` over a buffer whose first parse panics. */
  lemma ParseAllPanics(mode: Mode, buf: seq<byte>)
    requires Parse(mode, buf) == Panicked
    ensures ParseAll(mode, buf) == DrainPanicked
  {
  }

  lemma NoCrIsNoCrlf(s: seq<byte>)
    requires forall i :: 0 <= i < |s| ==> s[i] != CR
    ensures NoCrlf(s)
  {
  }

  /** A one-line value, or the empty array, written as the code writes it, drains to itself. */
  lemma DrainsAsWritten(v: RespValue, buf: seq<byte>)
    requires Encodable(v)
    requires v.SimpleString? || v.Error? || v.Integer? || v.NullBulkString? || v.NullArray? || v == Array([])
    requires Serialize(SpaceSeparated, v) == buf
    ensures ParseAll(AsWritten, buf) == Drained([v], [])
  {
    RoundTripAsWritten(v);
    ParseAllOne(AsWritten, buf, v);
  }

  /** Any encodable value written back to back drains to itself with the intended parser. */
  lemma DrainsIntended(v: RespValue, buf: seq<byte>)
    requires Encodable(v) && Serialize(BackToBack, v) == buf
    ensures ParseAll(Intended, buf) == Drained([v], [])
  {
    assert buf + [] == buf;
    RoundTrip(v, []);
    ParseAllOne(Intended, buf, v);
  }

  /** Bytes without a CR hold no line, so they drain to nothing and stay in the buffer. */
  lemma NoLineDrains(mode: Mode, buf: seq<byte>)
    requires forall i :: 0 <= i < |buf| ==> buf[i] != CR
    ensures ParseAll(mode, buf) == Drained([], buf)
  {
    NoCrIsNoCrlf(buf);
    NoLineNoValue(mode, buf);
    ParseAllNone(mode, buf);
  }

  /** A `-` line whose message is ASCII without CR drains to that error, as written. */
  lemma ErrorLineDrains(msg: seq<byte>)
    requires AsciiBytes(msg) && forall i :: 0 <= i < |msg| ==> msg[i] != CR
    ensures ParseAll(AsWritten, [MINUS] + msg + CRLF) == Drained([Error(msg)], [])
  {
    AsciiIsValid(msg);
    NoCrIsNoCrlf(msg);
    DrainsAsWritten(Error(msg), [MINUS] + msg + CRLF);
  }

  /** As written, a bulk string the misplaced terminator test rejects drains to nothing and stays in the buffer. */
  lemma BulkStallDrains(bs: seq<byte>, buf: seq<byte>)
    requires ValidUtf8(bs) && |bs| <= MAX_I64 && Serialize(SpaceSeparated, BulkString(bs)) == buf
    requires !(|bs| == 0 || (2 <= |bs| <= 9 && bs[..2] == CRLF))
    ensures ParseAll(AsWritten, buf) == Drained([], buf)
  {
    assert buf + [] == buf;
    BulkAsWritten(SpaceSeparated, bs, []);
    ParseAllNone(AsWritten, buf);
  }

  /** As written, the empty bulk string passes the misplaced terminator test and drains to itself. */
  lemma EmptyBulkDrains(buf: seq<byte>)
    requires Serialize(SpaceSeparated, BulkString([])) == buf
    ensures ParseAll(AsWritten, buf) == Drained([BulkString([])], [])
  {
    assert buf + [] == buf;
    BulkAsWritten(SpaceSeparated, [], []);
    ParseAllOne(AsWritten, buf, BulkString([]));
  }

  /**
    As written, an array written back to back whose first item is a bulk
    string the terminator test rejects drains to one empty array, and the
    items' bytes stay in the buffer.
   */
  lemma StalledArrayDrains(items: seq<RespValue>, buf: seq<byte>, body: seq<byte>)
    requires Displayable(Array(items)) && |items| > 0 && items[0].BulkString?
    requires var bs := items[0].data; !(|bs| == 0 || (2 <= |bs| <= 9 && bs[..2] == CRLF))
    requires Serialize(BackToBack, Array(items)) == buf && SerializeItems(BackToBack, items) == body
    ensures ParseAll(AsWritten, buf) == Drained([Array([])], body)
  {
    BulkHeadStalls(items, []);
    StalledArray(items, []);
    assert body + [] == body;
    assert buf + [] == buf;
    ParseAllStops(AsWritten, buf, Array([]), body);
  }

  /**
    As written, a bulk string whose length token is long enough that the
    misplaced terminator slice ends past the buffer panics.
   */
  lemma PanicsPastEnd(buf: seq<byte>, len: int, header: nat)
    requires |buf| > 0 && buf[0] == DOLLAR && HeaderNumber(buf) == Some((len, header))
    requires 0 <= len && header + len + 2 <= |buf| < 2 * header - 2
    ensures Parse(AsWritten, buf) == Panicked
    ensures ParseAll(AsWritten, buf) == DrainPanicked
  {
    ParseAllPanics(AsWritten, buf);
  }

  /** Two items wanted, one line present: as written the second is skipped, the intended loop is incomplete. */
  lemma OneOfTwoItems(v: RespValue, line: seq<byte>)
    requires Parse(AsWritten, line) == Parsed(v, []) && Parse(Intended, line) == Parsed(v, [])
    ensures ParseItems(AsWritten, line, 2) == Items([v], [])
    ensures ParseItems(Intended, line, 2) == Incomplete
  {
    ItemsStall([], 1);
    ItemsStopAtNoValue([], 1);
  }

  /**
    An array header announcing two items followed by one line: as written the
    missing item is skipped; the intended parser reports no value.
   */
  lemma ShortArrayParses(v: RespValue, line: seq<byte>, buf: seq<byte>)
    requires (v.SimpleString? || v.Error?) && Encodable(v) && Serialize(SpaceSeparated, v) == line
    requires buf == [STAR] + FormatInt(2) + CRLF + line
    ensures Parse(AsWritten, buf) == Parsed(Array([v]), [])
    ensures Parse(Intended, buf) == NoValue(buf)
  {
    assert line + [] == line;
    SimpleLineRoundTrip(AsWritten, SpaceSeparated, v, []);
    SimpleLineRoundTrip(Intended, SpaceSeparated, v, []);
    OneOfTwoItems(v, line);
    var header := |FormatInt(2)| + 3;
    NumberHeader(STAR, 2, line);
    HeaderRest(STAR, FormatInt(2), line);
    ItemsArray(AsWritten, buf, 2, header);
    IncompleteItemsNoValue(buf, 2, header);
  }

  /** The `Display` tests of src/resp/types.rs for the one-line forms. */
  lemma DisplayLineTests()
    ensures Serialize(SpaceSeparated, SimpleString(Ascii("OK"))) == Ascii("+OK\r\n")
    ensures Serialize(SpaceSeparated, NullBulkString) == Ascii("$-1\r\n")
    ensures Serialize(SpaceSeparated, NullArray) == Ascii("*-1\r\n")
  {
    AsciiIsValid(Ascii("OK"));
  }

  /** `"OK"` is a payload that can be read back. */
  lemma OkBytes()
    ensures Encodable(SimpleString(Ascii("OK")))
  {
    var ok := Ascii("OK");
    AsciiIsValid(ok);
    NoCrIsNoCrlf(ok);
  }

  /** test_simple_string: `"+OK\r\n"`. */
  lemma SimpleStringTest()
    ensures ParseAll(AsWritten, Ascii("+OK\r\n")) == Drained([SimpleString(Ascii("OK"))], [])
  {
    OkBytes();
    DisplayLineTests();
    DrainsAsWritten(SimpleString(Ascii("OK")), Ascii("+OK\r\n"));
  }

  /** The message of test_error is ASCII and holds no CR. */
  lemma ErrorTestMessage()
    ensures var msg := Ascii("ERR Something went wrong");
      AsciiBytes(msg) && forall i :: 0 <= i < |msg| ==> msg[i] != CR
  {
  }

  /** test_error: `"-ERR Something went wrong\r\n"`. */
  lemma ErrorTest()
    ensures var msg := Ascii("ERR Something went wrong");
      ParseAll(AsWritten, [MINUS] + msg + CRLF) == Drained([Error(msg)], [])
  {
    ErrorTestMessage();
    ErrorLineDrains(Ascii("ERR Something went wrong"));
  }

  lemma IntegerTestBytes()
    ensures forall i :: 0 <= i < |Ascii(":12345")| ==> Ascii(":12345")[i] != CR
  {
  }

  /**
    test_integer: without a CR LF the `:` line is incomplete, so no value is
    produced and the buffer is kept (the test expects `Integer(12345)`).
   */
  lemma IntegerWithoutTerminatorTest()
    ensures ParseAll(AsWritten, Ascii(":12345")) == Drained([], Ascii(":12345"))
  {
    IntegerTestBytes();
    NoLineDrains(AsWritten, Ascii(":12345"));
  }

  /** A bulk string is written as its header line, the bytes and CR LF. */
  lemma BulkWire(layout: Layout, bs: seq<byte>, header: seq<byte>)
    requires ValidUtf8(bs) && |bs| <= MAX_I64 && header == [DOLLAR] + FormatInt(|bs|) + CRLF
    ensures Serialize(layout, BulkString(bs)) == header + bs + CRLF
  {
  }

  /** `"foobar"` and its serialization, `"$6\r\nfoobar\r\n"`, in either layout. */
  lemma FoobarBytes(layout: Layout)
    ensures var bs := Ascii("foobar");
      && ValidUtf8(bs) && |bs| == 6 && bs[..2] != CRLF
      && Serialize(layout, BulkString(bs)) == Ascii("$6\r\n") + Ascii("foobar") + CRLF
  {
    FoobarText();
    SixHeader();
    BulkWire(layout, Ascii("foobar"), Ascii("$6\r\n"));
  }

  /** `"foobar"` is six bytes of UTF-8 that do not start with CR LF. */
  lemma FoobarText()
    ensures var bs := Ascii("foobar"); ValidUtf8(bs) && |bs| == 6 && bs[..2] != CRLF
  {
    var bs := Ascii("foobar");
    AsciiIsValid(bs);
    assert bs[0] != CR;
  }

  /** `"$6\r\n"` is the header of a six-byte bulk string. */
  lemma SixHeader()
    ensures Ascii("$6\r\n") == [DOLLAR] + FormatInt(6) + CRLF
  {
    assert FormatInt(6) == [ZERO + 6];
  }

  /** test_bulk_string as written: `"$6\r\nfoobar\r\n"` yields nothing (the test expects `BulkString("foobar")`). */
  lemma BulkStringTestAsWritten()
    ensures ParseAll(AsWritten, Ascii("$6\r\n") + Ascii("foobar") + CRLF) == Drained([], Ascii("$6\r\n") + Ascii("foobar") + CRLF)
  {
    FoobarBytes(SpaceSeparated);
    BulkStallDrains(Ascii("foobar"), Ascii("$6\r\n") + Ascii("foobar") + CRLF);
  }

  /** test_bulk_string with the terminator checked after the payload: the expected value. */
  lemma BulkStringTestIntended()
    ensures ParseAll(Intended, Ascii("$6\r\n") + Ascii("foobar") + CRLF) == Drained([BulkString(Ascii("foobar"))], [])
  {
    FoobarBytes(BackToBack);
    DrainsIntended(BulkString(Ascii("foobar")), Ascii("$6\r\n") + Ascii("foobar") + CRLF);
  }

  lemma EmptyBulkBytes()
    ensures Serialize(SpaceSeparated, BulkString([])) == Ascii("$0\r\n\r\n")
  {
    assert FormatInt(0) == [ZERO];
  }

  /** test_bulk_string_empty: `"$0\r\n\r\n"` is the empty bulk string, even as written. */
  lemma EmptyBulkStringTest()
    ensures ParseAll(AsWritten, Ascii("$0\r\n\r\n")) == Drained([BulkString([])], [])
  {
    EmptyBulkBytes();
    EmptyBulkDrains(Ascii("$0\r\n\r\n"));
  }

  /** test_null_bulk_string: `"$-1\r\n"`. */
  lemma NullBulkStringTest()
    ensures ParseAll(AsWritten, Ascii("$-1\r\n")) == Drained([NullBulkString], [])
  {
    DisplayLineTests();
    DrainsAsWritten(NullBulkString, Ascii("$-1\r\n"));
  }

  lemma EmptyArrayBytes()
    ensures Serialize(SpaceSeparated, Array([])) == Ascii("*0\r\n")
  {
    assert FormatInt(0) == [ZERO];
    assert SerializeItems(SpaceSeparated, []) == [];
  }

  /** test_array_empty: `"*0\r\n"`. */
  lemma EmptyArrayTest()
    ensures ParseAll(AsWritten, Ascii("*0\r\n")) == Drained([Array([])], [])
  {
    EmptyArrayBytes();
    DrainsAsWritten(Array([]), Ascii("*0\r\n"));
  }

  /** test_null_array: `"*-1\r\n"`. */
  lemma NullArrayTest()
    ensures ParseAll(AsWritten, Ascii("*-1\r\n")) == Drained([NullArray], [])
  {
    DisplayLineTests();
    DrainsAsWritten(NullArray, Ascii("*-1\r\n"));
  }

  /** The serialization of a three-byte bulk string, `"$3\r\n" + bs + "\r\n"`. */
  lemma Bulk3(layout: Layout, bs: seq<byte>)
    requires |bs| == 3 && AsciiBytes(bs)
    ensures ValidUtf8(bs) && Serialize(layout, BulkString(bs)) == Ascii("$3\r\n") + bs + CRLF
  {
    AsciiIsValid(bs);
    assert Ascii("$3\r\n") == [DOLLAR] + FormatInt(3) + CRLF by {
      assert FormatInt(3) == [ZERO + 3];
    }
    BulkWire(layout, bs, Ascii("$3\r\n"));
  }

  /** The request of test_array, `"*2\r\n$3\r\nfoo\r\n$3\r\nbar\r\n"`, is the array of "foo" and "bar" written back to back. */
  lemma FooBarBytes()
    ensures var items := [BulkString(Ascii("foo")), BulkString(Ascii("bar"))];
      && Encodable(Array(items))
      && SerializeItems(BackToBack, items) == (Ascii("$3\r\n") + Ascii("foo") + CRLF) + (Ascii("$3\r\n") + Ascii("bar") + CRLF)
      && Serialize(BackToBack, Array(items)) == Ascii("*2\r\n") + ((Ascii("$3\r\n") + Ascii("foo") + CRLF) + (Ascii("$3\r\n") + Ascii("bar") + CRLF))
  {
    var foo := Ascii("foo");
    var bar := Ascii("bar");
    Bulk3(BackToBack, foo);
    Bulk3(BackToBack, bar);
    TwoHeader();
    PairWire(BackToBack, BulkString(foo), BulkString(bar), Ascii("*2\r\n"));
  }

  /** `"*2\r\n"` is the header of a two-item array. */
  lemma TwoHeader()
    ensures Ascii("*2\r\n") == [STAR] + FormatInt(2) + CRLF
  {
    assert FormatInt(2) == [ZERO + 2];
  }

  /** A two-item array is its header and the two items, each after the layout's prefix. */
  lemma PairWire(layout: Layout, a: RespValue, b: RespValue, header: seq<byte>)
    requires Displayable(a) && Displayable(b) && header == [STAR] + FormatInt(2) + CRLF
    ensures SerializeItems(layout, [a, b]) == (ItemPrefix(layout) + Serialize(layout, a)) + (ItemPrefix(layout) + Serialize(layout, b))
    ensures Serialize(layout, Array([a, b])) == header + SerializeItems(layout, [a, b])
  {
    assert [a, b][1..] == [b];
    assert [b][1..] == [];
    assert SerializeItems(layout, [b]) == ItemPrefix(layout) + Serialize(layout, b) + [];
    assert ItemPrefix(layout) + Serialize(layout, b) + [] == ItemPrefix(layout) + Serialize(layout, b);
  }

  /**
    test_array as written: the header says two items, but neither bulk string
    parses, so the array comes back empty after its header and the items'
    bytes stay in the buffer (the test expects `["foo", "bar"]`).
   */
  lemma ArrayTestAsWritten()
    ensures var items := (Ascii("$3\r\n") + Ascii("foo") + CRLF) + (Ascii("$3\r\n") + Ascii("bar") + CRLF);
      ParseAll(AsWritten, Ascii("*2\r\n") + items) == Drained([Array([])], items)
  {
    FooBarBytes();
    assert Ascii("foo")[..2] != CRLF;
    StalledArrayDrains([BulkString(Ascii("foo")), BulkString(Ascii("bar"))],
      Ascii("*2\r\n") + ((Ascii("$3\r\n") + Ascii("foo") + CRLF) + (Ascii("$3\r\n") + Ascii("bar") + CRLF)),
      (Ascii("$3\r\n") + Ascii("foo") + CRLF) + (Ascii("$3\r\n") + Ascii("bar") + CRLF));
  }

  /** test_array with the intended parser: the two bulk strings, in order. */
  lemma ArrayTestIntended()
    ensures var items := (Ascii("$3\r\n") + Ascii("foo") + CRLF) + (Ascii("$3\r\n") + Ascii("bar") + CRLF);
      ParseAll(Intended, Ascii("*2\r\n") + items) == Drained([Array([BulkString(Ascii("foo")), BulkString(Ascii("bar"))])], [])
  {
    FooBarBytes();
    DrainsIntended(Array([BulkString(Ascii("foo")), BulkString(Ascii("bar"))]),
      Ascii("*2\r\n") + ((Ascii("$3\r\n") + Ascii("foo") + CRLF) + (Ascii("$3\r\n") + Ascii("bar") + CRLF)));
  }

  /** `"+007"` is text that reads as 7. */
  lemma PlusZerosValue()
    ensures ParseI64(Ascii("+007")) == Some(7)
  {
    var t := Ascii("+007");
    assert t == [PLUS_SIGN, ZERO, ZERO, ZERO + 7];
    var ds: seq<byte> := [ZERO, ZERO, ZERO + 7];
    assert t[1..] == ds;
    var one: seq<byte> := [ZERO];
    var two: seq<byte> := [ZERO, ZERO];
    assert one[..0] == [] && two[..1] == one && ds[..2] == two;
    assert DigitsValue(one) == 0;
    assert DigitsValue(two) == 0;
    assert DigitsValue(ds) == 7;
  }

  /** `":+007\r\n"`: a sign and leading zeros are accepted, and the line reads as 7. */
  lemma PlusZerosIntegerLine()
    ensures Parse(AsWritten, [COLON] + Ascii("+007") + CRLF) == Parsed(Integer(7), [])
  {
    PlusZerosValue();
    IntegerLine(AsWritten, Ascii("+007"), 7, []);
    assert [COLON] + Ascii("+007") + CRLF + [] == [COLON] + Ascii("+007") + CRLF;
  }

  /** `"000"` is text that reads as 0. */
  lemma ZerosValue()
    ensures NoCrlf(Ascii("000")) && ValidUtf8(Ascii("000")) && ParseI64(Ascii("000")) == Some(0)
  {
    var zeros := Ascii("000");
    NoCrIsNoCrlf(zeros);
    AsciiIsValid(zeros);
    var z: seq<byte> := [ZERO, ZERO, ZERO];
    assert zeros == z;
    assert z[..2] == [ZERO, ZERO] && [ZERO, ZERO][..1] == [ZERO] && [ZERO][..0] == [];
    assert DigitsValue(zeros) == 0;
  }

  /** `"$000\r\n\r\n"` declares length 0 in a six-byte header. */
  lemma ZerosHeader()
    ensures |([DOLLAR] + Ascii("000") + CRLF + CRLF)| == 8 && ([DOLLAR] + Ascii("000") + CRLF + CRLF)[0] == DOLLAR
    ensures HeaderNumber([DOLLAR] + Ascii("000") + CRLF + CRLF) == Some((0, 6))
  {
    ZerosValue();
    TextHeader(DOLLAR, Ascii("000"), 0, CRLF);
  }

  /**
    `"$000\r\n\r\n"`: the length token has three characters, so the code
    as written slices `buf[6..10]` of an eight-byte buffer and panics.
   */
  lemma LongLengthTokenPanics()
    ensures Parse(AsWritten, [DOLLAR] + Ascii("000") + CRLF + CRLF) == Panicked
    ensures ParseAll(AsWritten, [DOLLAR] + Ascii("000") + CRLF + CRLF) == DrainPanicked
  {
    ZerosHeader();
    PanicsPastEnd([DOLLAR] + Ascii("000") + CRLF + CRLF, 0, 6);
  }

  lemma ShortArrayBytes()
    ensures Encodable(SimpleString(Ascii("a")))
    ensures Serialize(SpaceSeparated, SimpleString(Ascii("a"))) == Ascii("+a\r\n")
    ensures (Ascii("*2\r\n") + Ascii("+a\r\n")) == [STAR] + FormatInt(2) + CRLF + Ascii("+a\r\n")
  {
    var a := Ascii("a");
    AsciiIsValid(a);
    NoCrIsNoCrlf(a);
    assert FormatInt(2) == [ZERO + 2];
  }

  /**
    `"*2\r\n+a\r\n"` announces two items but holds one. As written the
    missing item is skipped: a one-item array is returned and the buffer is
    emptied. The intended parser reports no value and keeps the buffer.
   */
  lemma ShortArray()
    ensures Parse(AsWritten, Ascii("*2\r\n") + Ascii("+a\r\n")) == Parsed(Array([SimpleString(Ascii("a"))]), [])
    ensures Parse(Intended, Ascii("*2\r\n") + Ascii("+a\r\n")) == NoValue(Ascii("*2\r\n") + Ascii("+a\r\n"))
  {
    ShortArrayBytes();
    ShortArrayParses(SimpleString(Ascii("a")), Ascii("+a\r\n"), Ascii("*2\r\n") + Ascii("+a\r\n"));
  }

  lemma DisplayIntegerTest()
    ensures Serialize(SpaceSeparated, Integer(42)) == Ascii(":42\r\n")
  {
    assert FormatInt(42) == [ZERO + 4, ZERO + 2] by {
      assert NatDigits(42) == NatDigits(4) + [ZERO + 2];
    }
  }

  lemma DisplayBulkTest()
    ensures Serialize(SpaceSeparated, BulkString(Ascii("foobar"))) == Ascii("$6\r\n") + Ascii("foobar") + CRLF
  {
    FoobarBytes(SpaceSeparated);
  }

  /** The array test: every item is preceded by a space. */
  lemma DisplayArrayTest()
    ensures Serialize(SpaceSeparated, Array([SimpleString(Ascii("OK")), Integer(42)]))
         == Ascii("*2\r\n") + Ascii(" +OK\r\n") + Ascii(" :42\r\n")
  {
    DisplayLineTests();
    DisplayIntegerTest();
    OkBytes();
    TwoHeader();
    PairWire(SpaceSeparated, SimpleString(Ascii("OK")), Integer(42), Ascii("*2\r\n"));
    assert [SPACE] + Ascii("+OK\r\n") == Ascii(" +OK\r\n");
    assert [SPACE] + Ascii(":42\r\n") == Ascii(" :42\r\n");
  }
}
