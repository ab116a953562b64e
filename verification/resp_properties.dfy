/**
  How the parser of src/resp.rs and the serializer of src/resp/types.rs fit
  together: which serializations read back, which do not, and how the parser
  treats partial input.
 */
module RespProperties {
  import opened Wrappers
  import opened Bytes
  import opened Utf8
  import opened Decimal
  import opened RespTypes
  import opened Resp

  /** A line `sigil payload CR LF` whose payload holds no CR LF ends at the serializer's CR LF. */
  lemma LineHeader(sigil: byte, payload: seq<byte>, tail: seq<byte>)
    requires IsSigil(sigil) && NoCrlf(payload)
    ensures HeaderLine([sigil] + payload + CRLF + tail) == Some((payload, |payload| + 1))
  {
    var buf := [sigil] + payload + CRLF + tail;
    var e := |payload| + 1;
    forall j | 0 <= j < e
      ensures !CrlfAt(buf, j)
    {
      if 1 <= j < |payload| {
        assert buf[j] == payload[j - 1] && buf[j + 1] == payload[j];
        assert !CrlfAt(payload, j - 1);
      }
    }
    assert CrlfAt(buf, e);
    FindCrlfIs(buf, e);
    assert buf[1..e] == payload;
  }

  /** Decimal text never contains a CR, hence no CR LF, and is ASCII. */
  lemma DecimalLine(i: int)
    ensures NoCrlf(FormatInt(i)) && ValidUtf8(FormatInt(i))
  {
    AsciiIsValid(FormatInt(i));
  }

  /** The header of a length-prefixed value, `sigil n CR LF`, declares `n` and spans `|FormatInt(n)| + 3` bytes. */
  lemma NumberHeader(sigil: byte, n: i64, tail: seq<byte>)
    requires IsSigil(sigil)
    ensures HeaderNumber([sigil] + FormatInt(n) + CRLF + tail) == Some((n as int, |FormatInt(n)| + 3))
  {
    DecimalLine(n);
    LineHeader(sigil, FormatInt(n), tail);
    ParseFormat(n);
  }

  /** A `+` or `-` line whose payload is UTF-8 without CR LF reads back, consuming exactly the line. */
  lemma SimpleLineRoundTrip(mode: Mode, layout: Layout, v: RespValue, tail: seq<byte>)
    requires (v.SimpleString? || v.Error?) && Encodable(v)
    ensures Parse(mode, Serialize(layout, v) + tail) == Parsed(v, tail)
  {
    var payload := if v.SimpleString? then v.text else v.message;
    var buf := Serialize(layout, v) + tail;
    assert buf == [SigilOf(v)] + payload + CRLF + tail;
    LineHeader(SigilOf(v), payload, tail);
    assert buf[|payload| + 3..] == tail;
  }

  /**
    Any header text that `str::parse` accepts gives its number, not only the
    text the serializer writes: `+3`, `003` and `-0` are read as 3, 3 and 0.
   */
  lemma TextHeader(sigil: byte, t: seq<byte>, n: i64, tail: seq<byte>)
    requires IsSigil(sigil) && ParseI64(t) == Some(n)
    ensures HeaderNumber([sigil] + t + CRLF + tail) == Some((n as int, |t| + 3))
  {
    NumberTextHasNoCr(t);
    AsciiIsValid(t);
    LineHeader(sigil, t, tail);
  }

  /**
    A `:` line whose text `str::parse::<i64>` accepts yields that integer and
    consumes exactly the line, whatever sign or leading zeros the text has.
   */
  lemma IntegerLine(mode: Mode, payload: seq<byte>, n: i64, tail: seq<byte>)
    requires ParseI64(payload) == Some(n)
    ensures Parse(mode, [COLON] + payload + CRLF + tail) == Parsed(Integer(n), tail)
  {
    var buf := [COLON] + payload + CRLF + tail;
    NumberTextHasNoCr(payload);
    AsciiIsValid(payload);
    LineHeader(COLON, payload, tail);
    assert buf[|payload| + 3..] == tail;
  }

  /** Text that parses as a number is a sign and digits, so it holds no CR LF. */
  lemma NumberTextHasNoCr(t: seq<byte>)
    requires ParseI64(t).Some?
    ensures NoCrlf(t)
  {
    var signed := t[0] == PLUS_SIGN || t[0] == MINUS_SIGN;
    var digits := if signed then t[1..] else t;
    forall j | 0 <= j < |t|
      ensures t[j] != CR
    {
      if !(signed && j == 0) {
        var k := if signed then j - 1 else j;
        assert t[j] == digits[k] && IsDigit(digits[k]);
      }
    }
  }

  /** Every i64 reads back from its `:` line. */
  lemma IntegerRoundTrip(mode: Mode, layout: Layout, n: i64, tail: seq<byte>)
    ensures Parse(mode, Serialize(layout, Integer(n)) + tail) == Parsed(Integer(n), tail)
  {
    var d := FormatInt(n);
    var buf := Serialize(layout, Integer(n)) + tail;
    assert buf == [COLON] + d + CRLF + tail;
    DecimalLine(n);
    LineHeader(COLON, d, tail);
    ParseFormat(n);
    assert buf[|d| + 3..] == tail;
  }

  /**
    A `:` line that is UTF-8 but not an i64 yields no value and is still
    removed from the buffer, because the line is drained before the number is
    parsed.
   */
  lemma UnparsableIntegerConsumed(mode: Mode, payload: seq<byte>, tail: seq<byte>)
    requires NoCrlf(payload) && ValidUtf8(payload) && ParseI64(payload).None?
    ensures Parse(mode, [COLON] + payload + CRLF + tail) == NoValue(tail)
  {
    var buf := [COLON] + payload + CRLF + tail;
    LineHeader(COLON, payload, tail);
    assert buf[|payload| + 3..] == tail;
  }

  /** A negative bulk length is the null bulk string; only the header is consumed. */
  lemma NegativeLengthIsNullBulk(mode: Mode, n: i64, tail: seq<byte>)
    requires n < 0
    ensures Parse(mode, [DOLLAR] + FormatInt(n) + CRLF + tail) == Parsed(NullBulkString, tail)
  {
    NegativeHeader(mode, DOLLAR, n, tail);
  }

  /** A negative array count is the null array; only the header is consumed. */
  lemma NegativeCountIsNullArray(mode: Mode, n: i64, tail: seq<byte>)
    requires n < 0
    ensures Parse(mode, [STAR] + FormatInt(n) + CRLF + tail) == Parsed(NullArray, tail)
  {
    NegativeHeader(mode, STAR, n, tail);
  }

  lemma NegativeHeader(mode: Mode, sigil: byte, n: i64, tail: seq<byte>)
    requires (sigil == DOLLAR || sigil == STAR) && n < 0
    ensures Parse(mode, [sigil] + FormatInt(n) + CRLF + tail) == Parsed(if sigil == DOLLAR then NullBulkString else NullArray, tail)
  {
    var d := FormatInt(n);
    var buf := [sigil] + d + CRLF + tail;
    NumberHeader(sigil, n, tail);
    HeaderRest(sigil, d, tail);
    NegativeHeaderIsNull(mode, buf, n as int, |d| + 3);
  }

  /** A negative declared length or count gives the null form and consumes only the header. */
  lemma NegativeHeaderIsNull(mode: Mode, buf: seq<byte>, n: int, header: nat)
    requires |buf| > 0 && (buf[0] == DOLLAR || buf[0] == STAR)
    requires HeaderNumber(buf) == Some((n, header)) && n < 0
    ensures Parse(mode, buf) == Parsed(if buf[0] == DOLLAR then NullBulkString else NullArray, buf[header..])
  {
  }

  lemma HeaderRest(sigil: byte, d: seq<byte>, tail: seq<byte>)
    ensures ([sigil] + d + CRLF + tail)[|d| + 3..] == tail
  {
  }

  lemma NullFormIsMinusOne(sigil: byte)
    ensures NullForm(sigil) == [sigil] + FormatInt(-1) + CRLF
  {
    assert FormatInt(-1) == [MINUS_SIGN] + NatDigits(1);
  }

  /** `"$-1\r\n"` and `"*-1\r\n"` read back as the null forms. */
  lemma NullRoundTrip(mode: Mode, layout: Layout, v: RespValue, tail: seq<byte>)
    requires v.NullBulkString? || v.NullArray?
    ensures Parse(mode, Serialize(layout, v) + tail) == Parsed(v, tail)
  {
    NullFormIsMinusOne(SigilOf(v));
    if v.NullBulkString? {
      NegativeLengthIsNullBulk(mode, -1, tail);
    } else {
      NegativeCountIsNullArray(mode, -1, tail);
    }
  }

  /** `"*0\r\n"` reads back as the empty array. */
  lemma EmptyArrayRoundTrip(mode: Mode, layout: Layout, tail: seq<byte>)
    ensures Parse(mode, Serialize(layout, Array([])) + tail) == Parsed(Array([]), tail)
  {
    var buf := Serialize(layout, Array([])) + tail;
    assert SerializeItems(layout, []) == [];
    assert buf == [STAR] + FormatInt(0) + CRLF + tail;
    NumberHeader(STAR, 0, tail);
    assert buf[|FormatInt(0)| + 3..] == tail;
    assert ParseItems(mode, tail, 0) == Items([], tail);
  }

  /**
    The values whose serialization the code as written reads back: simple
    strings and errors without CR LF, integers, the null forms and the empty
    array. The parse consumes exactly the serialization.
   */
  lemma RoundTripAsWritten(v: RespValue)
    requires Encodable(v)
    requires v.SimpleString? || v.Error? || v.Integer? || v.NullBulkString? || v.NullArray? || v == Array([])
    ensures Parse(AsWritten, Serialize(SpaceSeparated, v)) == Parsed(v, [])
  {
    var s := Serialize(SpaceSeparated, v);
    assert s + [] == s;
    if v.SimpleString? || v.Error? {
      SimpleLineRoundTrip(AsWritten, SpaceSeparated, v, []);
    } else if v.Integer? {
      IntegerRoundTrip(AsWritten, SpaceSeparated, v.n, []);
    } else if v.NullBulkString? || v.NullArray? {
      NullRoundTrip(AsWritten, SpaceSeparated, v, []);
    } else {
      EmptyArrayRoundTrip(AsWritten, SpaceSeparated, []);
    }
  }

  lemma BulkShape(layout: Layout, bs: seq<byte>, tail: seq<byte>)
    requires ValidUtf8(bs) && |bs| <= MAX_I64
    ensures Serialize(layout, BulkString(bs)) + tail == ([DOLLAR] + FormatInt(|bs|) + CRLF) + (bs + CRLF + tail)
  {
  }

  /** The payload, terminator and tail of `pre + payload + CR LF + tail`, by position. */
  lemma FrameSlices(pre: seq<byte>, bs: seq<byte>, tail: seq<byte>)
    ensures var buf := pre + (bs + CRLF + tail);
      var h := |pre|;
      && |buf| == h + |bs| + 2 + |tail|
      && buf[h..] == bs + CRLF + tail
      && buf[h..h + |bs|] == bs
      && buf[h + |bs|..h + |bs| + 2] == CRLF
      && buf[h + |bs| + 2..] == tail
  {
    var post := bs + CRLF + tail;
    var buf := pre + post;
    var h := |pre|;
    assert buf[h..] == post;
    assert buf[h..h + |bs|] == post[..|bs|] == bs;
    assert buf[h + |bs|..h + |bs| + 2] == post[|bs|..|bs| + 2] == CRLF;
    assert buf[h + |bs| + 2..] == post[|bs| + 2..] == tail;
  }

  /** A buffer laid out as a bulk string: a header announcing |bs|, the payload, CR LF, the tail. */
  predicate BulkFramed(buf: seq<byte>, bs: seq<byte>, tail: seq<byte>, header: nat) {
    && |buf| > 0 && buf[0] == DOLLAR
    && HeaderNumber(buf) == Some((|bs|, header))
    && |buf| == header + |bs| + 2 + |tail|
    && buf[header..header + |bs|] == bs
    && buf[header + |bs|..header + |bs| + 2] == CRLF
    && buf[header + |bs| + 2..] == tail
  }

  /** A serialized bulk string, followed by anything, is framed as one. */
  lemma SerializedBulkFramed(layout: Layout, bs: seq<byte>, tail: seq<byte>)
    requires ValidUtf8(bs) && |bs| <= MAX_I64
    ensures BulkFramed(Serialize(layout, BulkString(bs)) + tail, bs, tail, |FormatInt(|bs|)| + 3)
  {
    var pre := [DOLLAR] + FormatInt(|bs|) + CRLF;
    BulkShape(layout, bs, tail);
    NumberHeader(DOLLAR, |bs|, bs + CRLF + tail);
    HeaderFramed(pre, bs, tail);
  }

  /** A header that announces |bs| and spans `pre`, then `bs`, CR LF and the tail: a framed bulk string. */
  lemma HeaderFramed(pre: seq<byte>, bs: seq<byte>, tail: seq<byte>)
    requires |pre| > 0 && pre[0] == DOLLAR
    requires HeaderNumber(pre + (bs + CRLF + tail)) == Some((|bs|, |pre|))
    ensures BulkFramed(pre + (bs + CRLF + tail), bs, tail, |pre|)
  {
    FrameSlices(pre, bs, tail);
  }

  /** The intended decoder reads a framed bulk string back. */
  lemma FramedIntended(buf: seq<byte>, bs: seq<byte>, tail: seq<byte>, header: nat)
    requires BulkFramed(buf, bs, tail, header)
    ensures Parse(Intended, buf) == Parsed(BulkString(bs), tail)
  {
    DispatchBulk(Intended, buf);
    FramedBulkIntended(buf, bs, tail, header);
  }

  /** The bulk string reader, intended: a framed bulk string is read back, leaving the tail. */
  lemma FramedBulkIntended(buf: seq<byte>, bs: seq<byte>, tail: seq<byte>, header: nat)
    requires BulkFramed(buf, bs, tail, header)
    ensures ParseBulkString(Intended, buf) == Parsed(BulkString(bs), tail)
  {
    var len := |bs|;
    IntendedWithLength(buf, len, header);
    assert buf[header + len..header + len + 2] == CRLF;
  }

  /** The decoder as written tests the `header - 2` bytes after the header instead. */
  lemma FramedAsWritten(buf: seq<byte>, bs: seq<byte>, tail: seq<byte>, header: nat)
    requires BulkFramed(buf, bs, tail, header) && 2 * header - 2 <= |buf|
    ensures Parse(AsWritten, buf)
         == if buf[header..2 * header - 2] == CRLF then Parsed(BulkString(bs), tail) else NoValue(buf)
  {
    DispatchBulk(AsWritten, buf);
    FramedBulkAsWritten(buf, bs, tail, header);
  }

  /** The bulk string reader as written, on a framed bulk string: it probes the bytes after the header. */
  lemma FramedBulkAsWritten(buf: seq<byte>, bs: seq<byte>, tail: seq<byte>, header: nat)
    requires BulkFramed(buf, bs, tail, header) && 2 * header - 2 <= |buf|
    ensures ParseBulkString(AsWritten, buf)
         == if buf[header..2 * header - 2] == CRLF then Parsed(BulkString(bs), tail) else NoValue(buf)
  {
    AsWrittenWithLength(buf, |bs|, header);
  }

  /** A bulk string header announcing `len` bytes, all present with two more: the intended decoder tests the two after the payload. */
  lemma IntendedWithLength(buf: seq<byte>, len: nat, header: nat)
    requires |buf| > 0 && buf[0] == DOLLAR
    requires HeaderNumber(buf) == Some((len, header)) && header + len + 2 <= |buf|
    ensures ParseBulkString(Intended, buf)
         == if buf[header + len..header + len + 2] == CRLF
            then Parsed(BulkString(buf[header..header + len]), buf[header + len + 2..])
            else NoValue(buf)
  {
  }

  /** The same header and payload: the code as written tests the `header - 2` bytes after the header. */
  lemma AsWrittenWithLength(buf: seq<byte>, len: nat, header: nat)
    requires |buf| > 0 && buf[0] == DOLLAR
    requires HeaderNumber(buf) == Some((len, header)) && header + len + 2 <= |buf| && 2 * header - 2 <= |buf|
    ensures ParseBulkString(AsWritten, buf)
         == if buf[header..2 * header - 2] == CRLF
            then Parsed(BulkString(buf[header..header + len]), buf[header + len + 2..])
            else NoValue(buf)
  {
  }

  /** A buffer starting with `$` is read as a bulk string. */
  lemma DispatchBulk(mode: Mode, buf: seq<byte>)
    requires |buf| > 0 && buf[0] == DOLLAR
    ensures Parse(mode, buf) == ParseBulkString(mode, buf)
  {
  }

  /**
    With the terminator checked after the payload, every UTF-8 bulk string
    reads back from its serialization, consuming exactly that.
   */
  lemma BulkRoundTripIntended(layout: Layout, bs: seq<byte>, tail: seq<byte>)
    requires ValidUtf8(bs) && |bs| <= MAX_I64
    ensures Parse(Intended, Serialize(layout, BulkString(bs)) + tail) == Parsed(BulkString(bs), tail)
  {
    SerializedBulkFramed(layout, bs, tail);
    FramedIntended(Serialize(layout, BulkString(bs)) + tail, bs, tail, |FormatInt(|bs|)| + 3);
  }

  /**
    What the code as written makes of a serialized bulk string: it compares the
    two bytes right after the header with CR LF (the header's CR LF sits at
    index 2 only for a one-digit length), so the value reads back exactly when
    it is empty or its 2 to 9 bytes start with CR LF; otherwise the parse
    yields no value and leaves the buffer as it was.
   */
  lemma BulkAsWritten(layout: Layout, bs: seq<byte>, tail: seq<byte>)
    requires ValidUtf8(bs) && |bs| <= MAX_I64
    ensures var buf := Serialize(layout, BulkString(bs)) + tail;
      Parse(AsWritten, buf)
      == if |bs| == 0 || (2 <= |bs| <= 9 && bs[..2] == CRLF) then Parsed(BulkString(bs), tail) else NoValue(buf)
  {
    var buf := Serialize(layout, BulkString(bs)) + tail;
    var header := |FormatInt(|bs|)| + 3;
    SerializedBulkFramed(layout, bs, tail);
    assert header - 2 == 2 <==> |bs| < 10 by {
      assert |FormatInt(|bs|)| == 1 <==> |bs| < 10;
    }
    assert |FormatInt(|bs|)| <= |bs| + 1;
    FramedProbe(buf, bs, tail, header);
  }

  /** The code as written on a framed bulk string, with the probe's outcome spelled out. */
  lemma FramedProbe(buf: seq<byte>, bs: seq<byte>, tail: seq<byte>, header: nat)
    requires BulkFramed(buf, bs, tail, header) && 2 * header - 2 <= |buf|
    requires header >= 3 && (header - 2 == 2 <==> |bs| < 10)
    ensures Parse(AsWritten, buf)
         == if |bs| == 0 || (2 <= |bs| <= 9 && bs[..2] == CRLF) then Parsed(BulkString(bs), tail) else NoValue(buf)
  {
    FramedAsWritten(buf, bs, tail, header);
    ProbeCases(buf, bs, header);
  }

  /**
    The bytes the code as written probes, `header - 2` of them after the
    header, are CR LF exactly when the payload is empty, or has 2 to 9 bytes
    and starts with CR LF.
   */
  lemma ProbeCases(buf: seq<byte>, bs: seq<byte>, header: nat)
    requires header >= 3 && (header - 2 == 2 <==> |bs| < 10) && 2 * header - 2 <= |buf|
    requires header + |bs| + 2 <= |buf|
    requires buf[header..header + |bs|] == bs && buf[header + |bs|..header + |bs| + 2] == CRLF
    ensures buf[header..2 * header - 2] == CRLF <==> |bs| == 0 || (2 <= |bs| <= 9 && bs[..2] == CRLF)
  {
    var len := |bs|;
    var probe := buf[header..2 * header - 2];
    if len == 0 {
      assert probe == buf[header + len..header + len + 2];
    } else if len == 1 {
      assert probe[1] == buf[header + len] == CR;
    } else if len < 10 {
      assert probe == bs[..2];
    } else {
      assert |probe| != |CRLF|;
    }
  }

  /**
    With items written back to back and the intended parser, every encodable
    value reads back from its serialization followed by anything, and the
    parse consumes exactly the serialization.
   */
  lemma {:induction false} RoundTrip(v: RespValue, tail: seq<byte>)
    requires Encodable(v)
    ensures Parse(Intended, Serialize(BackToBack, v) + tail) == Parsed(v, tail)
    decreases v, 1
  {
    match v
    case SimpleString(_) => SimpleLineRoundTrip(Intended, BackToBack, v, tail);
    case Error(_) => SimpleLineRoundTrip(Intended, BackToBack, v, tail);
    case Integer(n) => IntegerRoundTrip(Intended, BackToBack, n, tail);
    case BulkString(bs) => BulkRoundTripIntended(BackToBack, bs, tail);
    case NullBulkString => NullRoundTrip(Intended, BackToBack, v, tail);
    case NullArray => NullRoundTrip(Intended, BackToBack, v, tail);
    case Array(items) =>
      var d := FormatInt(|items|);
      var body := SerializeItems(BackToBack, items);
      var buf := Serialize(BackToBack, v) + tail;
      assert buf == [STAR] + d + CRLF + (body + tail);
      NumberHeader(STAR, |items|, body + tail);
      assert buf[|d| + 3..] == body + tail;
      assert forall i :: 0 <= i < |items| ==> Encodable(items[i]);
      RoundTripItems(items, tail);
  }

  /** The element loop reads back `|items|` back-to-back serializations. */
  lemma {:induction false} RoundTripItems(items: seq<RespValue>, tail: seq<byte>)
    requires forall i :: 0 <= i < |items| ==> Displayable(items[i]) && LinesClean(items[i])
    ensures ParseItems(Intended, SerializeItems(BackToBack, items) + tail, |items|) == Items(items, tail)
    decreases items, 0
  {
    if |items| > 0 {
      var first := Serialize(BackToBack, items[0]);
      var others := SerializeItems(BackToBack, items[1..]);
      assert SerializeItems(BackToBack, items) + tail == first + (others + tail);
      RoundTrip(items[0], others + tail);
      RoundTripItems(items[1..], tail);
      assert [items[0]] + items[1..] == items;
    }
  }

  /**
    As written, once an element yields no value the loop stops advancing:
    every remaining iteration re-parses the same bytes, and the array ends with
    the elements read so far.
   */
  lemma {:induction false} ItemsStall(rest: seq<byte>, count: nat)
    requires Parse(AsWritten, rest).NoValue?
    ensures ParseItems(AsWritten, rest, count) == Items([], rest)
    decreases count
  {
    if count > 0 {
      ItemsStall(rest, count - 1);
    }
  }

  /**
    The code's array serialization does not read back: the byte after the
    header is a space, which is no sigil, so the parser as written returns an
    empty array and leaves every item's bytes in the buffer.
   */
  lemma SpacedArrayAsWritten(items: seq<RespValue>, tail: seq<byte>)
    requires |items| > 0 && Displayable(Array(items))
    ensures var body := SerializeItems(SpaceSeparated, items);
      Parse(AsWritten, Serialize(SpaceSeparated, Array(items)) + tail) == Parsed(Array([]), body + tail)
  {
    var d := FormatInt(|items|);
    var body := SerializeItems(SpaceSeparated, items);
    var buf := Serialize(SpaceSeparated, Array(items)) + tail;
    assert buf == [STAR] + d + CRLF + (body + tail);
    NumberHeader(STAR, |items|, body + tail);
    assert buf[|d| + 3..] == body + tail;
    assert (body + tail)[0] == SPACE;
    ItemsStall(body + tail, |items|);
    ArrayRead(AsWritten, buf, |items|, |d| + 3, Items([], body + tail));
  }

  /**
    As written, items that start with a bulk string the misplaced terminator
    test rejects yield no value, and the buffer is left as it was.
   */
  lemma BulkHeadStalls(items: seq<RespValue>, tail: seq<byte>)
    requires |items| > 0 && items[0].BulkString?
    requires forall i :: 0 <= i < |items| ==> Displayable(items[i])
    requires var bs := items[0].data; !(|bs| == 0 || (2 <= |bs| <= 9 && bs[..2] == CRLF))
    ensures var rest := SerializeItems(BackToBack, items) + tail; Parse(AsWritten, rest) == NoValue(rest)
  {
    var bs := items[0].data;
    var after := SerializeItems(BackToBack, items[1..]);
    var rest := SerializeItems(BackToBack, items) + tail;
    assert rest == Serialize(BackToBack, BulkString(bs)) + (after + tail);
    BulkAsWritten(BackToBack, bs, after + tail);
  }

  /** As written, an array whose items yield no value reads as the empty array, its items left unread. */
  lemma StalledArray(items: seq<RespValue>, tail: seq<byte>)
    requires Displayable(Array(items))
    requires Parse(AsWritten, SerializeItems(BackToBack, items) + tail).NoValue?
    ensures var body := SerializeItems(BackToBack, items);
      Parse(AsWritten, Serialize(BackToBack, Array(items)) + tail) == Parsed(Array([]), body + tail)
  {
    var body := SerializeItems(BackToBack, items);
    var d := FormatInt(|items|);
    var buf := Serialize(BackToBack, Array(items)) + tail;
    assert buf == [STAR] + d + CRLF + (body + tail);
    assert HeaderNumber(buf) == Some((|items|, |d| + 3)) by {
      NumberHeader(STAR, |items|, body + tail);
    }
    assert buf[|d| + 3..] == body + tail;
    ItemsStall(body + tail, |items|);
    ArrayRead(AsWritten, buf, |items|, |d| + 3, Items([], body + tail));
  }

  /** An array header announcing `count` elements, and the element loop's outcome after it: an array value. */
  lemma ArrayRead(mode: Mode, buf: seq<byte>, count: nat, header: nat, r: ItemsResult)
    requires |buf| > 0 && buf[0] == STAR && HeaderNumber(buf) == Some((count, header))
    requires r.Items? && ParseItems(mode, buf[header..], count) == r
    ensures Parse(mode, buf) == Parsed(Array(r.items), r.rest)
  {
    assert Parse(mode, buf) == ParseArray(mode, buf);
  }

  /** Cutting a buffer after its first line keeps that line; cutting inside it leaves no CR LF. */
  lemma PrefixHeader(buf: seq<byte>, k: nat)
    requires |buf| > 0 && IsSigil(buf[0]) && HeaderLine(buf).Some? && k <= |buf|
    ensures var e := HeaderLine(buf).value.1;
      && (k >= e + 2 ==> HeaderLine(buf[..k]) == HeaderLine(buf) && HeaderNumber(buf[..k]) == HeaderNumber(buf))
      && (k < e + 2 ==> NoCrlf(buf[..k]))
  {
    var e := HeaderLine(buf).value.1;
    var p := buf[..k];
    assert forall j :: 0 <= j && j + 1 < k ==> CrlfAt(p, j) == CrlfAt(buf, j);
    if k >= e + 2 {
      FindCrlfIs(p, e);
      assert p[1..e] == buf[1..e];
    }
  }

  /** A buffer with no complete line yields no value and keeps every byte. */
  lemma NoLineNoValue(mode: Mode, p: seq<byte>)
    requires NoCrlf(p)
    ensures Parse(mode, p) == NoValue(p)
  {
    if |p| > 0 && IsSigil(p[0]) {
      assert HeaderLine(p).None?;
    }
  }

  /**
    The cases in which a parse yields no value and consumes nothing: an empty
    buffer, a first byte that is not a sigil, and no CR LF anywhere.
   */
  lemma NothingConsumed(mode: Mode, buf: seq<byte>)
    ensures |buf| == 0 ==> Parse(mode, buf) == NoValue(buf)
    ensures |buf| > 0 && !IsSigil(buf[0]) ==> Parse(mode, buf) == NoValue(buf)
    ensures NoCrlf(buf) ==> Parse(mode, buf) == NoValue(buf)
  {
    if NoCrlf(buf) {
      NoLineNoValue(mode, buf);
    }
  }

  /** A bulk string whose declared bytes and terminator are not all present yet yields no value and consumes nothing. */
  lemma ShortBulkNoValue(mode: Mode, buf: seq<byte>, len: int, header: nat)
    requires |buf| > 0 && buf[0] == DOLLAR && HeaderNumber(buf) == Some((len, header))
    requires 0 <= len && |buf| < header + len + 2
    ensures Parse(mode, buf) == NoValue(buf)
  {
    DispatchBulk(mode, buf);
  }

  /**
    A `+` or `-` line: the bytes between the sigil and the first CR LF, if
    they are UTF-8, become the value and exactly the line and its CR LF are
    consumed; otherwise nothing is consumed.
   */
  lemma SimpleLine(mode: Mode, buf: seq<byte>)
    requires |buf| > 0 && (buf[0] == PLUS || buf[0] == MINUS)
    ensures FindCrlf(buf).None? ==> Parse(mode, buf) == NoValue(buf)
    ensures FindCrlf(buf).Some? ==>
      var e := FindCrlf(buf).value;
      var text := buf[1..e];
      Parse(mode, buf) ==
        if !ValidUtf8(text) then NoValue(buf)
        else if buf[0] == PLUS then Parsed(SimpleString(text), buf[e + 2..])
        else Parsed(Error(text), buf[e + 2..])
  {
    if FindCrlf(buf).Some? {
      assert buf[0] != CR;
    }
  }

  /** A one-line value's line ends with the serialization itself. */
  lemma OneLineSpan(v: RespValue)
    requires Encodable(v) && (v.SimpleString? || v.Error? || v.Integer? || v.NullBulkString? || v.NullArray?)
    ensures var full := Serialize(BackToBack, v);
      HeaderLine(full).Some? && HeaderLine(full).value.1 + 2 == |full|
  {
    var full := Serialize(BackToBack, v);
    if v.Integer? {
      DecimalLine(v.n);
      assert full == [COLON] + FormatInt(v.n) + CRLF + [];
      LineHeader(COLON, FormatInt(v.n), []);
    } else if v.NullBulkString? || v.NullArray? {
      NullFormIsMinusOne(SigilOf(v));
      DecimalLine(-1);
      assert full == [SigilOf(v)] + FormatInt(-1) + CRLF + [];
      LineHeader(SigilOf(v), FormatInt(-1), []);
    } else {
      var payload := if v.SimpleString? then v.text else v.message;
      assert full == [SigilOf(v)] + payload + CRLF + [];
      LineHeader(SigilOf(v), payload, []);
    }
  }

  /** A strict prefix of a bulk string's serialization yields no value. */
  lemma BulkPrefixIncomplete(bs: seq<byte>, k: nat)
    requires ValidUtf8(bs) && |bs| <= MAX_I64
    requires k < |Serialize(BackToBack, BulkString(bs))|
    ensures var p := Serialize(BackToBack, BulkString(bs))[..k]; Parse(Intended, p) == NoValue(p)
  {
    var full := Serialize(BackToBack, BulkString(bs));
    assert full + [] == full;
    SerializedBulkFramed(BackToBack, bs, []);
    PrefixHeader(full, k);
    var e := HeaderLine(full).value.1;
    if k < e + 2 {
      NoLineNoValue(Intended, full[..k]);
    }
  }

  /**
    With the intended parser, no strict prefix of a serialization yields a
    value or loses a byte: the parse reports no value and the buffer is
    unchanged.
   */
  lemma {:induction false} PrefixIncomplete(v: RespValue, k: nat)
    requires Encodable(v) && k < |Serialize(BackToBack, v)|
    ensures var p := Serialize(BackToBack, v)[..k]; Parse(Intended, p) == NoValue(p)
    decreases v, 1
  {
    var full := Serialize(BackToBack, v);
    match v
    case BulkString(bs) => BulkPrefixIncomplete(bs, k);
    case Array(items) => ArrayPrefixIncomplete(items, k);
    case _ =>
      OneLineSpan(v);
      PrefixHeader(full, k);
      NoLineNoValue(Intended, full[..k]);
  }

  /** The header of an array's serialization, as seen in a prefix of it. */
  lemma ArrayHeaderPrefix(items: seq<RespValue>, k: nat)
    requires Displayable(Array(items)) && k <= |Serialize(BackToBack, Array(items))|
    ensures var p := Serialize(BackToBack, Array(items))[..k];
      var header := |FormatInt(|items|)| + 3;
      && (k < header ==> NoCrlf(p))
      && (k >= header ==>
            && HeaderNumber(p) == Some((|items|, header))
            && p[header..] == SerializeItems(BackToBack, items)[..k - header])
  {
    var body := SerializeItems(BackToBack, items);
    assert Serialize(BackToBack, Array(items)) == [STAR] + FormatInt(|items|) + CRLF + body;
    NumberPrefix(STAR, |items|, body, k);
  }

  /** A prefix of a numbered header line followed by `body`: the line if it is complete, and then part of `body`. */
  lemma NumberPrefix(sigil: byte, n: i64, body: seq<byte>, k: nat)
    requires IsSigil(sigil) && k <= |FormatInt(n)| + 3 + |body|
    ensures var p := ([sigil] + FormatInt(n) + CRLF + body)[..k];
      var header := |FormatInt(n)| + 3;
      && (k < header ==> NoCrlf(p))
      && (k >= header ==> HeaderNumber(p) == Some((n as int, header)) && p[header..] == body[..k - header])
  {
    var d := FormatInt(n);
    var full := [sigil] + d + CRLF + body;
    var header := |d| + 3;
    assert HeaderLine(full).Some? && HeaderLine(full).value.1 + 2 == header by {
      DecimalLine(n);
      LineHeader(sigil, d, body);
    }
    assert HeaderNumber(full) == Some((n as int, header)) by {
      NumberHeader(sigil, n, body);
    }
    assert full[header..] == body;
    HeaderCut(full, n as int, header, body, k);
  }

  /** A cut of a buffer whose header line ends before `body`: no line before the header's end, the header and part of `body` after. */
  lemma HeaderCut(full: seq<byte>, n: int, header: nat, body: seq<byte>, k: nat)
    requires |full| > 0 && IsSigil(full[0]) && k <= |full|
    requires HeaderLine(full).Some? && HeaderLine(full).value.1 + 2 == header
    requires HeaderNumber(full) == Some((n, header)) && full[header..] == body
    ensures k < header ==> NoCrlf(full[..k])
    ensures k >= header ==> HeaderNumber(full[..k]) == Some((n, header)) && full[..k][header..] == body[..k - header]
  {
    PrefixHeader(full, k);
    if k >= header {
      assert full[..k][header..] == full[header..][..k - header];
    }
  }

  /** A strict prefix of an array's serialization yields no value. */
  lemma {:induction false} ArrayPrefixIncomplete(items: seq<RespValue>, k: nat)
    requires Encodable(Array(items)) && k < |Serialize(BackToBack, Array(items))|
    ensures var p := Serialize(BackToBack, Array(items))[..k]; Parse(Intended, p) == NoValue(p)
    decreases items, 2
  {
    var p := Serialize(BackToBack, Array(items))[..k];
    var header := |FormatInt(|items|)| + 3;
    ArrayHeaderPrefix(items, k);
    if k < header {
      NoLineNoValue(Intended, p);
    } else {
      assert forall i :: 0 <= i < |items| ==> Displayable(items[i]) && LinesClean(items[i]);
      ItemsPrefixIncomplete(items, k - header);
      assert p[0] == STAR;
      IncompleteItemsNoValue(p, |items|, header);
    }
  }

  /** An array whose element loop is incomplete yields no value and keeps the buffer. */
  lemma IncompleteItemsNoValue(p: seq<byte>, count: nat, header: nat)
    requires |p| > 0 && p[0] == STAR && HeaderNumber(p) == Some((count as int, header))
    requires ParseItems(Intended, p[header..], count) == Incomplete
    ensures Parse(Intended, p) == NoValue(p)
  {
  }

  /** An array whose element loop completes is the array of those elements, followed by what the loop left. */
  lemma ItemsArray(mode: Mode, p: seq<byte>, count: nat, header: nat)
    requires |p| > 0 && p[0] == STAR && HeaderNumber(p) == Some((count as int, header))
    requires ParseItems(mode, p[header..], count).Items?
    ensures var r := ParseItems(mode, p[header..], count); Parse(mode, p) == Parsed(Array(r.items), r.rest)
  {
  }

  /** A strict prefix of the items' serializations leaves the element loop incomplete. */
  lemma {:induction false} ItemsPrefixIncomplete(items: seq<RespValue>, j: nat)
    requires forall i :: 0 <= i < |items| ==> Displayable(items[i]) && LinesClean(items[i])
    requires j < |SerializeItems(BackToBack, items)|
    ensures ParseItems(Intended, SerializeItems(BackToBack, items)[..j], |items|) == Incomplete
    decreases items, 1
  {
    assert |items| > 0;
    ItemsLength(items);
    if j < |Serialize(BackToBack, items[0])| {
      PrefixInFirstItem(items, j);
    } else {
      PrefixPastFirstItem(items, j);
    }
  }

  /** The prefix ends inside the first item, which then yields no value. */
  lemma {:induction false} PrefixInFirstItem(items: seq<RespValue>, j: nat)
    requires |items| > 0 && forall i :: 0 <= i < |items| ==> Displayable(items[i]) && LinesClean(items[i])
    requires j < |Serialize(BackToBack, items[0])|
    ensures ParseItems(Intended, SerializeItems(BackToBack, items)[..j], |items|) == Incomplete
    decreases items, 0
  {
    PrefixIncomplete(items[0], j);
    WithinFirstIncomplete(items, j);
  }

  /** The prefix holds the first item whole and ends inside the others. */
  lemma {:induction false} PrefixPastFirstItem(items: seq<RespValue>, j: nat)
    requires |items| > 0 && forall i :: 0 <= i < |items| ==> Displayable(items[i]) && LinesClean(items[i])
    requires |Serialize(BackToBack, items[0])| <= j < |SerializeItems(BackToBack, items)|
    requires |SerializeItems(BackToBack, items)| == |Serialize(BackToBack, items[0])| + |SerializeItems(BackToBack, items[1..])|
    ensures ParseItems(Intended, SerializeItems(BackToBack, items)[..j], |items|) == Incomplete
    decreases items, 0
  {
    var others := items[1..];
    var k := j - |Serialize(BackToBack, items[0])|;
    assert ParseItems(Intended, SerializeItems(BackToBack, others)[..k], |items| - 1) == Incomplete by {
      ItemsPrefixIncomplete(others, k);
    }
    FirstThenIncomplete(items, j);
  }

  /** A prefix that ends inside the first item, which yields no value, leaves the loop incomplete. */
  lemma WithinFirstIncomplete(items: seq<RespValue>, j: nat)
    requires |items| > 0 && forall i :: 0 <= i < |items| ==> Displayable(items[i])
    requires j < |Serialize(BackToBack, items[0])|
    requires Parse(Intended, Serialize(BackToBack, items[0])[..j]).NoValue?
    ensures ParseItems(Intended, SerializeItems(BackToBack, items)[..j], |items|) == Incomplete
  {
    var first := Serialize(BackToBack, items[0]);
    ItemsSplit(items);
    PrefixOfConcat(first, SerializeItems(BackToBack, items[1..]), j);
    ItemsStopAtNoValue(first[..j], |items|);
  }

  /** A prefix that holds the first item whole, and then an incomplete rest, leaves the loop incomplete. */
  lemma FirstThenIncomplete(items: seq<RespValue>, j: nat)
    requires |items| > 0 && forall i :: 0 <= i < |items| ==> Displayable(items[i]) && LinesClean(items[i])
    requires |Serialize(BackToBack, items[0])| <= j < |SerializeItems(BackToBack, items)|
    requires var k := j - |Serialize(BackToBack, items[0])|;
      ParseItems(Intended, SerializeItems(BackToBack, items[1..])[..k], |items| - 1) == Incomplete
    ensures ParseItems(Intended, SerializeItems(BackToBack, items)[..j], |items|) == Incomplete
  {
    var partial := ItemsPrefixSplit(items, j);
    WholeItemThenIncomplete(items[0], partial, |items|);
  }

  /** A prefix of the items' serializations that holds the first item whole, split after it. */
  lemma ItemsPrefixSplit(items: seq<RespValue>, j: nat) returns (partial: seq<byte>)
    requires |items| > 0 && forall i :: 0 <= i < |items| ==> Displayable(items[i])
    requires |Serialize(BackToBack, items[0])| <= j <= |SerializeItems(BackToBack, items)|
    ensures partial == SerializeItems(BackToBack, items[1..])[..j - |Serialize(BackToBack, items[0])|]
    ensures SerializeItems(BackToBack, items)[..j] == Serialize(BackToBack, items[0]) + partial
  {
    var first := Serialize(BackToBack, items[0]);
    var others := SerializeItems(BackToBack, items[1..]);
    ItemsSplit(items);
    PrefixOfConcat(first, others, j);
    partial := others[..j - |first|];
  }

  /** An encodable item in full, then an incomplete rest: the element loop is incomplete. */
  lemma WholeItemThenIncomplete(v: RespValue, partial: seq<byte>, count: nat)
    requires Encodable(v) && count > 0
    requires ParseItems(Intended, partial, count - 1) == Incomplete
    ensures ParseItems(Intended, Serialize(BackToBack, v) + partial, count) == Incomplete
  {
    RoundTrip(v, partial);
    ItemsStopAfter(Serialize(BackToBack, v) + partial, count, v, partial);
  }

  lemma ItemsSplit(items: seq<RespValue>)
    requires |items| > 0 && forall i :: 0 <= i < |items| ==> Displayable(items[i])
    ensures SerializeItems(BackToBack, items) == Serialize(BackToBack, items[0]) + SerializeItems(BackToBack, items[1..])
  {
    var head := Serialize(BackToBack, items[0]);
    var rest := SerializeItems(BackToBack, items[1..]);
    assert SerializeItems(BackToBack, items) == ItemPrefix(BackToBack) + head + rest;
    assert ItemPrefix(BackToBack) == [];
    assert [] + head == head;
  }

  lemma ItemsLength(items: seq<RespValue>)
    requires |items| > 0 && forall i :: 0 <= i < |items| ==> Displayable(items[i])
    ensures |SerializeItems(BackToBack, items)| == |Serialize(BackToBack, items[0])| + |SerializeItems(BackToBack, items[1..])|
  {
    ItemsSplit(items);
  }

  lemma PrefixOfConcat(a: seq<byte>, b: seq<byte>, j: nat)
    requires j <= |a| + |b|
    ensures j <= |a| ==> (a + b)[..j] == a[..j]
    ensures j > |a| ==> (a + b)[..j] == a + b[..j - |a|]
  {
  }

  /** The intended element loop gives up at the first element that yields no value. */
  lemma ItemsStopAtNoValue(rest: seq<byte>, count: nat)
    requires count > 0 && Parse(Intended, rest).NoValue?
    ensures ParseItems(Intended, rest, count) == Incomplete
  {
  }

  /** An element read in full, then an incomplete remainder: the loop is incomplete. */
  lemma ItemsStopAfter(rest: seq<byte>, count: nat, v: RespValue, rest': seq<byte>)
    requires count > 0 && Parse(Intended, rest) == Parsed(v, rest')
    requires ParseItems(Intended, rest', count - 1) == Incomplete
    ensures ParseItems(Intended, rest, count) == Incomplete
  {
  }

  /**
    Incremental delivery: feeding a parser a serialization in two pieces gives
    no value and keeps every byte after the first piece, then gives the value
    and an empty buffer after the second.
   */
  lemma IncrementalDelivery(v: RespValue, k: nat)
    requires Encodable(v) && 0 < k < |Serialize(BackToBack, v)|
    ensures var s := Serialize(BackToBack, v);
      var p1 := Append(NewParser(), s[..k]);
      && Parse(Intended, p1.buffer) == NoValue(p1.buffer)
      && Parse(Intended, Append(p1, s[k..]).buffer) == Parsed(v, [])
  {
    var s := Serialize(BackToBack, v);
    var p1 := Append(NewParser(), s[..k]);
    assert p1.buffer == s[..k];
    PrefixIncomplete(v, k);
    assert Append(p1, s[k..]).buffer == s + [];
    RoundTrip(v, []);
  }

  /** Leaving a suffix of a suffix leaves a suffix. */
  lemma SuffixTrans(a: seq<byte>, b: seq<byte>, c: seq<byte>)
    requires IsSuffix(a, b) && IsSuffix(b, c)
    ensures IsSuffix(a, c)
  {
  }

  /** Taking nothing leaves the whole buffer. */
  lemma SelfSuffix(buf: seq<byte>)
    ensures IsSuffix(buf, buf)
  {
  }

  /** Dropping bytes from the front leaves a suffix. */
  lemma DropIsSuffix(buf: seq<byte>, k: nat)
    requires k <= |buf|
    ensures IsSuffix(buf[k..], buf)
  {
  }

  /**
    The parser only consumes from the front of its buffer: whatever a parse
    leaves, with or without a value, is a suffix of what it was given.
   */
  lemma {:induction false} ParseLeavesSuffix(mode: Mode, buf: seq<byte>)
    ensures var r := Parse(mode, buf); (r.Parsed? || r.NoValue?) ==> IsSuffix(r.rest, buf)
    decreases |buf|, 2
  {
    if |buf| == 0 || !IsSigil(buf[0]) {
      SelfSuffix(buf);
    } else if buf[0] == PLUS {
      SimpleLeavesSuffix(buf);
    } else if buf[0] == MINUS {
      ErrorLeavesSuffix(buf);
    } else if buf[0] == COLON {
      IntegerLeavesSuffix(buf);
    } else if buf[0] == DOLLAR {
      BulkLeavesSuffix(mode, buf);
    } else {
      ArrayLeavesSuffix(mode, buf);
    }
  }

  lemma SimpleLeavesSuffix(buf: seq<byte>)
    requires |buf| > 0 && buf[0] == PLUS
    ensures var r := ParseSimpleString(buf); (r.Parsed? || r.NoValue?) ==> IsSuffix(r.rest, buf)
  {
    SelfSuffix(buf);
    if HeaderLine(buf).Some? {
      DropIsSuffix(buf, HeaderLine(buf).value.1 + 2);
    }
  }

  lemma ErrorLeavesSuffix(buf: seq<byte>)
    requires |buf| > 0 && buf[0] == MINUS
    ensures var r := ParseError(buf); (r.Parsed? || r.NoValue?) ==> IsSuffix(r.rest, buf)
  {
    SelfSuffix(buf);
    if HeaderLine(buf).Some? {
      DropIsSuffix(buf, HeaderLine(buf).value.1 + 2);
    }
  }

  lemma IntegerLeavesSuffix(buf: seq<byte>)
    requires |buf| > 0 && buf[0] == COLON
    ensures var r := ParseInteger(buf); (r.Parsed? || r.NoValue?) ==> IsSuffix(r.rest, buf)
  {
    SelfSuffix(buf);
    if HeaderLine(buf).Some? {
      DropIsSuffix(buf, HeaderLine(buf).value.1 + 2);
    }
  }

  lemma BulkLeavesSuffix(mode: Mode, buf: seq<byte>)
    requires |buf| > 0 && buf[0] == DOLLAR
    ensures var r := ParseBulkString(mode, buf); (r.Parsed? || r.NoValue?) ==> IsSuffix(r.rest, buf)
  {
    SelfSuffix(buf);
    match HeaderNumber(buf)
    case None =>
    case Some((len, header)) =>
      if len < 0 {
        DropIsSuffix(buf, header);
      } else if header + len + 2 <= |buf| {
        DropIsSuffix(buf, header + len + 2);
      }
  }

  lemma {:induction false} ArrayLeavesSuffix(mode: Mode, buf: seq<byte>)
    requires |buf| > 0 && buf[0] == STAR
    ensures var r := ParseArray(mode, buf); (r.Parsed? || r.NoValue?) ==> IsSuffix(r.rest, buf)
    decreases |buf|, 1
  {
    SelfSuffix(buf);
    match HeaderNumber(buf)
    case None =>
    case Some((count, header)) =>
      DropIsSuffix(buf, header);
      if count >= 0 {
        var body := buf[header..];
        ItemsLeaveSuffix(mode, body, count);
        var r := ParseItems(mode, body, count);
        if r.Items? {
          SuffixTrans(r.rest, body, buf);
        }
      }
  }

  /** The element loop, too, leaves a suffix of the bytes after the header. */
  lemma {:induction false} ItemsLeaveSuffix(mode: Mode, rest: seq<byte>, count: nat)
    ensures var r := ParseItems(mode, rest, count); r.Items? ==> IsSuffix(r.rest, rest)
    decreases |rest|, 3, count, 1
  {
    if count == 0 {
      SelfSuffix(rest);
    } else if Parse(mode, rest).Parsed? {
      ItemsSuffixAfterParsed(mode, rest, count);
    } else if Parse(mode, rest).NoValue? && mode == AsWritten {
      ItemsSuffixAfterSkip(rest, count);
    } else {
      ItemsStop(mode, rest, count);
    }
  }

  lemma {:induction false} ItemsSuffixAfterParsed(mode: Mode, rest: seq<byte>, count: nat)
    requires count > 0 && Parse(mode, rest).Parsed?
    ensures var r := ParseItems(mode, rest, count); r.Items? ==> IsSuffix(r.rest, rest)
    decreases |rest|, 3, count, 0
  {
    var p := Parse(mode, rest);
    ParseLeavesSuffix(mode, rest);
    ItemsAfterParsed(mode, rest, count, p.value, p.rest);
    ItemsChain(mode, count, rest, p.rest, ParseItems(mode, rest, count));
  }

  /** A loop that ends where the loop after one element ends leaves a suffix, as that one does. */
  lemma {:induction false} ItemsChain(mode: Mode, count: nat, rest: seq<byte>, mid: seq<byte>, r: ItemsResult)
    requires count > 0 && |mid| < |rest| && IsSuffix(mid, rest)
    requires r.Items? ==> ParseItems(mode, mid, count - 1).Items? && r.rest == ParseItems(mode, mid, count - 1).rest
    ensures r.Items? ==> IsSuffix(r.rest, rest)
    decreases |rest|, 2
  {
    ItemsLeaveSuffix(mode, mid, count - 1);
    if r.Items? {
      SuffixTrans(r.rest, mid, rest);
    }
  }

  lemma {:induction false} ItemsSuffixAfterSkip(rest: seq<byte>, count: nat)
    requires count > 0 && Parse(AsWritten, rest).NoValue?
    ensures var r := ParseItems(AsWritten, rest, count); r.Items? ==> IsSuffix(r.rest, rest)
    decreases |rest|, 3, count, 0
  {
    ItemsAfterNoValue(rest, count);
    ItemsLeaveSuffix(AsWritten, rest, count - 1);
  }

  /** After an element is read, the loop goes on from the bytes it left and ends where that goes on to end. */
  lemma ItemsAfterParsed(mode: Mode, rest: seq<byte>, count: nat, item: RespValue, rest': seq<byte>)
    requires count > 0 && Parse(mode, rest) == Parsed(item, rest')
    ensures var r := ParseItems(mode, rest, count);
      r.Items? ==> ParseItems(mode, rest', count - 1).Items? && r.rest == ParseItems(mode, rest', count - 1).rest
  {
  }

  /** As written, an element that yields no value is skipped without advancing. */
  lemma ItemsAfterNoValue(rest: seq<byte>, count: nat)
    requires count > 0 && Parse(AsWritten, rest).NoValue?
    ensures ParseItems(AsWritten, rest, count) == ParseItems(AsWritten, rest, count - 1)
  {
  }

  /** A panic, or in the intended loop an element with no value, ends the loop without items. */
  lemma ItemsStop(mode: Mode, rest: seq<byte>, count: nat)
    requires count > 0 && (Parse(mode, rest).Panicked? || (mode == Intended && Parse(mode, rest).NoValue?))
    ensures !ParseItems(mode, rest, count).Items?
  {
  }

  /** Draining the parser leaves a suffix of the input. */
  lemma {:induction false} ParseAllLeavesSuffix(mode: Mode, buf: seq<byte>)
    ensures var r := ParseAll(mode, buf); r.Drained? ==> IsSuffix(r.rest, buf)
    decreases |buf|
  {
    ParseLeavesSuffix(mode, buf);
    match Parse(mode, buf)
    case Parsed(_, rest) =>
      ParseAllLeavesSuffix(mode, rest);
      var r := ParseAll(mode, rest);
      if r.Drained? {
        SuffixTrans(r.rest, rest, buf);
      }
    case NoValue(_) =>
    case Panicked =>
  }
}
