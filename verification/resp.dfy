/**
  The incremental RESP parser of src/resp.rs as pure functions over the
  parser's byte buffer. Every decoder returns the value it produced (if any)
  together with the buffer it leaves behind.
 */
module Resp {
  import opened Wrappers
  import opened Bytes
  import opened Utf8
  import opened Decimal
  import opened RespTypes

  /**
    `AsWritten` follows the code: the bulk-string terminator test compares the
    wrong slice (and can index past the end), and an array skips elements that
    fail to parse. `Intended` checks the two bytes after the payload and treats
    an array with an incomplete element as incomplete.
   */
  datatype Mode = AsWritten | Intended

  /**
    The outcome of one `parse` call: a value and the remaining buffer, no value
    and the (possibly shortened) buffer, or a panic that ends the client's handler.
   */
  datatype ParseResult =
    | Parsed(value: RespValue, rest: seq<byte>)
    | NoValue(rest: seq<byte>)
    | Panicked

  /** Outcome of the element loop of `parse_array`. */
  datatype ItemsResult =
    | Items(items: seq<RespValue>, rest: seq<byte>)
    | Incomplete
    | ItemsPanicked

  /** `rest` is what remains of `buf` once some bytes are taken from its front. */
  predicate IsSuffix(rest: seq<byte>, buf: seq<byte>) {
    |rest| <= |buf| && forall i :: 0 <= i < |rest| ==> rest[i] == buf[|buf| - |rest| + i]
  }

  /** `RespParser::parse`: dispatch on the first byte. */
  function Parse(mode: Mode, buf: seq<byte>): (r: ParseResult)
    decreases |buf|, 2
    ensures r.Parsed? ==> |r.rest| + 3 <= |buf|
    ensures r.Parsed? ==> WellFormed(r.value)
    ensures r.NoValue? ==> r.rest == buf || (|buf| > 0 && buf[0] == COLON && |r.rest| + 3 <= |buf|)
    ensures mode == Intended ==> !r.Panicked?
  {
    if |buf| == 0 then NoValue(buf)
    else if buf[0] == PLUS then ParseSimpleString(buf)
    else if buf[0] == MINUS then ParseError(buf)
    else if buf[0] == COLON then ParseInteger(buf)
    else if buf[0] == DOLLAR then ParseBulkString(mode, buf)
    else if buf[0] == STAR then ParseArray(mode, buf)
    else NoValue(buf)
  }

  /** The first line of `buf`: the bytes between the sigil and the first CR LF, and the CR LF's index. */
  function HeaderLine(buf: seq<byte>): (r: Option<(seq<byte>, nat)>)
    requires |buf| > 0 && IsSigil(buf[0])
    ensures r.Some? ==> 1 <= r.value.1 && r.value.1 + 2 <= |buf| && r.value.0 == buf[1..r.value.1]
    ensures r.Some? ==> CrlfAt(buf, r.value.1) && NoCrlf(r.value.0)
    ensures r.None? <==> NoCrlf(buf)
  {
    match FindCrlf(buf)
    case None => None
    case Some(end) =>
      assert forall j :: 0 <= j < end - 1 ==> CrlfAt(buf[1..end], j) == CrlfAt(buf, j + 1);
      Some((buf[1..end], end))
  }

  /** `parse_simple_string`. */
  function ParseSimpleString(buf: seq<byte>): (r: ParseResult)
    requires |buf| > 0 && buf[0] == PLUS
    ensures r.Parsed? ==> |r.rest| + 3 <= |buf|
    ensures r.Parsed? ==> r.value.SimpleString? && WellFormed(r.value) && LinesClean(r.value)
    ensures r.NoValue? ==> r.rest == buf
    ensures !r.Panicked?
  {
    match HeaderLine(buf)
    case None => NoValue(buf)
    case Some((text, end)) =>
      if ValidUtf8(text) then Parsed(SimpleString(text), buf[end + 2..]) else NoValue(buf)
  }

  /** `parse_error`: a simple string with the `-` sigil. */
  function ParseError(buf: seq<byte>): (r: ParseResult)
    requires |buf| > 0 && buf[0] == MINUS
    ensures r.Parsed? ==> |r.rest| + 3 <= |buf|
    ensures r.Parsed? ==> r.value.Error? && WellFormed(r.value) && LinesClean(r.value)
    ensures r.NoValue? ==> r.rest == buf
    ensures !r.Panicked?
  {
    match HeaderLine(buf)
    case None => NoValue(buf)
    case Some((message, end)) =>
      if ValidUtf8(message) then Parsed(Error(message), buf[end + 2..]) else NoValue(buf)
  }

  /**
    `parse_integer`. The line is drained before the number is parsed, so a
    UTF-8 line that is not an i64 yields no value but is consumed.
   */
  function ParseInteger(buf: seq<byte>): (r: ParseResult)
    requires |buf| > 0 && buf[0] == COLON
    ensures r.Parsed? ==> |r.rest| + 3 <= |buf| && r.value.Integer?
    ensures r.NoValue? ==> r.rest == buf || (|r.rest| + 3 <= |buf|)
    ensures !r.Panicked?
  {
    match HeaderLine(buf)
    case None => NoValue(buf)
    case Some((payload, end)) =>
      if !ValidUtf8(payload) then NoValue(buf)
      else
        var rest := buf[end + 2..];
        match ParseI64(payload)
        case None => NoValue(rest)
        case Some(n) => Parsed(Integer(n), rest)
  }

  /**
    The declared length or count on the header line: the line must be UTF-8
    and parse as an `isize`. Also returns the header size in bytes.
   */
  function HeaderNumber(buf: seq<byte>): (r: Option<(int, nat)>)
    requires |buf| > 0 && IsSigil(buf[0])
    ensures r.Some? ==> 3 <= r.value.1 <= |buf| && MIN_I64 <= r.value.0 <= MAX_I64
  {
    match HeaderLine(buf)
    case None => None
    case Some((text, end)) =>
      if !ValidUtf8(text) then None
      else
        match ParseI64(text)
        case None => None
        case Some(n) => Some((n as int, end + 2))
  }

  /**
    `parse_bulk_string`. A negative length is the null bulk string and
    consumes only the header. Otherwise header + length + 2 bytes must be
    present, then the terminator is checked: `AsWritten` compares
    `buf[header .. header + lenEnd]` (lenEnd being the index of the header's
    CR LF) with CR LF, panicking when that slice runs past the buffer;
    `Intended` compares the two bytes after the payload.
   */
  function ParseBulkString(mode: Mode, buf: seq<byte>): (r: ParseResult)
    requires |buf| > 0 && buf[0] == DOLLAR
    ensures r.Parsed? ==> |r.rest| + 3 <= |buf|
    ensures r.Parsed? ==> (r.value.BulkString? || r.value.NullBulkString?) && WellFormed(r.value)
    ensures r.NoValue? ==> r.rest == buf
    ensures mode == Intended ==> !r.Panicked?
  {
    match HeaderNumber(buf)
    case None => NoValue(buf)
    case Some((len, header)) =>
      if len < 0 then Parsed(NullBulkString, buf[header..])
      else
        var total := header + len + 2;
        if |buf| < total then NoValue(buf)
        else
          var data := buf[header..header + len];
          var lenEnd := header - 2;
          match mode
          case AsWritten =>
            if header + lenEnd > |buf| then Panicked
            else if buf[header..header + lenEnd] != CRLF then NoValue(buf)
            else Parsed(BulkString(data), buf[total..])
          case Intended =>
            if buf[header + len..total] != CRLF then NoValue(buf)
            else Parsed(BulkString(data), buf[total..])
  }

  /**
    `parse_array`. A negative count is the null array and consumes only the
    header; otherwise the elements are parsed from the bytes after the header.
   */
  function ParseArray(mode: Mode, buf: seq<byte>): (r: ParseResult)
    requires |buf| > 0 && buf[0] == STAR
    decreases |buf|, 1
    ensures r.Parsed? ==> |r.rest| + 3 <= |buf|
    ensures r.Parsed? ==> (r.value.Array? || r.value.NullArray?) && WellFormed(r.value)
    ensures r.NoValue? ==> r.rest == buf
    ensures mode == Intended ==> !r.Panicked?
  {
    match HeaderNumber(buf)
    case None => NoValue(buf)
    case Some((count, header)) =>
      if count < 0 then Parsed(NullArray, buf[header..])
      else
        match ParseItems(mode, buf[header..], count)
        case Items(items, rest) => Parsed(Array(items), rest)
        case Incomplete => NoValue(buf)
        case ItemsPanicked => Panicked
  }

  /**
    The `for _ in 0..count` loop of `parse_array`: each element is parsed by a
    fresh parser over the bytes not yet consumed. `AsWritten` skips an element
    that yields no value without advancing (so every later one fails too);
    `Intended` gives up on the whole array.
   */
  function ParseItems(mode: Mode, rest: seq<byte>, count: nat): (r: ItemsResult)
    decreases |rest|, 3, count
    ensures r.Items? ==> |r.items| <= count && |r.rest| <= |rest|
    ensures r.Items? ==> forall i :: 0 <= i < |r.items| ==> WellFormed(r.items[i])
    ensures mode == Intended ==> !r.ItemsPanicked?
    ensures mode == AsWritten ==> !r.Incomplete?
  {
    if count == 0 then Items([], rest)
    else
      match Parse(mode, rest)
      case Parsed(item, rest') =>
        (match ParseItems(mode, rest', count - 1)
         case Items(items, rest'') => Items([item] + items, rest'')
         case other => other)
      case NoValue(_) =>
        if mode == AsWritten then ParseItems(mode, rest, count - 1) else Incomplete
      case Panicked => ItemsPanicked
  }

  /** `RespParser`: the only state is the buffer of bytes not yet consumed. */
  datatype RespParser = RespParser(buffer: seq<byte>)

  /** `RespParser::new`. */
  function NewParser(): (p: RespParser)
    ensures |p.buffer| == 0
  {
    RespParser([])
  }

  /** `RespParser::append`: the bytes go to the end of the buffer; nothing is parsed. */
  function Append(p: RespParser, data: seq<byte>): (q: RespParser)
    ensures |q.buffer| == |p.buffer| + |data|
    ensures q.buffer[..|p.buffer|] == p.buffer && q.buffer[|p.buffer|..] == data
  {
    RespParser(p.buffer + data)
  }

  /** What the `parse_all` test helper produces: the values in order, or a panic. */
  datatype Drain = Drained(values: seq<RespValue>, rest: seq<byte>) | DrainPanicked

  /**
    `parse_all`: parse values until a call yields none. Every value consumes at
    least three bytes, so the loop ends.
   */
  function ParseAll(mode: Mode, buf: seq<byte>): (r: Drain)
    decreases |buf|
    ensures r.Drained? ==> |r.rest| <= |buf| && 3 * |r.values| <= |buf| - |r.rest|
    ensures mode == Intended ==> r.Drained?
  {
    match Parse(mode, buf)
    case Parsed(v, rest) =>
      (match ParseAll(mode, rest)
       case Drained(vs, rest') => Drained([v] + vs, rest')
       case DrainPanicked => DrainPanicked)
    case NoValue(rest) => Drained([], rest)
    case Panicked => DrainPanicked
  }

  function Prepend(vs: seq<RespValue>, d: Drain): Drain {
    match d
    case Drained(ws, rest) => Drained(vs + ws, rest)
    case DrainPanicked => DrainPanicked
  }

  lemma PrependAppend(vs: seq<RespValue>, v: RespValue, d: Drain)
    ensures Prepend(vs, Prepend([v], d)) == Prepend(vs + [v], d)
  {
    if d.Drained? {
      assert vs + ([v] + d.values) == (vs + [v]) + d.values;
    }
  }

  lemma PrependNothing(d: Drain)
    ensures Prepend([], d) == d
  {
    if d.Drained? {
      assert [] + d.values == d.values;
    }
  }

  /** One step of `parse_all`: a parsed value is followed by whatever the rest drains to. */
  lemma DrainStep(mode: Mode, buf: seq<byte>, v: RespValue, rest: seq<byte>)
    requires Parse(mode, buf) == Parsed(v, rest)
    ensures ParseAll(mode, buf) == Prepend([v], ParseAll(mode, rest))
  {
  }

  /** The last step of `parse_all`: no value, and the values so far are the result. */
  lemma DrainEnd(mode: Mode, buf: seq<byte>, rest: seq<byte>, vs: seq<RespValue>)
    requires Parse(mode, buf) == NoValue(rest)
    ensures Prepend(vs, ParseAll(mode, buf)) == Drained(vs, rest)
  {
    assert vs + [] == vs;
  }

  /** The `while let Some(item) = parser.parse()` loop of `parse_all`, over a parser fed `input`. */
  method ParseAllLoop(mode: Mode, input: seq<byte>) returns (results: seq<RespValue>, rest: seq<byte>, panicked: bool)
    ensures panicked ==> ParseAll(mode, input) == DrainPanicked
    ensures !panicked ==> ParseAll(mode, input) == Drained(results, rest)
    ensures !panicked ==> 3 * |results| <= |input| - |rest|
  {
    var parser := Append(NewParser(), input);
    assert parser.buffer == input;
    results := [];
    PrependNothing(ParseAll(mode, input));
    while true
      invariant ParseAll(mode, input) == Prepend(results, ParseAll(mode, parser.buffer))
      invariant 3 * |results| <= |input| - |parser.buffer|
      decreases |parser.buffer|
    {
      match Parse(mode, parser.buffer)
      case Parsed(v, buf') =>
        DrainStep(mode, parser.buffer, v, buf');
        PrependAppend(results, v, ParseAll(mode, buf'));
        results := results + [v];
        parser := RespParser(buf');
      case NoValue(buf') =>
        DrainEnd(mode, parser.buffer, buf', results);
        return results, buf', false;
      case Panicked =>
        return results, [], true;
    }
  }
}
