/**
  The RESP2 value type and its wire serializer (the `Display` impl of
  `RespValue` in src/resp/types.rs).
 */
module RespTypes {
  import opened Bytes
  import opened Utf8
  import opened Decimal

  /**
    One protocol value. `SimpleString` and `Error` payloads are Rust `String`s,
    kept as their UTF-8 bytes; `BulkString` holds arbitrary bytes.
   */
  datatype RespValue =
    | SimpleString(text: seq<byte>)
    | Error(message: seq<byte>)
    | Integer(n: i64)
    | BulkString(data: seq<byte>)
    | NullBulkString
    | Array(items: seq<RespValue>)
    | NullArray

  const PLUS: byte := 0x2B
  const MINUS: byte := 0x2D
  const COLON: byte := 0x3A
  const DOLLAR: byte := 0x24
  const STAR: byte := 0x2A

  /** The bytes that select a decoder in `RespParser::parse`. */
  predicate IsSigil(b: byte) {
    b == PLUS || b == MINUS || b == COLON || b == DOLLAR || b == STAR
  }

  function SigilOf(v: RespValue): (b: byte)
    ensures IsSigil(b)
  {
    match v
    case SimpleString(_) => PLUS
    case Error(_) => MINUS
    case Integer(_) => COLON
    case BulkString(_) => DOLLAR
    case NullBulkString => DOLLAR
    case Array(_) => STAR
    case NullArray => STAR
  }

  /**
    What the Rust types guarantee: every `String` payload is well-formed UTF-8
    and no `Vec` is longer than `isize::MAX`.
   */
  predicate WellFormed(v: RespValue) {
    match v
    case SimpleString(s) => ValidUtf8(s)
    case Error(e) => ValidUtf8(e)
    case BulkString(bs) => |bs| <= MAX_I64
    case Array(items) => |items| <= MAX_I64 && forall i :: 0 <= i < |items| ==> WellFormed(items[i])
    case _ => true
  }

  /**
    Values whose serialization is modelled: well-formed, and every bulk payload
    is UTF-8 too, so that `String::from_utf8_lossy` writes the bytes unchanged.
   */
  predicate Displayable(v: RespValue) {
    match v
    case SimpleString(s) => ValidUtf8(s)
    case Error(e) => ValidUtf8(e)
    case BulkString(bs) => |bs| <= MAX_I64 && ValidUtf8(bs)
    case Array(items) => |items| <= MAX_I64 && forall i :: 0 <= i < |items| ==> Displayable(items[i])
    case _ => true
  }

  /** No simple-string or error payload inside `v` holds a CR LF. */
  predicate LinesClean(v: RespValue) {
    match v
    case SimpleString(s) => NoCrlf(s)
    case Error(e) => NoCrlf(e)
    case Array(items) => forall i :: 0 <= i < |items| ==> LinesClean(items[i])
    case _ => true
  }

  /** The values a serialization can be read back from: each line ends where the serializer ended it. */
  predicate Encodable(v: RespValue) {
    Displayable(v) && LinesClean(v)
  }

  /**
    Which array layout the serializer writes: the code's, with one space before
    every item, or the RESP layout, items back to back.
   */
  datatype Layout = SpaceSeparated | BackToBack

  function ItemPrefix(layout: Layout): seq<byte> {
    if layout == SpaceSeparated then [SPACE] else []
  }

  /** `"$-1\r\n"` and `"*-1\r\n"`. */
  function NullForm(sigil: byte): seq<byte> {
    [sigil, MINUS, ZERO + 1] + CRLF
  }

  /** `format!("{}", v)`. */
  function Serialize(layout: Layout, v: RespValue): (r: seq<byte>)
    requires Displayable(v)
    ensures |r| >= 3 && r[0] == SigilOf(v)
    decreases v, 1
  {
    match v
    case SimpleString(s) => [PLUS] + s + CRLF
    case Error(e) => [MINUS] + e + CRLF
    case Integer(i) => [COLON] + FormatInt(i) + CRLF
    case BulkString(bs) => [DOLLAR] + FormatInt(|bs|) + CRLF + bs + CRLF
    case NullBulkString => NullForm(DOLLAR)
    case Array(items) => [STAR] + FormatInt(|items|) + CRLF + SerializeItems(layout, items)
    case NullArray => NullForm(STAR)
  }

  /** The items of an array, each written after `ItemPrefix(layout)`. */
  function SerializeItems(layout: Layout, items: seq<RespValue>): seq<byte>
    requires forall i :: 0 <= i < |items| ==> Displayable(items[i])
    decreases items, 0
  {
    if |items| == 0 then []
    else ItemPrefix(layout) + Serialize(layout, items[0]) + SerializeItems(layout, items[1..])
  }
}
