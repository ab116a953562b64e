/**
  The server's replies and the protocol values they are written as (the
  `Into<RespValue>` impl of `ServerCommand` in src/server/commands.rs).
 */
module ServerCommands {
  import opened Bytes
  import opened Utf8
  import opened Decimal
  import opened RespTypes
  import opened Resp
  import opened Wrappers
  import RespProperties

  /** A reply. Messages are Rust `String`s, kept as their UTF-8 bytes. */
  datatype ServerCommand =
    | Pong(reply: Option<seq<byte>>)
    | Response(value: RespValue)
    | Error(text: seq<byte>)

  const PONG: seq<byte> := Ascii("PONG")
  /** `"PONG "`, the prefix of an echoed message. */
  const PONG_SPACE: seq<byte> := Ascii("PONG ")

  /**
    Replies whose value can be written: messages are `String`s, an echoed
    message still fits a bulk string once prefixed, and a passed-through value
    is displayable.
   */
  predicate Valid(c: ServerCommand) {
    match c
    case Pong(None) => true
    case Pong(Some(m)) => ValidUtf8(m) && |m| + 5 <= MAX_I64
    case Response(v) => Displayable(v)
    case Error(e) => ValidUtf8(e)
  }

  /**
    `ServerCommand::into`. A pong without a message is the simple string
    "PONG"; with one it is a bulk string holding "PONG " and the message;
    responses pass through and errors become error values. The `"OK"`
    fallback arm follows arms for every variant and is never taken.
   */
  function ToResp(c: ServerCommand): (r: RespValue)
    ensures c.Pong? && c.reply.None? ==> r.SimpleString? && r.text == PONG
    ensures c.Pong? && c.reply.Some? ==>
      r.BulkString? && |r.data| == 5 + |c.reply.value| && r.data[..5] == PONG_SPACE && r.data[5..] == c.reply.value
    ensures c.Response? ==> r == c.value
    ensures c.Error? ==> r.Error? && r.message == c.text
    ensures Valid(c) ==> Displayable(r)
  {
    match c
    case Pong(None) =>
      AsciiIsValid(PONG);
      SimpleString(PONG)
    case Pong(Some(m)) =>
      AsciiIsValid(PONG_SPACE);
      AppendValid(PONG_SPACE, m);
      BulkString(PONG_SPACE + m)
    case Response(v) => v
    case Error(e) => RespValue.Error(e)
  }

  /** Distinct pongs are written as distinct values: the client can recover the echoed message. */
  lemma PongRecoverable(a: Option<seq<byte>>, b: Option<seq<byte>>)
    requires ToResp(Pong(a)) == ToResp(Pong(b))
    ensures a == b
  {
    if a.Some? && b.Some? {
      assert a.value == ToResp(Pong(a)).data[5..];
    }
  }

  /**
    The wire form of a reply read back by the intended parser: every valid
    reply whose value has clean lines reads back as that value.
   */
  lemma ReplyReadsBack(c: ServerCommand, tail: seq<byte>)
    requires Valid(c) && LinesClean(ToResp(c))
    ensures Parse(Intended, Serialize(BackToBack, ToResp(c)) + tail) == Parsed(ToResp(c), tail)
  {
    RespProperties.RoundTrip(ToResp(c), tail);
  }

  /** `Pong(Some(m))` is written as `"$"`, the decimal length 5 + |m|, CR LF, "PONG ", `m`, CR LF. */
  lemma EchoWire(layout: Layout, m: seq<byte>)
    requires Valid(Pong(Some(m)))
    ensures Serialize(layout, ToResp(Pong(Some(m)))) == [DOLLAR] + FormatInt(5 + |m|) + CRLF + PONG_SPACE + m + CRLF
  {
  }

  /** `Pong(Some("hello"))` is written as `"$10\r\nPONG hello\r\n"`. */
  lemma EchoHelloWire()
    ensures Valid(Pong(Some(Ascii("hello"))))
    ensures Serialize(SpaceSeparated, ToResp(Pong(Some(Ascii("hello"))))) == Ascii("$10\r\n") + PONG_SPACE + Ascii("hello") + CRLF
  {
    var hello := Ascii("hello");
    AsciiIsValid(hello);
    TenHeader();
    EchoWire(SpaceSeparated, hello);
  }

  /** `"$10\r\n"` is the header of a ten-byte bulk string. */
  lemma TenHeader()
    ensures Ascii("$10\r\n") == [DOLLAR] + FormatInt(10) + CRLF
  {
    assert FormatInt(10) == [ZERO + 1, ZERO] by {
      assert NatDigits(10) == NatDigits(1) + [ZERO];
    }
  }

  /** `Pong(None)` is written as `"+PONG\r\n"`. */
  lemma PongWire(layout: Layout)
    ensures Serialize(layout, ToResp(Pong(None))) == Ascii("+PONG\r\n")
  {
  }
}
