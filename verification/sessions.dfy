/**
  A request followed through the layers: a client's command as bytes, read
  by the parser, decoded into a command, given to the handler, and the
  handler's reply mapped to the bytes it would be written as.
 */
module Sessions {
  import opened Wrappers
  import opened Bytes
  import opened Utf8
  import opened Decimal
  import opened RespTypes
  import opened Resp
  import opened RespProperties
  import opened Commands
  import opened ClientCommands
  import opened ServerCommands
  import opened ServerHandler

  /**
    With the intended parser, a command written the way clients write it is
    read back whole and decodes to itself, and the handler, given it, makes
    one send, on the client's own sink, of the pong that echoes its message.
   */
  lemma ServeIntended(c: ClientCommand, sink: SinkId, tail: seq<byte>)
    requires Sendable(c)
    ensures Parse(Intended, Serialize(BackToBack, Encode(c)) + tail) == Parsed(Encode(c), tail)
    ensures TryFrom(Encode(c)) == Ok(c)
    ensures HandleClientEvent(ClientEvent(c, sink)) == [Sent(sink, Pong(c.message))]
  {
    DecodeEncode(c);
    RoundTrip(Encode(c), tail);
  }

  /**
    With the parser as written, a command a client writes does not get
    through when it is at the front of the buffer: the first item, the bulk
    string "PING", fails the misplaced terminator test, so the array comes
    back empty, which decodes to an arity error with no command name. The
    items' bytes stay at the head of the buffer.
   */
  lemma CommandsLostAsWritten(c: ClientCommand, tail: seq<byte>)
    requires Sendable(c)
    ensures var body := SerializeItems(BackToBack, Encode(c).items);
      Parse(AsWritten, Serialize(BackToBack, Encode(c)) + tail) == Parsed(Array([]), body + tail)
    ensures TryFrom(Array([])) == Err(ArityMismatch([]))
  {
    DecodeEncode(c);
    PingHeadStalls(c, tail);
    StalledArray(Encode(c).items, tail);
  }

  /** As written, the items of an encoded command yield no value: the "PING" bulk string fails first. */
  lemma PingHeadStalls(c: ClientCommand, tail: seq<byte>)
    requires Sendable(c)
    ensures Displayable(Encode(c))
    ensures Parse(AsWritten, SerializeItems(BackToBack, Encode(c).items) + tail).NoValue?
  {
    var items := Encode(c).items;
    assert Displayable(Encode(c)) by {
      DecodeEncode(c);
    }
    assert items[0].data[..2] != CRLF by {
      assert items[0].data[0] == 'P' as int;
    }
    BulkHeadStalls(items, tail);
  }

  /** `*1\r\n$4\r\nPING\r\n` with the intended parser: `Ping(None)`, whose reply is written as `+PONG\r\n`. */
  lemma PingBytesIntended()
    ensures var req := Ascii("*1\r\n") + (Ascii("$4\r\n") + Ascii("PING") + CRLF);
      Parse(Intended, req) == Parsed(Encode(Ping(None)), [])
      && TryFrom(Encode(Ping(None))) == Ok(Ping(None))
      && Serialize(SpaceSeparated, ToResp(HandleClientEvent(ClientEvent(Ping(None), 0))[0].reply)) == Ascii("+PONG\r\n")
  {
    var req := PingRequestBytes();
    ServeIntended(Ping(None), 0, []);
    assert req + [] == req;
    PongWire(SpaceSeparated);
  }

  /** `*1\r\n$4\r\nPING\r\n` with the parser as written: an empty array, then an arity error. */
  lemma PingBytesAsWritten()
    ensures var req := Ascii("*1\r\n") + (Ascii("$4\r\n") + Ascii("PING") + CRLF);
      Parse(AsWritten, req) == Parsed(Array([]), (Ascii("$4\r\n") + Ascii("PING") + CRLF))
      && TryFrom(Array([])) == Err(ArityMismatch([]))
  {
    var req := PingRequestBytes();
    CommandsLostAsWritten(Ping(None), []);
    assert req + [] == req;
  }

  /** The bytes of a bare `PING` request are the serialization of `Encode(Ping(None))`. */
  lemma PingRequestBytes() returns (req: seq<byte>)
    ensures req == Ascii("*1\r\n") + (Ascii("$4\r\n") + Ascii("PING") + CRLF)
    ensures req == Serialize(BackToBack, Encode(Ping(None)))
    ensures SerializeItems(BackToBack, Encode(Ping(None)).items) + [] == Ascii("$4\r\n") + Ascii("PING") + CRLF
  {
    var name := Ascii("PING");
    AsciiIsValid(name);
    assert FormatInt(4) == [ZERO + 4];
    assert FormatInt(1) == [ZERO + 1];
    assert [BulkString(name)][1..] == [];
    assert SerializeItems(BackToBack, [BulkString(name)]) == (Ascii("$4\r\n") + Ascii("PING") + CRLF);
    req := Ascii("*1\r\n") + (Ascii("$4\r\n") + Ascii("PING") + CRLF);
  }
}
