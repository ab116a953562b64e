/**
  Turning a decoded protocol value into a client command: the
  `TryFrom<RespValue>` impl of `ClientCommand` (src/commands/client.rs).
 */
module ClientCommands {
  import opened Wrappers
  import opened Bytes
  import opened Utf8
  import opened Decimal
  import opened RespTypes
  import opened Commands

  /** The commands a client can send. The `PING` message is a `String`, kept as its UTF-8 bytes. */
  datatype ClientCommand = Ping(message: Option<seq<byte>>)

  /** The lowercased command name matched against. */
  const PING: seq<byte> := Ascii("ping")

  /** A bulk string whose bytes are a `String` that lowercases to "ping". */
  predicate NamesPing(head: RespValue) {
    head.BulkString? && ValidUtf8(head.data) && ToAsciiLowercase(head.data) == PING
  }

  /** The bytes a command name is read from: an inline string, or the head of an array. */
  predicate HasNameText(v: RespValue) {
    v.SimpleString? || (v.Array? && |v.items| > 0 && v.items[0].BulkString?)
  }

  function NameText(v: RespValue): seq<byte>
    requires HasNameText(v)
  {
    if v.SimpleString? then v.text else v.items[0].data
  }

  /**
    `ClientCommand::try_from`. An array is a command name (a bulk string,
    matched case-insensitively) followed by its arguments; an inline simple
    string is a command name with no arguments. The contract lists, for every
    outcome, exactly the values that produce it.
   */
  function TryFrom(v: RespValue): (r: Result<ClientCommand, CommandParseError>)
    ensures r == Ok(Ping(None)) <==>
      (v.SimpleString? && ToAsciiLowercase(v.text) == PING) || (v.Array? && |v.items| == 1 && NamesPing(v.items[0]))
    ensures r.Ok? && r.value.message.Some? <==>
      v.Array? && |v.items| == 2 && NamesPing(v.items[0]) && v.items[1].BulkString? && ValidUtf8(v.items[1].data)
    ensures r.Ok? && r.value.message.Some? ==> r.value.message.value == v.items[1].data
    ensures r == Err(ArityMismatch([])) <==> v == Array([])
    ensures r == Err(ArityMismatch(PING)) <==> v.Array? && |v.items| >= 3 && NamesPing(v.items[0])
    ensures r.Err? && r.error.UnknownCommand? <==>
      HasNameText(v) && (v.Array? ==> ValidUtf8(NameText(v))) && ToAsciiLowercase(NameText(v)) != PING
    ensures r.Err? && r.error.UnknownCommand? ==> r.error.name == ToAsciiLowercase(NameText(v))
    ensures r == Err(InvalidUtf8) <==>
      v.Array? && |v.items| > 0 && v.items[0].BulkString? &&
      (!ValidUtf8(v.items[0].data) || (NamesPing(v.items[0]) && |v.items| == 2 && v.items[1].BulkString? && !ValidUtf8(v.items[1].data)))
    ensures r == Err(InvalidType) <==>
      !(v.Array? || v.SimpleString?) ||
      (v.Array? && |v.items| > 0 && (!v.items[0].BulkString? || (NamesPing(v.items[0]) && |v.items| == 2 && !v.items[1].BulkString?)))
    ensures r.Err? ==> !r.error.InvalidSyntax?
  {
    match v
    case Array(items) =>
      if |items| == 0 then Err(ArityMismatch([]))
      else
        match items[0] {
          case BulkString(bs) =>
            if !ValidUtf8(bs) then Err(InvalidUtf8)
            else
              var name := ToAsciiLowercase(bs);
              if name == PING then PingArguments(items[1..]) else Err(UnknownCommand(name))
          case _ => Err(InvalidType)
        }
    case SimpleString(s) =>
      var name := ToAsciiLowercase(s);
      if name == PING then Ok(Ping(None)) else Err(UnknownCommand(name))
    case _ => Err(InvalidType)
  }

  /** The arguments after a "ping" name: none, or one bulk string that is a `String`. */
  function PingArguments(tail: seq<RespValue>): (r: Result<ClientCommand, CommandParseError>)
    ensures r.Ok? <==> |tail| == 0 || (|tail| == 1 && tail[0].BulkString? && ValidUtf8(tail[0].data))
    ensures r.Ok? ==> r.value.message == if |tail| == 0 then None else Some(tail[0].data)
    ensures |tail| >= 2 ==> r == Err(ArityMismatch(PING))
    ensures |tail| == 1 ==> r.Err? ==> r.error == if tail[0].BulkString? then InvalidUtf8 else InvalidType
  {
    if |tail| == 0 then Ok(Ping(None))
    else if |tail| == 1 then
      match tail[0]
      case BulkString(bs) => if ValidUtf8(bs) then Ok(Ping(Some(bs))) else Err(InvalidUtf8)
      case _ => Err(InvalidType)
    else Err(ArityMismatch(PING))
  }

  /** An unknown name is reported lowercased, and is still a `String` when the request was well-formed. */
  lemma UnknownNameIsString(v: RespValue)
    requires WellFormed(v)
    requires TryFrom(v).Err? && TryFrom(v).error.UnknownCommand?
    ensures ValidUtf8(TryFrom(v).error.name)
  {
    LowercaseValid(NameText(v));
  }

  /**
    How a client writes a command: an array of bulk strings, the upper-case
    name first.
   */
  function Encode(c: ClientCommand): (v: RespValue)
    ensures v.Array? && 0 < |v.items| <= 2 && v.items[0] == BulkString(Ascii("PING"))
    ensures forall i :: 0 <= i < |v.items| ==> v.items[i].BulkString?
  {
    match c.message
    case None => Array([BulkString(Ascii("PING"))])
    case Some(m) => Array([BulkString(Ascii("PING")), BulkString(m)])
  }

  /** Commands a client can write: the message, if any, is a `String` and fits a bulk string. */
  predicate Sendable(c: ClientCommand) {
    c.message.Some? ==> ValidUtf8(c.message.value) && |c.message.value| <= MAX_I64
  }

  /** Decoding an encoded command gives the command back. */
  lemma DecodeEncode(c: ClientCommand)
    requires Sendable(c)
    ensures TryFrom(Encode(c)) == Ok(c)
    ensures Encodable(Encode(c))
  {
    var name := Ascii("PING");
    AsciiIsValid(name);
    assert ToAsciiLowercase(name) == PING;
  }

  /**
    Command names are case-insensitive: two array requests whose names
    lowercase alike and whose arguments agree decode alike.
   */
  lemma NameCaseInsensitive(a: seq<byte>, b: seq<byte>, args: seq<RespValue>)
    requires ValidUtf8(a) && ValidUtf8(b) && ToAsciiLowercase(a) == ToAsciiLowercase(b)
    ensures TryFrom(Array([BulkString(a)] + args)) == TryFrom(Array([BulkString(b)] + args))
  {
    assert ([BulkString(a)] + args)[1..] == args;
    assert ([BulkString(b)] + args)[1..] == args;
  }
}
