/**
  Command decoding errors and their `Display` messages (src/commands/mod.rs).
 */
module Commands {
  import opened Bytes
  import opened Utf8

  /**
    Why a protocol value is not a command. The payloads are Rust `String`s,
    kept as their UTF-8 bytes. `ArityMismatch` carries the name of the
    command whose argument count is wrong; the empty request has no name and
    carries the empty string.
   */
  datatype CommandParseError =
    | InvalidSyntax
    | InvalidType
    | InvalidUtf8
    | UnknownCommand(name: seq<byte>)
    | ArityMismatch(command: seq<byte>)

  const SYNTAX_ERROR: seq<byte> := Ascii("syntax error")
  const INVALID_UTF8: seq<byte> := Ascii("invalid utf-8 string")
  const UNKNOWN_PREFIX: seq<byte> := Ascii("unknown command '")
  const UNKNOWN_SUFFIX: seq<byte> := Ascii("'")
  const ARITY_PREFIX: seq<byte> := Ascii("wrong number of arguments for '")
  const ARITY_SUFFIX: seq<byte> := Ascii("' command")

  /** The two errors that the message does not tell apart. */
  predicate IsSyntax(e: CommandParseError) {
    e.InvalidSyntax? || e.InvalidType?
  }

  /** The name an error message quotes, if any. */
  function Quoted(e: CommandParseError): seq<byte> {
    match e
    case UnknownCommand(c) => c
    case ArityMismatch(c) => c
    case _ => []
  }

  /**
    `format!("{}", e)`. The quoted name sits between a fixed prefix and a
    fixed suffix that depend only on the kind of error, and the first byte
    tells the kinds apart.
   */
  function Message(e: CommandParseError): (r: seq<byte>)
    ensures IsSyntax(e) <==> r == SYNTAX_ERROR
    ensures e.InvalidUtf8? <==> r == INVALID_UTF8
    ensures e.UnknownCommand? ==> |r| == |UNKNOWN_PREFIX| + |e.name| + |UNKNOWN_SUFFIX|
    ensures e.UnknownCommand? ==> r[|UNKNOWN_PREFIX|..|r| - |UNKNOWN_SUFFIX|] == e.name
    ensures e.ArityMismatch? ==> |r| == |ARITY_PREFIX| + |e.command| + |ARITY_SUFFIX|
    ensures e.ArityMismatch? ==> r[|ARITY_PREFIX|..|r| - |ARITY_SUFFIX|] == e.command
  {
    match e
    case InvalidSyntax => SYNTAX_ERROR
    case InvalidType => SYNTAX_ERROR
    case InvalidUtf8 => INVALID_UTF8
    case UnknownCommand(c) => Quote(UNKNOWN_PREFIX, c, UNKNOWN_SUFFIX)
    case ArityMismatch(c) => Quote(ARITY_PREFIX, c, ARITY_SUFFIX)
  }

  /** A message is a `String` whenever the name it quotes is one. */
  lemma MessageIsText(e: CommandParseError)
    requires ValidUtf8(Quoted(e))
    ensures ValidUtf8(Message(e))
  {
    match e
    case InvalidSyntax => AsciiIsValid(SYNTAX_ERROR);
    case InvalidType => AsciiIsValid(SYNTAX_ERROR);
    case InvalidUtf8 => AsciiIsValid(INVALID_UTF8);
    case UnknownCommand(c) =>
      AsciiIsValid(UNKNOWN_PREFIX);
      AsciiIsValid(UNKNOWN_SUFFIX);
    case ArityMismatch(c) =>
      AsciiIsValid(ARITY_PREFIX);
      AsciiIsValid(ARITY_SUFFIX);
  }

  /** `c` between a prefix and a suffix; UTF-8 when all three are. */
  function Quote(prefix: seq<byte>, c: seq<byte>, suffix: seq<byte>): (r: seq<byte>)
    ensures |r| == |prefix| + |c| + |suffix|
    ensures r[..|prefix|] == prefix && r[|prefix|..|r| - |suffix|] == c && r[|r| - |suffix|..] == suffix
    ensures ValidUtf8(prefix) && ValidUtf8(c) && ValidUtf8(suffix) ==> ValidUtf8(r)
  {
    QuoteValid(prefix, c, suffix);
    prefix + c + suffix
  }

  lemma QuoteValid(prefix: seq<byte>, c: seq<byte>, suffix: seq<byte>)
    ensures ValidUtf8(prefix) && ValidUtf8(c) && ValidUtf8(suffix) ==> ValidUtf8(prefix + c + suffix)
  {
    if ValidUtf8(prefix) && ValidUtf8(c) && ValidUtf8(suffix) {
      ConcatValid(prefix, c);
      ConcatValid(prefix + c, suffix);
    }
  }

  /**
    A message names its error: two errors with the same message are equal,
    except that `InvalidSyntax` and `InvalidType` share "syntax error".
   */
  lemma MessageDetermines(e1: CommandParseError, e2: CommandParseError)
    requires Message(e1) == Message(e2)
    ensures e1 == e2 || (IsSyntax(e1) && IsSyntax(e2))
  {
    var m := Message(e1);
    if e1.UnknownCommand? || e1.ArityMismatch? {
      assert m[0] == if e1.UnknownCommand? then 'u' as int else 'w' as int;
      assert m != SYNTAX_ERROR && m != INVALID_UTF8 by {
        assert SYNTAX_ERROR[0] == 's' as int && INVALID_UTF8[0] == 'i' as int;
      }
      assert e2.UnknownCommand? || e2.ArityMismatch?;
      assert m[0] == if e2.UnknownCommand? then 'u' as int else 'w' as int;
    }
  }
}
