/**
  Typed access to a command's arguments (`CommandArgs` in
  src/commands/args.rs). Indices are `usize` and so never negative.
 */
module Args {
  import opened Wrappers
  import opened Bytes
  import opened Utf8
  import opened Decimal
  import opened RespTypes
  import opened Commands

  /** A borrowed slice of argument values. */
  datatype CommandArgs = CommandArgs(args: seq<RespValue>)

  /** `CommandArgs::len`: the number of arguments wrapped, the bound the optional accessors test. */
  function Len(a: CommandArgs): (n: nat)
    ensures n == |a.args|
  {
    |a.args|
  }

  /** The values an argument's text can be read from. */
  predicate IsText(v: RespValue) {
    v.BulkString? || v.SimpleString?
  }

  function TextOf(v: RespValue): seq<byte>
    requires IsText(v)
  {
    if v.BulkString? then v.data else v.text
  }

  /**
    `take_bytes`: the bytes of a bulk string or of a simple string at
    `index`; anything else, including a missing argument, is `InvalidType`.
   */
  function TakeBytes(a: CommandArgs, index: nat): (r: Result<seq<byte>, CommandParseError>)
    ensures r.Ok? <==> index < Len(a) && IsText(a.args[index])
    ensures r.Ok? ==> r.value == TextOf(a.args[index])
    ensures r.Err? ==> r.error == InvalidType
  {
    if index < |a.args| then
      match a.args[index]
      case BulkString(bs) => Ok(bs)
      case SimpleString(s) => Ok(s)
      case _ => Err(InvalidType)
    else Err(InvalidType)
  }

  /**
    `take_string`: `take_bytes`, then the bytes must be a `String`. Errors of
    `take_bytes` pass through; bytes that are not UTF-8 are `InvalidUtf8`.
   */
  function TakeString(a: CommandArgs, index: nat): (r: Result<seq<byte>, CommandParseError>)
    ensures r.Ok? <==> TakeBytes(a, index).Ok? && ValidUtf8(TakeBytes(a, index).value)
    ensures r.Ok? ==> r.value == TakeBytes(a, index).value && ValidUtf8(r.value)
    ensures TakeBytes(a, index).Err? ==> r == Err(TakeBytes(a, index).error)
    ensures TakeBytes(a, index).Ok? && !ValidUtf8(TakeBytes(a, index).value) ==> r == Err(InvalidUtf8)
  {
    var bs :- TakeBytes(a, index);
    if ValidUtf8(bs) then Ok(bs) else Err(InvalidUtf8)
  }

  /** `take_opt_string`: `None` exactly when the argument is absent, otherwise `take_string`. */
  function TakeOptString(a: CommandArgs, index: nat): (r: Result<Option<seq<byte>>, CommandParseError>)
    ensures r == Ok(None) <==> index >= Len(a)
    ensures index < Len(a) ==> (r.Ok? <==> TakeString(a, index).Ok?)
    ensures index < Len(a) && r.Ok? ==> r.value == Some(TakeString(a, index).value)
    ensures index < Len(a) && r.Err? ==> r.error == TakeString(a, index).error
  {
    if index < Len(a) then
      var s :- TakeString(a, index);
      Ok(Some(s))
    else Ok(None)
  }

  /**
    `take_int`: an integer argument as it is, or the text of a bulk or simple
    string read by `str::parse::<i64>`. Every failure is `InvalidType`.

    The bulk-string case first runs `String::from_utf8_lossy`, which only
    replaces bytes that are not ASCII; the text is read from the raw bytes
    here, which `NotUtf8NeverInt` shows gives the same answer.
   */
  function TakeInt(a: CommandArgs, index: nat): (r: Result<i64, CommandParseError>)
    ensures r.Ok? <==>
      index < Len(a) && (a.args[index].Integer? || (IsText(a.args[index]) && ParseI64(TextOf(a.args[index])).Some?))
    ensures r.Ok? && a.args[index].Integer? ==> r.value == a.args[index].n
    ensures r.Ok? && IsText(a.args[index]) ==> Some(r.value) == ParseI64(TextOf(a.args[index]))
    ensures r.Err? ==> r.error == InvalidType
  {
    if index < |a.args| then
      match a.args[index]
      case Integer(i) => Ok(i)
      case BulkString(bs) => ParsedInt(bs)
      case SimpleString(s) => ParsedInt(s)
      case _ => Err(InvalidType)
    else Err(InvalidType)
  }

  function ParsedInt(s: seq<byte>): (r: Result<i64, CommandParseError>)
    ensures r.Ok? <==> ParseI64(s).Some?
    ensures r.Ok? ==> r.value == ParseI64(s).value
    ensures r.Err? ==> r.error == InvalidType
  {
    match ParseI64(s)
    case Some(i) => Ok(i)
    case None => Err(InvalidType)
  }

  /** `take_opt_int`: `None` exactly when the argument is absent, otherwise `take_int`. */
  function TakeOptInt(a: CommandArgs, index: nat): (r: Result<Option<i64>, CommandParseError>)
    ensures r == Ok(None) <==> index >= Len(a)
    ensures index < Len(a) ==> (r.Ok? <==> TakeInt(a, index).Ok?)
    ensures index < Len(a) && r.Ok? ==> r.value == Some(TakeInt(a, index).value)
    ensures r.Err? ==> r.error == InvalidType
  {
    if index < Len(a) then
      var i :- TakeInt(a, index);
      Ok(Some(i))
    else Ok(None)
  }

  /**
    Text that is not UTF-8 never reads as an integer: an integer's text is
    ASCII. So decoding with replacement characters first changes nothing.
   */
  lemma NotUtf8NeverInt(s: seq<byte>)
    requires !ValidUtf8(s)
    ensures ParseI64(s).None?
  {
    if ParseI64(s).Some? {
      AsciiIsValid(s);
    }
  }

  /** An integer written in decimal, in either kind of string, reads back as that integer. */
  lemma TakeIntFormatted(a: CommandArgs, index: nat, n: i64)
    requires index < Len(a)
    requires a.args[index] == BulkString(FormatInt(n)) || a.args[index] == SimpleString(FormatInt(n))
    ensures TakeInt(a, index) == Ok(n)
    ensures TakeOptInt(a, index) == Ok(Some(n))
  {
    ParseFormat(n);
  }
}
