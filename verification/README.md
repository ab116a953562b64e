# RESP server core, modelled in Dafny

A model of the protocol layer of a small Redis-like server written in Rust:

- the incremental RESP2 parser over an append-only byte buffer (`RespParser` in
  src/resp.rs) and the wire serializer (the `Display` impl of `RespValue` in
  src/resp/types.rs);
- command decoding (`ClientCommand::try_from` in src/commands/client.rs), the
  error messages (src/commands/mod.rs) and the typed argument accessors
  (`CommandArgs` in src/commands/args.rs);
- the reply mapping (`ServerCommand` into `RespValue` in src/server/commands.rs)
  and the per-event handler (src/server/handler.rs).

Bytes are `int`s in `0..256`; a Rust `String` is its UTF-8 bytes together with
`Utf8.ValidUtf8` (the well-formedness rule of `String::from_utf8`). `i64` and
`isize` are the 64-bit signed range, and `str::parse` is an optional sign
followed by ASCII digits whose value is in range.

The parser is one pure function per decoder, from the buffer to a
`ParseResult`: a value and the buffer left behind, no value and the buffer left
behind, or a panic. Each decoder takes a `Mode`:

- `AsWritten` follows the code, including its defects (see Findings).
- `Intended` differs in exactly two places. It tests the two bytes after a bulk
  payload for the terminator. An array with an incomplete element is reported
  as incomplete.

The serializer takes a `Layout`:

- `SpaceSeparated` is the code's layout, with one space before each array item.
- `BackToBack` is the RESP layout.

The modules follow the source files:

- `Bytes`: CR LF, `find_crlf`, ASCII lowercasing
- `Utf8`: UTF-8 well-formedness
- `Decimal`: integer formatting and parsing
- `RespTypes`: src/resp/types.rs
- `Resp`: src/resp.rs
- `RespProperties`: round trips, progress, incomplete input
- `RespExamples`: the unit tests of both RESP files
- `Commands`: src/commands/mod.rs
- `ClientCommands`: src/commands/client.rs
- `Args`: src/commands/args.rs
- `ServerCommands`: src/server/commands.rs
- `ServerHandler`: src/server/handler.rs
- `Sessions`: a request followed from its bytes through decoding to the handler's reply

Two behaviours of the code that the model keeps as they are:

- **`ArityMismatch`:** src/commands/client.rs:16 and :38 build `ArityMismatch`
  with no payload, while src/commands/mod.rs:14 gives it a `String`. The model
  carries the command's name, which is "ping" for too many arguments and empty
  for the empty request.
- **Unparsable integers:** the `:` line is drained before its number is parsed
  (src/resp.rs:62-63). So an unparsable integer yields no value and a shorter
  buffer, as `RespProperties.UnparsableIntegerConsumed` states. This is the only
  case where "no value" comes with a shorter buffer.

How the array loop treats an element that is not complete yet is recorded
under Findings (src/resp.rs:112-116).

## Model

| member | source | states |
|---|---|---|
| Bytes.FindCrlf | src/resp.rs:124-126 | the index of the first CR LF pair, with no pair before it; `None` exactly when the buffer holds no CR LF |
| Bytes.ToAsciiLowercase | src/commands/client.rs:21-23 | same length; each byte in 'A'..'Z' is lowered, every other byte is kept |
| Decimal.FormatInt | src/resp/types.rs:41 | non-empty ASCII with no CR; digits only for non-negative values, a minus sign then digits for negative ones |
| Decimal.ParseI64 | src/resp.rs:63 | a value is produced only from non-empty ASCII text, and a negative value only from text that starts with '-' |
| Decimal.ParseFormat | src/resp.rs:59-65 | every i64 written in decimal parses back to itself |
| RespTypes.Serialize | src/resp/types.rs:36-56 | every serialization has at least three bytes and starts with its value's type byte |
| Resp.Parse | src/resp.rs:25-38 | progress: a value consumes at least three bytes; no value leaves the buffer unchanged except after a `:` line; values are well-formed; the intended parser never panics |
| Resp.HeaderLine | src/resp.rs:42-43 | the header's text is the bytes between the type byte and the first CR LF and holds no CR LF; it is absent exactly when the buffer has no CR LF |
| Resp.ParseSimpleString | src/resp.rs:41-46 | a simple string with clean, well-formed text that consumes at least three bytes; otherwise nothing is consumed and there is no panic |
| Resp.ParseError | src/resp.rs:50-55 | the same for the `-` line, yielding an error value |
| Resp.ParseInteger | src/resp.rs:59-65 | an integer that consumes at least three bytes; no value either consumes nothing or consumes the whole line |
| Resp.HeaderNumber | src/resp.rs:70-73 | a declared length or count lies in the 64-bit range, and the header it spans is at least three bytes |
| Resp.ParseBulkString | src/resp.rs:69-91 | a bulk or null bulk string that consumes at least three bytes; no value consumes nothing; the intended variant never panics |
| Resp.ParseArray | src/resp.rs:94-121 | an array or null array that consumes at least three bytes; no value consumes nothing; the intended variant never panics |
| Resp.ParseItems | src/resp.rs:105-117 | at most `count` well-formed items; the loop as written never reports incomplete input, and the intended loop never panics |
| Resp.NewParser | src/resp.rs:17-19 | a new parser's buffer is empty |
| Resp.Append | src/resp.rs:21-23 | the new buffer is the old buffer followed by the data, and nothing is parsed |
| Resp.ParseAll | src/resp.rs:133-142 | the loop drains at least three bytes per value and leaves a remainder no longer than its input; with the intended parser it never panics |
| Resp.ParseAllLoop | src/resp.rs:133-142 | the `while let` loop computes `ParseAll`: the same values and remainder, or a panic |
| RespProperties.NothingConsumed | src/resp.rs:25-38 | an empty buffer, a first byte that is not a type byte, or a buffer without CR LF yields no value and consumes nothing |
| RespProperties.ShortBulkNoValue | src/resp.rs:80-83 | a bulk string whose declared bytes and terminator are not all present yields no value and consumes nothing |
| RespProperties.SimpleLine | src/resp.rs:41-55 | a `+` or `-` line yields the bytes before the first CR LF and consumes exactly the line and its CR LF; non-UTF-8 text yields nothing and consumes nothing |
| RespProperties.LineHeader | src/resp.rs:42 | a line written as type byte, clean payload, CR LF is found with its payload and terminator index |
| RespProperties.NumberHeader | src/resp.rs:70-73 | a header written with a decimal number reads back as that number, with the header size |
| RespProperties.TextHeader | src/resp.rs:70-73 | any header text that `str::parse` accepts, with a sign or leading zeros, gives its number and a header of its length plus three bytes |
| RespProperties.IntegerLine | src/resp.rs:59-65 | any `:` line whose text `str::parse::<i64>` accepts yields that integer and consumes exactly the line |
| RespProperties.NumberTextHasNoCr | src/resp.rs:60-63 | text that parses as a number holds no CR LF, so the first CR LF of its line is the line's own |
| RespExamples.PlusZerosIntegerLine | src/resp.rs:59-65 | `:+007` CR LF yields the integer 7 and empties the buffer |
| RespProperties.SimpleLineRoundTrip | src/resp.rs:41-55 | a simple string or error without CR LF reads back from its serialization, leaving what followed it |
| RespProperties.IntegerRoundTrip | src/resp.rs:59-65 | every integer reads back from its serialization, in both modes |
| RespProperties.UnparsableIntegerConsumed | src/resp.rs:62-63 | a UTF-8 `:` line that is not an i64 yields no value but is consumed |
| RespProperties.NegativeLengthIsNullBulk | src/resp.rs:75-78 | a negative bulk length yields the null bulk string and consumes only the header |
| RespProperties.NegativeCountIsNullArray | src/resp.rs:100-103 | a negative array count yields the null array and consumes only the header |
| RespProperties.NullRoundTrip | src/resp/types.rs:45 | both null forms read back from their serializations |
| RespProperties.EmptyArrayRoundTrip | src/resp.rs:105-120 | `*0` followed by CR LF reads back as the empty array in both modes |
| RespProperties.RoundTripAsWritten | src/resp/types.rs:39-53 | with the code as written, lines, integers, null forms and the empty array read back from their serializations and leave an empty buffer |
| RespProperties.BulkRoundTripIntended | src/resp.rs:80-90 | with the intended terminator test, every bulk string reads back from its serialization |
| RespProperties.BulkAsWritten | src/resp.rs:86 | as written, a serialized bulk string reads back exactly when it is empty, or has 2 to 9 bytes and starts with CR LF; otherwise it yields nothing |
| RespProperties.FramedProbe | src/resp.rs:85-88 | the misplaced slice equals CR LF exactly under the condition above |
| RespProperties.RoundTrip | src/resp.rs:25-121 | every encodable value written back to back reads back with the intended parser, leaving what followed it |
| RespProperties.RoundTripItems | src/resp.rs:106-117 | the intended element loop reads back every item of a serialized sequence, in order |
| RespProperties.ItemsStall | src/resp.rs:106-117 | as written, once an element yields nothing every later attempt reads the same bytes, and the loop returns no items and consumes nothing |
| RespProperties.SpacedArrayAsWritten | src/resp/types.rs:46-51 | a non-empty array in the code's layout reads back as an empty array, and its items' bytes stay in the buffer |
| RespProperties.BulkHeadStalls | src/resp.rs:86-88 | items whose first bulk string fails the misplaced test yield nothing |
| RespProperties.StalledArray | src/resp.rs:106-120 | as written, an array whose first element yields nothing is read as the empty array, and its body is left in the buffer |
| RespProperties.NoLineNoValue | src/resp.rs:42 | bytes without CR LF yield no value and consume nothing, whatever the first byte |
| RespProperties.PrefixIncomplete | src/resp.rs:25-121 | with the intended parser, no strict prefix of a serialization yields a value or loses a byte |
| RespProperties.ArrayPrefixIncomplete | src/resp.rs:94-121 | the same for arrays: a cut anywhere in the header or items yields no value |
| RespProperties.ItemsPrefixIncomplete | src/resp.rs:106-117 | a strict prefix of serialized items leaves the intended element loop incomplete |
| RespProperties.IncrementalDelivery | src/resp.rs:21-38 | bytes delivered in two pieces: nothing after the first piece and no byte lost, then the value and an empty buffer after the second |
| RespProperties.ParseLeavesSuffix | src/resp.rs:44 | what any parse leaves is a suffix of the buffer it started with (lines 44, 53, 62, 76, 89, 101 and 119 all drain from the front) |
| RespProperties.ItemsLeaveSuffix | src/resp.rs:113-114 | the element loop's remainder is a suffix of the bytes after the header |
| RespProperties.ParseAllLeavesSuffix | src/resp.rs:138 | what the `parse_all` loop leaves is a suffix of its input |
| RespExamples.SimpleStringTest | src/resp.rs:145-148 | `+OK` then CR LF drains to `SimpleString("OK")` |
| RespExamples.ErrorTest | src/resp.rs:150-157 | the error line drains to that error |
| RespExamples.IntegerWithoutTerminatorTest | src/resp.rs:159-163 | `:12345` without CR LF drains to nothing and stays in the buffer |
| RespExamples.BulkStringTestAsWritten | src/resp.rs:165-169 | as written, `$6` CR LF `foobar` CR LF drains to nothing |
| RespExamples.BulkStringTestIntended | src/resp.rs:165-169 | with the intended test it drains to the bulk string "foobar" |
| RespExamples.EmptyBulkStringTest | src/resp.rs:171-175 | `$0` CR LF CR LF drains to the empty bulk string, even as written |
| RespExamples.NullBulkStringTest | src/resp.rs:177-181 | `$-1` CR LF drains to the null bulk string |
| RespExamples.ArrayTestAsWritten | src/resp.rs:183-193 | as written, the two-item request drains to one empty array, and the items' bytes stay in the buffer |
| RespExamples.ArrayTestIntended | src/resp.rs:183-193 | with the intended parser it drains to the array of "foo" and "bar" |
| RespExamples.EmptyArrayTest | src/resp.rs:195-199 | `*0` CR LF drains to the empty array |
| RespExamples.NullArrayTest | src/resp.rs:201-205 | `*-1` CR LF drains to the null array |
| RespExamples.LongLengthTokenPanics | src/resp.rs:86 | `$000` CR LF CR LF makes the code as written slice past the end of the buffer and panic |
| RespExamples.PanicsPastEnd | src/resp.rs:85-86 | as written, a bulk string whose bytes are all present panics when the buffer is shorter than 2·header_bytes−2; for a buffer holding just the value, that is when the length token has at least len+2 characters |
| RespExamples.ShortArray | src/resp.rs:112-119 | `*2` CR LF `+a` CR LF: as written, a one-item array and an emptied buffer; intended, no value and the buffer kept |
| RespExamples.DisplayLineTests | src/resp/types.rs:67-71 | `+OK`, `$-1` and `*-1`, each followed by CR LF, as the display tests expect |
| RespExamples.DisplayIntegerTest | src/resp/types.rs:91-95 | 42 is written as `:42` then CR LF |
| RespExamples.DisplayBulkTest | src/resp/types.rs:103-107 | "foobar" is written as `$6` CR LF `foobar` CR LF |
| RespExamples.DisplayArrayTest | src/resp/types.rs:130-137 | the two-item array is written with a space before each item |
| Commands.Message | src/commands/mod.rs:17-35 | "syntax error" exactly for the syntax and type errors; "invalid utf-8 string" exactly for the UTF-8 error; the quoted name sits between each kind's fixed prefix and suffix |
| Commands.Quote | src/commands/mod.rs:28-33 | prefix, name and suffix are recoverable from the quoted text, which is UTF-8 when the three parts are |
| Commands.MessageIsText | src/commands/mod.rs:17-35 | every message is a `String` whenever the name it quotes is one |
| Commands.MessageDetermines | src/commands/mod.rs:19-34 | equal messages come from equal errors, except that the syntax and type errors share one |
| ClientCommands.TryFrom | src/commands/client.rs:12-53 | for each outcome, exactly the values that produce it: `Ping(None)`, `Ping(Some(m))`, each arity, UTF-8, type and unknown-command error; never the syntax error |
| ClientCommands.PingArguments | src/commands/client.rs:28-41 | zero arguments, or one UTF-8 bulk string, succeed; a non-bulk argument is a type error; non-UTF-8 is a UTF-8 error; two or more arguments are an arity error naming "ping" |
| ClientCommands.UnknownNameIsString | src/commands/client.rs:42 | the reported unknown name is lowercased and is still a `String` |
| ClientCommands.DecodeEncode | src/commands/client.rs:14-41 | a command written the way clients write it decodes to itself |
| ClientCommands.NameCaseInsensitive | src/commands/client.rs:21-28 | names that lowercase alike decode alike |
| Args.Len | src/commands/args.rs:13-15 | the number of arguments wrapped, the bound below which the optional accessors find an argument present |
| Args.TakeBytes | src/commands/args.rs:17-23 | the bytes of a bulk or simple string at the index; anything else, or a missing index, is a type error |
| Args.TakeString | src/commands/args.rs:25-28 | succeeds exactly when `take_bytes` does and the bytes are UTF-8; its errors pass through, and bad UTF-8 is a UTF-8 error |
| Args.TakeOptString | src/commands/args.rs:30-37 | `None` exactly when the index is out of range, otherwise `take_string` wrapped in `Some` |
| Args.TakeInt | src/commands/args.rs:39-50 | an integer argument as it is, or the parsed text of a string; every failure is a type error |
| Args.ParsedInt | src/commands/args.rs:42-46 | a successful parse is the number, and any failure is a type error |
| Args.TakeOptInt | src/commands/args.rs:52-59 | `None` exactly when the index is out of range, otherwise `take_int` wrapped in `Some`; every error is a type error |
| Args.NotUtf8NeverInt | src/commands/args.rs:42-44 | bytes that are not UTF-8 never parse as an integer, so lossy decoding first changes nothing |
| Args.TakeIntFormatted | src/commands/args.rs:39-59 | an integer written in decimal in either kind of string reads back as itself |
| ServerCommands.ToResp | src/server/commands.rs:12-26 | "PONG" as a simple string; "PONG " plus the message as a bulk string; responses unchanged; errors keep their text; valid replies stay writable |
| ServerCommands.PongRecoverable | src/server/commands.rs:15-21 | distinct pongs map to distinct values, so the echoed message can be recovered |
| ServerCommands.ReplyReadsBack | src/server/commands.rs:12-26 | every valid reply with clean lines reads back from its serialization |
| ServerCommands.EchoWire | src/server/commands.rs:16-19 | an echo is written as `$`, the length 5 + \|m\|, CR LF, "PONG ", `m`, CR LF |
| ServerCommands.EchoHelloWire | src/server/commands.rs:17-18 | `Pong(Some("hello"))` is written as `$10` CR LF `PONG hello` CR LF |
| ServerCommands.PongWire | src/server/commands.rs:20 | `Pong(None)` is written as `+PONG` CR LF |
| ServerHandler.HandleClientEvent | src/server/handler.rs:4-15 | exactly one send, on the event's own responder, of the pong echoing the ping's message |
| ServerHandler.HandleAll | src/server/handler.rs:4-15 | handling a run of events sends one reply per event |
| ServerHandler.RoutedToResponder | src/server/handler.rs:5-13 | over any run of events, each sink receives exactly the pongs for its own pings, in order, and none for another sink |
| Sessions.ServeIntended | src/commands/client.rs:27-40 | with the intended parser, a client's command reads back whole and decodes to itself, and the handler, given it, makes one send of the matching pong on the client's own sink |
| Sessions.CommandsLostAsWritten | src/resp.rs:86 | as written, a command a client writes, at the front of the buffer, is read as an empty array, which decodes to an arity error; the items' bytes stay at the head of the buffer |
| Sessions.PingBytesIntended | src/server/handler.rs:8 | the bytes of a bare PING are read and decoded, and the reply the handler makes for it is written as `+PONG` CR LF |
| Sessions.PingBytesAsWritten | src/resp.rs:94-121 | as written, the bytes of a bare PING are read as an empty array, which decodes to an arity error |

## Left out

- The async server and client loops (src/server.rs, src/server/server.rs,
  src/client.rs, src/client/handler.rs): sockets, tokio tasks, channels and the
  timer. `Resp.ParseAllLoop` models the `parse_all` test helper, which appends
  once into a fresh parser. The client instead appends each read into a parser
  that persists (src/client/handler.rs:9, :21-22), so each read drains
  `Resp.ParseAll` of the leftover bytes followed by the new data.
- The reply path. `handle_client_event` (src/server/handler.rs:4) is not called
  from any loop: the server loops only print what they receive
  (src/server.rs:49-57, src/server/server.rs:44-57). The client drops its reply
  receiver (src/client/handler.rs:12) and only prints a decode error
  (src/client/handler.rs:28). So no reply is ever written. `ServerHandler` and
  `Sessions` state what the handler and the reply mapping would produce.
- The `unwrap()` on a closed reply channel (src/server/handler.rs:13). A send is
  recorded as a `Sent` entry and cannot fail.
- src/main.rs and src/client/mod.rs, which only wire modules together and bind
  an address. src/client/event.rs is modelled only as the `ClientEvent` record,
  with the responder as an opaque sink id.
- `Debug` formatting (src/resp/types.rs:14-34), which is diagnostic only.
- `String::from_utf8_lossy` in the bulk-string serializer: the serializer is
  defined only for bulk payloads that are UTF-8 (`RespTypes.Displayable`), where
  the lossy decoding writes the bytes unchanged.
- `Vec::with_capacity(count)` in `parse_array`: allocation failure for a huge
  declared count is not modelled.
- `isize` is taken to be 64 bits wide.
- Rust integer parsing is modelled only as far as an optional sign followed by
  ASCII digits within the i64 range. Whitespace and other inputs are rejected,
  as `str::parse` rejects them.
- The `_ => "OK"` arm of src/server/commands.rs:24 is unreachable (every variant
  has an earlier arm), so `ServerCommands.ToResp` has no such case.
- RespTypes.Serialize: its contract states only the length bound and the
  leading type byte. The exact bytes are its definition; they are checked
  against the display tests in `RespExamples` and read back by
  `RespProperties.RoundTrip`.
- Resp.ParseInteger: its contract does not name the integer a line yields.
  `RespProperties.IntegerLine` states it for every text `str::parse::<i64>`
  accepts, with a sign and leading zeros included.
- Resp.HeaderNumber: its contract bounds the number but does not name it.
  `RespProperties.TextHeader` states it for every header text `str::parse`
  accepts.
- Resp.ParseItems: its contract bounds the item count and keeps items
  well-formed. It does not say that each item is the parse of the next
  element in order. For the intended loop, `RespProperties.RoundTripItems`
  states the in-order reading of serialized items.
- Commands.Message: its contract gives the lengths and the quoted slice of the
  two quoting messages. That the message text is UTF-8 is stated separately, in
  `Commands.MessageIsText`.

## Findings

| source | as written | input that shows it | evidently intended | confidence | as-written member | corrected member |
|---|---|---|---|---|---|---|
| src/resp.rs:86 | the terminator test compares `buffer[header_bytes..header_bytes+len_end]` with CR LF, so any bulk string whose payload does not start with CR LF yields nothing | `$6` CR LF `foobar` CR LF yields no value (the test at lines 165-169 expects "foobar") | compare `buffer[header_bytes+len..total_size]`, the two bytes after the payload | not executed | RespProperties.BulkAsWritten | RespProperties.BulkRoundTripIntended |
| src/resp.rs:86 | the same slice ends at `2*header_bytes-2`, past the end when the buffer is shorter than that; for a buffer holding just the value, when the length token has at least len+2 characters | `$000` CR LF CR LF (8 bytes) slices bytes 6..10 and panics; `$00` CR LF CR LF slices 5..8 of 7 bytes | no panic on any input | not executed | RespExamples.LongLengthTokenPanics | Resp.Parse |
| src/resp.rs:112-116 | an element that yields nothing is skipped; the array is returned shorter and its bytes drained | `*2` CR LF `+a` CR LF gives a one-item array and an empty buffer | report no value and keep the buffer until the whole array is present | not executed | RespExamples.ShortArray | RespProperties.IncrementalDelivery |
| src/resp.rs:112-116 | together with line 86, the first bulk string of a command stalls and every later attempt re-reads it, so a command at the front of the buffer decodes as an empty array, and commands appended behind its bytes are never reached | `*1` CR LF `$4` CR LF `PING` CR LF gives `Array([])`, an arity error | the command is read and decoded | not executed | Sessions.CommandsLostAsWritten | Sessions.ServeIntended |
| src/resp/types.rs:49 | each array item is written after a space, which no decoder accepts as a type byte | `Array([SimpleString("OK"), Integer(42)])` reads back as an empty array | items back to back, as RESP writes them, so that serializations read back | not executed | RespProperties.SpacedArrayAsWritten | RespProperties.RoundTrip |
| src/resp.rs:159-163 | the integer test feeds `:12345` without CR LF, and the parser waits for the line's end | `:12345` drains to nothing | the test's input ends with CR LF | not executed | RespExamples.IntegerWithoutTerminatorTest | RespProperties.IntegerRoundTrip |
