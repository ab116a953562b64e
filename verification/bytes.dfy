/**
  Bytes, ASCII literals and the CRLF line terminator, shared by the codec and
  the command layer.
 */
module Bytes {
  import opened Wrappers

  type byte = x: int | 0 <= x < 256

  const CR: byte := 0x0D
  const LF: byte := 0x0A
  const SPACE: byte := 0x20
  const CRLF: seq<byte> := [CR, LF]

  /** The bytes of a literal, one per character; a character outside ASCII becomes `?`. */
  function Ascii(s: string): (r: seq<byte>)
    ensures |r| == |s| && AsciiBytes(r)
  {
    seq(|s|, i requires 0 <= i < |s| => if s[i] as int < 128 then s[i] as int else 0x3F)
  }


  predicate AsciiBytes(s: seq<byte>) {
    forall i :: 0 <= i < |s| ==> s[i] < 128
  }

  /** True when a CR LF pair starts at index `j` of `buf`. */
  predicate CrlfAt(buf: seq<byte>, j: int) {
    0 <= j && j + 1 < |buf| && buf[j] == CR && buf[j + 1] == LF
  }

  predicate NoCrlf(s: seq<byte>) {
    forall j :: 0 <= j < |s| ==> !CrlfAt(s, j)
  }

  /** The first CR LF pair at or after `from`. */
  function FindCrlfFrom(buf: seq<byte>, from: nat): (r: Option<nat>)
    requires from <= |buf|
    decreases |buf| - from
    ensures r.Some? ==> from <= r.value && CrlfAt(buf, r.value)
    ensures r.Some? ==> forall j :: from <= j < r.value ==> !CrlfAt(buf, j)
    ensures r.None? ==> forall j :: from <= j ==> !CrlfAt(buf, j)
  {
    if from + 1 >= |buf| then None
    else if buf[from] == CR && buf[from + 1] == LF then Some(from)
    else FindCrlfFrom(buf, from + 1)
  }

  /**
    `find_crlf`: the position of the first two-byte window equal to CR LF,
    or None when there is no such window.
   */
  function FindCrlf(buf: seq<byte>): (r: Option<nat>)
    ensures r.Some? ==> CrlfAt(buf, r.value)
    ensures r.Some? ==> forall j :: 0 <= j < r.value ==> !CrlfAt(buf, j)
    ensures r.None? <==> NoCrlf(buf)
  {
    FindCrlfFrom(buf, 0)
  }

  /** A CR LF at `e` with none before it is exactly what FindCrlf reports. */
  lemma FindCrlfIs(buf: seq<byte>, e: nat)
    requires CrlfAt(buf, e)
    requires forall j :: 0 <= j < e ==> !CrlfAt(buf, j)
    ensures FindCrlf(buf) == Some(e)
  {
  }

  /** `u8::to_ascii_lowercase`: only 'A'..'Z' change. */
  function LowerByte(b: byte): (r: byte)
    ensures 0x41 <= b <= 0x5A ==> r == b + 0x20
    ensures !(0x41 <= b <= 0x5A) ==> r == b
  {
    if 0x41 <= b <= 0x5A then b + 0x20 else b
  }

  /** `str::to_ascii_lowercase`, byte by byte. */
  function ToAsciiLowercase(s: seq<byte>): (r: seq<byte>)
    ensures |r| == |s|
    ensures forall i :: 0 <= i < |s| ==> r[i] == LowerByte(s[i])
  {
    if |s| == 0 then [] else [LowerByte(s[0])] + ToAsciiLowercase(s[1..])
  }
}
