/**
  UTF-8 well-formedness as `String::from_utf8` decides it: the byte sequences
  of Table 3-7 of the Unicode Standard (no overlong forms, no surrogates,
  nothing above U+10FFFF). A Rust `String` is modelled as its UTF-8 bytes.
 */
module Utf8 {
  import opened Bytes

  predicate IsContinuation(b: byte) {
    0x80 <= b <= 0xBF
  }

  /** Length of the well-formed encoded scalar value at the head of `s`, or 0 if there is none. */
  function CharWidth(s: seq<byte>): (w: nat)
    requires |s| > 0
    ensures w <= 4 && w <= |s|
  {
    var b0 := s[0];
    if b0 < 0x80 then 1
    else if 0xC2 <= b0 <= 0xDF then
      if |s| >= 2 && IsContinuation(s[1]) then 2 else 0
    else if b0 == 0xE0 then
      if |s| >= 3 && 0xA0 <= s[1] <= 0xBF && IsContinuation(s[2]) then 3 else 0
    else if 0xE1 <= b0 <= 0xEC || 0xEE <= b0 <= 0xEF then
      if |s| >= 3 && IsContinuation(s[1]) && IsContinuation(s[2]) then 3 else 0
    else if b0 == 0xED then
      if |s| >= 3 && 0x80 <= s[1] <= 0x9F && IsContinuation(s[2]) then 3 else 0
    else if b0 == 0xF0 then
      if |s| >= 4 && 0x90 <= s[1] <= 0xBF && IsContinuation(s[2]) && IsContinuation(s[3]) then 4 else 0
    else if 0xF1 <= b0 <= 0xF3 then
      if |s| >= 4 && IsContinuation(s[1]) && IsContinuation(s[2]) && IsContinuation(s[3]) then 4 else 0
    else if b0 == 0xF4 then
      if |s| >= 4 && 0x80 <= s[1] <= 0x8F && IsContinuation(s[2]) && IsContinuation(s[3]) then 4 else 0
    else 0
  }

  predicate ValidUtf8(s: seq<byte>)
    decreases |s|
  {
    |s| == 0 || (CharWidth(s) > 0 && ValidUtf8(s[CharWidth(s)..]))
  }

  /** The width decided at the head of `a` is unchanged by anything appended after it. */
  lemma CharWidthAppend(a: seq<byte>, b: seq<byte>)
    requires |a| > 0 && CharWidth(a) > 0
    ensures CharWidth(a + b) == CharWidth(a)
  {
    var w := CharWidth(a);
    assert forall i :: 0 <= i < w ==> (a + b)[i] == a[i];
  }

  /** Every ASCII byte sequence is well-formed UTF-8. */
  lemma {:induction false} AsciiIsValid(s: seq<byte>)
    requires AsciiBytes(s)
    ensures ValidUtf8(s)
    decreases |s|
  {
    if |s| > 0 {
      assert CharWidth(s) == 1;
      AsciiIsValid(s[1..]);
    }
  }

  /** Well-formed UTF-8 is closed under concatenation. */
  lemma {:induction false} ConcatValid(a: seq<byte>, b: seq<byte>)
    requires ValidUtf8(a) && ValidUtf8(b)
    ensures ValidUtf8(a + b)
    decreases |a|
  {
    if |a| == 0 {
      assert a + b == b;
    } else {
      var w := CharWidth(a);
      CharWidthAppend(a, b);
      assert (a + b)[w..] == a[w..] + b;
      ConcatValid(a[w..], b);
    }
  }

  /** Appending to a well-formed prefix: the result is well-formed when the appended part is. */
  lemma AppendValid(a: seq<byte>, b: seq<byte>)
    requires ValidUtf8(a)
    ensures ValidUtf8(b) ==> ValidUtf8(a + b)
  {
    if ValidUtf8(b) {
      ConcatValid(a, b);
    }
  }

  /** `to_ascii_lowercase` keeps a `String` well-formed: it only rewrites ASCII bytes, into ASCII bytes. */
  lemma {:induction false} LowercaseValid(s: seq<byte>)
    requires ValidUtf8(s)
    ensures ValidUtf8(ToAsciiLowercase(s))
    decreases |s|
  {
    var t := ToAsciiLowercase(s);
    if |s| > 0 {
      var w := CharWidth(s);
      assert forall i :: 1 <= i < |s| && s[i] >= 0x80 ==> t[i] == s[i];
      assert CharWidth(t) == w;
      assert t[w..] == ToAsciiLowercase(s[w..]);
      LowercaseValid(s[w..]);
    }
  }
}
