/** Strict UTF-8 well-formedness, as the `utf-8` codec behind `str(result, 'utf-8')` checks it
    (ota.py:91): a byte string decodes only if it is a sequence of the well-formed byte sequences
    of table 3-7 of the Unicode Standard, chapter 3 (no overlong forms, no surrogates, nothing
    above U+10FFFF). Otherwise decoding raises and the rest of the handler does not run. */
module Utf8 {
  import opened Wire

  predicate IsContinuation(b: byte)
  {
    0x80 <= b <= 0xBF
  }

  /** The length of the well-formed sequence that `s` starts with, or 0 when it starts with none. */
  function LeadLength(s: seq<byte>): (n: nat)
    ensures n <= 4 && n <= |s|
    ensures n > 0 ==> |s| > 0 && !IsContinuation(s[0])
  {
    if |s| == 0 then 0
    else if s[0] <= 0x7F then 1
    else if 0xC2 <= s[0] <= 0xDF then
      (if |s| >= 2 && IsContinuation(s[1]) then 2 else 0)
    else if s[0] == 0xE0 then
      (if |s| >= 3 && 0xA0 <= s[1] <= 0xBF && IsContinuation(s[2]) then 3 else 0)
    else if 0xE1 <= s[0] <= 0xEC || 0xEE <= s[0] <= 0xEF then
      (if |s| >= 3 && IsContinuation(s[1]) && IsContinuation(s[2]) then 3 else 0)
    else if s[0] == 0xED then
      (if |s| >= 3 && 0x80 <= s[1] <= 0x9F && IsContinuation(s[2]) then 3 else 0)
    else if s[0] == 0xF0 then
      (if |s| >= 4 && 0x90 <= s[1] <= 0xBF && IsContinuation(s[2]) && IsContinuation(s[3]) then 4 else 0)
    else if 0xF1 <= s[0] <= 0xF3 then
      (if |s| >= 4 && IsContinuation(s[1]) && IsContinuation(s[2]) && IsContinuation(s[3]) then 4 else 0)
    else if s[0] == 0xF4 then
      (if |s| >= 4 && 0x80 <= s[1] <= 0x8F && IsContinuation(s[2]) && IsContinuation(s[3]) then 4 else 0)
    else 0
  }

  /** `s` decodes as strict UTF-8. */
  predicate IsUtf8(s: seq<byte>)
    decreases |s|
  {
    |s| == 0 || (LeadLength(s) > 0 && IsUtf8(s[LeadLength(s)..]))
  }

  /** The UTF-8 encoding of one Unicode scalar value (a code point that is not a surrogate). */
  function EncodeScalar(cp: nat): (r: seq<byte>)
    requires cp < 0x11_0000 && !(0xD800 <= cp <= 0xDFFF)
  {
    if cp < 0x80 then [cp]
    else if cp < 0x800 then [0xC0 + cp / 64, 0x80 + cp % 64]
    else if cp < 0x1_0000 then [0xE0 + cp / 4096, 0x80 + cp / 64 % 64, 0x80 + cp % 64]
    else [0xF0 + cp / 0x4_0000, 0x80 + cp / 4096 % 64, 0x80 + cp / 64 % 64, 0x80 + cp % 64]
  }

  /** The encoding of every scalar value is read back as exactly one well-formed sequence,
      whatever follows it. */
  lemma EncodeScalarIsOneSequence(cp: nat, rest: seq<byte>)
    requires cp < 0x11_0000 && !(0xD800 <= cp <= 0xDFFF)
    ensures LeadLength(EncodeScalar(cp) + rest) == |EncodeScalar(cp)|
  {
    if cp < 0x800 {
    } else if cp < 0x1_0000 {
      ThreeByteIsOneSequence(cp, rest);
    } else {
      FourByteIsOneSequence(cp, rest);
    }
  }

  lemma ThreeByteIsOneSequence(cp: nat, rest: seq<byte>)
    requires 0x800 <= cp < 0x1_0000 && !(0xD800 <= cp <= 0xDFFF)
    ensures LeadLength(EncodeScalar(cp) + rest) == 3
  {
    var s := EncodeScalar(cp) + rest;
    var lead, mid := cp / 4096, cp / 64 % 64;
    assert s[0] == 0xE0 + lead && s[1] == 0x80 + mid && s[2] == 0x80 + cp % 64;
    assert lead == 0 ==> mid >= 32;
    assert lead == 13 ==> mid < 32;
  }

  lemma FourByteIsOneSequence(cp: nat, rest: seq<byte>)
    requires 0x1_0000 <= cp < 0x11_0000
    ensures LeadLength(EncodeScalar(cp) + rest) == 4
  {
    var s := EncodeScalar(cp) + rest;
    var lead, second := cp / 0x4_0000, cp / 4096 % 64;
    assert s[0] == 0xF0 + lead && s[1] == 0x80 + second;
    assert s[2] == 0x80 + cp / 64 % 64 && s[3] == 0x80 + cp % 64;
    assert lead == 0 ==> second >= 16;
    assert lead == 4 ==> second < 16;
  }

  /** A well-formed sequence at the start of a string is still recognised when more bytes follow. */
  lemma LeadLengthPrefix(a: seq<byte>, b: seq<byte>)
    requires LeadLength(a) > 0
    ensures LeadLength(a + b) == LeadLength(a)
  {
    assert forall k :: 0 <= k < |a| ==> (a + b)[k] == a[k];
  }

  /** Well-formed text followed by well-formed text is well-formed. */
  lemma {:induction false} ConcatIsUtf8(a: seq<byte>, b: seq<byte>)
    requires IsUtf8(a) && IsUtf8(b)
    ensures IsUtf8(a + b)
    decreases |a|
  {
    if |a| == 0 {
      assert a + b == b;
    } else {
      var n := LeadLength(a);
      LeadLengthPrefix(a, b);
      ConcatIsUtf8(a[n..], b);
      DropAppend(a, b, n);
    }
  }

  lemma DropAppend(a: seq<byte>, b: seq<byte>, n: nat)
    requires n <= |a|
    ensures (a + b)[n..] == a[n..] + b
  {
  }

  /** 7-bit ASCII text is well-formed. */
  lemma {:induction false} AsciiIsUtf8(s: seq<byte>)
    requires forall i :: 0 <= i < |s| ==> s[i] < 0x80
    ensures IsUtf8(s)
    decreases |s|
  {
    if |s| > 0 {
      AsciiIsUtf8(s[1..]);
    }
  }

  /** Text that starts with a continuation byte does not decode. */
  lemma ContinuationFirstIsIllFormed(s: seq<byte>)
    requires |s| > 0 && IsContinuation(s[0])
    ensures !IsUtf8(s)
  {
  }

  /** The overlong two-byte form of U+0000 and the encoded surrogate U+D800 do not decode,
      whatever follows them. */
  lemma IllFormedExamples(s: seq<byte>)
    ensures !IsUtf8([0xC0, 0x80] + s)
    ensures !IsUtf8([0xED, 0xA0, 0x80] + s)
  {
    var t := [0xC0, 0x80] + s;
    assert t[0] == 0xC0;
    assert LeadLength(t) == 0;
    var u := [0xED, 0xA0, 0x80] + s;
    assert u[0] == 0xED && u[1] == 0xA0;
    assert LeadLength(u) == 0;
  }
}
