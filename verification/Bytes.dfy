/** Bytes, the characters the JSON engine tests for, and text found at a position. */
module Bytes {
  type byte = b: int | 0 <= b < 256

  const TAB: byte := 0x09
  const LF: byte := 0x0A
  const CR: byte := 0x0D
  const SPACE: byte := 0x20
  const QUOTE: byte := 0x22
  const PLUS: byte := 0x2B
  const COMMA: byte := 0x2C
  const MINUS: byte := 0x2D
  const DOT: byte := 0x2E
  const SLASH: byte := 0x2F
  const ZERO: byte := 0x30
  const NINE: byte := 0x39
  const COLON: byte := 0x3A
  const UPPER_E: byte := 0x45
  const LBRACKET: byte := 0x5B
  const BACKSLASH: byte := 0x5C
  const RBRACKET: byte := 0x5D
  const LOWER_E: byte := 0x65
  const LOWER_U: byte := 0x75
  const LBRACE: byte := 0x7B
  const RBRACE: byte := 0x7D

  predicate IsDigit(c: byte) { ZERO <= c <= NINE }

  predicate IsWs(c: byte) { c == SPACE || c == LF || c == CR || c == TAB }

  predicate AllDigits(s: seq<byte>) { forall i | 0 <= i < |s| :: IsDigit(s[i]) }

  predicate AllWs(s: seq<byte>) { forall i | 0 <= i < |s| :: IsWs(s[i]) }

  /** The byte at p of a NUL-terminated text: past the last byte stands the terminator. */
  function Peek(t: seq<byte>, p: nat): byte { if p < |t| then t[p] else 0 }

  /** How many bytes of s are found in t from position p on, before the first mismatch. */
  function Matched(t: seq<byte>, p: nat, s: seq<byte>): (k: nat)
    ensures k <= |s|
    decreases |s|
  {
    if s != [] && p < |t| && t[p] == s[0] then 1 + Matched(t, p + 1, s[1..]) else 0
  }

  /** s stands in t from position p on. */
  predicate At(t: seq<byte>, p: nat, s: seq<byte>) { Matched(t, p, s) == |s| }

  lemma {:induction false} AtSlice(t: seq<byte>, p: nat, s: seq<byte>)
    requires p <= |t|
    ensures At(t, p, s) <==> p + |s| <= |t| && t[p..p + |s|] == s
    decreases |s|
  {
    if s != [] && p < |t| {
      AtSlice(t, p + 1, s[1..]);
      if p + |s| <= |t| { assert t[p..p + |s|] == [t[p]] + t[p + 1..p + |s|]; }
    }
  }

  lemma {:induction false} AtConcat(t: seq<byte>, p: nat, a: seq<byte>, b: seq<byte>)
    ensures At(t, p, a + b) <==> At(t, p, a) && At(t, p + |a|, b)
    decreases |a|
  {
    if a == [] {
      assert a + b == b;
    } else {
      assert (a + b)[1..] == a[1..] + b;
      AtConcat(t, p + 1, a[1..], b);
    }
  }

  lemma AtWhole(t: seq<byte>)
    ensures At(t, 0, t)
  {
    AtSlice(t, 0, t);
    assert t[0..|t|] == t;
  }

  lemma {:induction false} AtBound(t: seq<byte>, p: nat, s: seq<byte>)
    requires At(t, p, s) && s != []
    ensures p + |s| <= |t|
    decreases |s|
  {
    if |s| > 1 { AtBound(t, p + 1, s[1..]); }
  }
}
