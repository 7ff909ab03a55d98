/** The encodings of rapidjson/rapidjson.h undo one another: UTF-8 can be decoded (section 3 of RFC
    3629), and the \u escapes of a code point's UTF-16 units (section 2.1 of RFC 2781) are read back as
    its UTF-8 bytes. */
module Unicode {
  import opened Bytes
  import opened Json
  import opened Utf
  import opened ReaderSpec
  import opened Grammar
  import opened Completeness
  import opened Language
  import opened Printing

  /** A code point that is not a surrogate. */
  type Scalar = cp: nat | cp <= 0x10FFFF && !(0xD800 <= cp <= 0xDFFF) witness 0

  /** UTF16::Encode. */
  function Utf16(cp: Scalar): (units: seq<nat>)
    ensures |units| == 1 || |units| == 2
  {
    if cp <= 0xFFFF then [cp] else [(cp - 0x10000) / 0x400 + 0xD800, (cp - 0x10000) % 0x400 + 0xDC00]
  }

  /** The bytes of several code points. */
  function Utf8All(cps: seq<Scalar>): seq<byte> {
    if cps == [] then [] else Utf8(cps[0]) + Utf8All(cps[1..])
  }

  // --- decoding UTF-8 ---

  /** The length of a sequence, by its first byte. */
  function SequenceLength(lead: byte): nat {
    if lead < 0x80 then 1 else if lead < 0xE0 then 2 else if lead < 0xF0 then 3 else 4
  }

  /** The bits of a byte after the first. */
  function Tail(b: byte): int { b - 0x80 }

  /** The code point of the sequence that s starts with. */
  function DecodeFirst(s: seq<byte>): int
    requires s != [] && SequenceLength(s[0]) <= |s|
  {
    match SequenceLength(s[0])
    case 1 => s[0]
    case 2 => (s[0] - 0xC0) * 0x40 + Tail(s[1])
    case 3 => ((s[0] - 0xE0) * 0x40 + Tail(s[1])) * 0x40 + Tail(s[2])
    case _ => (((s[0] - 0xF0) * 0x40 + Tail(s[1])) * 0x40 + Tail(s[2])) * 0x40 + Tail(s[3])
  }

  lemma DecodesFirst(cp: nat, rest: seq<byte>)
    requires cp <= 0x10FFFF
    ensures SequenceLength(Utf8(cp)[0]) == |Utf8(cp)|
    ensures DecodeFirst(Utf8(cp) + rest) == cp
  {
    var s := Utf8(cp);
    assert forall i | 0 <= i < |s| :: (s + rest)[i] == s[i];
    if 0xFFFF < cp {
      assert cp / 0x1000 == cp / 0x40000 * 0x40 + cp / 0x1000 % 0x40;
      assert cp / 0x40 == cp / 0x1000 * 0x40 + cp / 0x40 % 0x40;
    } else if 0x7FF < cp {
      assert cp / 0x40 == cp / 0x1000 * 0x40 + cp / 0x40 % 0x40;
    }
  }

  /** No encoding is a prefix of another one; so different code points have different encodings. */
  lemma PrefixFree(a: nat, b: nat)
    requires a <= 0x10FFFF && b <= 0x10FFFF && Utf8(a) <= Utf8(b)
    ensures a == b
  {
    assert Utf8(b) == Utf8(a) + Utf8(b)[|Utf8(a)|..];
    DecodesFirst(a, Utf8(b)[|Utf8(a)|..]);
    DecodesFirst(b, []);
    assert Utf8(b) + [] == Utf8(b);
  }

  /** Bytes encode at most one sequence of code points. */
  lemma {:induction false} UniquelyDecodable(a: seq<Scalar>, b: seq<Scalar>)
    requires Utf8All(a) == Utf8All(b)
    ensures a == b
    decreases |a|
  {
    if a != [] && b != [] {
      DecodesFirst(a[0], Utf8All(a[1..]));
      DecodesFirst(b[0], Utf8All(b[1..]));
      var s := Utf8All(a);
      assert s[|Utf8(a[0])|..] == Utf8All(a[1..]) && s[|Utf8(b[0])|..] == Utf8All(b[1..]);
      UniquelyDecodable(a[1..], b[1..]);
      assert a == [a[0]] + a[1..] && b == [b[0]] + b[1..];
    }
  }

  // --- reading \u escapes ---

  /** c is the \u escape, or the pair of escapes, of the code point's UTF-16 units, in any spelling. */
  predicate Escapes(c: Char, cp: Scalar) {
    match c
    case Unit(hex) => Utf16(cp) == [HexNumber(hex)]
    case Pair(hi, lo) => Utf16(cp) == [HexNumber(hi), HexNumber(lo)]
    case _ => false
  }

  /** Four digits, as a writer of \u escapes would put them. */
  function Spelled(n: nat): (hex: Hex4)
    requires n <= 0xFFFF
    ensures HexNumber(hex) == n
  {
    var (n1, n2, n3) := (n / 0x10, n / 0x10 / 0x10, n / 0x10 / 0x10 / 0x10);
    [HexDigit(n3), HexDigit(n2 % 0x10), HexDigit(n1 % 0x10), HexDigit(n % 0x10)]
  }

  /** Every code point can be escaped. */
  function EscapeFor(cp: Scalar): (c: Char)
    ensures Escapes(c, cp)
  {
    var units := Utf16(cp);
    if |units| == 1 then Unit(Spelled(units[0])) else Pair(Spelled(units[0]), Spelled(units[1]))
  }

  lemma EscapeDenotes(c: Char, cp: Scalar)
    requires Escapes(c, cp)
    ensures CharBytes(c) == Utf8(cp)
    ensures c.Unit? ==> !IsHigh(c.hex)
  {}

  lemma {:induction false} EscapesDenote(cs: seq<Char>, cps: seq<Scalar>, acc: seq<byte>)
    requires |cs| == |cps| && forall i | 0 <= i < |cs| :: Escapes(cs[i], cps[i])
    ensures CharsBytes(cs, acc) == acc + Utf8All(cps)
    decreases |cs|
  {
    hide Escapes, CharBytes, Utf8;
    if cs == [] {
      assert acc + Utf8All(cps) == acc;
    } else {
      EscapeDenotes(cs[0], cps[0]);
      EscapesDenote(cs[1..], cps[1..], acc + Utf8(cps[0]));
      assert acc + Utf8(cps[0]) + Utf8All(cps[1..]) == acc + Utf8All(cps);
    }
  }

  lemma EscapesReadable(cs: seq<Char>, cps: seq<Scalar>)
    requires |cs| == |cps| && forall i | 0 <= i < |cs| :: Escapes(cs[i], cps[i])
    ensures CharsReadable(cs)
  {}

  /** A string of escaped code points is read as the UTF-8 bytes of these code points. */
  lemma ReadsEscapedText(t: seq<byte>, p: nat, ev: seq<Event>, cs: seq<Char>, cps: seq<Scalar>)
    requires |cs| == |cps| && forall i | 0 <= i < |cs| :: Escapes(cs[i], cps[i])
    requires At(t, p, StringText(cs))
    ensures ParseString(t, p, ev) == Done(ev + [String(Copied(Utf8All(cps)))], p + |StringText(cs)|)
  {
    StringPlace(t, p, cs);
    EscapesDenote(cs, cps, []);
    EscapesReadable(cs, cps);
    ReadsString(t, p, ev, cs);
    assert [] + Utf8All(cps) == Utf8All(cps);
  }
}
