/** Where a string or a number breaks off: the error and the offset that the reader reports, told from the
    bytes. What stands before is read, and the bytes at one place decide. */
module Defects {
  import opened Options
  import opened Bytes
  import opened Decimal
  import opened Json
  import opened Utf
  import opened Limits
  import opened ReaderSpec
  import opened Grammar
  import opened Places
  import opened Completeness
  import opened Soundness
  import opened Integers

  // --- strings ---

  /** The characters cs stand from p on, whatever follows. */
  predicate CharsRun(t: seq<byte>, p: nat, cs: seq<Char>)
    decreases |cs|
  {
    cs != [] ==> CharAt(t, p, cs[0]) && CharsRun(t, CharEnd(p, cs[0]), cs[1..])
  }

  function CharsStop(p: nat, cs: seq<Char>): nat
    decreases |cs|
  {
    if cs == [] then p else CharsStop(CharEnd(p, cs[0]), cs[1..])
  }

  /** Up to three hexadecimal digits stand at p, and then something else, which is reported. */
  predicate HexStops(t: seq<byte>, p: nat, error: Error, offset: int) {
    && error == BadHexDigit && p <= offset < p + 4
    && (forall j: nat | p <= j < offset :: IsHexDigit(Peek(t, j))) && !IsHexDigit(Peek(t, offset))
  }

  /** The digits of a \u escape at p break off, or they are a high surrogate with no low one behind it. */
  ghost predicate UnitStops(t: seq<byte>, p: nat, error: Error, offset: int) {
    HexStops(t, p, error, offset) || exists hi: High :: At(t, p, hi) && NoLow(t, p + 4, error, offset)
  }

  /** What stands at p, behind a high surrogate, is no escape of a low one. */
  ghost predicate NoLow(t: seq<byte>, p: nat, error: Error, offset: int) {
    if Peek(t, p) != 0x5C then error == MissingLowSurrogate && offset == p - 1
    else if Peek(t, p + 1) != 0x75 then error == MissingLowSurrogate && offset == p
    else HexStops(t, p + 2, error, offset) || NotLow(t, p + 2, error, offset)
  }

  ghost predicate NotLow(t: seq<byte>, p: nat, error: Error, offset: int) {
    error == BadLowSurrogate && offset == p + 2 && exists lo: Hex4 :: At(t, p, lo) && !IsLow(lo)
  }

  /** What stands at q is no character of a string whose opening quote is at `start`. */
  ghost predicate CharStops(t: seq<byte>, start: nat, q: nat, error: Error, offset: int) {
    var c := Peek(t, q);
    if c == 0 then error == UnterminatedString && offset == start - 1
    else if c < 0x20 then error == ControlInString && offset == start - 1
    else if c != 0x5C || Peek(t, q + 1) in {0x22, 0x5C, 0x2F, 0x62, 0x66, 0x6E, 0x72, 0x74} then false
    else if Peek(t, q + 1) == 0x75 then UnitStops(t, q + 2, error, offset)
    else error == UnknownEscape && offset == start - 1
  }

  /** A string that starts at p breaks off behind some characters. */
  ghost predicate StringStops(t: seq<byte>, p: nat, error: Error, offset: int) {
    exists cs :: CharsRun(t, p + 1, cs) && CharsReadable(cs) && CharStops(t, p, CharsStop(p + 1, cs), error, offset)
  }

  lemma {:induction false} HexFails(t: seq<byte>, p: nat, i: nat, acc: nat, error: Error, offset: int)
    requires p + i <= offset && HexStops(t, p, error, offset)
    ensures ParseHex4(t, p, i, acc) == BadHex(offset)
    decreases offset - i
  {
    if p + i < offset { HexFails(t, p, i + 1, acc * 16 + HexValue(Peek(t, p + i)), error, offset); }
  }

  lemma {:induction false} FindsBadHex(t: seq<byte>, p: nat, i: nat, acc: nat)
    requires i <= 4 && ParseHex4(t, p, i, acc).BadHex? && forall j: nat | p <= j < p + i :: IsHexDigit(Peek(t, j))
    ensures HexStops(t, p, BadHexDigit, ParseHex4(t, p, i, acc).offset)
    decreases 4 - i
  {
    if IsHexDigit(Peek(t, p + i)) { FindsBadHex(t, p, i + 1, acc * 16 + HexValue(Peek(t, p + i))); }
  }

  lemma LowFails(t: seq<byte>, p: nat, hi: High, error: Error, offset: int)
    requires At(t, p, hi) && NoLow(t, p + 4, error, offset)
    ensures ParseUnicode(t, p) == BadEscape(error, offset)
  {
    hide ParseHex4, At, HexNumber;
    ReadsHex4(t, p, hi);
    if Peek(t, p + 4) == 0x5C && Peek(t, p + 5) == 0x75 {
      if HexStops(t, p + 6, error, offset) {
        HexFails(t, p + 6, 0, 0, error, offset);
      } else {
        var lo: Hex4 :| At(t, p + 6, lo) && !IsLow(lo);
        ReadsHex4(t, p + 6, lo);
      }
    }
  }

  lemma UnitFails(t: seq<byte>, p: nat, error: Error, offset: int)
    requires UnitStops(t, p, error, offset)
    ensures ParseUnicode(t, p) == BadEscape(error, offset)
  {
    if HexStops(t, p, error, offset) {
      HexFails(t, p, 0, 0, error, offset);
    } else {
      var hi: High :| At(t, p, hi) && NoLow(t, p + 4, error, offset);
      LowFails(t, p, hi, error, offset);
    }
  }

  lemma FindsBadLow(t: seq<byte>, p: nat, hi: High)
    requires At(t, p, hi) && ParseUnicode(t, p).BadEscape?
    ensures NoLow(t, p + 4, ParseUnicode(t, p).error, ParseUnicode(t, p).offset)
  {
    hide At, HexStops, HexNumber, ParseHex4;
    ReadsHex4(t, p, hi);
    if Peek(t, p + 4) == 0x5C && Peek(t, p + 5) == 0x75 {
      if ParseHex4(t, p + 6, 0, 0).BadHex? {
        FindsBadHex(t, p + 6, 0, 0);
      } else {
        var lo := FindsHex(t, p + 6);
        assert !IsLow(lo);
      }
    }
  }

  lemma FindsBadUnit(t: seq<byte>, p: nat)
    requires ParseUnicode(t, p).BadEscape?
    ensures UnitStops(t, p, ParseUnicode(t, p).error, ParseUnicode(t, p).offset)
  {
    hide At, HexStops, HexNumber, NoLow, ParseHex4;
    if ParseHex4(t, p, 0, 0).BadHex? {
      FindsBadHex(t, p, 0, 0);
    } else {
      var hi := FindsHex(t, p);
      FindsBadLow(t, p, hi);
    }
  }

  /** One place in a string breaks off exactly as the bytes say. */
  lemma CharFails(t: seq<byte>, start: nat, q: nat, error: Error, offset: int)
    ensures CharStops(t, start, q, error, offset) <==> ParseChar(t, start, q) == Bad(error, offset)
  {
    hide ParseUnicode, UnitStops, Utf8;
    if ParseUnicode(t, q + 2).BadEscape? { FindsBadUnit(t, q + 2); }
    if UnitStops(t, q + 2, error, offset) { UnitFails(t, q + 2, error, offset); }
  }

  lemma {:induction false} CharsFail(t: seq<byte>, start: nat, p: nat, acc: seq<byte>, cs: seq<Char>,
    error: Error, offset: int)
    requires CharsRun(t, p, cs) && CharsReadable(cs) && CharStops(t, start, CharsStop(p, cs), error, offset)
    ensures ParseChars(t, start, p, acc) == BadChars(error, offset)
    decreases |cs|
  {
    hide CharStops, ParseChar;
    if cs == [] {
      CharFails(t, start, p, error, offset);
    } else {
      ReadsChar(t, start, p, cs[0]);
      CharsFail(t, start, CharEnd(p, cs[0]), acc + CharBytes(cs[0]), cs[1..], error, offset);
    }
  }

  lemma {:induction false} FindsBadChars(t: seq<byte>, start: nat, p: nat, acc: seq<byte>) returns (cs: seq<Char>)
    requires ParseChars(t, start, p, acc).BadChars?
    ensures var r := ParseChars(t, start, p, acc);
      CharsRun(t, p, cs) && CharsReadable(cs) && CharStops(t, start, CharsStop(p, cs), r.error, r.offset)
    decreases |t| - p
  {
    hide CharStops, ParseChar;
    var r := ParseChars(t, start, p, acc);
    cs := [];
    if ParseChar(t, start, p).Put? {
      var c := FindsChar(t, start, p);
      var rest := FindsBadChars(t, start, CharEnd(p, c), acc + CharBytes(c));
      cs := [c] + rest;
      assert cs[1..] == rest;
    } else {
      CharFails(t, start, p, r.error, r.offset);
    }
  }

  /** A string fails exactly where it breaks off. */
  lemma StringFailsExactly(t: seq<byte>, p: nat, ev: seq<Event>, error: Error, offset: int)
    ensures StringStops(t, p, error, offset) <==> ParseString(t, p, ev) == Fail(ev, error, offset)
  {
    hide CharStops, CharsRun, CharsReadable, ParseChars;
    if StringStops(t, p, error, offset) {
      var cs :| CharsRun(t, p + 1, cs) && CharsReadable(cs) && CharStops(t, p, CharsStop(p + 1, cs), error, offset);
      CharsFail(t, p, p + 1, [], cs, error, offset);
    }
    if ParseChars(t, p, p + 1, []).BadChars? {
      var cs := FindsBadChars(t, p, p + 1, []);
    }
  }

  // --- numbers ---

  /** A number that starts at p breaks off: it has no digit, or a numeral stands there that does not go on as
      it should, or is too big. */
  ghost predicate NumberStops(huge: Rounding, t: seq<byte>, p: nat, error: Error, offset: int) {
    || (error == ExpectValue && offset == p && !IsDigit(Peek(t, if Peek(t, p) == 0x2D then p + 1 else p)))
    || exists n: Numeral :: NumeralAt(t, p, n) && NumeralStops(huge, t, p, n, error, offset)
  }

  /** Where the digits of an exponent begin, q being the place behind the e. */
  function ExponentStart(t: seq<byte>, q: nat): nat { if Peek(t, q) in {0x2B, 0x2D} then q + 1 else q }

  /** What stands behind the numeral n, its last digit taken. */
  ghost predicate NumeralStops(huge: Rounding, t: seq<byte>, p: nat, n: Numeral, error: Error, offset: int) {
    var q := NumeralEnd(p, n);
    && (IsDigit(Peek(t, q)) ==> n.frac.None? && n.exp.None? && n.whole == [0x30])
    && if HugePrefix(huge, n.minus, n.whole) then
         n.frac.None? && n.exp.None? && error == NumberTooBig && offset == p
       else if n.exp.Some? then Val(n.exp.value.digits) > 308 && error == NumberTooBig && offset == p
       else if n.frac.None? && Peek(t, q) == 0x2E then
         !IsDigit(Peek(t, q + 1)) && error == NoFractionDigit && offset == p
       else
         && Peek(t, q) in {0x65, 0x45} && !IsDigit(Peek(t, ExponentStart(t, q + 1)))
         && error == NoExponentDigit && offset == ExponentStart(t, q + 1)
  }

  /** From the integer part on. */
  lemma NumberGoesOn(huge: Rounding, t: seq<byte>, p: nat, ev: seq<Event>, n: Numeral)
    requires NumeralAt(t, p, n) && (IsDigit(Peek(t, FracPos(p, n))) ==> n.whole[0] == ZERO)
    ensures FracPos(p, n) <= |t|
    ensures ParseNumber(huge, t, p, ev) ==
      if HugePrefix(huge, n.minus, n.whole) then Fail(ev, NumberTooBig, p)
      else ParseFraction(t, p, FracPos(p, n), ev, IntegerEvent(n.minus, n.whole, t[p..FracPos(p, n)]))
  {
    hide ParseFraction, TooHuge, HugePrefix;
    HugeIsTooHuge(huge, n.minus, n.whole);
    ReadsWhole(t, p, n);
    WholeSlice(t, p, n);
  }

  lemma FractionFails(huge: Rounding, t: seq<byte>, p: nat, ev: seq<Event>, n: Numeral, plain: Event,
    error: Error, offset: int)
    requires NumeralAt(t, p, n) && FracPos(p, n) <= ExpPos(p, n) <= |t| && n.exp.None?
    requires !HugePrefix(huge, n.minus, n.whole) && NumeralStops(huge, t, p, n, error, offset)
    ensures ParseFraction(t, p, FracPos(p, n), ev, plain) == Fail(ev, error, offset)
  {
    hide DigitsEnd, HugePrefix;
    if n.frac.Some? {
      FirstDigit(t, FracPos(p, n) + 1, n.frac.value);
      SkipsDigits(t, FracPos(p, n) + 1, n.frac.value);
    }
  }

  lemma NumberFails(huge: Rounding, t: seq<byte>, p: nat, ev: seq<Event>, n: Numeral, error: Error, offset: int)
    requires NumeralAt(t, p, n) && NumeralStops(huge, t, p, n, error, offset)
    ensures ParseNumber(huge, t, p, ev) == Fail(ev, error, offset)
  {
    NumeralSlice(t, p, n);
    if n.exp.Some? {
      TooBigExactly(huge, t, p, ev, n);
    } else {
      WholeEnds(huge, t, p, n, error, offset);
      NumberGoesOn(huge, t, p, ev, n);
      hide NumeralAt, NumeralStops, HugePrefix, ParseNumber, ParseFraction;
      if HugePrefix(huge, n.minus, n.whole) {
        HugeStops(huge, t, p, n, error, offset);
      } else {
        FractionFails(huge, t, p, ev, n, IntegerEvent(n.minus, n.whole, t[p..FracPos(p, n)]), error, offset);
      }
    }
  }

  lemma WholeEnds(huge: Rounding, t: seq<byte>, p: nat, n: Numeral, error: Error, offset: int)
    requires NumeralAt(t, p, n) && NumeralStops(huge, t, p, n, error, offset) && n.exp.None?
    ensures IsDigit(Peek(t, FracPos(p, n))) ==> n.whole[0] == ZERO
    ensures FracPos(p, n) <= ExpPos(p, n) == NumeralEnd(p, n)
  {}

  lemma HugeStops(huge: Rounding, t: seq<byte>, p: nat, n: Numeral, error: Error, offset: int)
    requires HugePrefix(huge, n.minus, n.whole) && NumeralStops(huge, t, p, n, error, offset)
    ensures error == NumberTooBig && offset == p
  {}

  /** The integer part that stands at p. */
  lemma FindsPlain(t: seq<byte>, p: nat) returns (n: Numeral)
    requires IsDigit(Peek(t, if Peek(t, p) == MINUS then p + 1 else p))
    ensures n.frac.None? && n.exp.None? && NumeralAt(t, p, n)
    ensures IsDigit(Peek(t, FracPos(p, n))) ==> n.whole == [0x30]
  {
    var minus := Peek(t, p) == MINUS;
    var p0 := if minus then p + 1 else p;
    var whole := FindsSlice(t, p0, WholeEnd(t, p0));
    n := Numeral(minus, whole, None, None);
  }

  lemma FindsBadExponent(huge: Rounding, t: seq<byte>, p: nat, ev: seq<Event>, n: Numeral, plain: Option<Event>)
      returns (bad: Numeral)
    requires n.exp.None? && NumeralAt(t, p, n) && p < ExpPos(p, n) <= |t| && !HugePrefix(huge, n.minus, n.whole)
    requires IsDigit(Peek(t, ExpPos(p, n))) ==> n.frac.None? && n.whole == [0x30]
    requires n.frac.None? ==> Peek(t, ExpPos(p, n)) != DOT
    requires ParseExponent(t, p, ExpPos(p, n), ev, plain).Fail?
    ensures var r := ParseExponent(t, p, ExpPos(p, n), ev, plain);
      NumeralAt(t, p, bad) && NumeralStops(huge, t, p, bad, r.error, r.offset)
  {
    hide HugePrefix, Val, DigitsEnd, At, NumeralAt;
    var q := ExpPos(p, n);
    var p1 := ExponentStart(t, q + 1);
    bad := n;
    if IsDigit(Peek(t, p1)) {
      var e := FindsDigits(t, q);
      AddsExponent(t, p, n, Some(e));
      bad := n.(exp := Some(e));
    }
  }

  /** The exponent whose mark stands at q. */
  lemma FindsDigits(t: seq<byte>, q: nat) returns (e: Exponent)
    requires Peek(t, q) == LOWER_E || Peek(t, q) == UPPER_E
    requires IsDigit(Peek(t, ExponentStart(t, q + 1)))
    ensures ExponentAt(t, q, e) && DigitsPos(q, e) == ExponentStart(t, q + 1)
    ensures ExponentEnd(q, e) == DigitsEnd(t, DigitsPos(q, e)) <= |t|
    ensures e.digits == t[DigitsPos(q, e)..ExponentEnd(q, e)]
  {
    hide At, DigitsEnd;
    var p1 := ExponentStart(t, q + 1);
    var sign: Sign := if p1 == q + 2 then [t[q + 1]] else [];
    SignStands(t, q + 1, sign);
    var digits := FindsSlice(t, p1, DigitsEnd(t, p1));
    e := Exponent(t[q], sign, digits);
  }

  lemma SignStands(t: seq<byte>, q: nat, sign: Sign)
    requires sign != [] ==> Peek(t, q) == sign[0]
    ensures At(t, q, sign)
  {}

  lemma FindsBadNumber(huge: Rounding, t: seq<byte>, p: nat, ev: seq<Event>)
    requires ParseNumber(huge, t, p, ev).Fail?
    ensures var r := ParseNumber(huge, t, p, ev); NumberStops(huge, t, p, r.error, r.offset)
  {
    hide ParseExponent, HugePrefix;
    var r := ParseNumber(huge, t, p, ev);
    if IsDigit(Peek(t, if Peek(t, p) == MINUS then p + 1 else p)) {
      var n := FindsPlain(t, p);
      NumberGoesOn(huge, t, p, ev, n);
      if HugePrefix(huge, n.minus, n.whole) {
        assert NumeralStops(huge, t, p, n, r.error, r.offset);
      } else {
        var bad := FindsBadFraction(huge, t, p, ev, n, IntegerEvent(n.minus, n.whole, t[p..FracPos(p, n)]));
      }
    }
  }

  lemma FindsBadFraction(huge: Rounding, t: seq<byte>, p: nat, ev: seq<Event>, n0: Numeral, plain: Event)
      returns (bad: Numeral)
    requires n0.frac.None? && n0.exp.None? && NumeralAt(t, p, n0) && FracPos(p, n0) <= |t|
    requires IsDigit(Peek(t, FracPos(p, n0))) ==> n0.whole == [0x30]
    requires !HugePrefix(huge, n0.minus, n0.whole) && ParseFraction(t, p, FracPos(p, n0), ev, plain).Fail?
    ensures var r := ParseFraction(t, p, FracPos(p, n0), ev, plain);
      NumeralAt(t, p, bad) && NumeralStops(huge, t, p, bad, r.error, r.offset)
  {
    hide At, ParseExponent, HugePrefix;
    bad := n0;
    if Peek(t, FracPos(p, n0)) != DOT {
      bad := FindsBadExponent(huge, t, p, ev, n0, Some(plain));
    } else if IsDigit(Peek(t, FracPos(p, n0) + 1)) {
      var digits := FindsSlice(t, FracPos(p, n0) + 1, DigitsEnd(t, FracPos(p, n0) + 1));
      bad := FindsBadExponent(huge, t, p, ev, n0.(frac := Some(digits)), None);
    }
  }

  /** A number fails exactly where it breaks off. */
  lemma NumberFailsExactly(huge: Rounding, t: seq<byte>, p: nat, ev: seq<Event>, error: Error, offset: int)
    ensures NumberStops(huge, t, p, error, offset) <==> ParseNumber(huge, t, p, ev) == Fail(ev, error, offset)
  {
    hide NumeralStops, NumeralAt, WholeEnd, ParseFraction, TooHuge;
    if n: Numeral :| NumeralAt(t, p, n) && NumeralStops(huge, t, p, n, error, offset) {
      NumberFails(huge, t, p, ev, n, error, offset);
    }
    if ParseNumber(huge, t, p, ev).Fail? {
      FindsBadNumber(huge, t, p, ev);
      NumberKeepsEvents(huge, t, p, ev);
    }
  }

  lemma NumberKeepsEvents(huge: Rounding, t: seq<byte>, p: nat, ev: seq<Event>)
    requires ParseNumber(huge, t, p, ev).Fail?
    ensures ParseNumber(huge, t, p, ev).events == ev
  {}
}
