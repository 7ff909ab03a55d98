/** The limits of integer literals, and the way of an integer through writer, reader and document. */
module Integers {
  import opened Options
  import opened Bytes
  import opened Decimal
  import opened Json
  import opened Limits
  import opened ReaderSpec
  import opened Grammar
  import opened Places
  import opened Completeness
  import opened Dom
  import opened Printing

  /** The event has the type that a literal of this sign and magnitude calls for, and its exact value. */
  predicate ExactInteger(e: Event, minus: bool, v: int) {
    && (e.Int? <==> minus && v <= TWO31)
    && (e.Int64? <==> minus && TWO31 < v <= TWO63)
    && (e.Uint? <==> !minus && v < TWO32)
    && (e.Uint64? <==> !minus && TWO32 <= v < TWO64)
    && (e.Int? || e.Int64? || e.Uint? || e.Uint64?)
    && EventInt(e) == (if minus then -v else v)
  }

  /** Some proper prefix of the digits, which overflows 64 bits with the digit behind it, is huge. */
  ghost predicate HugePrefix(huge: Rounding, minus: bool, digits: seq<byte>) {
    exists j: nat | 0 < j < |digits| ::
      huge(minus, digits[..j])
      && Val(digits[..j + 1]) > (if minus then 0x8000_0000_0000_0000 else 0xFFFF_FFFF_FFFF_FFFF)
  }

  /** A numeral is too big if and only if a prefix of its integer part that overflows is huge, or its exponent
      exceeds 308; every other numeral is read to its end. */
  lemma TooBigExactly(huge: Rounding, t: seq<byte>, p: nat, ev: seq<Event>, n: Numeral)
    requires NumeralAt(t, p, n) && Stops(n, Peek(t, NumeralEnd(p, n)))
    ensures HugePrefix(huge, n.minus, n.whole) || (n.exp.Some? && Val(n.exp.value.digits) > 308)
      <==> ParseNumber(huge, t, p, ev) == Fail(ev, NumberTooBig, p)
    ensures ParseNumber(huge, t, p, ev) == Fail(ev, NumberTooBig, p)
      || ParseNumber(huge, t, p, ev) == Done(ev + [NumeralEvent(n)], NumeralEnd(p, n))
    ensures n.frac.Some? || n.exp.Some? ==> NumeralEvent(n) == Double(NumeralText(n))
  {
    HugeIsTooHuge(huge, n.minus, n.whole);
    hide TooHuge, HugePrefix;
    if TooHuge(huge, n.minus, n.whole) {
      ReadsWhole(t, p, n);
      WholeSlice(t, p, n);
    } else if n.exp.Some? && Val(n.exp.value.digits) > 308 {
      ExponentTooBig(huge, t, p, ev, n);
    } else {
      ReadsNumber(huge, t, p, ev, n);
    }
  }

  lemma HugeIsTooHuge(huge: Rounding, minus: bool, digits: seq<byte>)
    ensures HugePrefix(huge, minus, digits) <==> TooHuge(huge, minus, digits)
  {
    if HugePrefix(huge, minus, digits) {
      var j: nat :| 0 < j < |digits| && huge(minus, digits[..j]) &&
        Val(digits[..j + 1]) > (if minus then 0x8000_0000_0000_0000 else 0xFFFF_FFFF_FFFF_FFFF);
      assert Overlong(huge, minus, digits, j);
    }
    if TooHuge(huge, minus, digits) {
      var j: nat :| j < |digits| && Overlong(huge, minus, digits, j);
      assert huge(minus, digits[..j]);
    }
  }

  lemma ExponentTooBig(huge: Rounding, t: seq<byte>, p: nat, ev: seq<Event>, n: Numeral)
    requires NumeralAt(t, p, n) && Stops(n, Peek(t, NumeralEnd(p, n)))
    requires !TooHuge(huge, n.minus, n.whole) && n.exp.Some? && Val(n.exp.value.digits) > 308
    ensures ParseNumber(huge, t, p, ev) == Fail(ev, NumberTooBig, p)
  {
    NumeralSlice(t, p, n);
    WholeSlice(t, p, n);
    ReadsWhole(t, p, n);
    hide TooHuge, Val, ParseFraction;
    BigFraction(t, p, ev, n, IntegerEvent(n.minus, n.whole, t[p..FracPos(p, n)]));
  }

  lemma BigFraction(t: seq<byte>, p: nat, ev: seq<Event>, n: Numeral, plain: Event)
    requires NumeralAt(t, p, n) && NumeralEnd(p, n) <= |t| && Stops(n, Peek(t, NumeralEnd(p, n)))
    requires n.exp.Some? && Val(n.exp.value.digits) > 308
    ensures ParseFraction(t, p, FracPos(p, n), ev, plain) == Fail(ev, NumberTooBig, p)
  {
    hide DigitsEnd, Val;
    if n.frac.Some? {
      FirstDigit(t, FracPos(p, n) + 1, n.frac.value);
      SkipsDigits(t, FracPos(p, n) + 1, n.frac.value);
    }
    BigExponent(t, p, ExpPos(p, n), ev, if n.frac.Some? then None else Some(plain), n.exp.value);
  }

  lemma BigExponent(t: seq<byte>, start: nat, p: nat, ev: seq<Event>, plain: Option<Event>, e: Exponent)
    requires start < p && ExponentAt(t, p, e) && ExponentEnd(p, e) <= |t|
    requires Val(e.digits) > 308 && !IsDigit(Peek(t, ExponentEnd(p, e)))
    ensures ParseExponent(t, start, p, ev, plain) == Fail(ev, NumberTooBig, start)
  {
    hide DigitsEnd, Val;
    FirstDigit(t, DigitsPos(p, e), e.digits);
    SkipsDigits(t, DigitsPos(p, e), e.digits);
    hide At;
    AtSlice(t, DigitsPos(p, e), e.digits);
  }

  /** An integer literal that 64 bits can hold, signed if it has a minus, gives its exact value in the
      smallest type that holds it. A longer one is a double with all its digits, unless one of its proper
      prefixes, with the digit behind it beyond 64 bits, is huge: exactly then it is too big. */
  lemma IntegerLiterals(huge: Rounding, t: seq<byte>, p: nat, ev: seq<Event>, n: Numeral)
    requires n.frac.None? && n.exp.None? && NumeralAt(t, p, n) && Stops(n, Peek(t, NumeralEnd(p, n)))
    ensures var (r, v) := (ParseNumber(huge, t, p, ev), Val(n.whole));
      if 0 <= v <= (if n.minus then 0x8000_0000_0000_0000 else 0xFFFF_FFFF_FFFF_FFFF) then
        r.Done? && r.pos == NumeralEnd(p, n) && r.events == ev + [r.events[|r.events| - 1]]
        && ExactInteger(r.events[|r.events| - 1], n.minus, v)
      else
        v > (if n.minus then 0x8000_0000_0000_0000 else 0xFFFF_FFFF_FFFF_FFFF) &&
        r == if HugePrefix(huge, n.minus, n.whole) then Fail(ev, NumberTooBig, p)
             else Done(ev + [Double(NumeralText(n))], NumeralEnd(p, n))
  {
    ValBounds(n.whole);
    hide HugePrefix, ParseNumber, NumeralAt, NumeralText;
    TooBigExactly(huge, t, p, ev, n);
    if Val(n.whole) <= Max64(n.minus) { NoneHuge(huge, n.minus, n.whole); }
  }

  lemma NoneHuge(huge: Rounding, minus: bool, digits: seq<byte>)
    requires AllDigits(digits) && Val(digits) <= Max64(minus)
    ensures !HugePrefix(huge, minus, digits)
  {
    assert digits[..|digits|] == digits;
    forall j: nat | 0 < j < |digits| && huge(minus, digits[..j]) ensures Val(digits[..j + 1]) <= Max64(minus) {
      ValMonotone(digits, j + 1, |digits|);
    }
  }

  /** An integer of 32 or 64 bits that is printed and read gives the same integer back. */
  lemma PrintedIntegersAreRead(huge: Rounding, t: seq<byte>, p: nat, ev: seq<Event>, z: int)
    requires -TWO63 <= z < TWO64 && At(t, p, NumeralText(NumeralFor(z)))
    requires !NumberTail(Peek(t, p + |NumeralText(NumeralFor(z))|))
    ensures var r := ParseNumber(huge, t, p, ev);
      r.Done? && |r.events| == |ev| + 1 && r.events[..|ev|] == ev && r.pos == p + |NumeralText(NumeralFor(z))|
      && ExactInteger(r.events[|ev|], z < 0, if z < 0 then -z else z)
  {
    NumeralPlace(t, p, NumeralFor(z));
    ValDigits(if z < 0 then -z else z);
    IntegerLiterals(huge, t, p, ev, NumeralFor(z));
  }
}
