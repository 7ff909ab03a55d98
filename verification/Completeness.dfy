/** Every text of the grammar that keeps the reader's limits is read, with the events of its tree. */
module Completeness {
  import opened Options
  import opened Bytes
  import opened Decimal
  import opened Json
  import opened Utf
  import opened Limits
  import opened ReaderSpec
  import opened Grammar
  import opened Places

  lemma {:induction false} SkipsWs(t: seq<byte>, p: nat, gap: Gap)
    requires At(t, p, gap) && !IsWs(Peek(t, p + |gap|))
    ensures SkipWs(t, p) == p + |gap|
    decreases |gap|
  {
    if gap != [] { SkipsWs(t, p + 1, gap[1..]); }
  }

  lemma {:induction false} SkipsDigits(t: seq<byte>, p: nat, ds: seq<byte>)
    requires At(t, p, ds) && AllDigits(ds) && !IsDigit(Peek(t, p + |ds|))
    ensures DigitsEnd(t, p) == p + |ds|
    decreases |ds|
  {
    if ds != [] { SkipsDigits(t, p + 1, ds[1..]); }
  }

  lemma ReadsHex4(t: seq<byte>, p: nat, h: Hex4)
    requires At(t, p, h)
    ensures ParseHex4(t, p, 0, 0) == Hex(HexNumber(h))
  {
    assert At(t, p + 1, h[1..]) && h[1..][1..] == h[2..];
    assert At(t, p + 2, h[2..]) && h[2..][1..] == h[3..];
    assert At(t, p + 3, h[3..]);
    var v1 := HexValue(h[0]);
    var v2 := v1 * 16 + HexValue(h[1]);
    var v3 := v2 * 16 + HexValue(h[2]);
    assert ParseHex4(t, p, 0, 0) == ParseHex4(t, p, 1, v1) == ParseHex4(t, p, 2, v2) == ParseHex4(t, p, 3, v3);
  }

  /** One turn of the string loop takes one character and yields its bytes. */
  lemma ReadsChar(t: seq<byte>, start: nat, p: nat, c: Char)
    requires CharAt(t, p, c) && (c.Unit? ==> !IsHigh(c.hex))
    ensures ParseChar(t, start, p) == Put(CharBytes(c), CharEnd(p, c))
  {
    hide ParseHex4, HexNumber, Utf8, At;
    match c {
      case Raw(b) =>
      case Short(e) =>
      case Unit(hex) => ReadsUnit(t, p + 2, hex);
      case Pair(hi, lo) => ReadsPair(t, p + 2, hi, lo);
    }
  }

  lemma ReadsUnit(t: seq<byte>, p: nat, hex: Hex4)
    requires At(t, p, hex) && !IsHigh(hex)
    ensures ParseUnicode(t, p) == CodePoint(HexNumber(hex), p + 4)
  {
    hide At, ParseHex4;
    ReadsHex4(t, p, hex);
  }

  lemma ReadsPair(t: seq<byte>, p: nat, hi: High, lo: Low)
    requires At(t, p, hi) && Peek(t, p + 4) == BACKSLASH && Peek(t, p + 5) == LOWER_U && At(t, p + 6, lo)
    ensures ParseUnicode(t, p) == CodePoint(Joined(HexNumber(hi), HexNumber(lo)), p + 10)
  {
    hide At, ParseHex4;
    ReadsHex4(t, p, hi);
    ReadsHex4(t, p + 6, lo);
  }

  lemma {:induction false} ReadsChars(t: seq<byte>, start: nat, p: nat, cs: seq<Char>, acc: seq<byte>)
    requires CharsAt(t, p, cs) && CharsReadable(cs)
    ensures ParseChars(t, start, p, acc) == Chars(CharsBytes(cs, acc), CharsEnd(p, cs))
    decreases |cs|
  {
    if cs != [] {
      ReadsChar(t, start, p, cs[0]);
      ReadsChars(t, start, CharEnd(p, cs[0]), cs[1..], acc + CharBytes(cs[0]));
    }
  }

  lemma ReadsString(t: seq<byte>, p: nat, ev: seq<Event>, cs: seq<Char>)
    requires StringAt(t, p, cs) && CharsReadable(cs)
    ensures ParseString(t, p, ev) == Done(ev + [String(Copied(CharsBytes(cs, [])))], StringEnd(p, cs))
  {
    ReadsChars(t, p, p + 1, cs, []);
  }

  /** A byte that would continue a number. */
  predicate NumberTail(c: byte) { IsDigit(c) || c == DOT || c == LOWER_E || c == UPPER_E }

  /** A byte that does not continue this numeral: what follows a zero never does, unless it is a dot or an e. */
  predicate Stops(n: Numeral, c: byte) {
    && (IsDigit(c) ==> n.frac.None? && n.exp.None? && n.whole[0] == ZERO)
    && (c == DOT ==> n.frac.Some? || n.exp.Some?)
    && (c == LOWER_E || c == UPPER_E ==> n.exp.Some?)
  }

  /** A number that stands at p is not continued. */
  predicate StopsAt(t: seq<byte>, p: nat, tree: Tree) {
    tree.TNumber? ==> Stops(tree.num, Peek(t, TreeEnd(p, tree)))
  }

  lemma FirstDigit(t: seq<byte>, p: nat, digits: Digits1)
    requires At(t, p, digits)
    ensures IsDigit(Peek(t, p))
  {
    assert IsDigit(digits[0]);
  }

  lemma ReadsExponent(t: seq<byte>, start: nat, p: nat, ev: seq<Event>, plain: Option<Event>, e: Exponent)
    requires start < p && ExponentAt(t, p, e) && ExponentEnd(p, e) <= |t|
    requires Val(e.digits) <= 308 && !IsDigit(Peek(t, ExponentEnd(p, e)))
    ensures ParseExponent(t, start, p, ev, plain) == Done(ev + [Double(t[start..ExponentEnd(p, e)])], ExponentEnd(p, e))
  {
    hide DigitsEnd, Val;
    FirstDigit(t, DigitsPos(p, e), e.digits);
    SkipsDigits(t, DigitsPos(p, e), e.digits);
    hide At;
    AtSlice(t, DigitsPos(p, e), e.digits);
  }

  lemma ReadsFraction(t: seq<byte>, p: nat, ev: seq<Event>, n: Numeral, plain: Event)
    requires NumeralAt(t, p, n) && NumeralEnd(p, n) <= |t|
    requires n.exp.Some? ==> Val(n.exp.value.digits) <= 308
    requires Stops(n, Peek(t, NumeralEnd(p, n)))
    ensures ParseFraction(t, p, FracPos(p, n), ev, plain) ==
      Done(ev + [if n.frac.None? && n.exp.None? then plain else Double(t[p..NumeralEnd(p, n)])], NumeralEnd(p, n))
  {
    hide DigitsEnd, Val;
    if n.frac.Some? {
      FirstDigit(t, FracPos(p, n) + 1, n.frac.value);
      SkipsDigits(t, FracPos(p, n) + 1, n.frac.value);
    }
    var mark := if n.frac.Some? then None else Some(plain);
    if n.exp.Some? { ReadsExponent(t, p, ExpPos(p, n), ev, mark, n.exp.value); }
  }

  lemma ReadsWhole(t: seq<byte>, p: nat, n: Numeral)
    requires NumeralAt(t, p, n) && (IsDigit(Peek(t, FracPos(p, n))) ==> n.whole[0] == ZERO)
    ensures Peek(t, p) == MINUS <==> n.minus
    ensures IsDigit(Peek(t, WholePos(p, n))) && WholeEnd(t, WholePos(p, n)) == FracPos(p, n)
  {
    assert IsDigit(n.whole[0]);
    if n.whole[0] != ZERO { SkipsDigits(t, WholePos(p, n), n.whole); }
  }

  lemma ReadsNumber(huge: Rounding, t: seq<byte>, p: nat, ev: seq<Event>, n: Numeral)
    requires NumeralAt(t, p, n) && NumeralReadable(huge, n) && Stops(n, Peek(t, NumeralEnd(p, n)))
    ensures ParseNumber(huge, t, p, ev) == Done(ev + [NumeralEvent(n)], NumeralEnd(p, n))
  {
    NumeralSlice(t, p, n);
    WholeSlice(t, p, n);
    ReadsWhole(t, p, n);
    ReadsFraction(t, p, ev, n, IntegerEvent(n.minus, n.whole, t[p..FracPos(p, n)]));
  }

  /** The three words, first letter and tail. */
  lemma WordsSplit(t: seq<byte>, p: nat)
    ensures At(t, p, NULL_WORD) <==> Peek(t, p) == 0x6E && At(t, p + 1, NULL_TAIL)
    ensures At(t, p, TRUE_WORD) <==> Peek(t, p) == 0x74 && At(t, p + 1, TRUE_TAIL)
    ensures At(t, p, FALSE_WORD) <==> Peek(t, p) == 0x66 && At(t, p + 1, FALSE_TAIL)
  {
    assert NULL_WORD[1..] == NULL_TAIL && TRUE_WORD[1..] == TRUE_TAIL && FALSE_WORD[1..] == FALSE_TAIL;
  }

  /** A value never starts with whitespace or a closing bracket. */
  lemma TreeStart(t: seq<byte>, p: nat, tree: Tree)
    requires TreeAt(t, p, tree)
    ensures !IsWs(Peek(t, p)) && Peek(t, p) != RBRACKET
    ensures tree.TNumber? ==> IsDigit(Peek(t, p)) || Peek(t, p) == MINUS
  {}

  /** A separator or whitespace follows a value inside an object or array, never more of a number. */
  lemma AfterValue(t: seq<byte>, p: nat, gap: Gap)
    requires At(t, p, gap) && !IsWs(Peek(t, p + |gap|)) && !NumberTail(Peek(t, p + |gap|))
    ensures !NumberTail(Peek(t, p)) && SkipWs(t, p) == p + |gap|
  {
    SkipsWs(t, p, gap);
  }

  /** The reader finds every value of the grammar where it stands. */
  lemma {:induction false} ReadsValue(huge: Rounding, t: seq<byte>, p: nat, ev: seq<Event>, tree: Tree)
    requires TreeAt(t, p, tree) && Readable(huge, tree) && StopsAt(t, p, tree)
    ensures ParseValue(huge, t, p, ev) == Done(Emit(tree, ev), TreeEnd(p, tree))
    decreases tree
  {
    hide At, ParseWord, CharsAt, CharsReadable, ParseString, NumeralAt, NumeralReadable, ParseNumber;
    hide MembersAt, MembersEnd, EmitMembers, ElementsAt, ElementsEnd, EmitElements, ParseObject, ParseArray;
    match tree {
      case TString(cs) => ReadsString(t, p, ev, cs);
      case TNumber(n) =>
        NumberStart(t, p, n);
        ReadsNumber(huge, t, p, ev, n);
      case TEmptyObject(gap) => ReadsEmpty(huge, t, p, ev, gap);
      case TObject(gap, ms) => ReadsObject(huge, t, p, ev, gap, ms);
      case TEmptyArray(gap) => ReadsEmpty(huge, t, p, ev, gap);
      case TArray(gap, es) => ReadsArray(huge, t, p, ev, gap, es);
      case _ => ReadsWord(huge, t, p, ev);
    }
  }

  lemma ReadsWord(huge: Rounding, t: seq<byte>, p: nat, ev: seq<Event>)
    ensures At(t, p, NULL_WORD) ==> ParseValue(huge, t, p, ev) == Done(ev + [Null], p + 4)
    ensures At(t, p, TRUE_WORD) ==> ParseValue(huge, t, p, ev) == Done(ev + [Bool(true)], p + 4)
    ensures At(t, p, FALSE_WORD) ==> ParseValue(huge, t, p, ev) == Done(ev + [Bool(false)], p + 5)
  {
    hide ParseString, ParseNumber, ParseObject, ParseArray;
    WordsSplit(t, p);
  }

  lemma NumberStart(t: seq<byte>, p: nat, n: Numeral)
    requires NumeralAt(t, p, n)
    ensures IsDigit(Peek(t, p)) || Peek(t, p) == MINUS
  {}

  /** Brackets with nothing in between. */
  lemma ReadsEmpty(huge: Rounding, t: seq<byte>, p: nat, ev: seq<Event>, gap: Gap)
    requires At(t, p + 1, gap)
    ensures Peek(t, p) == LBRACE && Peek(t, GapEnd(p, gap)) == RBRACE ==>
      ParseObject(huge, t, p, ev) == Done(ev + [StartObject] + [EndObject(0)], GapEnd(p, gap) + 1)
    ensures Peek(t, p) == LBRACKET && Peek(t, GapEnd(p, gap)) == RBRACKET ==>
      ParseArray(huge, t, p, ev) == Done(ev + [StartArray] + [EndArray(0)], GapEnd(p, gap) + 1)
  {
    hide SkipWs, ParseMembers, ParseElements;
    if !IsWs(Peek(t, GapEnd(p, gap))) { SkipsWs(t, p + 1, gap); }
  }

  lemma {:induction false} ReadsObject(huge: Rounding, t: seq<byte>, p: nat, ev: seq<Event>, gap: Gap, ms: Members)
    requires Peek(t, p) == LBRACE && At(t, p + 1, gap) && MembersAt(t, GapEnd(p, gap), ms)
    requires MembersReadable(huge, ms)
    ensures ParseObject(huge, t, p, ev) == Done(EmitMembers(ms, ev + [StartObject], 0), MembersEnd(GapEnd(p, gap), ms))
    decreases ms, 2
  {
    hide SkipWs, MembersAt, MembersEnd, MembersReadable, EmitMembers, ParseMembers;
    MembersStart(t, GapEnd(p, gap), ms);
    SkipsWs(t, p + 1, gap);
    ReadsMembers(huge, t, GapEnd(p, gap), ev + [StartObject], 0, ms);
  }

  lemma {:induction false} ReadsArray(huge: Rounding, t: seq<byte>, p: nat, ev: seq<Event>, gap: Gap, es: Elements)
    requires Peek(t, p) == LBRACKET && At(t, p + 1, gap) && ElementsAt(t, GapEnd(p, gap), es)
    requires ElementsReadable(huge, es)
    ensures ParseArray(huge, t, p, ev) == Done(EmitElements(es, ev + [StartArray], 0), ElementsEnd(GapEnd(p, gap), es))
    decreases es, 2
  {
    hide SkipWs, ElementsAt, ElementsEnd, ElementsReadable, EmitElements, ParseElements, TreeAt;
    ElementsStart(t, GapEnd(p, gap), es);
    SkipsWs(t, p + 1, gap);
    ReadsElements(huge, t, GapEnd(p, gap), ev + [StartArray], 0, es);
  }

  lemma ElementsStart(t: seq<byte>, p: nat, es: Elements)
    requires ElementsAt(t, p, es)
    ensures !IsWs(Peek(t, p)) && Peek(t, p) != RBRACKET
  {
    TreeStart(t, p, es.v);
  }

  lemma MembersStart(t: seq<byte>, p: nat, ms: Members)
    requires MembersAt(t, p, ms)
    ensures Peek(t, p) == QUOTE
  {}

  lemma {:induction false} ReadsMemberValue(huge: Rounding, t: seq<byte>, p: nat, ev: seq<Event>, m: Member)
    requires ValueAt(t, p, m) && Readable(huge, m.value)
    requires !IsWs(Peek(t, ValueEnd(p, m))) && StopsAt(t, GapEnd(p, m.gap2), m.value)
    ensures ParseMemberValue(huge, t, p, ev) == Done(Emit(m.value, ev), ValueEnd(p, m))
    decreases m, 0
  {
    TreeStart(t, GapEnd(p, m.gap2), m.value);
    SkipsWs(t, p + 1, m.gap2);
    SkipsWs(t, TreeEnd(GapEnd(p, m.gap2), m.value), m.after);
    ReadsValue(huge, t, GapEnd(p, m.gap2), ev, m.value);
  }

  lemma {:induction false} ReadsMember(huge: Rounding, t: seq<byte>, p: nat, ev: seq<Event>, m: Member)
    requires MemberAt(t, p, m) && CharsReadable(m.name) && Readable(huge, m.value)
    requires !IsWs(Peek(t, MemberEnd(p, m))) && StopsAt(t, GapEnd(ColonPos(p, m), m.gap2), m.value)
    ensures ParseMember(huge, t, p, ev) == Done(EmitMember(m, ev), MemberEnd(p, m))
    decreases m, 1
  {
    ReadsString(t, p, ev, m.name);
    SkipsWs(t, StringEnd(p, m.name), m.gap1);
    ReadsMemberValue(huge, t, ColonPos(p, m), ev + [String(Copied(CharsBytes(m.name, [])))], m);
  }

  lemma MemberStops(t: seq<byte>, p: nat, m: Member)
    requires MemberAt(t, p, m) && !IsWs(Peek(t, MemberEnd(p, m))) && !NumberTail(Peek(t, MemberEnd(p, m)))
    ensures StopsAt(t, GapEnd(ColonPos(p, m), m.gap2), m.value)
  {
    AfterValue(t, TreeEnd(GapEnd(ColonPos(p, m), m.gap2), m.value), m.after);
  }

  lemma {:induction false} ReadsFirst(huge: Rounding, t: seq<byte>, p: nat, ev: seq<Event>, ms: Members)
    requires MembersAt(t, p, ms) && MembersReadable(huge, ms)
    ensures ParseMember(huge, t, p, ev) == Done(EmitMember(ms.m, ev), MemberEnd(p, ms.m))
    decreases ms, 0
  {
    hide MemberAt, MemberEnd;
    MemberStops(t, p, ms.m);
    ReadsMember(huge, t, p, ev, ms.m);
  }

  lemma {:induction false} ReadsMembers(huge: Rounding, t: seq<byte>, p: nat, ev: seq<Event>, n: nat, ms: Members)
    requires MembersAt(t, p, ms) && MembersReadable(huge, ms)
    ensures ParseMembers(huge, t, p, ev, n) == Done(EmitMembers(ms, ev, n), MembersEnd(p, ms))
    decreases ms, 1
  {
    hide ParseMember, SkipWs, EmitMember, MemberAt;
    ReadsFirst(huge, t, p, ev, ms);
    if ms.MoreMembers? {
      MembersStart(t, GapEnd(MemberEnd(p, ms.m), ms.gap), ms.rest);
      SkipsWs(t, MemberEnd(p, ms.m) + 1, ms.gap);
      assert ParseMembers(huge, t, p, ev, n) ==
        ParseMembers(huge, t, GapEnd(MemberEnd(p, ms.m), ms.gap), EmitMember(ms.m, ev), n + 1);
      ReadsMembers(huge, t, GapEnd(MemberEnd(p, ms.m), ms.gap), EmitMember(ms.m, ev), n + 1, ms.rest);
    }
  }

  lemma {:induction false} ReadsElement(huge: Rounding, t: seq<byte>, p: nat, ev: seq<Event>, es: Elements)
    requires ElementsAt(t, p, es) && ElementsReadable(huge, es)
    ensures ParseValue(huge, t, p, ev) == Done(Emit(es.v, ev), TreeEnd(p, es.v))
    ensures SkipWs(t, TreeEnd(p, es.v)) == ElementEnd(p, es)
    decreases es, 0
  {
    AfterValue(t, TreeEnd(p, es.v), es.after);
    ReadsValue(huge, t, p, ev, es.v);
  }

  lemma {:induction false} ReadsElements(huge: Rounding, t: seq<byte>, p: nat, ev: seq<Event>, n: nat, es: Elements)
    requires ElementsAt(t, p, es) && ElementsReadable(huge, es)
    ensures ParseElements(huge, t, p, ev, n) == Done(EmitElements(es, ev, n), ElementsEnd(p, es))
    decreases es, 1
  {
    hide ParseValue, SkipWs, Emit, TreeEnd, TreeAt;
    ReadsElement(huge, t, p, ev, es);
    if es.MoreElements? {
      TreeStart(t, GapEnd(ElementEnd(p, es), es.gap), es.rest.v);
      SkipsWs(t, ElementEnd(p, es) + 1, es.gap);
      assert ParseElements(huge, t, p, ev, n) ==
        ParseElements(huge, t, GapEnd(ElementEnd(p, es), es.gap), Emit(es.v, ev), n + 1);
      ReadsElements(huge, t, GapEnd(ElementEnd(p, es), es.gap), Emit(es.v, ev), n + 1, es.rest);
    }
  }
}
