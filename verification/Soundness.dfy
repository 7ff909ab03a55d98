/** Whatever the reader accepts is text of the grammar within the reader's limits, and the events
    it sent are those of the syntax tree found there. */
module Soundness {
  import opened Options
  import opened Bytes
  import opened Decimal
  import opened Json
  import opened Utf
  import opened Limits
  import opened ReaderSpec
  import opened Grammar
  import opened Places
  import opened Completeness

  lemma {:induction false} FindsGap(t: seq<byte>, p: nat) returns (gap: Gap)
    ensures At(t, p, gap) && SkipWs(t, p) == p + |gap|
    decreases |t| - p
  {
    gap := [];
    if IsWs(Peek(t, p)) {
      var rest := FindsGap(t, p + 1);
      gap := [t[p]] + rest;
      assert gap[1..] == rest;
    }
  }

  lemma FindsSlice(t: seq<byte>, p: nat, q: nat) returns (s: seq<byte>)
    requires p <= q <= |t|
    ensures s == t[p..q] && At(t, p, s) && p + |s| == q
  {
    s := t[p..q];
    AtSlice(t, p, s);
  }

  lemma FindsHex(t: seq<byte>, p: nat) returns (h: Hex4)
    requires ParseHex4(t, p, 0, 0).Hex?
    ensures At(t, p, h) && ParseHex4(t, p, 0, 0) == Hex(HexNumber(h))
  {
    var v1 := HexValue(Peek(t, p));
    assert ParseHex4(t, p, 1, v1).Hex?;
    var v2 := v1 * 16 + HexValue(Peek(t, p + 1));
    assert ParseHex4(t, p, 2, v2).Hex?;
    assert ParseHex4(t, p, 3, v2 * 16 + HexValue(Peek(t, p + 2))).Hex?;
    h := [t[p], t[p + 1], t[p + 2], t[p + 3]];
    assert h == t[p..p + 4];
    AtSlice(t, p, h);
    ReadsHex4(t, p, h);
  }

  /** Every turn of the string loop that yields bytes has read one character of the grammar. */
  lemma FindsChar(t: seq<byte>, start: nat, p: nat) returns (c: Char)
    requires ParseChar(t, start, p).Put?
    ensures CharAt(t, p, c) && (c.Unit? ==> !IsHigh(c.hex))
    ensures ParseChar(t, start, p) == Put(CharBytes(c), CharEnd(p, c))
  {
    hide ParseHex4, HexNumber, Utf8, At;
    if t[p] != BACKSLASH {
      c := Raw(t[p]);
    } else if Unescape(Peek(t, p + 1)) != 0 {
      c := Short(t[p + 1]);
    } else {
      var hi := FindsHex(t, p + 2);
      if IsHigh(hi) {
        var lo := FindsHex(t, p + 8);
        c := Pair(hi, lo);
      } else {
        c := Unit(hi);
      }
    }
  }

  lemma {:induction false} FindsChars(t: seq<byte>, start: nat, p: nat, acc: seq<byte>) returns (cs: seq<Char>)
    requires ParseChars(t, start, p, acc).Chars?
    ensures CharsAt(t, p, cs) && CharsReadable(cs)
    ensures ParseChars(t, start, p, acc) == Chars(CharsBytes(cs, acc), CharsEnd(p, cs))
    decreases |t| - p
  {
    cs := [];
    if ParseChar(t, start, p).Put? {
      var c := FindsChar(t, start, p);
      var rest := FindsChars(t, start, CharEnd(p, c), acc + CharBytes(c));
      cs := [c] + rest;
      assert cs[1..] == rest;
    }
  }

  lemma FindsString(t: seq<byte>, p: nat, ev: seq<Event>) returns (cs: seq<Char>)
    requires Peek(t, p) == QUOTE && ParseString(t, p, ev).Done?
    ensures StringAt(t, p, cs) && CharsReadable(cs)
    ensures ParseString(t, p, ev) == Done(ev + [String(Copied(CharsBytes(cs, [])))], StringEnd(p, cs))
  {
    cs := FindsChars(t, p, p + 1, []);
  }

  lemma FindsExponent(t: seq<byte>, start: nat, p: nat, ev: seq<Event>, plain: Option<Event>)
      returns (e: Option<Exponent>)
    requires start < p <= |t| && ParseExponent(t, start, p, ev, plain).Done?
    ensures e.Some? ==> ExponentAt(t, p, e.value) && Val(e.value.digits) <= 308
    ensures if e.Some? then !IsDigit(Peek(t, ExponentEnd(p, e.value)))
            else Peek(t, p) != LOWER_E && Peek(t, p) != UPPER_E
    ensures var q := if e.Some? then ExponentEnd(p, e.value) else p;
      q <= |t| &&
      ParseExponent(t, start, p, ev, plain) ==
        Done(ev + [if e.None? && plain.Some? then plain.value else Double(t[start..q])], q)
  {
    e := None;
    if Peek(t, p) == LOWER_E || Peek(t, p) == UPPER_E {
      var p1 := if Peek(t, p + 1) == PLUS || Peek(t, p + 1) == MINUS then p + 2 else p + 1;
      var sign: Sign := if p1 == p + 2 then [t[p + 1]] else [];
      var digits := FindsSlice(t, p1, DigitsEnd(t, p1));
      e := Some(Exponent(t[p], sign, digits));
    }
  }

  /** From the integer part on: the fraction read, the exponent still to come. */
  lemma FindsFraction(t: seq<byte>, p: nat, ev: seq<Event>, n0: Numeral, plain: Event) returns (n: Numeral)
    requires n0.frac.None? && n0.exp.None? && NumeralAt(t, p, n0) && FracPos(p, n0) <= |t|
    requires ParseFraction(t, p, FracPos(p, n0), ev, plain).Done?
    ensures n == n0.(frac := n.frac) && NumeralAt(t, p, n) && ExpPos(p, n) <= |t|
    ensures if n.frac.Some? then !IsDigit(Peek(t, ExpPos(p, n))) else Peek(t, ExpPos(p, n)) != DOT
    ensures ParseFraction(t, p, FracPos(p, n0), ev, plain) ==
      ParseExponent(t, p, ExpPos(p, n), ev, if n.frac.Some? then None else Some(plain))
  {
    hide At, ParseExponent;
    n := n0;
    if Peek(t, FracPos(p, n0)) == DOT {
      var digits := FindsSlice(t, FracPos(p, n0) + 1, DigitsEnd(t, FracPos(p, n0) + 1));
      n := n0.(frac := Some(digits));
    }
  }

  lemma FindsWhole(huge: Rounding, t: seq<byte>, p: nat, ev: seq<Event>) returns (n: Numeral)
    requires ParseNumber(huge, t, p, ev).Done?
    ensures n.frac.None? && n.exp.None? && NumeralAt(t, p, n) && FracPos(p, n) <= |t|
    ensures !TooHuge(huge, n.minus, n.whole) && (IsDigit(Peek(t, FracPos(p, n))) ==> n.whole[0] == ZERO)
    ensures ParseNumber(huge, t, p, ev) ==
      ParseFraction(t, p, FracPos(p, n), ev, IntegerEvent(n.minus, n.whole, t[p..FracPos(p, n)]))
  {
    var minus := Peek(t, p) == MINUS;
    var p0 := if minus then p + 1 else p;
    var whole := FindsSlice(t, p0, WholeEnd(t, p0));
    n := Numeral(minus, whole, None, None);
  }

  lemma AddsExponent(t: seq<byte>, p: nat, n0: Numeral, exp: Option<Exponent>)
    requires NumeralAt(t, p, n0) && n0.exp.None?
    requires exp.Some? ==> ExponentAt(t, ExpPos(p, n0), exp.value)
    ensures NumeralAt(t, p, n0.(exp := exp))
    ensures NumeralEnd(p, n0.(exp := exp)) == if exp.Some? then ExponentEnd(ExpPos(p, n0), exp.value) else ExpPos(p, n0)
  {}

  lemma FindsNumber(huge: Rounding, t: seq<byte>, p: nat, ev: seq<Event>) returns (n: Numeral)
    requires ParseNumber(huge, t, p, ev).Done?
    ensures NumeralAt(t, p, n) && NumeralReadable(huge, n) && Stops(n, Peek(t, NumeralEnd(p, n)))
    ensures ParseNumber(huge, t, p, ev) == Done(ev + [NumeralEvent(n)], NumeralEnd(p, n))
  {
    hide NumeralAt, ExponentAt, ParseNumber, ParseFraction, ParseExponent, TooHuge, Val;
    var n0 := FindsWhole(huge, t, p, ev);
    var plain := IntegerEvent(n0.minus, n0.whole, t[p..FracPos(p, n0)]);
    var n1 := FindsFraction(t, p, ev, n0, plain);
    var exp := FindsExponent(t, p, ExpPos(p, n1), ev, if n1.frac.Some? then None else Some(plain));
    AddsExponent(t, p, n1, exp);
    n := n1.(exp := exp);
    NumeralSlice(t, p, n);
  }

  /** Every value the reader gets through is one of the grammar, with its events. */
  lemma {:induction false} FindsValue(huge: Rounding, t: seq<byte>, p: nat, ev: seq<Event>) returns (tree: Tree)
    requires ParseValue(huge, t, p, ev).Done?
    ensures TreeAt(t, p, tree) && Readable(huge, tree)
    ensures ParseValue(huge, t, p, ev) == Done(Emit(tree, ev), TreeEnd(p, tree))
    ensures StopsAt(t, p, tree)
    ensures Peek(t, p) == LBRACE || Peek(t, p) == LBRACKET ==>
      tree.TObject? || tree.TEmptyObject? || tree.TArray? || tree.TEmptyArray?
    decreases |t| - p, 2
  {
    var c := Peek(t, p);
    if c == 0x6E {
      WordsSplit(t, p);
      tree := TNull;
    } else if c == 0x74 {
      WordsSplit(t, p);
      tree := TTrue;
    } else if c == 0x66 {
      WordsSplit(t, p);
      tree := TFalse;
    } else if c == QUOTE {
      var cs := FindsString(t, p, ev);
      tree := TString(cs);
    } else if c == LBRACE {
      tree := FindsObject(huge, t, p, ev);
    } else if c == LBRACKET {
      tree := FindsArray(huge, t, p, ev);
    } else {
      var n := FindsNumber(huge, t, p, ev);
      tree := TNumber(n);
    }
  }

  lemma {:induction false} FindsObject(huge: Rounding, t: seq<byte>, p: nat, ev: seq<Event>) returns (tree: Tree)
    requires Peek(t, p) == LBRACE && ParseObject(huge, t, p, ev).Done?
    ensures TreeAt(t, p, tree) && Readable(huge, tree) && (tree.TObject? || tree.TEmptyObject?)
    ensures ParseObject(huge, t, p, ev) == Done(Emit(tree, ev), TreeEnd(p, tree))
    decreases |t| - p, 1
  {
    var gap := FindsGap(t, p + 1);
    if Peek(t, GapEnd(p, gap)) == RBRACE {
      tree := TEmptyObject(gap);
    } else {
      var ms := FindsMembers(huge, t, GapEnd(p, gap), ev + [StartObject], 0);
      tree := TObject(gap, ms);
    }
  }

  lemma {:induction false} FindsArray(huge: Rounding, t: seq<byte>, p: nat, ev: seq<Event>) returns (tree: Tree)
    requires Peek(t, p) == LBRACKET && ParseArray(huge, t, p, ev).Done?
    ensures TreeAt(t, p, tree) && Readable(huge, tree) && (tree.TArray? || tree.TEmptyArray?)
    ensures ParseArray(huge, t, p, ev) == Done(Emit(tree, ev), TreeEnd(p, tree))
    decreases |t| - p, 1
  {
    var gap := FindsGap(t, p + 1);
    if Peek(t, GapEnd(p, gap)) == RBRACKET {
      tree := TEmptyArray(gap);
    } else {
      var es := FindsElements(huge, t, GapEnd(p, gap), ev + [StartArray], 0);
      tree := TArray(gap, es);
    }
  }

  lemma {:induction false} FindsMember(huge: Rounding, t: seq<byte>, p: nat, ev: seq<Event>) returns (m: Member)
    requires ParseMember(huge, t, p, ev).Done?
    ensures MemberAt(t, p, m) && CharsReadable(m.name) && Readable(huge, m.value)
    ensures !IsWs(Peek(t, MemberEnd(p, m))) && StopsAt(t, GapEnd(ColonPos(p, m), m.gap2), m.value)
    ensures ParseMember(huge, t, p, ev) == Done(EmitMember(m, ev), MemberEnd(p, m))
    decreases |t| - p, 3
  {
    hide At, CharsAt, StringEnd, ParseString, ParseMemberValue, CharsReadable, Readable, TreeAt, TreeEnd, Emit;
    var name := FindsString(t, p, ev);
    var gap1 := FindsGap(t, StringEnd(p, name));
    var ev1 := ev + [String(Copied(CharsBytes(name, [])))];
    assert ParseMember(huge, t, p, ev) == ParseMemberValue(huge, t, StringEnd(p, name) + |gap1|, ev1);
    m := FindsMemberValue(huge, t, StringEnd(p, name) + |gap1|, ev1, name, gap1);
    assert ColonPos(p, m) == StringEnd(p, name) + |gap1|;
  }

  lemma {:induction false} FindsMemberValue(huge: Rounding, t: seq<byte>, p: nat, ev: seq<Event>,
    name: seq<Char>, gap1: Gap)
      returns (m: Member)
    requires ParseMemberValue(huge, t, p, ev).Done?
    ensures m.name == name && m.gap1 == gap1 && ValueAt(t, p, m) && Readable(huge, m.value)
    ensures !IsWs(Peek(t, ValueEnd(p, m))) && StopsAt(t, GapEnd(p, m.gap2), m.value)
    ensures ParseMemberValue(huge, t, p, ev) == Done(Emit(m.value, ev), ValueEnd(p, m))
    decreases |t| - p, 3
  {
    hide ParseValue, Emit, TreeAt, TreeEnd, Readable, StopsAt, At;
    var gap2 := FindsGap(t, p + 1);
    var value := FindsValue(huge, t, GapEnd(p, gap2), ev);
    var after := FindsGap(t, TreeEnd(GapEnd(p, gap2), value));
    m := Member(name, gap1, gap2, value, after);
  }

  lemma JoinsMembers(t: seq<byte>, p: nat, m: Member, gap: Gap, rest: Members)
    requires MemberAt(t, p, m) && Peek(t, MemberEnd(p, m)) == COMMA && At(t, MemberEnd(p, m) + 1, gap)
    requires MembersAt(t, GapEnd(MemberEnd(p, m), gap), rest)
    ensures MembersAt(t, p, MoreMembers(m, gap, rest))
  {}

  lemma {:induction false} FindsMembers(huge: Rounding, t: seq<byte>, p: nat, ev: seq<Event>, n: nat)
      returns (ms: Members)
    requires ParseMembers(huge, t, p, ev, n).Done?
    ensures MembersAt(t, p, ms) && MembersReadable(huge, ms)
    ensures ParseMembers(huge, t, p, ev, n) == Done(EmitMembers(ms, ev, n), MembersEnd(p, ms))
    decreases |t| - p, 4
  {
    hide ParseMember, EmitMember, MemberAt, MemberEnd;
    var m := FindsMember(huge, t, p, ev);
    if Peek(t, MemberEnd(p, m)) == COMMA {
      var gap := FindsGap(t, MemberEnd(p, m) + 1);
      assert ParseMembers(huge, t, p, ev, n) ==
        ParseMembers(huge, t, GapEnd(MemberEnd(p, m), gap), EmitMember(m, ev), n + 1);
      var rest := FindsMembers(huge, t, GapEnd(MemberEnd(p, m), gap), EmitMember(m, ev), n + 1);
      JoinsMembers(t, p, m, gap, rest);
      ms := MoreMembers(m, gap, rest);
    } else {
      ms := LastMember(m);
    }
  }

  lemma {:induction false} FindsElements(huge: Rounding, t: seq<byte>, p: nat, ev: seq<Event>, n: nat)
      returns (es: Elements)
    requires ParseElements(huge, t, p, ev, n).Done?
    ensures ElementsAt(t, p, es) && ElementsReadable(huge, es)
    ensures ParseElements(huge, t, p, ev, n) == Done(EmitElements(es, ev, n), ElementsEnd(p, es))
    decreases |t| - p, 4
  {
    hide ParseValue, Emit, TreeAt, TreeEnd, Readable, StopsAt, At, SkipWs;
    var v := FindsValue(huge, t, p, ev);
    var after := FindsGap(t, TreeEnd(p, v));
    var q := TreeEnd(p, v) + |after|;
    es := LastElement(v, after);
    if Peek(t, q) == COMMA {
      var gap := FindsGap(t, q + 1);
      assert ParseElements(huge, t, p, ev, n) == ParseElements(huge, t, GapEnd(q, gap), Emit(v, ev), n + 1);
      var rest := FindsElements(huge, t, GapEnd(q, gap), Emit(v, ev), n + 1);
      es := MoreElements(v, after, gap, rest);
    }
  }
}
