/** Where a syntax tree stands in a text: the grammar read as a relation on positions. Each XAt says
    that X stands at p, each XEnd where it ends. */
module Places {
  import opened Bytes
  import opened Grammar

  // --- strings ---

  predicate CharAt(t: seq<byte>, p: nat, c: Char) {
    match c
    case Raw(b) => Peek(t, p) == b
    case Short(e) => Peek(t, p) == BACKSLASH && Peek(t, p + 1) == e
    case Unit(hex) => Peek(t, p) == BACKSLASH && Peek(t, p + 1) == LOWER_U && At(t, p + 2, hex)
    case Pair(hi, lo) =>
      && Peek(t, p) == BACKSLASH && Peek(t, p + 1) == LOWER_U && At(t, p + 2, hi)
      && Peek(t, p + 6) == BACKSLASH && Peek(t, p + 7) == LOWER_U && At(t, p + 8, lo)
  }

  function CharEnd(p: nat, c: Char): (q: nat)
    ensures q > p
  {
    match c case Raw(_) => p + 1 case Short(_) => p + 2 case Unit(_) => p + 6 case Pair(_, _) => p + 12
  }

  /** The characters cs and the closing quote. */
  predicate CharsAt(t: seq<byte>, p: nat, cs: seq<Char>)
    decreases |cs|
  {
    if cs == [] then Peek(t, p) == QUOTE else CharAt(t, p, cs[0]) && CharsAt(t, CharEnd(p, cs[0]), cs[1..])
  }

  function CharsEnd(p: nat, cs: seq<Char>): nat
    decreases |cs|
  {
    if cs == [] then p + 1 else CharsEnd(CharEnd(p, cs[0]), cs[1..])
  }

  predicate StringAt(t: seq<byte>, p: nat, cs: seq<Char>) { Peek(t, p) == QUOTE && CharsAt(t, p + 1, cs) }

  function StringEnd(p: nat, cs: seq<Char>): nat { CharsEnd(p + 1, cs) }

  // --- numbers ---

  predicate FracAt(t: seq<byte>, p: nat, n: Numeral) {
    n.frac.Some? ==> Peek(t, p) == DOT && At(t, p + 1, n.frac.value)
  }

  function DigitsPos(p: nat, e: Exponent): nat { p + 1 + |e.sign| }

  predicate ExponentAt(t: seq<byte>, p: nat, e: Exponent) {
    Peek(t, p) == e.mark && At(t, p + 1, e.sign) && At(t, DigitsPos(p, e), e.digits)
  }

  function ExponentEnd(p: nat, e: Exponent): nat { DigitsPos(p, e) + |e.digits| }

  function WholePos(p: nat, n: Numeral): nat { if n.minus then p + 1 else p }

  function FracPos(p: nat, n: Numeral): nat { WholePos(p, n) + |n.whole| }

  function ExpPos(p: nat, n: Numeral): nat {
    if n.frac.Some? then FracPos(p, n) + 1 + |n.frac.value| else FracPos(p, n)
  }

  function NumeralEnd(p: nat, n: Numeral): nat {
    if n.exp.Some? then ExponentEnd(ExpPos(p, n), n.exp.value) else ExpPos(p, n)
  }

  predicate NumeralAt(t: seq<byte>, p: nat, n: Numeral) {
    && (n.minus ==> Peek(t, p) == MINUS)
    && At(t, WholePos(p, n), n.whole) && FracAt(t, FracPos(p, n), n)
    && (n.exp.Some? ==> ExponentAt(t, ExpPos(p, n), n.exp.value))
  }

  // --- values ---

  function GapEnd(p: nat, gap: Gap): nat { p + 1 + |gap| }

  predicate TreeAt(t: seq<byte>, p: nat, tree: Tree)
    decreases tree
  {
    match tree
    case TNull => At(t, p, NULL_WORD)
    case TTrue => At(t, p, TRUE_WORD)
    case TFalse => At(t, p, FALSE_WORD)
    case TString(cs) => StringAt(t, p, cs)
    case TNumber(n) => NumeralAt(t, p, n)
    case TEmptyObject(gap) => Peek(t, p) == LBRACE && At(t, p + 1, gap) && Peek(t, GapEnd(p, gap)) == RBRACE
    case TObject(gap, ms) => Peek(t, p) == LBRACE && At(t, p + 1, gap) && MembersAt(t, GapEnd(p, gap), ms)
    case TEmptyArray(gap) => Peek(t, p) == LBRACKET && At(t, p + 1, gap) && Peek(t, GapEnd(p, gap)) == RBRACKET
    case TArray(gap, es) => Peek(t, p) == LBRACKET && At(t, p + 1, gap) && ElementsAt(t, GapEnd(p, gap), es)
  }

  function TreeEnd(p: nat, tree: Tree): nat
    decreases tree
  {
    match tree
    case TNull => p + 4
    case TTrue => p + 4
    case TFalse => p + 5
    case TString(cs) => StringEnd(p, cs)
    case TNumber(n) => NumeralEnd(p, n)
    case TEmptyObject(gap) => GapEnd(p, gap) + 1
    case TObject(gap, ms) => MembersEnd(GapEnd(p, gap), ms)
    case TEmptyArray(gap) => GapEnd(p, gap) + 1
    case TArray(gap, es) => ElementsEnd(GapEnd(p, gap), es)
  }

  function ColonPos(p: nat, m: Member): nat { StringEnd(p, m.name) + |m.gap1| }

  /** Where a member ends, given the position of its colon. */
  function ValueEnd(colon: nat, m: Member): nat
    decreases m, 0
  {
    TreeEnd(GapEnd(colon, m.gap2), m.value) + |m.after|
  }

  function MemberEnd(p: nat, m: Member): nat
    decreases m, 1
  {
    ValueEnd(ColonPos(p, m), m)
  }

  /** The part of a member from its colon on. */
  predicate ValueAt(t: seq<byte>, colon: nat, m: Member)
    decreases m, 0
  {
    && Peek(t, colon) == COLON && At(t, colon + 1, m.gap2) && TreeAt(t, GapEnd(colon, m.gap2), m.value)
    && At(t, TreeEnd(GapEnd(colon, m.gap2), m.value), m.after)
  }

  predicate MemberAt(t: seq<byte>, p: nat, m: Member)
    decreases m, 1
  {
    StringAt(t, p, m.name) && At(t, StringEnd(p, m.name), m.gap1) && ValueAt(t, ColonPos(p, m), m)
  }

  predicate MembersAt(t: seq<byte>, p: nat, ms: Members)
    decreases ms
  {
    MemberAt(t, p, ms.m) &&
    match ms
    case LastMember(m) => Peek(t, MemberEnd(p, m)) == RBRACE
    case MoreMembers(m, gap, rest) =>
      Peek(t, MemberEnd(p, m)) == COMMA && At(t, MemberEnd(p, m) + 1, gap) &&
      MembersAt(t, GapEnd(MemberEnd(p, m), gap), rest)
  }

  function MembersEnd(p: nat, ms: Members): nat
    decreases ms
  {
    match ms
    case LastMember(m) => MemberEnd(p, m) + 1
    case MoreMembers(m, gap, rest) => MembersEnd(GapEnd(MemberEnd(p, m), gap), rest)
  }

  function ElementEnd(p: nat, es: Elements): nat
    decreases es, 0
  {
    TreeEnd(p, es.v) + |es.after|
  }

  predicate ElementsAt(t: seq<byte>, p: nat, es: Elements)
    decreases es, 1
  {
    TreeAt(t, p, es.v) && At(t, TreeEnd(p, es.v), es.after) &&
    match es
    case LastElement(_, _) => Peek(t, ElementEnd(p, es)) == RBRACKET
    case MoreElements(_, _, gap, rest) =>
      Peek(t, ElementEnd(p, es)) == COMMA && At(t, ElementEnd(p, es) + 1, gap) &&
      ElementsAt(t, GapEnd(ElementEnd(p, es), gap), rest)
  }

  function ElementsEnd(p: nat, es: Elements): nat
    decreases es, 1
  {
    match es
    case LastElement(_, _) => ElementEnd(p, es) + 1
    case MoreElements(_, _, gap, rest) => ElementsEnd(GapEnd(ElementEnd(p, es), gap), rest)
  }

  // --- the place of a number and its text ---

  lemma FracPlace(t: seq<byte>, p: nat, n: Numeral)
    ensures At(t, p, FracText(n)) <==> FracAt(t, p, n)
  {}

  lemma ExpPlace(t: seq<byte>, p: nat, n: Numeral)
    ensures At(t, p, ExpText(n)) <==> (n.exp.Some? ==> ExponentAt(t, p, n.exp.value))
  {
    if n.exp.Some? {
      var Exponent(mark, sign, digits) := n.exp.value;
      AtConcat(t, p, [mark], sign + digits);
      AtConcat(t, p + 1, sign, digits);
    }
  }

  lemma NumeralPlace(t: seq<byte>, p: nat, n: Numeral)
    ensures p + |NumeralText(n)| == NumeralEnd(p, n)
    ensures At(t, p, NumeralText(n)) <==> NumeralAt(t, p, n)
  {
    FracPlace(t, FracPos(p, n), n);
    ExpPlace(t, ExpPos(p, n), n);
    AtConcat(t, p, SignText(n), n.whole + (FracText(n) + ExpText(n)));
    AtConcat(t, WholePos(p, n), n.whole, FracText(n) + ExpText(n));
    AtConcat(t, FracPos(p, n), FracText(n), ExpText(n));
  }

  lemma WholeSlice(t: seq<byte>, p: nat, n: Numeral)
    requires NumeralAt(t, p, n)
    ensures FracPos(p, n) <= |t| && t[WholePos(p, n)..FracPos(p, n)] == n.whole
  {
    AtBound(t, WholePos(p, n), n.whole);
    AtSlice(t, WholePos(p, n), n.whole);
  }

  /** A number standing at p is the slice up to its end, inside the text. */
  lemma NumeralSlice(t: seq<byte>, p: nat, n: Numeral)
    requires NumeralAt(t, p, n)
    ensures p < NumeralEnd(p, n) <= |t| && t[p..NumeralEnd(p, n)] == NumeralText(n)
  {
    NumeralPlace(t, p, n);
    AtBound(t, p, NumeralText(n));
    AtSlice(t, p, NumeralText(n));
  }
}
