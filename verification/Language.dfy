/** The reader accepts exactly the texts of the grammar that keep its limits. */
module Language {
  import opened Bytes
  import opened Json
  import opened Limits
  import opened ReaderSpec
  import opened Grammar
  import opened Places
  import opened Completeness
  import opened Soundness

  // --- the text of a tree and its place ---

  lemma AtOne(t: seq<byte>, p: nat, c: byte)
    requires c != 0
    ensures At(t, p, [c]) <==> Peek(t, p) == c
  {}

  lemma AtTwo(t: seq<byte>, p: nat, c: byte, d: byte)
    requires c != 0 && d != 0
    ensures At(t, p, [c, d]) <==> Peek(t, p) == c && Peek(t, p + 1) == d
  {
    assert [c, d][1..] == [d];
    AtOne(t, p + 1, d);
  }

  lemma CharPlace(t: seq<byte>, p: nat, c: Char)
    ensures CharEnd(p, c) == p + |CharText(c)|
    ensures At(t, p, CharText(c)) <==> CharAt(t, p, c)
  {
    match c {
      case Raw(b) => AtOne(t, p, b);
      case Short(e) => AtTwo(t, p, BACKSLASH, e);
      case Unit(hex) =>
        AtTwo(t, p, BACKSLASH, LOWER_U);
        AtConcat(t, p, [BACKSLASH, LOWER_U], hex);
      case Pair(hi, lo) =>
        AtTwo(t, p, BACKSLASH, LOWER_U);
        AtTwo(t, p + 6, BACKSLASH, LOWER_U);
        AtConcat(t, p, [BACKSLASH, LOWER_U], hi + ([BACKSLASH, LOWER_U] + lo));
        AtConcat(t, p + 2, hi, [BACKSLASH, LOWER_U] + lo);
        AtConcat(t, p + 6, [BACKSLASH, LOWER_U], lo);
    }
  }

  lemma {:induction false} CharsPlace(t: seq<byte>, p: nat, cs: seq<Char>)
    ensures CharsEnd(p, cs) == p + |CharsText(cs) + [QUOTE]|
    ensures At(t, p, CharsText(cs) + [QUOTE]) <==> CharsAt(t, p, cs)
    decreases |cs|
  {
    if cs == [] {
      assert CharsText(cs) + [QUOTE] == [QUOTE];
      AtOne(t, p, QUOTE);
    } else {
      var (head, rest) := (CharText(cs[0]), CharsText(cs[1..]));
      assert CharsText(cs) + [QUOTE] == head + (rest + [QUOTE]);
      AtConcat(t, p, head, rest + [QUOTE]);
      CharPlace(t, p, cs[0]);
      CharsPlace(t, CharEnd(p, cs[0]), cs[1..]);
    }
  }

  lemma StringPlace(t: seq<byte>, p: nat, cs: seq<Char>)
    ensures StringEnd(p, cs) == p + |StringText(cs)|
    ensures At(t, p, StringText(cs)) <==> StringAt(t, p, cs)
  {
    AtConcat(t, p, [QUOTE], CharsText(cs) + [QUOTE]);
    AtOne(t, p, QUOTE);
    CharsPlace(t, p + 1, cs);
  }

  lemma WordPlace(t: seq<byte>, p: nat, c: byte, tail: seq<byte>)
    requires c != 0
    ensures At(t, p, [c] + tail) <==> Peek(t, p) == c && At(t, p + 1, tail)
  {}

  /** An opening bracket, a gap, and the rest. */
  lemma OpenPlace(t: seq<byte>, p: nat, c: byte, gap: Gap, rest: seq<byte>)
    requires c != 0
    ensures At(t, p, [c] + (gap + rest)) <==> Peek(t, p) == c && At(t, p + 1, gap) && At(t, GapEnd(p, gap), rest)
  {
    WordPlace(t, p, c, gap + rest);
    AtConcat(t, p + 1, gap, rest);
  }

  /** A tree stands at p exactly when its text does, and ends where the text ends. */
  lemma {:induction false} TreePlace(t: seq<byte>, p: nat, tree: Tree)
    ensures TreeEnd(p, tree) == p + |TreeText(tree)|
    ensures At(t, p, TreeText(tree)) <==> TreeAt(t, p, tree)
    decreases tree
  {
    match tree {
      case TNull =>
      case TTrue =>
      case TFalse =>
      case TString(cs) => StringPlace(t, p, cs);
      case TNumber(n) => NumeralPlace(t, p, n);
      case TEmptyObject(gap) =>
        OpenPlace(t, p, LBRACE, gap, [RBRACE]);
        AtOne(t, GapEnd(p, gap), RBRACE);
      case TObject(gap, ms) =>
        OpenPlace(t, p, LBRACE, gap, MembersText(ms));
        MembersPlace(t, GapEnd(p, gap), ms);
      case TEmptyArray(gap) =>
        OpenPlace(t, p, LBRACKET, gap, [RBRACKET]);
        AtOne(t, GapEnd(p, gap), RBRACKET);
      case TArray(gap, es) =>
        OpenPlace(t, p, LBRACKET, gap, ElementsText(es));
        ElementsPlace(t, GapEnd(p, gap), es);
    }
  }

  lemma {:induction false} MemberPlace(t: seq<byte>, p: nat, m: Member)
    ensures MemberEnd(p, m) == p + |MemberText(m)|
    ensures At(t, p, MemberText(m)) <==> MemberAt(t, p, m)
    decreases m, 1
  {
    hide At, TreeText, TreeAt, TreeEnd, StringText, StringAt, StringEnd;
    var value := TreeText(m.value) + m.after;
    StringPlace(t, p, m.name);
    AtConcat(t, p, StringText(m.name), m.gap1 + ([COLON] + (m.gap2 + value)));
    AtConcat(t, StringEnd(p, m.name), m.gap1, [COLON] + (m.gap2 + value));
    ValuePlace(t, ColonPos(p, m), m);
  }

  lemma {:induction false} ValuePlace(t: seq<byte>, colon: nat, m: Member)
    ensures var text := [COLON] + (m.gap2 + (TreeText(m.value) + m.after));
      ValueEnd(colon, m) == colon + |text| && (At(t, colon, text) <==> ValueAt(t, colon, m))
    decreases m, 0
  {
    hide At, TreeText, TreeAt, TreeEnd;
    OpenPlace(t, colon, COLON, m.gap2, TreeText(m.value) + m.after);
    TreePlace(t, GapEnd(colon, m.gap2), m.value);
    AtConcat(t, GapEnd(colon, m.gap2), TreeText(m.value), m.after);
  }

  lemma {:induction false} MembersPlace(t: seq<byte>, p: nat, ms: Members)
    ensures MembersEnd(p, ms) == p + |MembersText(ms)|
    ensures At(t, p, MembersText(ms)) <==> MembersAt(t, p, ms)
    decreases ms
  {
    MemberPlace(t, p, ms.m);
    match ms {
      case LastMember(m) =>
        AtConcat(t, p, MemberText(m), [RBRACE]);
        AtOne(t, MemberEnd(p, m), RBRACE);
      case MoreMembers(m, gap, rest) =>
        AtConcat(t, p, MemberText(m), [COMMA] + (gap + MembersText(rest)));
        OpenPlace(t, MemberEnd(p, m), COMMA, gap, MembersText(rest));
        MembersPlace(t, GapEnd(MemberEnd(p, m), gap), rest);
    }
  }

  lemma {:induction false} ElementsPlace(t: seq<byte>, p: nat, es: Elements)
    ensures ElementsEnd(p, es) == p + |ElementsText(es)|
    ensures At(t, p, ElementsText(es)) <==> ElementsAt(t, p, es)
    decreases es
  {
    hide TreeText, TreeAt, TreeEnd;
    TreePlace(t, p, es.v);
    match es {
      case LastElement(v, after) =>
        AtConcat(t, p, TreeText(v), after + [RBRACKET]);
        AtConcat(t, TreeEnd(p, v), after, [RBRACKET]);
        AtOne(t, ElementEnd(p, es), RBRACKET);
      case MoreElements(v, after, gap, rest) =>
        AtConcat(t, p, TreeText(v), after + ([COMMA] + (gap + ElementsText(rest))));
        AtConcat(t, TreeEnd(p, v), after, [COMMA] + (gap + ElementsText(rest)));
        OpenPlace(t, ElementEnd(p, es), COMMA, gap, ElementsText(rest));
        ElementsPlace(t, GapEnd(ElementEnd(p, es), gap), rest);
    }
  }

  // --- no text of the grammar holds a NUL ---

  lemma {:induction false} CharsWithoutNul(cs: seq<Char>)
    ensures 0 !in CharsText(cs)
    decreases |cs|
  {
    if cs != [] {
      assert 0 !in CharText(cs[0]);
      CharsWithoutNul(cs[1..]);
    }
  }

  lemma {:induction false} TreeWithoutNul(tree: Tree)
    ensures 0 !in TreeText(tree)
    decreases tree
  {
    match tree {
      case TNull => assert 0 !in NULL_WORD;
      case TTrue => assert 0 !in TRUE_WORD;
      case TFalse => assert 0 !in FALSE_WORD;
      case TString(cs) => CharsWithoutNul(cs);
      case TNumber(n) =>
        assert 0 !in SignText(n) && 0 !in n.whole && 0 !in FracText(n);
        assert n.exp.Some? ==> 0 !in n.exp.value.sign + n.exp.value.digits;
        assert 0 !in ExpText(n);
      case TEmptyObject(gap) => assert 0 !in gap + [RBRACE];
      case TObject(gap, ms) =>
        MembersWithoutNul(ms);
        assert 0 !in gap + MembersText(ms);
      case TEmptyArray(gap) => assert 0 !in gap + [RBRACKET];
      case TArray(gap, es) =>
        ElementsWithoutNul(es);
        assert 0 !in gap + ElementsText(es);
    }
  }

  lemma {:induction false} MemberWithoutNul(m: Member)
    ensures 0 !in MemberText(m)
    decreases m
  {
    CharsWithoutNul(m.name);
    TreeWithoutNul(m.value);
    assert 0 !in StringText(m.name);
    assert 0 !in TreeText(m.value) + m.after;
    assert 0 !in m.gap2 + (TreeText(m.value) + m.after);
    assert 0 !in m.gap1 + ([COLON] + (m.gap2 + (TreeText(m.value) + m.after)));
  }

  lemma {:induction false} MembersWithoutNul(ms: Members)
    ensures 0 !in MembersText(ms)
    decreases ms
  {
    MemberWithoutNul(ms.m);
    if ms.MoreMembers? {
      MembersWithoutNul(ms.rest);
      assert 0 !in ms.gap + MembersText(ms.rest);
    }
  }

  lemma {:induction false} ElementsWithoutNul(es: Elements)
    ensures 0 !in ElementsText(es)
    decreases es
  {
    TreeWithoutNul(es.v);
    match es {
      case LastElement(_, after) => assert 0 !in after + [RBRACKET];
      case MoreElements(_, after, gap, rest) =>
        ElementsWithoutNul(rest);
        assert 0 !in gap + ElementsText(rest);
        assert 0 !in after + ([COMMA] + (gap + ElementsText(rest)));
    }
  }

  // --- the language of the reader ---

  /** r is a syntax tree of the whole text t and keeps the reader's limits. */
  predicate Derives(huge: Rounding, r: Root, t: seq<byte>) {
    IsRoot(r.tree) && Readable(huge, r.tree) && RootText(r) == t
  }

  /** The parts of a document stand one after the other. */
  lemma RootPlace(t: seq<byte>, r: Root)
    ensures TreeEnd(|r.before|, r.tree) + |r.after| == |RootText(r)|
    ensures At(t, 0, RootText(r)) <==>
      At(t, 0, r.before) && TreeAt(t, |r.before|, r.tree) && At(t, TreeEnd(|r.before|, r.tree), r.after)
  {
    hide TreeText, TreeAt, TreeEnd;
    AtConcat(t, 0, r.before, TreeText(r.tree) + r.after);
    AtConcat(t, |r.before|, TreeText(r.tree), r.after);
    TreePlace(t, |r.before|, r.tree);
  }

  lemma RootStart(t: seq<byte>, p: nat, tree: Tree)
    requires TreeAt(t, p, tree) && IsRoot(tree)
    ensures Peek(t, p) == LBRACE || Peek(t, p) == LBRACKET
  {}

  /** A text with a syntax tree is read, with the events of that tree and to its end. */
  lemma ReadsRoot(huge: Rounding, r: Root, t: seq<byte>)
    requires Derives(huge, r, t)
    ensures Parse(huge, t) == Done(Emit(r.tree, []), |t|)
  {
    hide TreeText, TreeAt, TreeEnd, Readable, At, SkipWs, ParseValue, Emit;
    AtWhole(t);
    RootPlace(t, r);
    RootStart(t, |r.before|, r.tree);
    SkipsWs(t, 0, r.before);
    AfterValue(t, TreeEnd(|r.before|, r.tree), r.after);
    ReadsValue(huge, t, |r.before|, [], r.tree);
  }

  /** What is read has a syntax tree. */
  lemma FindsRoot(huge: Rounding, t: seq<byte>) returns (r: Root)
    requires 0 !in t && Parse(huge, t).Done?
    ensures Derives(huge, r, t)
  {
    hide TreeText, TreeAt, TreeEnd, Readable, At, SkipWs, ParseValue, Emit;
    var before := FindsGap(t, 0);
    var root := FindsValue(huge, t, |before|, []);
    var after := FindsGap(t, TreeEnd(|before|, root));
    r := Root(before, root, after);
    RootPlace(t, r);
    AtSlice(t, 0, RootText(r));
  }

  /** The reader's language, both ways: a NUL-free text is accepted exactly when it is a text of the
      grammar within the reader's limits; then all of it is read and the events are its tree's. */
  lemma AcceptsExactlyTheGrammar(huge: Rounding, t: seq<byte>)
    requires 0 !in t
    ensures Parse(huge, t).Done? <==> exists r: Root :: Derives(huge, r, t)
    ensures forall r: Root | Derives(huge, r, t) :: Parse(huge, t) == Done(Emit(r.tree, []), |t|)
  {
    if Parse(huge, t).Done? {
      var r := FindsRoot(huge, t);
    }
    forall r: Root | Derives(huge, r, t) ensures Parse(huge, t) == Done(Emit(r.tree, []), |t|) {
      ReadsRoot(huge, r, t);
    }
  }
}
