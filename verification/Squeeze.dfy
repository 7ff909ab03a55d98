/** Whitespace outside strings: deleting it from a text of the grammar leaves the text of the same
    tree without gaps, which is read to the same events; the pretty text becomes the compact one. */
module Squeeze {
  import opened Bytes
  import opened Json
  import opened Limits
  import opened ReaderSpec
  import opened Grammar
  import opened Rendering
  import opened Places
  import opened Language
  import opened Dom
  import opened Printing
  import opened RoundTrip

  /** The bytes of t from p on without the whitespace outside strings, after those in acc. */
  function StripFrom(t: seq<byte>, p: nat, inString: bool, acc: seq<byte>): seq<byte>
    decreases |t| - p
  {
    if p >= |t| then acc
    else if inString && t[p] == BACKSLASH && p + 1 < |t| then StripFrom(t, p + 2, true, acc + [t[p]] + [t[p + 1]])
    else if inString then StripFrom(t, p + 1, t[p] != QUOTE, acc + [t[p]])
    else if IsWs(t[p]) then StripFrom(t, p + 1, false, acc)
    else StripFrom(t, p + 1, t[p] == QUOTE, acc + [t[p]])
  }

  function Strip(t: seq<byte>): seq<byte> { StripFrom(t, 0, false, []) }

  /** The tree without its gaps. */
  function Squeezed(tree: Tree): Tree
    decreases tree
  {
    match tree
    case TEmptyObject(_) => TEmptyObject([])
    case TObject(_, ms) => TObject([], SqueezedMembers(ms))
    case TEmptyArray(_) => TEmptyArray([])
    case TArray(_, es) => TArray([], SqueezedElements(es))
    case _ => tree
  }

  function SqueezedMember(m: Member): Member
    decreases m
  {
    Member(m.name, [], [], Squeezed(m.value), [])
  }

  function SqueezedMembers(ms: Members): Members
    decreases ms
  {
    match ms
    case LastMember(m) => LastMember(SqueezedMember(m))
    case MoreMembers(m, _, rest) => MoreMembers(SqueezedMember(m), [], SqueezedMembers(rest))
  }

  function SqueezedElements(es: Elements): Elements
    decreases es
  {
    match es
    case LastElement(v, _) => LastElement(Squeezed(v), [])
    case MoreElements(v, _, _, rest) => MoreElements(Squeezed(v), [], [], SqueezedElements(rest))
  }

  // --- a squeezed tree sends the same events ---

  lemma {:induction false} SameEvents(huge: Rounding, tree: Tree, ev: seq<Event>)
    ensures Emit(Squeezed(tree), ev) == Emit(tree, ev)
    ensures Readable(huge, Squeezed(tree)) == Readable(huge, tree)
    decreases tree
  {
    match tree {
      case TObject(_, ms) => SameMembersEvents(huge, ms, ev + [StartObject], 0);
      case TArray(_, es) => SameElementsEvents(huge, es, ev + [StartArray], 0);
      case _ =>
    }
  }

  lemma {:induction false} SameMembersEvents(huge: Rounding, ms: Members, ev: seq<Event>, n: nat)
    ensures EmitMembers(SqueezedMembers(ms), ev, n) == EmitMembers(ms, ev, n)
    ensures MembersReadable(huge, SqueezedMembers(ms)) == MembersReadable(huge, ms)
    decreases ms
  {
    SameEvents(huge, ms.m.value, ev + [String(Copied(CharsBytes(ms.m.name, [])))]);
    if ms.MoreMembers? { SameMembersEvents(huge, ms.rest, EmitMember(ms.m, ev), n + 1); }
  }

  lemma {:induction false} SameElementsEvents(huge: Rounding, es: Elements, ev: seq<Event>, n: nat)
    ensures EmitElements(SqueezedElements(es), ev, n) == EmitElements(es, ev, n)
    ensures ElementsReadable(huge, SqueezedElements(es)) == ElementsReadable(huge, es)
    decreases es
  {
    SameEvents(huge, es.v, ev);
    if es.MoreElements? { SameElementsEvents(huge, es.rest, Emit(es.v, ev), n + 1); }
  }

  // --- stripping a text squeezes its tree ---

  lemma {:induction false} StripsGap(t: seq<byte>, p: nat, gap: Gap, acc: seq<byte>)
    requires At(t, p, gap)
    ensures StripFrom(t, p, false, acc) == StripFrom(t, p + |gap|, false, acc)
    decreases |gap|
  {
    if gap != [] { StripsGap(t, p + 1, gap[1..], acc); }
  }

  /** No whitespace and no quote. */
  predicate Inked(s: seq<byte>) { forall i | 0 <= i < |s| :: !IsWs(s[i]) && s[i] != QUOTE }

  lemma {:induction false} StripsInk(t: seq<byte>, p: nat, s: seq<byte>, acc: seq<byte>)
    requires At(t, p, s) && Inked(s)
    ensures StripFrom(t, p, false, acc) == StripFrom(t, p + |s|, false, acc + s)
    decreases |s|
  {
    if s == [] {
      assert acc + s == acc;
    } else {
      StripsInk(t, p + 1, s[1..], acc + [s[0]]);
      assert acc + [s[0]] + s[1..] == acc + s;
    }
  }

  /** No backslash and no quote. */
  predicate Quiet(s: seq<byte>) { forall i | 0 <= i < |s| :: s[i] != BACKSLASH && s[i] != QUOTE }

  lemma {:induction false} StripsQuiet(t: seq<byte>, p: nat, s: seq<byte>, acc: seq<byte>)
    requires At(t, p, s) && Quiet(s)
    ensures StripFrom(t, p, true, acc) == StripFrom(t, p + |s|, true, acc + s)
    decreases |s|
  {
    if s == [] {
      assert acc + s == acc;
    } else {
      StripsQuiet(t, p + 1, s[1..], acc + [s[0]]);
      assert acc + [s[0]] + s[1..] == acc + s;
    }
  }

  lemma StripsUnit(t: seq<byte>, p: nat, hex: Hex4, acc: seq<byte>)
    requires CharAt(t, p, Unit(hex))
    ensures StripFrom(t, p, true, acc) == StripFrom(t, p + 6, true, acc + CharText(Unit(hex)))
  {
    StripsQuiet(t, p + 2, hex, acc + [BACKSLASH] + [LOWER_U]);
    assert acc + [BACKSLASH] + [LOWER_U] + hex == acc + CharText(Unit(hex));
  }

  lemma StripsChar(t: seq<byte>, p: nat, c: Char, acc: seq<byte>)
    requires CharAt(t, p, c)
    ensures StripFrom(t, p, true, acc) == StripFrom(t, CharEnd(p, c), true, acc + CharText(c))
  {
    match c {
      case Raw(b) =>
      case Short(e) => assert acc + [BACKSLASH] + [e] == acc + CharText(c);
      case Unit(hex) => StripsUnit(t, p, hex, acc);
      case Pair(hi, lo) =>
        StripsUnit(t, p, hi, acc);
        StripsUnit(t, p + 6, lo, acc + CharText(Unit(hi)));
        assert acc + CharText(Unit(hi)) + CharText(Unit(lo)) == acc + CharText(c);
    }
  }

  lemma {:induction false} StripsChars(t: seq<byte>, p: nat, cs: seq<Char>, acc: seq<byte>)
    requires CharsAt(t, p, cs)
    ensures StripFrom(t, p, true, acc) == StripFrom(t, CharsEnd(p, cs), false, RenderChars(cs, acc))
    decreases |cs|
  {
    hide CharAt, CharText;
    if cs != [] {
      StripsChar(t, p, cs[0], acc);
      StripsChars(t, CharEnd(p, cs[0]), cs[1..], acc + CharText(cs[0]));
    }
  }

  lemma StripsString(t: seq<byte>, p: nat, cs: seq<Char>, acc: seq<byte>)
    requires StringAt(t, p, cs)
    ensures StripFrom(t, p, false, acc) == StripFrom(t, StringEnd(p, cs), false, RenderString(cs, acc))
  {
    StripsChars(t, p + 1, cs, acc + [QUOTE]);
  }

  lemma NumeralInked(n: Numeral)
    ensures Inked(NumeralText(n))
  {
    assert Inked(n.whole) && Inked(SignText(n));
    assert Inked(FracText(n));
    assert Inked(ExpText(n));
    JoinInked(FracText(n), ExpText(n));
    JoinInked(n.whole, FracText(n) + ExpText(n));
    JoinInked(SignText(n), n.whole + (FracText(n) + ExpText(n)));
  }

  lemma JoinInked(a: seq<byte>, b: seq<byte>)
    requires Inked(a) && Inked(b)
    ensures Inked(a + b)
  {}

  /** A byte that is neither whitespace nor a quote. */
  lemma StripsByte(t: seq<byte>, p: nat, c: byte, acc: seq<byte>)
    requires Peek(t, p) == c != 0 && !IsWs(c) && c != QUOTE
    ensures StripFrom(t, p, false, acc) == StripFrom(t, p + 1, false, acc + [c])
  {}

  /** A bracket or separator and the gap after it. */
  lemma StripsOpen(t: seq<byte>, p: nat, c: byte, gap: Gap, acc: seq<byte>)
    requires Peek(t, p) == c != 0 && !IsWs(c) && c != QUOTE && At(t, p + 1, gap)
    ensures StripFrom(t, p, false, acc) == StripFrom(t, GapEnd(p, gap), false, acc + [c] + [])
  {
    StripsByte(t, p, c, acc);
    StripsGap(t, p + 1, gap, acc + [c]);
    assert acc + [c] + [] == acc + [c];
  }

  /** Stripping the text of a tree writes out the tree without its gaps. */
  lemma {:induction false} StripsTree(t: seq<byte>, p: nat, tree: Tree, acc: seq<byte>)
    requires TreeAt(t, p, tree)
    ensures StripFrom(t, p, false, acc) == StripFrom(t, TreeEnd(p, tree), false, Render(Squeezed(tree), acc))
    decreases tree
  {
    hide StripFrom, StringAt, NumeralText;
    match tree {
      case TNull => StripsInk(t, p, NULL_WORD, acc);
      case TTrue => StripsInk(t, p, TRUE_WORD, acc);
      case TFalse => StripsInk(t, p, FALSE_WORD, acc);
      case TString(cs) => StripsString(t, p, cs, acc);
      case TNumber(n) =>
        NumeralPlace(t, p, n);
        NumeralInked(n);
        StripsInk(t, p, NumeralText(n), acc);
      case TEmptyObject(gap) =>
        StripsOpen(t, p, LBRACE, gap, acc);
        StripsByte(t, GapEnd(p, gap), RBRACE, acc + [LBRACE] + []);
      case TObject(gap, ms) =>
        StripsOpen(t, p, LBRACE, gap, acc);
        StripsMembers(t, GapEnd(p, gap), ms, acc + [LBRACE] + []);
      case TEmptyArray(gap) =>
        StripsOpen(t, p, LBRACKET, gap, acc);
        StripsByte(t, GapEnd(p, gap), RBRACKET, acc + [LBRACKET] + []);
      case TArray(gap, es) =>
        StripsOpen(t, p, LBRACKET, gap, acc);
        StripsElements(t, GapEnd(p, gap), es, acc + [LBRACKET] + []);
    }
  }

  lemma {:induction false} StripsMember(t: seq<byte>, p: nat, m: Member, acc: seq<byte>)
    requires MemberAt(t, p, m)
    ensures StripFrom(t, p, false, acc) == StripFrom(t, MemberEnd(p, m), false, RenderMember(SqueezedMember(m), acc))
    decreases m
  {
    hide StripFrom, StringAt;
    var named := RenderString(m.name, acc);
    StripsString(t, p, m.name, acc);
    StripsGap(t, StringEnd(p, m.name), m.gap1, named);
    assert named + [] == named;
    StripsOpen(t, ColonPos(p, m), COLON, m.gap2, named + []);
    var open := named + [] + [COLON] + [];
    StripsTree(t, GapEnd(ColonPos(p, m), m.gap2), m.value, open);
    StripsGap(t, TreeEnd(GapEnd(ColonPos(p, m), m.gap2), m.value), m.after, Render(Squeezed(m.value), open));
    assert Render(Squeezed(m.value), open) + [] == Render(Squeezed(m.value), open);
  }

  lemma {:induction false} StripsMembers(t: seq<byte>, p: nat, ms: Members, acc: seq<byte>)
    requires MembersAt(t, p, ms)
    ensures StripFrom(t, p, false, acc) ==
      StripFrom(t, MembersEnd(p, ms), false, RenderMembers(SqueezedMembers(ms), acc))
    decreases ms
  {
    hide StripFrom, StringAt, RenderMember;
    StripsMember(t, p, ms.m, acc);
    var done := RenderMember(SqueezedMember(ms.m), acc);
    match ms {
      case LastMember(m) => StripsByte(t, MemberEnd(p, m), RBRACE, done);
      case MoreMembers(m, gap, rest) =>
        StripsOpen(t, MemberEnd(p, m), COMMA, gap, done);
        StripsMembers(t, GapEnd(MemberEnd(p, m), gap), rest, done + [COMMA] + []);
    }
  }

  lemma {:induction false} StripsElements(t: seq<byte>, p: nat, es: Elements, acc: seq<byte>)
    requires ElementsAt(t, p, es)
    ensures StripFrom(t, p, false, acc) ==
      StripFrom(t, ElementsEnd(p, es), false, RenderElements(SqueezedElements(es), acc))
    decreases es
  {
    hide StripFrom;
    StripsTree(t, p, es.v, acc);
    var done := Render(Squeezed(es.v), acc);
    StripsGap(t, TreeEnd(p, es.v), es.after, done);
    assert done + [] == done;
    match es {
      case LastElement(_, _) => StripsByte(t, ElementEnd(p, es), RBRACKET, done + []);
      case MoreElements(_, _, gap, rest) =>
        StripsOpen(t, ElementEnd(p, es), COMMA, gap, done + []);
        StripsElements(t, GapEnd(ElementEnd(p, es), gap), rest, done + [] + [COMMA] + []);
    }
  }

  /** Stripping a whole text gives the text of its tree without gaps. */
  lemma StripsRoot(r: Root)
    ensures Strip(RootText(r)) == TreeText(Squeezed(r.tree))
  {
    var t := RootText(r);
    AtWhole(t);
    RootPlace(t, r);
    StripsGap(t, 0, r.before, []);
    StripsTree(t, |r.before|, r.tree, []);
    var out := Render(Squeezed(r.tree), []);
    StripsGap(t, TreeEnd(|r.before|, r.tree), r.after, out);
    Renders(Squeezed(r.tree), []);
    assert [] + TreeText(Squeezed(r.tree)) == TreeText(Squeezed(r.tree));
  }

  /** Whitespace outside strings does not matter: whatever text the reader accepts, it accepts the
      text without that whitespace too, with the same events. */
  lemma WhitespaceDoesNotMatter(huge: Rounding, t: seq<byte>)
    requires 0 !in t && Parse(huge, t).Done?
    ensures Parse(huge, Strip(t)) == Done(Parse(huge, t).events, |Strip(t)|)
  {
    var r := FindsRoot(huge, t);
    ReadsRoot(huge, r, t);
    StripsRoot(r);
    SameEvents(huge, r.tree, []);
    var bare := Root([], Squeezed(r.tree), []);
    assert RootText(bare) == TreeText(Squeezed(r.tree));
    ReadsRoot(huge, bare, Strip(t));
  }

  // --- the pretty text and the compact text ---

  lemma {:induction false} SqueezedLayout(style: Style, depth: nat, v: Value)
    requires Indents(style) && Plain(v)
    ensures Squeezed(TreeFor(style, depth, v)) == TreeFor(Compact, depth, v)
    decreases v
  {
    match v {
      case VObject(fs) => if fs != [] { SqueezedMembersLayout(style, depth, fs); }
      case VArray(vs) => if vs != [] { SqueezedElementsLayout(style, depth, vs); }
      case _ =>
    }
  }

  lemma {:induction false} SqueezedMemberLayout(style: Style, depth: nat, f: Field, after: Gap)
    requires Indents(style) && PlainField(f)
    ensures SqueezedMember(MemberFor(style, depth, f, after)) == MemberFor(Compact, depth, f, [])
    decreases f
  {
    SqueezedLayout(style, depth + 1, f.value);
  }

  lemma {:induction false} SqueezedMembersLayout(style: Style, depth: nat, fs: seq<Field>)
    requires Indents(style) && |fs| > 0 && forall i | 0 <= i < |fs| :: PlainField(fs[i])
    ensures SqueezedMembers(MembersFor(style, depth, fs)) == MembersFor(Compact, depth, fs)
    decreases fs
  {
    if |fs| == 1 {
      SqueezedMemberLayout(style, depth, fs[0], LineGap(style, depth));
    } else {
      SqueezedMemberLayout(style, depth, fs[0], []);
      SqueezedMembersLayout(style, depth, fs[1..]);
    }
  }

  lemma {:induction false} SqueezedElementsLayout(style: Style, depth: nat, vs: seq<Value>)
    requires Indents(style) && |vs| > 0 && forall i | 0 <= i < |vs| :: Plain(vs[i])
    ensures SqueezedElements(ElementsFor(style, depth, vs)) == ElementsFor(Compact, depth, vs)
    decreases vs
  {
    SqueezedLayout(style, depth + 1, vs[0]);
    if |vs| > 1 { SqueezedElementsLayout(style, depth, vs[1..]); }
  }

  /** Deleting the whitespace outside strings from the pretty writer's text, whatever the indent
      character and count, gives exactly the plain writer's text. */
  lemma PrettyStripsToCompact(style: Style, v: Value)
    requires Indents(style) && Plain(v)
    ensures Strip(Printed(style, v)) == Printed(Compact, v)
  {
    var r := Root([], TreeFor(style, 0, v), []);
    assert RootText(r) == Printed(style, v);
    StripsRoot(r);
    SqueezedLayout(style, 0, v);
  }
}
