/** The text that a writer puts for a value, entry by entry, doubles included: what a double is printed as
    is an input. For a value without doubles it is the text of the value's syntax tree. */
module Writing {
  import opened Options
  import opened Bytes
  import opened Decimal
  import opened Json
  import opened Limits
  import opened ReaderSpec
  import opened Grammar
  import opened Rendering
  import opened Dom
  import opened Language
  import opened Soundness
  import opened Builds
  import opened Printing

  /** acc with what separates the next entry, i entries written `depth` brackets inside. */
  function Entry(style: Style, depth: nat, i: nat, acc: seq<byte>): seq<byte> {
    (if i > 0 then acc + [COMMA] else acc) + Line(style, depth + 1)
  }

  /** acc with the text of a value, `depth` brackets inside. */
  function Written(shown: Shown, style: Style, depth: nat, v: Value, acc: seq<byte>): seq<byte>
    requires Printable(v)
    decreases v
  {
    match v
    case VNull => acc + NULL_WORD
    case VBool(b) => acc + if b then TRUE_WORD else FALSE_WORD
    case VNumber(n) => acc + NumeralText(NumeralFor(IntegerOf(n)))
    case VDouble(literal) => acc + shown(literal)
    case VString(s) => RenderString(CharsFor(s.bytes), acc)
    case VObject(fs) => MembersLeft(shown, style, depth, 0, fs, acc + [LBRACE])
    case VArray(vs) => ElementsLeft(shown, style, depth, 0, vs, acc + [LBRACKET])
  }

  /** A name, a colon and a value. */
  function WrittenField(shown: Shown, style: Style, depth: nat, f: Field, acc: seq<byte>): seq<byte>
    requires PrintableField(f)
    decreases f
  {
    Written(shown, style, depth + 1, f.value, RenderString(CharsFor(f.name.bytes), acc) + [COLON] + ColonGap(style))
  }

  /** The rest of an object, i members written: the members fs and the brace, from acc on. */
  function MembersLeft(shown: Shown, style: Style, depth: nat, i: nat, fs: seq<Field>, acc: seq<byte>): seq<byte>
    requires forall k | 0 <= k < |fs| :: PrintableField(fs[k])
    decreases fs
  {
    if fs == [] then (if i == 0 then acc else acc + Line(style, depth)) + [RBRACE]
    else
      MembersLeft(shown, style, depth, i + 1, fs[1..],
        WrittenField(shown, style, depth, fs[0], Entry(style, depth, i, acc)))
  }

  function ElementsLeft(shown: Shown, style: Style, depth: nat, i: nat, vs: seq<Value>, acc: seq<byte>): seq<byte>
    requires forall k | 0 <= k < |vs| :: Printable(vs[k])
    decreases vs
  {
    if vs == [] then (if i == 0 then acc else acc + Line(style, depth)) + [RBRACKET]
    else
      ElementsLeft(shown, style, depth, i + 1, vs[1..],
        Written(shown, style, depth + 1, vs[0], Entry(style, depth, i, acc)))
  }

  // --- the layout, byte for byte ---

  /** The elements null, true and false, each on a line of its own, and the bracket on one that is less indented. */
  lemma ElementsLaidOut(shown: Shown, style: Style, depth: nat, acc: seq<byte>)
    ensures Written(shown, style, depth, VArray([VNull, VBool(true), VBool(false)]), acc) ==
      acc + [0x5B] + Line(style, depth + 1) + [0x6E, 0x75, 0x6C, 0x6C] + [0x2C]
        + Line(style, depth + 1) + [0x74, 0x72, 0x75, 0x65] + [0x2C]
        + Line(style, depth + 1) + [0x66, 0x61, 0x6C, 0x73, 0x65] + Line(style, depth) + [0x5D]
  {
    hide Line;
    var vs := [VNull, VBool(true), VBool(false)];
    assert vs[1..] == [VBool(true), VBool(false)] && vs[1..][1..] == [VBool(false)] && vs[1..][1..][1..] == [];
    var first := Written(shown, style, depth + 1, VNull, Entry(style, depth, 0, acc + [0x5B]));
    var second := Written(shown, style, depth + 1, VBool(true), Entry(style, depth, 1, first));
    var third := Written(shown, style, depth + 1, VBool(false), Entry(style, depth, 2, second));
    assert ElementsLeft(shown, style, depth, 1, vs[1..], first) ==
      ElementsLeft(shown, style, depth, 2, [VBool(false)], second) == ElementsLeft(shown, style, depth, 3, [], third);
  }

  lemma NameLaidOut(acc: seq<byte>)
    ensures RenderString(CharsFor([0x61]), acc) == acc + [0x22] + [0x61] + [0x22]
  {
    assert CharsFor([0x61]) == [Raw(0x61)];
    assert RenderChars([Raw(0x61)], acc + [0x22]) == RenderChars([], acc + [0x22] + [0x61]);
  }

  /** {"a":[null,true,false]} as the pretty writer lays it out: every line starts with the indentation of its open
      brackets, and a space follows each colon. */
  lemma LaidOut(shown: Shown, c: byte, count: nat)
    ensures
      var (line0, line1, line2) := ([0x0A], [0x0A] + seq(count, i => c), [0x0A] + seq(2 * count, i => c));
      var v := VObject([Field(Copied([0x61]), VArray([VNull, VBool(true), VBool(false)]))]);
      Written(shown, Pretty(c, count), 0, v, []) ==
        [0x7B] + line1 + [0x22] + [0x61] + [0x22] + [0x3A] + [0x20] + [0x5B] + line2 + [0x6E, 0x75, 0x6C, 0x6C] + [0x2C]
          + line2 + [0x74, 0x72, 0x75, 0x65] + [0x2C] + line2 + [0x66, 0x61, 0x6C, 0x73, 0x65]
          + line1 + [0x5D] + line0 + [0x7D]
  {
    var style := Pretty(c, count);
    LinesLaidOut(c, count);
    hide Line, RenderString, CharsFor;
    var f := Field(Copied([0x61]), VArray([VNull, VBool(true), VBool(false)]));
    assert [f][1..] == [] && [] + [LBRACE] == [0x7B];
    var acc := [0x7B] + Line(style, 1);
    NameLaidOut(acc);
    ElementsLaidOut(shown, style, 1, acc + [0x22] + [0x61] + [0x22] + [0x3A] + [0x20]);
    assert Written(shown, style, 0, VObject([f]), []) ==
      MembersLeft(shown, style, 0, 1, [], WrittenField(shown, style, 0, f, acc));
  }

  lemma LinesLaidOut(c: byte, count: nat)
    ensures Line(Pretty(c, count), 0) == [0x0A]
    ensures Line(Pretty(c, count), 1) == [0x0A] + seq(count, i => c)
    ensures Line(Pretty(c, count), 2) == [0x0A] + seq(2 * count, i => c)
  {}

  // --- without doubles ---

  /** The text of a value without doubles is that of its syntax tree. */
  lemma {:induction false} WrittenIsTree(shown: Shown, style: Style, depth: nat, v: Value, acc: seq<byte>)
    requires Indents(style) && Plain(v)
    ensures Printable(v) && Written(shown, style, depth, v, acc) == Render(TreeFor(style, depth, v), acc)
    decreases v
  {
    PlainIsPrintable(v);
    hide CharsFor, RenderString, NumeralFor, NumeralText;
    match v {
      case VObject(fs) =>
        hide MemberFor, RenderMember, WrittenField, Line;
        if fs != [] { MembersAreTree(shown, style, depth, 0, fs, acc + [LBRACE]); }
      case VArray(vs) =>
        hide Line;
        if vs != [] { ElementsAreTree(shown, style, depth, 0, vs, acc + [LBRACKET]); }
      case _ =>
    }
  }

  lemma {:induction false} PlainIsPrintable(v: Value)
    requires Plain(v)
    ensures Printable(v)
    decreases v
  {
    match v {
      case VObject(fs) =>
        forall i | 0 <= i < |fs| ensures PrintableField(fs[i]) { PlainIsPrintable(fs[i].value); }
      case VArray(vs) =>
        forall i | 0 <= i < |vs| ensures Printable(vs[i]) { PlainIsPrintable(vs[i]); }
      case _ =>
    }
  }

  lemma {:induction false} FieldIsTree(shown: Shown, style: Style, depth: nat, f: Field, acc: seq<byte>)
    requires Indents(style) && PlainField(f)
    ensures PrintableField(f)
    ensures WrittenField(shown, style, depth, f, acc) == RenderMember(MemberFor(style, depth, f, []), acc)
    decreases f
  {
    hide Render, RenderString, TreeFor, Written, CharsFor;
    var named := RenderString(CharsFor(f.name.bytes), acc);
    WrittenIsTree(shown, style, depth + 1, f.value, named + [COLON] + ColonGap(style));
    assert named + [] == named;
    var text := Render(TreeFor(style, depth + 1, f.value), named + [COLON] + ColonGap(style));
    assert text + [] == text;
  }

  lemma AfterMember(style: Style, depth: nat, f: Field, acc: seq<byte>)
    requires Indents(style) && PlainField(f)
    ensures RenderMember(MemberFor(style, depth, f, LineGap(style, depth)), acc) ==
      RenderMember(MemberFor(style, depth, f, []), acc) + Line(style, depth)
  {}

  lemma {:induction false} MembersAreTree(shown: Shown, style: Style, depth: nat, i: nat, fs: seq<Field>,
    acc: seq<byte>)
    requires Indents(style) && |fs| > 0 && forall k | 0 <= k < |fs| :: PlainField(fs[k])
    ensures forall k | 0 <= k < |fs| :: PrintableField(fs[k])
    ensures MembersLeft(shown, style, depth, i, fs, acc) ==
      RenderMembers(MembersFor(style, depth, fs), Entry(style, depth, i, acc))
    decreases fs
  {
    hide MemberFor, RenderMember, WrittenField, Line, PlainField, PrintableField;
    FieldIsTree(shown, style, depth, fs[0], Entry(style, depth, i, acc));
    var written := WrittenField(shown, style, depth, fs[0], Entry(style, depth, i, acc));
    if |fs| == 1 {
      AfterMember(style, depth, fs[0], Entry(style, depth, i, acc));
      assert fs[1..] == [];
    } else {
      MembersAreTree(shown, style, depth, i + 1, fs[1..], written);
      assert forall k | 0 < k < |fs| :: fs[k] == fs[1..][k - 1];
    }
  }

  lemma {:induction false} ElementsAreTree(shown: Shown, style: Style, depth: nat, i: nat, vs: seq<Value>,
    acc: seq<byte>)
    requires Indents(style) && |vs| > 0 && forall k | 0 <= k < |vs| :: Plain(vs[k])
    ensures forall k | 0 <= k < |vs| :: Printable(vs[k])
    ensures ElementsLeft(shown, style, depth, i, vs, acc) ==
      RenderElements(ElementsFor(style, depth, vs), Entry(style, depth, i, acc))
    decreases vs
  {
    hide TreeFor, Render, Written, Line, Plain, Printable;
    WrittenIsTree(shown, style, depth + 1, vs[0], Entry(style, depth, i, acc));
    var written := Written(shown, style, depth + 1, vs[0], Entry(style, depth, i, acc));
    assert written + [] == written;
    if |vs| == 1 {
      assert vs[1..] == [];
    } else {
      ElementsAreTree(shown, style, depth, i + 1, vs[1..], written);
      assert forall k | 0 < k < |vs| :: vs[k] == vs[1..][k - 1];
    }
  }

  // --- what is written is a C string, and what is read can be written ---

  lemma LineEnds(style: Style, depth: nat)
    requires Indents(style)
    ensures 0 !in Line(style, depth) && 0 !in ColonGap(style)
  {}

  lemma StringEnds(s: seq<byte>, acc: seq<byte>)
    requires 0 !in acc
    ensures 0 !in RenderString(CharsFor(s), acc)
  {
    RendersString(CharsFor(s), acc);
    CharsWithoutNul(CharsFor(s));
  }

  lemma NumberEnds(z: int)
    ensures 0 !in NumeralText(NumeralFor(z))
  {
    TreeWithoutNul(TNumber(NumeralFor(z)));
  }

  ghost predicate Ends(shown: Shown) { forall literal :: 0 !in shown(literal) }

  lemma {:induction false} WrittenEnds(shown: Shown, style: Style, depth: nat, v: Value, acc: seq<byte>)
    requires Indents(style) && Printable(v) && Ends(shown) && 0 !in acc
    ensures 0 !in Written(shown, style, depth, v, acc)
    decreases v
  {
    match v {
      case VNull => assert 0 !in NULL_WORD;
      case VBool(b) => assert 0 !in TRUE_WORD && 0 !in FALSE_WORD;
      case VNumber(n) => NumberEnds(IntegerOf(n));
      case VDouble(literal) => assert 0 !in shown(literal);
      case VString(s) => StringEnds(s.bytes, acc);
      case VObject(fs) => MembersEnd(shown, style, depth, 0, fs, acc + [LBRACE]);
      case VArray(vs) => ElementsEnd(shown, style, depth, 0, vs, acc + [LBRACKET]);
    }
  }

  lemma {:induction false} MembersEnd(shown: Shown, style: Style, depth: nat, i: nat, fs: seq<Field>, acc: seq<byte>)
    requires Indents(style) && (forall k | 0 <= k < |fs| :: PrintableField(fs[k])) && Ends(shown) && 0 !in acc
    ensures 0 !in MembersLeft(shown, style, depth, i, fs, acc)
    decreases fs
  {
    hide Line, ColonGap, Ends, RenderString, CharsFor;
    LineEnds(style, depth);
    if fs != [] {
      hide WrittenField, PrintableField;
      LineEnds(style, depth + 1);
      var led := Entry(style, depth, i, acc);
      FieldEnds(shown, style, depth, fs[0], led);
      MembersEnd(shown, style, depth, i + 1, fs[1..], WrittenField(shown, style, depth, fs[0], led));
    }
  }

  lemma {:induction false} FieldEnds(shown: Shown, style: Style, depth: nat, f: Field, acc: seq<byte>)
    requires Indents(style) && PrintableField(f) && Ends(shown) && 0 !in acc
    ensures 0 !in WrittenField(shown, style, depth, f, acc)
    decreases f
  {
    hide Written, ColonGap, RenderString, CharsFor, Ends;
    LineEnds(style, depth);
    StringEnds(f.name.bytes, acc);
    WrittenEnds(shown, style, depth + 1, f.value,
      RenderString(CharsFor(f.name.bytes), acc) + [COLON] + ColonGap(style));
  }

  lemma {:induction false} ElementsEnd(shown: Shown, style: Style, depth: nat, i: nat, vs: seq<Value>, acc: seq<byte>)
    requires Indents(style) && (forall k | 0 <= k < |vs| :: Printable(vs[k])) && Ends(shown) && 0 !in acc
    ensures 0 !in ElementsLeft(shown, style, depth, i, vs, acc)
    decreases vs
  {
    hide Line, Ends, Written, Printable;
    LineEnds(style, depth);
    if vs != [] {
      LineEnds(style, depth + 1);
      var led := Entry(style, depth, i, acc);
      WrittenEnds(shown, style, depth + 1, vs[0], led);
      ElementsEnd(shown, style, depth, i + 1, vs[1..], Written(shown, style, depth + 1, vs[0], led));
    }
  }

  /** Every value that is read can be printed. */
  lemma {:induction false} ReadIsPrintable(tree: Tree)
    ensures Printable(ValueOf(tree))
    decreases tree
  {
    match tree {
      case TNumber(n) => NumberIsPrintable(n);
      case TObject(_, ms) => MembersArePrintable(ms, []);
      case TArray(_, es) => ElementsArePrintable(es, []);
      case _ =>
    }
  }

  lemma RootIsPrintable(huge: Rounding, t: seq<byte>, v: Value)
    requires Parse(huge, t).Done? && Run(Parse(huge, t).events) == Some([v])
    ensures Printable(v)
  {
    var tree := FindsValue(huge, t, SkipWs(t, 0), []);
    assert Run([]) == Some([]);
    hide Run, Emit, ValueOf;
    BuildsValue(tree, [], []);
    ReadIsPrintable(tree);
    assert ([] + [ValueOf(tree)])[0] == [v][0];
  }

  lemma NumberIsPrintable(n: Numeral)
    ensures Printable(Leaf(NumeralEvent(n)))
  {
    ValBounds(n.whole);
    hide Val;
    var v := Val(n.whole);
    var z := if n.minus then -v else v;
    if n.frac.None? && n.exp.None? && (if n.minus then v <= TWO63 else v < TWO64) {
      FlagsAreCanonical(z);
      CanonicalHolds(z);
    }
  }

  lemma CanonicalHolds(z: int)
    requires -TWO63 <= z < TWO64
    ensures IsInteger(Canonical(z))
  {}

  lemma {:induction false} MembersArePrintable(ms: Members, acc: seq<Field>)
    requires forall i | 0 <= i < |acc| :: PrintableField(acc[i])
    ensures forall i | 0 <= i < |FieldsOf(ms, acc)| :: PrintableField(FieldsOf(ms, acc)[i])
    decreases ms
  {
    hide Printable, ValueOf;
    ReadIsPrintable(ms.m.value);
    assert PrintableField(FieldOf(ms.m));
    hide FieldOf, PrintableField;
    if ms.MoreMembers? { MembersArePrintable(ms.rest, acc + [FieldOf(ms.m)]); }
  }

  lemma {:induction false} ElementsArePrintable(es: Elements, acc: seq<Value>)
    requires forall i | 0 <= i < |acc| :: Printable(acc[i])
    ensures forall i | 0 <= i < |ElementsOf(es, acc)| :: Printable(ElementsOf(es, acc)[i])
    decreases es
  {
    hide Printable, ValueOf;
    ReadIsPrintable(es.v);
    if es.MoreElements? { ElementsArePrintable(es.rest, acc + [ValueOf(es.v)]); }
  }
}
