/** Parsing what a writer prints gives the value back. */
module RoundTrip {
  import opened Options
  import opened Bytes
  import opened Decimal
  import opened Json
  import opened Limits
  import opened ReaderSpec
  import opened Grammar
  import opened Completeness
  import opened Language
  import opened Dom
  import opened Builds
  import opened Printing

  /** The escape tables of writer and reader are inverse on every byte the writer escapes. */
  lemma EscapesInvert(b: byte)
    ensures CharBytes(CharFor(b)) == [b]
    ensures EscapeLetter(b) != 0 && EscapeLetter(b) != LOWER_U ==>
      Unescape(EscapeLetter(b)) == b && Escaped(EscapeLetter(b)) == b
    ensures CharsReadable([CharFor(b)])
  {}

  /** The bytes that a writer puts for a byte of a string. */
  lemma EscapesSpelledOut(b: byte)
    ensures CharText(CharFor(b)) ==
      if b == 0x22 || b == 0x5C then [0x5C, b]
      else if b == 0x08 then [0x5C, 0x62]
      else if b == 0x09 then [0x5C, 0x74]
      else if b == 0x0A then [0x5C, 0x6E]
      else if b == 0x0C then [0x5C, 0x66]
      else if b == 0x0D then [0x5C, 0x72]
      else if b < 0x20 then
        var low := b % 16;
        [0x5C, 0x75, 0x30, 0x30, 0x30 + b / 16, if low < 10 then 0x30 + low else 0x41 + (low - 10)]
      else [b]
  {}

  lemma {:induction false} StringsInvert(s: seq<byte>, acc: seq<byte>)
    ensures CharsBytes(CharsFor(s), acc) == acc + s
    decreases |s|
  {
    hide CharFor, CharBytes, CharsFor;
    if s == [] {
      CharsForSplits(s);
      assert acc + s == acc;
    } else {
      EscapesInvert(s[0]);
      CharsForSplits(s);
      StringsInvert(s[1..], acc + [s[0]]);
      assert acc + [s[0]] + s[1..] == acc + s;
    }
  }

  lemma CharsForSplits(s: seq<byte>)
    ensures |CharsFor(s)| == |s|
    ensures s != [] ==> CharsFor(s)[0] == CharFor(s[0]) && CharsFor(s)[1..] == CharsFor(s[1..])
  {}

  lemma {:induction false} StringsReadable(s: seq<byte>)
    ensures CharsReadable(CharsFor(s))
    decreases |s|
  {
    if s != [] {
      EscapesInvert(s[0]);
      StringsReadable(s[1..]);
      assert [CharFor(s[0])][0] == CharFor(s[0]);
      forall i | 0 <= i < |s| && CharsFor(s)[i].Unit? ensures !IsHigh(CharsFor(s)[i].hex) {
        if i > 0 { assert CharsFor(s)[i] == CharsFor(s[1..])[i - 1]; }
      }
    }
  }

  /** For every byte string, the reader returns from the writer's text exactly that string, and
      stops just behind the closing quote. */
  lemma StringRoundTrip(t: seq<byte>, p: nat, ev: seq<Event>, s: seq<byte>)
    requires At(t, p, StringText(CharsFor(s)))
    ensures ParseString(t, p, ev) == Done(ev + [String(Copied(s))], p + |StringText(CharsFor(s))|)
  {
    StringPlace(t, p, CharsFor(s));
    StringsInvert(s, []);
    StringsReadable(s);
    ReadsString(t, p, ev, CharsFor(s));
    assert [] + s == s;
  }

  /** The digits of an integer are read back to the number every constructor builds from it. */
  lemma NumbersInvert(huge: Rounding, z: int)
    requires -TWO63 <= z < TWO64
    ensures NumeralReadable(huge, NumeralFor(z))
    ensures Leaf(NumeralEvent(NumeralFor(z))) == VNumber(Canonical(z))
  {
    var n := NumeralFor(z);
    ValDigits(if z < 0 then -z else z);
    forall j: nat | 0 < j < |n.whole| ensures !Overlong(huge, n.minus, n.whole, j) {
      assert n.whole[..|n.whole|] == n.whole;
      ValMonotone(n.whole, j + 1, |n.whole|);
    }
    FlagsAreCanonical(z);
  }

  /** The tree a writer lays out denotes the value, and the reader's limits do not touch it. */
  lemma {:induction false} TreesInvert(huge: Rounding, style: Style, depth: nat, v: Value)
    requires Indents(style) && Plain(v)
    ensures ValueOf(TreeFor(style, depth, v)) == v && Readable(huge, TreeFor(style, depth, v))
    decreases v
  {
    match v {
      case VNumber(n) => NumbersInvert(huge, IntegerOf(n));
      case VString(s) =>
        StringsInvert(s.bytes, []);
        StringsReadable(s.bytes);
        assert [] + s.bytes == s.bytes;
      case VObject(fs) =>
        if fs != [] {
          MembersInvert(huge, style, depth, fs, []);
          assert [] + fs == fs;
        }
      case VArray(vs) =>
        if vs != [] {
          ElementsInvert(huge, style, depth, vs, []);
          assert [] + vs == vs;
        }
      case _ =>
    }
  }

  lemma {:induction false} MemberInverts(huge: Rounding, style: Style, depth: nat, f: Field, after: Gap)
    requires Indents(style) && PlainField(f)
    ensures var m := MemberFor(style, depth, f, after);
      FieldOf(m) == f && CharsReadable(m.name) && Readable(huge, m.value)
    decreases f
  {
    StringsInvert(f.name.bytes, []);
    StringsReadable(f.name.bytes);
    assert [] + f.name.bytes == f.name.bytes;
    TreesInvert(huge, style, depth + 1, f.value);
  }

  lemma {:induction false} MembersInvert(huge: Rounding, style: Style, depth: nat, fs: seq<Field>, acc: seq<Field>)
    requires Indents(style) && |fs| > 0 && forall i | 0 <= i < |fs| :: PlainField(fs[i])
    ensures FieldsOf(MembersFor(style, depth, fs), acc) == acc + fs
    ensures MembersReadable(huge, MembersFor(style, depth, fs))
    decreases fs
  {
    if |fs| == 1 {
      MemberInverts(huge, style, depth, fs[0], LineGap(style, depth));
      assert fs == [fs[0]];
    } else {
      MemberInverts(huge, style, depth, fs[0], []);
      MembersInvert(huge, style, depth, fs[1..], acc + [fs[0]]);
      assert acc + [fs[0]] + fs[1..] == acc + fs;
    }
  }

  lemma {:induction false} ElementsInvert(huge: Rounding, style: Style, depth: nat, vs: seq<Value>, acc: seq<Value>)
    requires Indents(style) && |vs| > 0 && forall i | 0 <= i < |vs| :: Plain(vs[i])
    ensures ElementsOf(ElementsFor(style, depth, vs), acc) == acc + vs
    ensures ElementsReadable(huge, ElementsFor(style, depth, vs))
    decreases vs
  {
    TreesInvert(huge, style, depth + 1, vs[0]);
    if |vs| == 1 {
      assert vs == [vs[0]];
    } else {
      ElementsInvert(huge, style, depth, vs[1..], acc + [vs[0]]);
      assert acc + [vs[0]] + vs[1..] == acc + vs;
    }
  }

  /** The text a writer prints for a value at the root. */
  function Printed(style: Style, v: Value): seq<byte>
    requires Indents(style) && Plain(v)
  {
    TreeText(TreeFor(style, 0, v))
  }

  /** The text of a tree is read to its end, and the document built from it is the tree's value. */
  lemma TreeReads(huge: Rounding, tree: Tree)
    requires IsRoot(tree) && Readable(huge, tree)
    ensures var r := Parse(huge, TreeText(tree));
      r.Done? && r.pos == |TreeText(tree)| && Run(r.events) == Some([ValueOf(tree)])
  {
    assert Derives(huge, Root([], tree, []), TreeText(tree)) by {
      assert TreeText(tree) + [] == TreeText(tree) && [] + TreeText(tree) == TreeText(tree);
    }
    ReadsRoot(huge, Root([], tree, []), TreeText(tree));
    assert Run([]) == Some([]);
    hide Run, Emit, ValueOf;
    BuildsValue(tree, [], []);
    assert [] + [ValueOf(tree)] == [ValueOf(tree)];
  }

  /** Parse after print is the identity: for every object or array of strings, booleans, nulls and
      integers, in either writer's layout, the document parsed from the text is that value. */
  lemma ParseAfterPrint(huge: Rounding, style: Style, v: Value)
    requires Indents(style) && Plain(v) && (v.VObject? || v.VArray?)
    ensures var r := Parse(huge, Printed(style, v));
      r.Done? && r.pos == |Printed(style, v)| && Run(r.events) == Some([v])
  {
    TreesInvert(huge, style, 0, v);
    TreeReads(huge, TreeFor(style, 0, v));
  }
}
