/** Accept of rapidjson/document.h driving a writer, what else its calls do, and the whole way from a
    value to text and back. */
module Accepting {
  import opened Options
  import opened Bytes
  import opened Json
  import opened Limits
  import opened ReaderSpec
  import opened Grammar
  import opened Rendering
  import opened Dom
  import opened Builds
  import opened Printing
  import opened RoundTrip
  import opened Writers
  import opened Writing
  import opened Documents
  import opened Handover
  import opened Readers

  /** Inside an object after `count` names and values. */
  function InObject(levels: seq<Level>, count: nat): seq<Level> { Counted(levels) + [Level(false, count)] }

  function InArray(levels: seq<Level>, count: nat): seq<Level> { Counted(levels) + [Level(true, count)] }

  lemma CountsUp(levels: seq<Level>, count: nat)
    ensures Counted(InObject(levels, count)) == InObject(levels, count + 1)
    ensures Counted(InArray(levels, count)) == InArray(levels, count + 1)
  {}

  lemma LedEntry(style: Style, levels: seq<Level>, i: nat, out: seq<byte>)
    ensures Led(style, InObject(levels, 2 * i), out) == Entry(style, |levels|, i, out)
    ensures Led(style, InArray(levels, i), out) == Entry(style, |levels|, i, out)
  {
    hide Line;
  }

  /** Accept on a writer: the writer's text grows by exactly the text of the value, which is that of its
      syntax tree if it has no doubles. Strings may lie in buf, the buffer that the document was parsed in. */
  method Accept(v: Value, buf: seq<byte>, w: Writer)
    requires Indents(w.style) && Printable(Resolve(v, buf)) && WelcomesValue(w.levels, v)
    modifies w`out, w`levels, w`log
    ensures w.out ==
      Written(w.shown, w.style, |w.levels|, Resolve(v, buf), Led(w.style, old(w.levels), old(w.out)))
    ensures Plain(Resolve(v, buf)) ==>
      w.out == Render(TreeFor(w.style, |w.levels|, Resolve(v, buf)), Led(w.style, old(w.levels), old(w.out)))
    ensures w.levels == Counted(old(w.levels)) && w.log == Sent(Resolve(v, buf), old(w.log))
    decreases v, 0
  {
    ghost var led := Led(w.style, w.levels, w.out);
    match v {
      case VNull => w.Null();
      case VBool(b) => w.Bool(b);
      case VNumber(n) => AcceptNumber(v, w);
      case VDouble(_) => AcceptNumber(v, w);
      case VString(s) => w.String(ResolveText(s, buf).bytes);
      case VObject(fs) => AcceptObject(fs, buf, w);
      case VArray(vs) => AcceptArray(vs, buf, w);
    }
    if Plain(Resolve(v, buf)) { WrittenIsTree(w.shown, w.style, |w.levels|, Resolve(v, buf), led); }
  }

  /** A number in the first type that holds it, or a double. */
  method AcceptNumber(v: Value, w: Writer)
    requires (v.VNumber? && IsInteger(v.n)) || v.VDouble?
    requires Welcome(w.levels, false, false)
    modifies w`out, w`levels, w`log
    ensures w.out == Led(w.style, old(w.levels), old(w.out)) +
      if v.VNumber? then NumeralText(NumeralFor(IntegerOf(v.n))) else w.shown(v.literal)
    ensures w.levels == Counted(old(w.levels)) && w.log == Sent(v, old(w.log))
  {
    if v.VDouble? {
      w.Double(v.literal);
      return;
    }
    hide Led, Counted, NumeralText, NumeralFor;
    var n := v.n;
    AcceptSendsTheValue(IntegerOf(n));
    if n.isInt {
      w.Int(Signed32(n.bits));
    } else if n.isUint {
      w.Uint(n.bits % TWO32);
    } else if n.isInt64 {
      w.Int64(Signed64(n.bits));
    } else {
      w.Uint64(n.bits);
    }
  }

  method AcceptObject(fs: seq<Field>, buf: seq<byte>, w: Writer)
    requires Indents(w.style) && Printable(VObject(ResolveFields(fs, buf))) && WelcomesValue(w.levels, VObject(fs))
    modifies w`out, w`levels, w`log
    ensures var v := VObject(ResolveFields(fs, buf));
      && w.out == Written(w.shown, w.style, |w.levels|, v, Led(w.style, old(w.levels), old(w.out)))
      && w.levels == Counted(old(w.levels)) && w.log == Sent(v, old(w.log))
    decreases fs
  {
    w.StartObject();
    hide MembersLeft, Led, SentFields, Line, ResolveField, PrintableField;
    AcceptMembers(fs, buf, w, old(w.levels));
    w.EndObject(|fs|);
  }

  /** The members of an object that was opened at `levels`. */
  method AcceptMembers(fs: seq<Field>, buf: seq<byte>, w: Writer, ghost levels: seq<Level>)
    requires Indents(w.style) && w.levels == InObject(levels, 0)
    requires forall k | 0 <= k < |fs| :: PrintableField(ResolveFields(fs, buf)[k])
    modifies w`out, w`levels, w`log
    ensures MembersLeft(w.shown, w.style, |levels|, |fs|, [], w.out) ==
      MembersLeft(w.shown, w.style, |levels|, 0, ResolveFields(fs, buf), old(w.out))
    ensures w.levels == InObject(levels, 2 * |fs|) && w.log == SentFields(ResolveFields(fs, buf), old(w.log))
    decreases fs, 0
  {
    hide SentField, ResolveField, PrintableField, InObject, WrittenField, Entry;
    ghost var rs := ResolveFields(fs, buf);
    assert rs[0..] == rs;
    for i := 0 to |fs|
      invariant w.levels == InObject(levels, 2 * i)
      invariant MembersLeft(w.shown, w.style, |levels|, i, rs[i..], w.out) ==
        MembersLeft(w.shown, w.style, |levels|, 0, rs, old(w.out))
      invariant SentFields(rs[i..], w.log) == SentFields(rs, old(w.log))
    {
      assert rs[i..][1..] == rs[i + 1..];
      AcceptMember(fs[i], buf, w, levels, i);
    }
    assert rs[|fs|..] == [];
  }

  /** A name and its value, inside an object that was opened at `levels` and has i members so far. */
  method AcceptMember(f: Field, buf: seq<byte>, w: Writer, ghost levels: seq<Level>, ghost i: nat)
    requires Indents(w.style) && PrintableField(ResolveField(f, buf)) && w.levels == InObject(levels, 2 * i)
    modifies w`out, w`levels, w`log
    ensures w.out ==
      WrittenField(w.shown, w.style, |levels|, ResolveField(f, buf), Entry(w.style, |levels|, i, old(w.out)))
    ensures w.levels == InObject(levels, 2 * (i + 1)) && w.log == SentField(ResolveField(f, buf), old(w.log))
    decreases f
  {
    LedEntry(w.style, levels, i, w.out);
    CountsUp(levels, 2 * i);
    CountsUp(levels, 2 * i + 1);
    hide Written, RenderString, CharsFor, Sent, Resolve;
    w.String(ResolveText(f.name, buf).bytes);
    Accept(f.value, buf, w);
  }

  method AcceptArray(vs: seq<Value>, buf: seq<byte>, w: Writer)
    requires Indents(w.style) && Printable(VArray(ResolveAll(vs, buf))) && WelcomesValue(w.levels, VArray(vs))
    modifies w`out, w`levels, w`log
    ensures var v := VArray(ResolveAll(vs, buf));
      && w.out == Written(w.shown, w.style, |w.levels|, v, Led(w.style, old(w.levels), old(w.out)))
      && w.levels == Counted(old(w.levels)) && w.log == Sent(v, old(w.log))
    decreases vs
  {
    w.StartArray();
    hide ElementsLeft, Led, SentElements, Line, Resolve;
    AcceptElements(vs, buf, w, old(w.levels));
    w.EndArray(|vs|);
  }

  /** The elements of an array that was opened at `levels`. */
  method AcceptElements(vs: seq<Value>, buf: seq<byte>, w: Writer, ghost levels: seq<Level>)
    requires Indents(w.style) && w.levels == InArray(levels, 0)
    requires forall k | 0 <= k < |vs| :: Printable(ResolveAll(vs, buf)[k])
    modifies w`out, w`levels, w`log
    ensures ElementsLeft(w.shown, w.style, |levels|, |vs|, [], w.out) ==
      ElementsLeft(w.shown, w.style, |levels|, 0, ResolveAll(vs, buf), old(w.out))
    ensures w.levels == InArray(levels, |vs|) && w.log == SentElements(ResolveAll(vs, buf), old(w.log))
    decreases vs, 0
  {
    hide Sent, Resolve, Printable, InArray, Written, Entry;
    ghost var rs := ResolveAll(vs, buf);
    assert rs[0..] == rs;
    for i := 0 to |vs|
      invariant w.levels == InArray(levels, i)
      invariant ElementsLeft(w.shown, w.style, |levels|, i, rs[i..], w.out) ==
        ElementsLeft(w.shown, w.style, |levels|, 0, rs, old(w.out))
      invariant SentElements(rs[i..], w.log) == SentElements(rs, old(w.log))
    {
      assert rs[i..][1..] == rs[i + 1..];
      AcceptElement(vs[i], buf, w, levels, i);
    }
    assert rs[|vs|..] == [];
  }

  /** An element of an array that was opened at `levels` and has i elements so far. */
  method AcceptElement(v: Value, buf: seq<byte>, w: Writer, ghost levels: seq<Level>, ghost i: nat)
    requires Indents(w.style) && Printable(Resolve(v, buf)) && w.levels == InArray(levels, i)
    modifies w`out, w`levels, w`log
    ensures w.out ==
      Written(w.shown, w.style, |levels| + 1, Resolve(v, buf), Entry(w.style, |levels|, i, old(w.out)))
    ensures w.levels == InArray(levels, i + 1) && w.log == Sent(Resolve(v, buf), old(w.log))
    decreases v, 1
  {
    LedEntry(w.style, levels, i, w.out);
    CountsUp(levels, i);
    Accept(v, buf, w);
  }

  /** The text a writer prints for a value at the root; without doubles, the text of its syntax tree. */
  method Print(shown: Shown, style: Style, v: Value, buf: seq<byte>) returns (text: seq<byte>)
    requires Indents(style) && Printable(Resolve(v, buf)) && (v.VObject? || v.VArray?)
    ensures text == Written(shown, style, 0, Resolve(v, buf), [])
    ensures Plain(Resolve(v, buf)) ==> text == Printed(style, Resolve(v, buf))
  {
    var w := new Writer(style, shown);
    Accept(v, buf, w);
    text := w.out;
    if Plain(Resolve(v, buf)) {
      Renders(TreeFor(style, 0, Resolve(v, buf)), []);
      assert [] + Printed(style, Resolve(v, buf)) == Printed(style, Resolve(v, buf));
    }
  }

  /** A text in a buffer with its terminator. */
  method Buffered(text: seq<byte>) returns (src: array<byte>)
    ensures fresh(src) && |text| < src.Length && src[..|text|] == text && src[|text|] == 0
  {
    src := new byte[|text| + 1](i => if 0 <= i < |text| then text[i] else 0);
  }

  /** Print a value and parse the text, in place or copying: without doubles, the document's root is the
      value; with them, it is what their printed texts are read as. */
  method SaveAndLoad(shown: Shown, style: Style, v: Value, buf: seq<byte>, insitu: bool, huge: Rounding)
      returns (doc: Document, src: array<byte>)
    requires Indents(style) && Ends(shown) && Printable(Resolve(v, buf)) && (v.VObject? || v.VArray?)
    ensures Plain(Resolve(v, buf)) ==> doc.parseError == None && Resolve(doc.root, src[..]) == Resolve(v, buf)
    ensures var read := Parse(huge, Written(shown, style, 0, Resolve(v, buf), []));
      if read.Done? then doc.parseError == None && Run(read.events) == Some([Resolve(doc.root, src[..])])
      else doc.parseError == Some(read.error) && doc.errorOffset == read.offset
  {
    var text := Print(shown, style, v, buf);
    src := Buffered(text);
    doc := new Document();
    WrittenEnds(shown, style, 0, Resolve(v, buf), []);
    hide Parse, Written, Run, Printed, Plain, Resolve, Printable;
    if Plain(Resolve(v, buf)) { ParseAfterPrint(huge, style, Resolve(v, buf)); }
    ParseStream(doc, insitu, huge, src, text);
  }

  /** Parse a text, in place or copying, and print the document: the text of the value that was read, in
      the layout asked for. */
  method Reprint(text: seq<byte>, insitu: bool, huge: Rounding, shown: Shown, style: Style, ghost v: Value)
      returns (out: seq<byte>)
    requires 0 !in text && Parse(huge, text).Done? && Run(Parse(huge, text).events) == Some([v])
    requires Indents(style)
    ensures Printable(v) && out == Written(shown, style, 0, v, [])
    ensures Plain(v) ==> out == Printed(style, v)
  {
    ghost var root := RootIsBracket(huge, text);
    RootIsPrintable(huge, text, v);
    var src := Buffered(text);
    var doc := new Document();
    ParseStream(doc, insitu, huge, src, text);
    out := Print(shown, style, doc.root, src[..]);
  }

  // --- Accept on another document ---

  /** Every number in the value is one of the integer constructors'. */
  predicate Genuine(v: Value)
    decreases v
  {
    match v
    case VNumber(n) => IsInteger(n)
    case VObject(fs) => forall i | 0 <= i < |fs| :: GenuineField(fs[i])
    case VArray(vs) => forall i | 0 <= i < |vs| :: Genuine(vs[i])
    case _ => true
  }

  predicate GenuineField(f: Field)
    decreases f
  {
    Genuine(f.value)
  }

  /** The calls Accept makes push a copy of the value on the document that handles them. */
  lemma {:induction false} Clones(v: Value, ev: seq<Event>, st: seq<Value>)
    requires Genuine(v) && Run(ev) == Some(st)
    ensures Run(Sent(v, ev)) == Some(st + [v])
    decreases v
  {
    hide Run;
    match v {
      case VObject(fs) =>
        StartsObject(ev, st);
        ClonesFields(fs, ev + [StartObject], st, [], []);
        assert [] + fs == fs;
      case VArray(vs) =>
        StartsArray(ev, st);
        ClonesElements(vs, ev + [StartArray], st, []);
        assert [] + vs == vs;
      case _ => ClonesLeaf(v, ev, st);
    }
  }

  lemma ClonesLeaf(v: Value, ev: seq<Event>, st: seq<Value>)
    requires Genuine(v) && !v.VObject? && !v.VArray? && Run(ev) == Some(st)
    ensures Run(Sent(v, ev)) == Some(st + [v])
  {
    hide Run;
    match v {
      case VNull => RunNext(ev, Null);
      case VBool(b) => RunNext(ev, Bool(b));
      case VNumber(n) =>
        AcceptSendsTheValue(IntegerOf(n));
        FlagsAreCanonical(IntegerOf(n));
        RunNext(ev, NumberEvent(n));
      case VDouble(literal) => RunNext(ev, Double(literal));
      case VString(s) => RunNext(ev, String(s));
    }
  }

  lemma {:induction false} ClonesField(f: Field, ev: seq<Event>, st: seq<Value>)
    requires GenuineField(f) && Run(ev) == Some(st)
    ensures Run(SentField(f, ev)) == Some(st + [VString(f.name)] + [f.value])
    decreases f
  {
    hide Run;
    RunNext(ev, String(f.name));
    Clones(f.value, ev + [String(f.name)], st + [VString(f.name)]);
  }

  lemma {:induction false} ClonesFields(fs: seq<Field>, ev: seq<Event>, base: seq<Value>, pairs: seq<Value>,
    done: seq<Field>)
    requires forall i | 0 <= i < |fs| :: GenuineField(fs[i])
    requires Run(ev) == Some(base + [VObject([])] + pairs) && Paired(pairs) && Fields(pairs) == done
    ensures Run(SentFields(fs, ev) + [EndObject(|done| + |fs|)]) == Some(base + [VObject(done + fs)])
    decreases fs
  {
    hide Run, Sent;
    if fs == [] {
      EndsObject(ev, base, pairs, |done|);
      assert done + fs == done;
    } else {
      ClonesField(fs[0], ev, base + [VObject([])] + pairs);
      FieldsNext(pairs, fs[0].name, fs[0].value);
      var next := pairs + [VString(fs[0].name)] + [fs[0].value];
      assert base + [VObject([])] + pairs + [VString(fs[0].name)] + [fs[0].value] == base + [VObject([])] + next;
      ClonesFields(fs[1..], SentField(fs[0], ev), base, next, done + [fs[0]]);
      assert done + [fs[0]] + fs[1..] == done + fs;
    }
  }

  lemma {:induction false} ClonesElements(vs: seq<Value>, ev: seq<Event>, base: seq<Value>, done: seq<Value>)
    requires forall i | 0 <= i < |vs| :: Genuine(vs[i])
    requires Run(ev) == Some(base + [VArray([])] + done)
    ensures Run(SentElements(vs, ev) + [EndArray(|done| + |vs|)]) == Some(base + [VArray(done + vs)])
    decreases vs
  {
    hide Run, Sent;
    if vs == [] {
      EndsArray(ev, base, done);
      assert done + vs == done;
    } else {
      Clones(vs[0], ev, base + [VArray([])] + done);
      assert base + [VArray([])] + done + [vs[0]] == base + [VArray([])] + (done + [vs[0]]);
      ClonesElements(vs[1..], Sent(vs[0], ev), base, done + [vs[0]]);
      assert done + [vs[0]] + vs[1..] == done + vs;
    }
  }
}
