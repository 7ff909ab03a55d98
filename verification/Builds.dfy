/** The document built from the events of a syntax tree is the value the tree denotes. */
module Builds {
  import opened Options
  import opened Bytes
  import opened Json
  import opened Limits
  import opened ReaderSpec
  import opened Grammar
  import opened Soundness
  import opened Dom

  function ValueOf(tree: Tree): Value {
    match tree
    case TNull => VNull
    case TTrue => VBool(true)
    case TFalse => VBool(false)
    case TString(cs) => VString(Copied(CharsBytes(cs, [])))
    case TNumber(n) => Leaf(NumeralEvent(n))
    case TEmptyObject(_) => VObject([])
    case TObject(_, ms) => VObject(FieldsOf(ms, []))
    case TEmptyArray(_) => VArray([])
    case TArray(_, es) => VArray(ElementsOf(es, []))
  }

  function FieldOf(m: Member): Field { Field(Copied(CharsBytes(m.name, [])), ValueOf(m.value)) }

  /** The fields of ms, after those in acc. */
  function FieldsOf(ms: Members, acc: seq<Field>): seq<Field>
    decreases ms
  {
    match ms
    case LastMember(m) => acc + [FieldOf(m)]
    case MoreMembers(m, _, rest) => FieldsOf(rest, acc + [FieldOf(m)])
  }

  function ElementsOf(es: Elements, acc: seq<Value>): seq<Value>
    decreases es
  {
    match es
    case LastElement(v, _) => acc + [ValueOf(v)]
    case MoreElements(v, _, _, rest) => ElementsOf(rest, acc + [ValueOf(v)])
  }

  lemma StartsObject(ev: seq<Event>, st: seq<Value>)
    requires Run(ev) == Some(st)
    ensures Run(ev + [StartObject]) == Some(st + [VObject([])] + [])
    ensures Fields([]) == []
  {
    hide Run;
    RunNext(ev, StartObject);
    assert st + [VObject([])] == st + [VObject([])] + [];
  }

  lemma EndsObject(ev: seq<Event>, base: seq<Value>, pairs: seq<Value>, n: nat)
    requires Run(ev) == Some(base + [VObject([])] + pairs) && Paired(pairs) && |pairs| == 2 * n
    ensures Run(ev + [EndObject(n)]) == Some(base + [VObject(Fields(pairs))])
  {
    hide Run;
    var st := base + [VObject([])] + pairs;
    assert st[|st| - 2 * n..] == pairs && st[..|st| - 2 * n - 1] == base;
    RunNext(ev, EndObject(n));
  }

  lemma StartsArray(ev: seq<Event>, st: seq<Value>)
    requires Run(ev) == Some(st)
    ensures Run(ev + [StartArray]) == Some(st + [VArray([])] + [])
  {
    hide Run;
    RunNext(ev, StartArray);
    assert st + [VArray([])] == st + [VArray([])] + [];
  }

  lemma EndsArray(ev: seq<Event>, base: seq<Value>, vs: seq<Value>)
    requires Run(ev) == Some(base + [VArray([])] + vs)
    ensures Run(ev + [EndArray(|vs|)]) == Some(base + [VArray(vs)])
  {
    hide Run;
    var st := base + [VArray([])] + vs;
    assert st[|st| - |vs|..] == vs && st[..|st| - |vs| - 1] == base;
    RunNext(ev, EndArray(|vs|));
  }

  /** The events of a value push exactly that value. */
  lemma {:induction false} BuildsValue(tree: Tree, ev: seq<Event>, st: seq<Value>)
    requires Run(ev) == Some(st)
    ensures Run(Emit(tree, ev)) == Some(st + [ValueOf(tree)])
    decreases tree
  {
    hide Run;
    match tree {
      case TEmptyObject(_) =>
        StartsObject(ev, st);
        EndsObject(ev + [StartObject], st, [], 0);
      case TObject(_, ms) =>
        StartsObject(ev, st);
        BuildsMembers(ms, ev + [StartObject], 0, st, []);
      case TEmptyArray(_) =>
        StartsArray(ev, st);
        EndsArray(ev + [StartArray], st, []);
      case TArray(_, es) =>
        StartsArray(ev, st);
        BuildsElements(es, ev + [StartArray], st, []);
      case _ => BuildsLeaf(tree, ev, st);
    }
  }

  lemma BuildsLeaf(tree: Tree, ev: seq<Event>, st: seq<Value>)
    requires tree.TNull? || tree.TTrue? || tree.TFalse? || tree.TString? || tree.TNumber?
    requires Run(ev) == Some(st)
    ensures Run(Emit(tree, ev)) == Some(st + [ValueOf(tree)])
  {
    hide Run;
    match tree {
      case TTrue => RunNext(ev, Bool(true));
      case TFalse => RunNext(ev, Bool(false));
      case TString(cs) => RunNext(ev, String(Copied(CharsBytes(cs, []))));
      case TNumber(n) => RunNext(ev, NumeralEvent(n));
      case TNull => RunNext(ev, Null);
    }
  }

  lemma FieldsNext(pairs: seq<Value>, name: Text, v: Value)
    requires Paired(pairs)
    ensures Paired(pairs + [VString(name)] + [v])
    ensures Fields(pairs + [VString(name)] + [v]) == Fields(pairs) + [Field(name, v)]
  {}

  /** A member pushes its name and its value. */
  lemma {:induction false} BuildsMember(m: Member, ev: seq<Event>, st: seq<Value>, pairs: seq<Value>)
      returns (next: seq<Value>)
    requires Run(ev) == Some(st + pairs) && Paired(pairs)
    ensures Run(EmitMember(m, ev)) == Some(st + next)
    ensures Paired(next) && |next| == |pairs| + 2 && Fields(next) == Fields(pairs) + [FieldOf(m)]
    decreases m
  {
    hide Run;
    var name := Copied(CharsBytes(m.name, []));
    next := pairs + [VString(name)] + [ValueOf(m.value)];
    RunNext(ev, String(name));
    BuildsValue(m.value, ev + [String(name)], st + pairs + [VString(name)]);
    assert st + pairs + [VString(name)] + [ValueOf(m.value)] == st + next;
    FieldsNext(pairs, name, ValueOf(m.value));
  }

  lemma {:induction false} BuildsMembers(ms: Members, ev: seq<Event>, n: nat, base: seq<Value>, pairs: seq<Value>)
    requires Run(ev) == Some(base + [VObject([])] + pairs) && Paired(pairs) && |pairs| == 2 * n
    ensures Run(EmitMembers(ms, ev, n)) == Some(base + [VObject(FieldsOf(ms, Fields(pairs)))])
    decreases ms
  {
    hide Run;
    var next := BuildsMember(ms.m, ev, base + [VObject([])], pairs);
    match ms {
      case LastMember(m) => EndsObject(EmitMember(m, ev), base, next, n + 1);
      case MoreMembers(m, _, rest) => BuildsMembers(rest, EmitMember(m, ev), n + 1, base, next);
    }
  }

  lemma {:induction false} BuildsElements(es: Elements, ev: seq<Event>, base: seq<Value>, vs: seq<Value>)
    requires Run(ev) == Some(base + [VArray([])] + vs)
    ensures Run(EmitElements(es, ev, |vs|)) == Some(base + [VArray(ElementsOf(es, vs))])
    decreases es
  {
    hide Run;
    var next := vs + [ValueOf(es.v)];
    BuildsValue(es.v, ev, base + [VArray([])] + vs);
    assert base + [VArray([])] + vs + [ValueOf(es.v)] == base + [VArray([])] + next;
    match es {
      case LastElement(v, _) => EndsArray(Emit(v, ev), base, next);
      case MoreElements(v, _, _, rest) => BuildsElements(rest, Emit(v, ev), base, next);
    }
  }

  /** Stack discipline: a value that is read leaves the old stack as it was, with one value more. */
  lemma StackDiscipline(huge: Rounding, t: seq<byte>, p: nat, ev: seq<Event>, st: seq<Value>) returns (v: Value)
    requires Run(ev) == Some(st) && ParseValue(huge, t, p, ev).Done?
    ensures Run(ParseValue(huge, t, p, ev).events) == Some(st + [v])
  {
    var tree := FindsValue(huge, t, p, ev);
    BuildsValue(tree, ev, st);
    v := ValueOf(tree);
  }

  /** A document that is read is an object or an array. */
  lemma RootIsBracket(huge: Rounding, t: seq<byte>) returns (v: Value)
    requires Parse(huge, t).Done?
    ensures Run(Parse(huge, t).events) == Some([v]) && (v.VObject? || v.VArray?)
  {
    var p := SkipWs(t, 0);
    var tree := FindsValue(huge, t, p, []);
    assert Run([]) == Some([]);
    hide Run, Emit;
    BuildsValue(tree, [], []);
    v := ValueOf(tree);
    assert [] + [v] == [v];
  }
}
