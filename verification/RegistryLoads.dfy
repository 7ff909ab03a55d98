/** Reading saved records back: what unserialize of core/Registry.cpp takes from the parsed document. */
module RegistryLoads {
  import opened Options
  import opened Bytes
  import opened Json
  import opened Limits
  import opened ReaderSpec
  import opened Grammar
  import opened Language
  import opened Dom
  import opened Builds
  import opened Printing
  import opened RoundTrip
  import opened Documents
  import opened Readers
  import opened Registries
  import opened RegistryTexts

  /** The bytes before the terminator. */
  function CString(s: seq<byte>): (r: seq<byte>)
    ensures 0 !in r && (0 !in s ==> r == s) && r <= s && (|r| < |s| ==> s[|r|] == 0)
  {
    if s == [] || s[0] == 0 then [] else [s[0]] + CString(s[1..])
  }

  /** A string of a document that was parsed by copying. */
  function BytesOf(s: Text): seq<byte> { if s.Copied? then s.bytes else [] }

  /** The value of the first member with this name. */
  function FindMember(fields: seq<Field>, name: seq<byte>): Option<Value> {
    if fields == [] then None
    else if fields[0].name == Copied(name) then Some(fields[0].value)
    else FindMember(fields[1..], name)
  }

  /** An element of the array: a record, one that is passed over, or a failed assertion. */
  datatype Row = Record(r: Registry) | Skip | Abort

  /** The record of an element. It is stamped when it is made, and again when it is filled in. */
  function ReadRow(v: Value, atol: seq<byte> -> int, made: nat, filled: nat): Row {
    if !v.VObject? then Abort
    else
      var (name, host, port) := (FindMember(v.fields, NAME), FindMember(v.fields, HOST), FindMember(v.fields, PORT));
      if name.None? || host.None? || port.None? then Skip
      else if !name.value.VString? || !host.value.VString? then Abort
      else
        var (n, h) := (CString(BytesOf(name.value.str)), CString(BytesOf(host.value.str)));
        match port.value
        case VNumber(p) => if p.isInt then Record(Registry(n, h, Signed32(p.bits), filled, made, [])) else Skip
        case VString(s) => Record(Registry(n, h, atol(CString(BytesOf(s))), filled, made, []))
        case _ => Skip
  }

  /** The records of the elements from the i-th on, after those in acc; None is a failed assertion. The
      clock's readings are numbered, two for each element. */
  function ReadRows(vs: seq<Value>, atol: seq<byte> -> int, clock: nat -> nat, i: nat, acc: seq<Registry>)
      : Option<seq<Registry>>
    decreases |vs|
  {
    if vs == [] then Some(acc)
    else
      match ReadRow(vs[0], atol, clock(2 * i), clock(2 * i + 1))
      case Record(r) => ReadRows(vs[1..], atol, clock, i + 1, acc + [r])
      case Skip => ReadRows(vs[1..], atol, clock, i + 1, acc)
      case Abort => None
  }

  /** What is loaded from a text: nothing if it does not parse to an array. */
  function Loaded(huge: Rounding, atol: seq<byte> -> int, str: seq<byte>, clock: nat -> nat)
    : Option<seq<Registry>>
  {
    match Parse(huge, CString(str))
    case Fail(_, _, _) => Some([])
    case Done(events, _) =>
      match Run(events)
      case Some(stack) =>
        if |stack| == 1 && stack[0].VArray? then ReadRows(stack[0].elements, atol, clock, 0, []) else Some([])
      case None => None
  }

  /** Registry::unserialize. */
  method Unserialize(str: seq<byte>, huge: Rounding, atol: seq<byte> -> int, clock: nat -> nat)
      returns (v: Option<seq<Registry>>)
    ensures v == Loaded(huge, atol, str, clock)
  {
    var text := CString(str);
    var buffer := new byte[|text| + 1](i => if 0 <= i < |text| then text[i] else 0);
    assert buffer[..|text|] == text;
    var d := new Document();
    ParseStream(d, false, huge, buffer, text);
    if !d.root.VArray? { return Some([]); }
    var elements := d.root.elements;
    var rows := [];
    assert elements[0..] == elements;
    for i := 0 to |elements|
      invariant ReadRows(elements[i..], atol, clock, i, rows) == ReadRows(elements, atol, clock, 0, [])
    {
      assert elements[i..][1..] == elements[i + 1..];
      match ReadRow(elements[i], atol, clock(2 * i), clock(2 * i + 1)) {
        case Record(r) => rows := rows + [r];
        case Skip =>
        case Abort => return None;
      }
    }
    v := Some(rows);
  }

  // --- saving and loading ---

  /** The document's value of a saved record. */
  function RecordValue(r: Registry, weight: int): Value {
    VObject([Field(Copied(NAME), VString(Copied(r.name))), Field(Copied(HOST), VString(Copied(r.host))),
             Field(Copied(PORT), VNumber(Canonical(r.port))), Field(Copied(WEIGHT), VNumber(Canonical(weight)))])
  }

  predicate Fits32(i: int) { -TWO31 <= i < TWO31 }

  lemma StringInverts(s: seq<byte>)
    ensures CharsBytes(CharsFor(s), []) == s && CharsReadable(CharsFor(s))
  {
    StringsInvert(s, []);
    StringsReadable(s);
    assert [] + s == s;
  }

  /** A member denotes its field, and the reader's limits do not touch it. */
  lemma StringMemberDenotes(huge: Rounding, key: seq<byte>, s: seq<byte>, rest: Members, acc: seq<Field>)
    ensures var ms := MoreMembers(MemberOf(key, TString(CharsFor(s)), []), [], rest);
      && FieldsOf(ms, acc) == FieldsOf(rest, acc + [Field(Copied(key), VString(Copied(s)))])
      && MembersReadable(huge, ms) == MembersReadable(huge, rest)
  {
    StringInverts(key);
    StringInverts(s);
    hide CharsFor, CharsBytes, CharsReadable;
    assert FieldOf(MemberOf(key, TString(CharsFor(s)), [])) == Field(Copied(key), VString(Copied(s)));
  }

  lemma IntMemberDenotes(huge: Rounding, key: seq<byte>, i: int, rest: Members, acc: seq<Field>)
    requires Fits32(i)
    ensures var ms := MoreMembers(MemberOf(key, TNumber(NumeralFor(i)), []), [], rest);
      && FieldsOf(ms, acc) == FieldsOf(rest, acc + [Field(Copied(key), VNumber(Canonical(i)))])
      && MembersReadable(huge, ms) == MembersReadable(huge, rest)
  {
    StringInverts(key);
    NumbersInvert(huge, i);
    hide CharsFor, CharsBytes, CharsReadable, NumeralFor, NumeralEvent, Leaf, NumeralReadable, Canonical;
    assert FieldOf(MemberOf(key, TNumber(NumeralFor(i)), [])) == Field(Copied(key), VNumber(Canonical(i)));
  }

  lemma LastIntMemberDenotes(huge: Rounding, key: seq<byte>, i: int, after: Gap, acc: seq<Field>)
    requires Fits32(i)
    ensures var ms := LastMember(MemberOf(key, TNumber(NumeralFor(i)), after));
      FieldsOf(ms, acc) == acc + [Field(Copied(key), VNumber(Canonical(i)))] && MembersReadable(huge, ms)
  {
    StringInverts(key);
    NumbersInvert(huge, i);
    hide CharsFor, CharsBytes, CharsReadable, NumeralFor, NumeralEvent, Leaf, NumeralReadable, Canonical;
    assert FieldOf(MemberOf(key, TNumber(NumeralFor(i)), after)) == Field(Copied(key), VNumber(Canonical(i)));
  }

  lemma RecordDenotes(huge: Rounding, r: Registry, weight: int)
    requires Fits32(r.port) && Fits32(weight)
    ensures ValueOf(RecordTree(r, weight)) == RecordValue(r, weight) && Readable(huge, RecordTree(r, weight))
  {
    RecordFields(r, weight);
    hide MemberOf, FieldsOf, MembersReadable, Canonical, CharsFor, NumeralFor, RecordTree;
    var f1 := [] + [Field(Copied(NAME), VString(Copied(r.name)))];
    var f2 := f1 + [Field(Copied(HOST), VString(Copied(r.host)))];
    var f3 := f2 + [Field(Copied(PORT), VNumber(Canonical(r.port)))];
    StringMemberDenotes(huge, NAME, r.name, HostMember(r.host, r.port, weight), []);
    StringMemberDenotes(huge, HOST, r.host, PortMember(r.port, weight), f1);
    IntMemberDenotes(huge, PORT, r.port, WeightMember(weight), f2);
    LastIntMemberDenotes(huge, WEIGHT, weight, [SPACE], f3);
  }

  lemma RecordFields(r: Registry, weight: int)
    ensures RecordTree(r, weight).TObject?
    ensures ValueOf(RecordTree(r, weight)) == VObject(FieldsOf(RecordTree(r, weight).members, []))
    ensures RecordTree(r, weight).members ==
      MoreMembers(MemberOf(NAME, TString(CharsFor(r.name)), []), [], HostMember(r.host, r.port, weight))
  {
    hide HostMember, MemberOf, FieldsOf, CharsFor;
  }

  function RecordValues(v: seq<Registry>, weights: seq<int>): seq<Value>
    requires |weights| == |v|
  {
    if v == [] then [] else [RecordValue(v[0], weights[0])] + RecordValues(v[1..], weights[1..])
  }

  lemma {:induction false} ElementsDenote(huge: Rounding, v: seq<Registry>, weights: seq<int>, acc: seq<Value>)
    requires |weights| == |v| > 0 && forall i | 0 <= i < |v| :: Fits32(v[i].port) && Fits32(weights[i])
    ensures ElementsOf(RecordElements(v, weights), acc) == acc + RecordValues(v, weights)
    ensures ElementsReadable(huge, RecordElements(v, weights))
    decreases |v|
  {
    hide RecordTree, RecordValue, ValueOf, Readable;
    RecordDenotes(huge, v[0], weights[0]);
    if |v| > 1 {
      ElementsDenote(huge, v[1..], weights[1..], acc + [RecordValue(v[0], weights[0])]);
      assert acc + [RecordValue(v[0], weights[0])] + RecordValues(v[1..], weights[1..])
        == acc + RecordValues(v, weights);
    } else {
      assert v[1..] == [] && RecordValues(v, weights) == [RecordValue(v[0], weights[0])];
    }
  }

  /** A saved record without what is not saved, as element i. */
  function Reloaded(r: Registry, clock: nat -> nat, i: nat): Registry {
    Registry(r.name, r.host, r.port, clock(2 * i + 1), clock(2 * i), [])
  }

  function AllReloaded(v: seq<Registry>, clock: nat -> nat, i: nat): (r: seq<Registry>)
    ensures |r| == |v| && forall k | 0 <= k < |v| :: r[k] == Reloaded(v[k], clock, i + k) && Equals(r[k], v[k])
  {
    seq(|v|, k requires 0 <= k < |v| => Reloaded(v[k], clock, i + k))
  }

  /** The members that the loader asks for are found, each under its own name. */
  lemma FieldsAreFound(r: Registry, weight: int)
    ensures var fields := RecordValue(r, weight).fields;
      && FindMember(fields, NAME) == Some(VString(Copied(r.name)))
      && FindMember(fields, HOST) == Some(VString(Copied(r.host)))
      && FindMember(fields, PORT) == Some(VNumber(Canonical(r.port)))
  {
    hide Canonical;
    var fields := RecordValue(r, weight).fields;
    var (tail1, tail2) := (fields[1..], fields[1..][1..]);
    assert FindMember(fields, NAME) == Some(fields[0].value);
    assert HOST[0] != NAME[0] && PORT[0] != NAME[0] && PORT[0] != HOST[0];
    assert FindMember(tail1, HOST) == Some(fields[1].value);
    assert FindMember(tail2, PORT) == Some(fields[2].value);
    assert FindMember(fields, PORT) == FindMember(tail1, PORT) == FindMember(tail2, PORT);
  }

  lemma RowReads(r: Registry, weight: int, atol: seq<byte> -> int, clock: nat -> nat, i: nat)
    requires Fits32(r.port) && Clean(r.name) && Clean(r.host)
    ensures ReadRow(RecordValue(r, weight), atol, clock(2 * i), clock(2 * i + 1)) == Record(Reloaded(r, clock, i))
  {
    FieldsAreFound(r, weight);
    hide FindMember;
  }

  lemma {:induction false} RowsRead(v: seq<Registry>, weights: seq<int>, atol: seq<byte> -> int, clock: nat -> nat,
    i: nat, acc: seq<Registry>)
    requires |weights| == |v| && forall k | 0 <= k < |v| :: Fits32(v[k].port) && Clean(v[k].name) && Clean(v[k].host)
    ensures ReadRows(RecordValues(v, weights), atol, clock, i, acc) == Some(acc + AllReloaded(v, clock, i))
    decreases |v|
  {
    hide *;
    if v == [] {
      assert acc + AllReloaded(v, clock, i) == acc;
      NoRows(atol, clock, i, acc);
    } else {
      RowReads(v[0], weights[0], atol, clock, i);
      RowsNext(v, weights, atol, clock, i, acc);
      RowsRead(v[1..], weights[1..], atol, clock, i + 1, acc + [Reloaded(v[0], clock, i)]);
      ReloadedNext(v, clock, i, acc);
    }
  }

  lemma NoRows(atol: seq<byte> -> int, clock: nat -> nat, i: nat, acc: seq<Registry>)
    ensures RecordValues([], []) == [] && ReadRows([], atol, clock, i, acc) == Some(acc)
  {}

  /** One row is read, the others are to come. */
  lemma RowsNext(v: seq<Registry>, weights: seq<int>, atol: seq<byte> -> int, clock: nat -> nat, i: nat,
    acc: seq<Registry>)
    requires |weights| == |v| > 0
    requires ReadRow(RecordValue(v[0], weights[0]), atol, clock(2 * i), clock(2 * i + 1)) ==
      Record(Reloaded(v[0], clock, i))
    ensures ReadRows(RecordValues(v, weights), atol, clock, i, acc) ==
      ReadRows(RecordValues(v[1..], weights[1..]), atol, clock, i + 1, acc + [Reloaded(v[0], clock, i)])
  {
    hide RecordValue, ReadRow, Reloaded;
    assert RecordValues(v, weights)[1..] == RecordValues(v[1..], weights[1..]);
  }

  lemma ReloadedNext(v: seq<Registry>, clock: nat -> nat, i: nat, acc: seq<Registry>)
    requires v != []
    ensures acc + [Reloaded(v[0], clock, i)] + AllReloaded(v[1..], clock, i + 1) == acc + AllReloaded(v, clock, i)
  {
    hide Reloaded;
    assert [Reloaded(v[0], clock, i)] + AllReloaded(v[1..], clock, i + 1) == AllReloaded(v, clock, i);
  }

  /** Saving and loading: whatever the weights are, a vector of records comes back with the same names,
      hosts and ports, in the same order, if no name or host has a quote, a backslash or a control byte. */
  lemma SavedRecordsLoad(huge: Rounding, v: seq<Registry>, weights: seq<int>, atol: seq<byte> -> int,
    clock: nat -> nat)
    requires |weights| == |v| && forall i | 0 <= i < |v| :: Fits32(v[i].port) && Fits32(weights[i])
    requires forall i | 0 <= i < |v| :: Clean(v[i].name) && Clean(v[i].host)
    ensures Loaded(huge, atol, RecordsTo([LBRACKET], v, weights, true), clock) == Some(AllReloaded(v, clock, 0))
  {
    hide *;
    var tree := RecordsTree(v, weights);
    RecordsRender(v, weights);
    RecordsDenote(huge, v, weights);
    LoadsTree(huge, tree, RecordValues(v, weights), atol, clock);
    RowsRead(v, weights, atol, clock, 0, []);
    assert [] + AllReloaded(v, clock, 0) == AllReloaded(v, clock, 0);
  }

  /** What is loaded from the text of an array. */
  lemma LoadsTree(huge: Rounding, tree: Tree, vs: seq<Value>, atol: seq<byte> -> int, clock: nat -> nat)
    requires IsRoot(tree) && Readable(huge, tree) && ValueOf(tree) == VArray(vs)
    ensures Loaded(huge, atol, TreeText(tree), clock) == ReadRows(vs, atol, clock, 0, [])
  {
    TreeWithoutNul(tree);
    TreeReads(huge, tree);
    hide Readable, TreeText, ValueOf, Parse, Run, ReadRows, CString;
  }

  lemma RecordsDenote(huge: Rounding, v: seq<Registry>, weights: seq<int>)
    requires |weights| == |v| && forall i | 0 <= i < |v| :: Fits32(v[i].port) && Fits32(weights[i])
    ensures ValueOf(RecordsTree(v, weights)) == VArray(RecordValues(v, weights))
    ensures Readable(huge, RecordsTree(v, weights)) && IsRoot(RecordsTree(v, weights))
  {
    hide RecordElements;
    if v != [] {
      ElementsDenote(huge, v, weights, []);
      assert [] + RecordValues(v, weights) == RecordValues(v, weights);
    }
  }
}
