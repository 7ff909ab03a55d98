/** What the loader takes from each element of an array, and what it passes over, told from the text. */
module RegistryRows {
  import opened Options
  import opened Bytes
  import opened Json
  import opened Limits
  import opened ReaderSpec
  import opened Language
  import opened Dom
  import opened Grammar
  import opened Builds
  import opened RoundTrip
  import opened Registries
  import opened RegistryLoads

  /** The first member with this name is the i-th. */
  predicate FirstNamed(fields: seq<Field>, name: seq<byte>, i: nat) {
    i < |fields| && fields[i].name == Copied(name) && forall j | 0 <= j < i :: fields[j].name != Copied(name)
  }

  predicate Lacks(fields: seq<Field>, name: seq<byte>) {
    forall j | 0 <= j < |fields| :: fields[j].name != Copied(name)
  }

  /** "name", "host" or "port" is missing. */
  predicate LacksOne(fields: seq<Field>) {
    || Lacks(fields, [0x6E, 0x61, 0x6D, 0x65]) || Lacks(fields, [0x68, 0x6F, 0x73, 0x74])
    || Lacks(fields, [0x70, 0x6F, 0x72, 0x74])
  }

  lemma {:induction false} FindsFirst(fields: seq<Field>, name: seq<byte>, i: nat)
    requires FirstNamed(fields, name, i)
    ensures FindMember(fields, name) == Some(fields[i].value)
  {
    if i > 0 {
      assert fields[0].name != Copied(name);
      FindsFirst(fields[1..], name, i - 1);
    }
  }

  lemma {:induction false} FindsNone(fields: seq<Field>, name: seq<byte>)
    requires Lacks(fields, name)
    ensures FindMember(fields, name) == None
  {
    if fields != [] { FindsNone(fields[1..], name); }
  }

  /** An object that has all three members, "name", "host" and "port", is read by the first of each: the port
      is an int or the number that atol makes of a string; other ports are passed over, and a name or host
      that is no string fails an assertion. */
  lemma ReadsObject(fields: seq<Field>, atol: seq<byte> -> int, made: nat, filled: nat, i: nat, j: nat, k: nat)
    requires FirstNamed(fields, [0x6E, 0x61, 0x6D, 0x65], i) && FirstNamed(fields, [0x68, 0x6F, 0x73, 0x74], j)
    requires FirstNamed(fields, [0x70, 0x6F, 0x72, 0x74], k)
    ensures var (name, host, port) := (fields[i].value, fields[j].value, fields[k].value);
      var row := ReadRow(VObject(fields), atol, made, filled);
      if !name.VString? || !host.VString? then row == Abort
      else if port.VString? then
        row == Record(Registry(CString(BytesOf(name.str)), CString(BytesOf(host.str)),
                               atol(CString(BytesOf(port.str))), filled, made, []))
      else if port.VNumber? && port.n.isInt then
        row == Record(Registry(CString(BytesOf(name.str)), CString(BytesOf(host.str)),
                               Signed32(port.n.bits), filled, made, []))
      else row == Skip
  {
    FindsFirst(fields, NAME, i);
    FindsFirst(fields, HOST, j);
    FindsFirst(fields, PORT, k);
    hide FindMember, CString, BytesOf, Signed32;
  }

  /** An object without one of the members is passed over; what is no object fails an assertion. */
  lemma ReadsNothing(v: Value, atol: seq<byte> -> int, made: nat, filled: nat)
    ensures !v.VObject? ==> ReadRow(v, atol, made, filled) == Abort
    ensures v.VObject? && LacksOne(v.fields) ==> ReadRow(v, atol, made, filled) == Skip
  {
    if v.VObject? {
      if Lacks(v.fields, NAME) { FindsNone(v.fields, NAME); }
      if Lacks(v.fields, HOST) { FindsNone(v.fields, HOST); }
      if Lacks(v.fields, PORT) { FindsNone(v.fields, PORT); }
    }
  }

  // --- whole texts ---

  /** An element of a text: a record whose port is a string, other members after it; or what is passed over. */
  datatype Item = Listed(name: seq<byte>, host: seq<byte>, port: seq<byte>, more: seq<Field>) | Passed(v: Value)

  function ItemValue(item: Item): Value {
    match item
    case Listed(name, host, port, more) =>
      VObject([Field(Copied([0x6E, 0x61, 0x6D, 0x65]), VString(Copied(name))),
               Field(Copied([0x68, 0x6F, 0x73, 0x74]), VString(Copied(host))),
               Field(Copied([0x70, 0x6F, 0x72, 0x74]), VString(Copied(port)))] + more)
    case Passed(v) => v
  }

  /** One of the members is missing, or the port is neither an int nor a string. */
  ghost predicate PassedOver(v: Value) {
    v.VObject? && (LacksOne(v.fields) || exists i, j, k :: OtherPort(v.fields, i, j, k))
  }

  predicate OtherPort(fields: seq<Field>, i: nat, j: nat, k: nat) {
    && FirstNamed(fields, [0x6E, 0x61, 0x6D, 0x65], i) && FirstNamed(fields, [0x68, 0x6F, 0x73, 0x74], j)
    && FirstNamed(fields, [0x70, 0x6F, 0x72, 0x74], k)
    && fields[i].value.VString? && fields[j].value.VString? && !fields[k].value.VString?
    && !(fields[k].value.VNumber? && fields[k].value.n.isInt)
  }

  ghost predicate ItemOk(item: Item) {
    match item
    case Listed(name, host, port, _) => 0 !in name && 0 !in host && 0 !in port
    case Passed(v) => PassedOver(v)
  }

  /** The record of an element that is listed, with the readings of the clock for the i-th element. */
  function Taken(item: Item, atol: seq<byte> -> int, clock: nat -> nat, i: nat): seq<Registry> {
    match item
    case Listed(name, host, port, _) => [Registry(name, host, atol(port), clock(2 * i + 1), clock(2 * i), [])]
    case Passed(_) => []
  }

  /** The records that are listed, in order. */
  function Records(items: seq<Item>, atol: seq<byte> -> int, clock: nat -> nat, i: nat): seq<Registry> {
    if items == [] then [] else Taken(items[0], atol, clock, i) + Records(items[1..], atol, clock, i + 1)
  }

  function Values(items: seq<Item>): (vs: seq<Value>)
    ensures |vs| == |items| && forall i | 0 <= i < |items| :: vs[i] == ItemValue(items[i])
  {
    seq(|items|, i requires 0 <= i < |items| => ItemValue(items[i]))
  }

  lemma ItemReads(item: Item, atol: seq<byte> -> int, made: nat, filled: nat)
    requires ItemOk(item)
    ensures ReadRow(ItemValue(item), atol, made, filled) ==
      if item.Passed? then Skip else Record(Registry(item.name, item.host, atol(item.port), filled, made, []))
  {
    match item {
      case Listed(_, _, _, _) => ReadsObject(ItemValue(item).fields, atol, made, filled, 0, 1, 2);
      case Passed(v) =>
        ReadsNothing(v, atol, made, filled);
        if i, j, k :| OtherPort(v.fields, i, j, k) { ReadsObject(v.fields, atol, made, filled, i, j, k); }
    }
  }

  lemma OneReads(item: Item, vs: seq<Value>, atol: seq<byte> -> int, clock: nat -> nat, i: nat, acc: seq<Registry>)
    requires ItemOk(item)
    ensures ReadRows([ItemValue(item)] + vs, atol, clock, i, acc) ==
      ReadRows(vs, atol, clock, i + 1, acc + Taken(item, atol, clock, i))
  {
    hide ReadRow, ItemValue, ItemOk;
    ItemReads(item, atol, clock(2 * i), clock(2 * i + 1));
    assert acc + [] == acc && ([ItemValue(item)] + vs)[1..] == vs;
  }

  lemma {:induction false} ItemsRead(items: seq<Item>, rest: seq<Value>, atol: seq<byte> -> int, clock: nat -> nat,
    i: nat, acc: seq<Registry>)
    requires forall j | 0 <= j < |items| :: ItemOk(items[j])
    ensures ReadRows(Values(items) + rest, atol, clock, i, acc) ==
      ReadRows(rest, atol, clock, i + |items|, acc + Records(items, atol, clock, i))
    decreases |items|
  {
    hide ReadRow, ReadRows, ItemValue, ItemOk, Taken;
    if items == [] {
      assert Values(items) + rest == rest && acc + Records(items, atol, clock, i) == acc;
    } else {
      OneReads(items[0], Values(items[1..]) + rest, atol, clock, i, acc);
      ItemsRead(items[1..], rest, atol, clock, i + 1, acc + Taken(items[0], atol, clock, i));
      RecordsNext(items, atol, clock, i, acc);
      hide Records;
      assert Values(items) + rest == [ItemValue(items[0])] + (Values(items[1..]) + rest);
    }
  }

  lemma RecordsNext(items: seq<Item>, atol: seq<byte> -> int, clock: nat -> nat, i: nat, acc: seq<Registry>)
    requires items != []
    ensures acc + Records(items, atol, clock, i) ==
      acc + Taken(items[0], atol, clock, i) + Records(items[1..], atol, clock, i + 1)
  {}

  /** Records whose ports are strings load in order, each with its name, host and the number of its port;
      elements without one of the members, or with another kind of port, change nothing else. However the text
      is laid out and its strings are escaped. */
  lemma StringPortsLoad(huge: Rounding, tree: Tree, items: seq<Item>, atol: seq<byte> -> int, clock: nat -> nat)
    requires IsRoot(tree) && Readable(huge, tree) && ValueOf(tree) == VArray(Values(items))
    requires forall j | 0 <= j < |items| :: ItemOk(items[j])
    ensures Loaded(huge, atol, TreeText(tree), clock) == Some(Records(items, atol, clock, 0))
  {
    hide Readable, TreeText, ValueOf, ItemOk, Loaded, Records, ReadRow;
    LoadsTree(huge, tree, Values(items), atol, clock);
    ItemsRead(items, [], atol, clock, 0, []);
    assert Values(items) + [] == Values(items);
    assert [] + Records(items, atol, clock, 0) == Records(items, atol, clock, 0);
  }

  /** One element that is no object, or whose name or host is no string, fails an assertion. */
  lemma BadElementAborts(huge: Rounding, tree: Tree, items: seq<Item>, bad: Value, rest: seq<Value>,
    atol: seq<byte> -> int, clock: nat -> nat)
    requires IsRoot(tree) && Readable(huge, tree) && ValueOf(tree) == VArray(Values(items) + ([bad] + rest))
    requires forall j | 0 <= j < |items| :: ItemOk(items[j])
    requires !bad.VObject? || exists i, j, k :: NotText(bad.fields, i, j, k)
    ensures Loaded(huge, atol, TreeText(tree), clock) == None
  {
    hide Readable, TreeText, ValueOf, ItemOk, Loaded;
    LoadsTree(huge, tree, Values(items) + ([bad] + rest), atol, clock);
    ItemsRead(items, [bad] + rest, atol, clock, 0, []);
    var (made, filled) := (clock(2 * |items|), clock(2 * |items| + 1));
    ReadsNothing(bad, atol, made, filled);
    if bad.VObject? {
      var i, j, k :| NotText(bad.fields, i, j, k);
      ReadsObject(bad.fields, atol, made, filled, i, j, k);
    }
    hide ReadRow;
  }

  /** All three members are there, but the name or the host is no string. */
  predicate NotText(fields: seq<Field>, i: nat, j: nat, k: nat) {
    && FirstNamed(fields, [0x6E, 0x61, 0x6D, 0x65], i) && FirstNamed(fields, [0x68, 0x6F, 0x73, 0x74], j)
    && FirstNamed(fields, [0x70, 0x6F, 0x72, 0x74], k)
    && (!fields[i].value.VString? || !fields[j].value.VString?)
  }

  /** What is no array loads nothing, and neither does what is not read at all. */
  lemma OthersLoadNothing(huge: Rounding, tree: Tree, t: seq<byte>, atol: seq<byte> -> int, clock: nat -> nat)
    ensures IsRoot(tree) && Readable(huge, tree) && ValueOf(tree).VObject? ==>
      Loaded(huge, atol, TreeText(tree), clock) == Some([])
    ensures 0 !in t && Parse(huge, t).Fail? ==> Loaded(huge, atol, t, clock) == Some([])
  {
    TreeWithoutNul(tree);
    if IsRoot(tree) && Readable(huge, tree) { TreeReads(huge, tree); }
    hide Readable, TreeText, ValueOf, Parse, Run, ReadRows, CString;
  }
}
