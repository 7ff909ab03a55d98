/** What the operations of core/RegistryCache.cpp do to the map of vectors, and what they keep. */
module CacheSpec {
  import opened Bytes
  import opened Registries
  import opened Sequences

  type Services = map<seq<byte>, seq<Registry>>

  /** What makes two records equal. */
  datatype Key = Key(name: seq<byte>, host: seq<byte>, port: int)

  function KeyOf(r: Registry): Key { Key(r.name, r.host, r.port) }

  /** v without its first record equal to r. */
  function Without(v: seq<Registry>, r: Registry): seq<Registry> {
    if v == [] then []
    else if Equals(v[0], r) then v[1..]
    else [v[0]] + Without(v[1..], r)
  }

  /** v without its first record with this ephemeral name. */
  function WithoutEphemeral(v: seq<Registry>, ephemeral: seq<byte>): seq<Registry> {
    if v == [] then []
    else if v[0].ephemeral == ephemeral then v[1..]
    else [v[0]] + WithoutEphemeral(v[1..], ephemeral)
  }

  function RecordsOf(c: Services, name: seq<byte>): seq<Registry> { if name in c then c[name] else [] }

  function Added(c: Services, r: Registry): Services {
    if r.name == [] || r.host == [] || r.ephemeral == [] then c else c[r.name := Without(RecordsOf(c, r.name), r) + [r]]
  }

  function Removed(c: Services, r: Registry): Services {
    if r.name !in c then c
    else if Without(c[r.name], r) == [] then c - {r.name}
    else c[r.name := Without(c[r.name], r)]
  }

  function RemovedEphemeral(c: Services, name: seq<byte>, ephemeral: seq<byte>): Services {
    if name == [] || ephemeral == [] || name !in c then c else c[name := WithoutEphemeral(c[name], ephemeral)]
  }

  // --- what every operation keeps ---

  predicate Distinct(v: seq<Registry>) { forall i, j | 0 <= i < j < |v| :: !Equals(v[i], v[j]) }

  /** Records stand under their own name, are complete, and no two in a vector are equal. */
  predicate Sound(name: seq<byte>, v: seq<Registry>) {
    Distinct(v) && forall r | r in v :: r.name == name && r.name != [] && r.host != [] && r.ephemeral != []
  }

  predicate Inv(c: Services) { forall name | name in c :: Sound(name, c[name]) }

  /** Those of v whose key is not in gone, in order. */
  function Kept(v: seq<Registry>, gone: set<Key>): seq<Registry> {
    if v == [] then []
    else if KeyOf(v[0]) in gone then Kept(v[1..], gone)
    else [v[0]] + Kept(v[1..], gone)
  }

  /** Where no two records are equal, removing the first one equal to r removes what equals r. */
  lemma {:induction false} WithoutIsKept(v: seq<Registry>, r: Registry)
    requires Distinct(v)
    ensures Without(v, r) == Kept(v, {KeyOf(r)})
  {
    if v != [] {
      assert Distinct(v[1..]);
      if Equals(v[0], r) {
        forall i | 0 <= i < |v[1..]| ensures KeyOf(v[1..][i]) !in {KeyOf(r)} { assert !Equals(v[0], v[i + 1]); }
        KeepsAll(v[1..], {KeyOf(r)});
      } else {
        WithoutIsKept(v[1..], r);
      }
    }
  }

  lemma {:induction false} KeepsAll(v: seq<Registry>, gone: set<Key>)
    requires forall i | 0 <= i < |v| :: KeyOf(v[i]) !in gone
    ensures Kept(v, gone) == v
  {
    if v != [] {
      forall i | 0 <= i < |v[1..]| ensures KeyOf(v[1..][i]) !in gone { assert v[1..][i] == v[i + 1]; }
      KeepsAll(v[1..], gone);
    }
  }

  lemma {:induction false} KeptTwice(v: seq<Registry>, a: set<Key>, b: set<Key>)
    ensures Kept(Kept(v, a), b) == Kept(v, a + b)
  {
    if v != [] {
      KeptTwice(v[1..], a, b);
      if KeyOf(v[0]) !in a { assert Kept(v, a)[1..] == Kept(v[1..], a); }
    }
  }

  lemma {:induction false} KeptIsPart(v: seq<Registry>, gone: set<Key>)
    ensures forall r :: r in Kept(v, gone) <==> r in v && KeyOf(r) !in gone
    ensures Distinct(v) ==> Distinct(Kept(v, gone))
  {
    if v != [] {
      var rest := Kept(v[1..], gone);
      KeptIsPart(v[1..], gone);
      forall r ensures r in Kept(v, gone) <==> r in v && KeyOf(r) !in gone {
        assert r in v <==> r == v[0] || r in v[1..];
      }
      if Distinct(v) && KeyOf(v[0]) !in gone {
        forall j | 0 <= j < |rest| ensures !Equals(v[0], rest[j]) {
          assert rest[j] in v[1..];
          var k :| 0 <= k < |v[1..]| && v[1..][k] == rest[j];
          assert !Equals(v[0], v[k + 1]);
        }
        assert Distinct(v[1..]);
      }
    }
  }

  predicate Complete(r: Registry) { r.name != [] && r.host != [] && r.ephemeral != [] }

  /** Nothing but the records of this name may differ. */
  ghost predicate SameBut(name: seq<byte>, c: Services, d: Services) {
    forall n | n != name :: (n in c <==> n in d) && RecordsOf(c, n) == RecordsOf(d, n)
  }

  /** Adding keeps the invariant. A complete record comes last among those of its name, in place of what
      equals it, and nothing else changes; an incomplete one changes nothing. */
  lemma AddedKeeps(c: Services, r: Registry)
    requires Inv(c)
    ensures Inv(Added(c, r)) && SameBut(r.name, c, Added(c, r))
    ensures !Complete(r) ==> Added(c, r) == c
    ensures Complete(r) ==>
      r.name in Added(c, r) && Added(c, r)[r.name] == Kept(RecordsOf(c, r.name), {KeyOf(r)}) + [r]
  {
    var v := RecordsOf(c, r.name);
    assert Sound(r.name, v);
    WithoutIsKept(v, r);
    KeptIsPart(v, {KeyOf(r)});
    var next := Without(v, r) + [r];
    forall i, j | 0 <= i < j < |next| ensures !Equals(next[i], next[j]) {
      assert next[i] in Without(v, r);
      if j < |next| - 1 { assert !Equals(Without(v, r)[i], Without(v, r)[j]); }
    }
  }

  /** The record at i has this host and port. */
  predicate StandsAt(v: seq<Registry>, r: Registry, i: nat) {
    i < |v| && v[i].name == r.name && v[i].host == r.host && v[i].port == r.port
  }

  /** The equal record is taken out from where it stands, the others stay as they are. */
  lemma {:induction false} WithoutOne(v: seq<Registry>, r: Registry) returns (i: nat)
    ensures i <= |v| && forall j: nat | j < i :: !StandsAt(v, r, j)
    ensures if i == |v| then Without(v, r) == v else StandsAt(v, r, i) && Without(v, r) == v[..i] + v[i + 1..]
  {
    i := 0;
    if v != [] && !Equals(v[0], r) {
      var k := WithoutOne(v[1..], r);
      i := k + 1;
      forall j: nat | j < i ensures !StandsAt(v, r, j) { assert j > 0 ==> !StandsAt(v[1..], r, j - 1); }
      assert v[..i] == [v[0]] + v[1..][..k];
      if i < |v| { assert v[1..][k + 1..] == v[i + 1..]; }
    }
  }

  /** Two records of a sound vector never stand at two places. */
  lemma OnePlace(v: seq<Registry>, r: Registry)
    requires Distinct(v)
    ensures forall i: nat | StandsAt(v, r, i) :: Without(v, r) == v[..i] + v[i + 1..]
    ensures (forall i: nat :: !StandsAt(v, r, i)) ==> Without(v, r) == v
  {
    hide Without;
    var k := WithoutOne(v, r);
    forall i: nat | StandsAt(v, r, i) ensures i == k { assert i > k ==> !Equals(v[k], v[i]); }
  }

  /** Removing a record keeps the invariant: what equals it is gone, the others of its name stay in order,
      and the name goes with the last of them. */
  lemma RemovedKeeps(c: Services, r: Registry)
    requires Inv(c)
    ensures Inv(Removed(c, r)) && SameBut(r.name, c, Removed(c, r))
    ensures RecordsOf(Removed(c, r), r.name) == Kept(RecordsOf(c, r.name), {KeyOf(r)})
    ensures r.name in Removed(c, r) <==> Kept(RecordsOf(c, r.name), {KeyOf(r)}) != []
  {
    if r.name in c {
      assert Sound(r.name, c[r.name]);
      WithoutIsKept(c[r.name], r);
      KeptIsPart(c[r.name], {KeyOf(r)});
    }
  }

  /** The first record with the ephemeral name is the one that goes. */
  lemma {:induction false} FirstEphemeralGoes(v: seq<Registry>, ephemeral: seq<byte>) returns (i: nat)
    ensures i <= |v| && forall j | 0 <= j < i :: v[j].ephemeral != ephemeral
    ensures i == |v| ==> WithoutEphemeral(v, ephemeral) == v
    ensures i < |v| ==> v[i].ephemeral == ephemeral && WithoutEphemeral(v, ephemeral) == v[..i] + v[i + 1..]
  {
    i := 0;
    if v != [] && v[0].ephemeral != ephemeral {
      var k := FirstEphemeralGoes(v[1..], ephemeral);
      i := k + 1;
      assert v[..i] == [v[0]] + v[1..][..k];
      if i < |v| { assert v[1..][k + 1..] == v[i + 1..]; }
    }
  }

  lemma {:induction false} WithoutEphemeralIsPart(v: seq<Registry>, ephemeral: seq<byte>)
    ensures forall r | r in WithoutEphemeral(v, ephemeral) :: r in v
    ensures Distinct(v) ==> Distinct(WithoutEphemeral(v, ephemeral))
  {
    if v != [] {
      var rest := WithoutEphemeral(v[1..], ephemeral);
      WithoutEphemeralIsPart(v[1..], ephemeral);
      if Distinct(v) {
        assert Distinct(v[1..]);
        forall j | 0 <= j < |rest| ensures !Equals(v[0], rest[j]) {
          assert rest[j] in v[1..];
          var k :| 0 <= k < |v[1..]| && v[1..][k] == rest[j];
          assert !Equals(v[0], v[k + 1]);
        }
      }
    }
  }

  /** The index of the first record with this ephemeral name. */
  predicate IsFirst(v: seq<Registry>, ephemeral: seq<byte>, i: nat) {
    i < |v| && v[i].ephemeral == ephemeral && forall j | 0 <= j < i :: v[j].ephemeral != ephemeral
  }

  lemma EphemeralGoes(v: seq<Registry>, ephemeral: seq<byte>)
    ensures forall i: nat | IsFirst(v, ephemeral, i) :: WithoutEphemeral(v, ephemeral) == v[..i] + v[i + 1..]
    ensures (forall r | r in v :: r.ephemeral != ephemeral) ==> WithoutEphemeral(v, ephemeral) == v
  {
    hide WithoutEphemeral;
    var k := FirstEphemeralGoes(v, ephemeral);
    forall i: nat | IsFirst(v, ephemeral, i) ensures i == k {}
    if k < |v| { assert v[k] in v; }
  }

  /** Removing by ephemeral name keeps the invariant and all names. Of the vector of this name, exactly the
      first record with the ephemeral name goes; without one, or without arguments, nothing changes. */
  lemma RemovedEphemeralKeeps(c: Services, name: seq<byte>, ephemeral: seq<byte>)
    requires Inv(c)
    ensures var d := RemovedEphemeral(c, name, ephemeral);
      && Inv(d) && d.Keys == c.Keys && (forall n | n in c && n != name :: d[n] == c[n])
      && (name == [] || ephemeral == [] || name !in c ==> d == c)
      && (name != [] && ephemeral != [] && name in c ==>
            && (forall i: nat | IsFirst(c[name], ephemeral, i) :: d[name] == c[name][..i] + c[name][i + 1..])
            && ((forall r | r in c[name] :: r.ephemeral != ephemeral) ==> d[name] == c[name]))
  {
    if name in c {
      assert Sound(name, c[name]);
      WithoutEphemeralIsPart(c[name], ephemeral);
      hide WithoutEphemeral, IsFirst;
      EphemeralGoes(c[name], ephemeral);
    }
  }

  // --- removing what is overdue ---

  function RemovedAll(c: Services, rs: seq<Registry>): Services
    decreases |rs|
  {
    if rs == [] then c else Removed(RemovedAll(c, rs[..|rs| - 1]), rs[|rs| - 1])
  }

  /** The records that are not overdue, in order. */
  function Timely(v: seq<Registry>, t: nat): seq<Registry> {
    if v == [] then []
    else if v[0].mtime < t then Timely(v[1..], t)
    else [v[0]] + Timely(v[1..], t)
  }

  /** The timely records are those whose time is not before t, in their old order. */
  lemma {:induction false} TimelyIs(v: seq<Registry>, t: nat)
    ensures forall r :: r in Timely(v, t) <==> r in v && r.mtime >= t
    ensures KeepsOrder(Timely(v, t), v)
  {
    if v != [] {
      TimelyIs(v[1..], t);
      var rest := Timely(v[1..], t);
      assert v == [v[0]] + v[1..];
      assert forall r :: r in v <==> r == v[0] || r in v[1..];
      hide KeepsOrder;
      if v[0].mtime < t { OrderBehind(rest, v[0], v[1..]); } else { OrderWith(rest, v[0], v[1..]); }
    }
  }

  /** Every vector without its overdue records; a name all of whose records are overdue is gone. */
  function Pruned(c: Services, t: nat): Services {
    map name | name in c && (c[name] == [] || Timely(c[name], t) != []) :: Timely(c[name], t)
  }

  /** A name stays if it had no record at all or keeps one; its vector keeps exactly the timely ones in order. */
  lemma PrunedIs(c: Services, t: nat)
    ensures forall n :: n in Pruned(c, t) <==> n in c && (c[n] == [] || exists r :: r in c[n] && r.mtime >= t)
    ensures forall n | n in Pruned(c, t) ::
      (forall r :: r in Pruned(c, t)[n] <==> r in c[n] && r.mtime >= t) && KeepsOrder(Pruned(c, t)[n], c[n])
  {
    forall n | n in c
      ensures (forall r :: r in Timely(c[n], t) <==> r in c[n] && r.mtime >= t) && KeepsOrder(Timely(c[n], t), c[n])
      ensures Timely(c[n], t) != [] <==> exists r :: r in c[n] && r.mtime >= t
    {
      TimelyIs(c[n], t);
      hide Timely;
      if Timely(c[n], t) != [] { assert Timely(c[n], t)[0] in Timely(c[n], t); }
    }
  }

  predicate Overdue(c: Services, t: nat, r: Registry) { r.name in c && r in c[r.name] && r.mtime < t }

  function PrunedBy(c: Services, gone: set<Key>): Services {
    map name | name in c && (c[name] == [] || Kept(c[name], gone) != []) :: Kept(c[name], gone)
  }

  function Keys(rs: seq<Registry>): set<Key> { set r | r in rs :: KeyOf(r) }

  /** Records of other names are not affected. */
  lemma OtherNamesStay(c: Services, gone: set<Key>, r: Registry, name: seq<byte>)
    requires Inv(c) && name in c && name != r.name
    ensures Kept(c[name], gone + {KeyOf(r)}) == Kept(c[name], gone)
  {
    var v := Kept(c[name], gone);
    KeptTwice(c[name], gone, {KeyOf(r)});
    KeptIsPart(c[name], gone);
    assert Sound(name, c[name]);
    forall i | 0 <= i < |v| ensures KeyOf(v[i]) !in {KeyOf(r)} { assert v[i] in v; }
    KeepsAll(v, {KeyOf(r)});
  }

  lemma OwnNameLoses(c: Services, gone: set<Key>, r: Registry)
    requires Inv(c) && r.name in c
    ensures Kept(c[r.name], gone + {KeyOf(r)}) == Without(Kept(c[r.name], gone), r)
  {
    KeptTwice(c[r.name], gone, {KeyOf(r)});
    KeptIsPart(c[r.name], gone);
    assert Sound(r.name, c[r.name]);
    WithoutIsKept(Kept(c[r.name], gone), r);
  }

  /** The name is gone already. */
  lemma PrunedWithout(c: Services, gone: set<Key>, r: Registry)
    requires Inv(c) && r.name in c && c[r.name] != [] && Kept(c[r.name], gone) == []
    ensures PrunedBy(c, gone + {KeyOf(r)}) == PrunedBy(c, gone)
  {
    OwnNameLoses(c, gone, r);
    assert Without([], r) == [];
    OthersStay(c, gone, r);
  }

  /** The name loses a record, perhaps its last one. */
  lemma PrunedWith(c: Services, gone: set<Key>, r: Registry)
    requires Inv(c) && r.name in c && c[r.name] != [] && Kept(c[r.name], gone) != []
    ensures var (before, left) := (PrunedBy(c, gone), Without(Kept(c[r.name], gone), r));
      && r.name in before && before[r.name] == Kept(c[r.name], gone)
      && PrunedBy(c, gone + {KeyOf(r)}) == if left == [] then before - {r.name} else before[r.name := left]
  {
    hide Inv, Without;
    OwnNameLoses(c, gone, r);
    OthersStay(c, gone, r);
    hide Kept, KeyOf;
    var before := PrunedBy(c, gone);
    if Without(Kept(c[r.name], gone), r) == [] {
      assert PrunedBy(c, gone + {KeyOf(r)}) == before - {r.name};
    } else {
      assert PrunedBy(c, gone + {KeyOf(r)}) == before[r.name := Without(Kept(c[r.name], gone), r)];
    }
  }

  lemma OthersStay(c: Services, gone: set<Key>, r: Registry)
    requires Inv(c)
    ensures forall name | name in c && name != r.name :: Kept(c[name], gone + {KeyOf(r)}) == Kept(c[name], gone)
  {
    hide Inv, Kept;
    forall name | name in c && name != r.name ensures Kept(c[name], gone + {KeyOf(r)}) == Kept(c[name], gone) {
      OtherNamesStay(c, gone, r, name);
    }
  }

  lemma PrunedByOneMore(c: Services, gone: set<Key>, r: Registry)
    requires Inv(c) && r.name in c && c[r.name] != []
    ensures Removed(PrunedBy(c, gone), r) == PrunedBy(c, gone + {KeyOf(r)})
  {
    hide Inv, Kept, Without, KeyOf;
    if Kept(c[r.name], gone) == [] {
      PrunedWithout(c, gone, r);
      assert r.name !in PrunedBy(c, gone);
    } else {
      PrunedWith(c, gone, r);
      hide PrunedBy;
    }
  }

  lemma {:induction false} RemovesByKeys(c: Services, rs: seq<Registry>)
    requires Inv(c) && forall r | r in rs :: r.name in c && c[r.name] != []
    ensures RemovedAll(c, rs) == PrunedBy(c, Keys(rs))
    decreases |rs|
  {
    if rs == [] {
      forall name | name in c ensures Kept(c[name], {}) == c[name] { KeepsAll(c[name], {}); }
      assert Keys(rs) == {};
    } else {
      var (init, last) := (rs[..|rs| - 1], rs[|rs| - 1]);
      assert rs == init + [last];
      RemovesByKeys(c, init);
      PrunedByOneMore(c, Keys(init), last);
      assert Keys(rs) == Keys(init) + {KeyOf(last)};
    }
  }

  lemma {:induction false} KeptIsTimely(v: seq<Registry>, gone: set<Key>, t: nat)
    requires forall r | r in v :: KeyOf(r) in gone <==> r.mtime < t
    ensures Kept(v, gone) == Timely(v, t)
  {
    if v != [] { KeptIsTimely(v[1..], gone, t); }
  }

  /** Removing one by one whatever is overdue leaves exactly the other records, in their old order, and
      drops each name that it empties. */
  lemma OverdueAreRemoved(c: Services, t: nat, rs: seq<Registry>)
    requires Inv(c) && forall r :: r in rs <==> Overdue(c, t, r)
    ensures RemovedAll(c, rs) == Pruned(c, t)
  {
    RemovesByKeys(c, rs);
    forall name | name in c ensures Kept(c[name], Keys(rs)) == Timely(c[name], t) {
      assert Sound(name, c[name]);
      forall r | r in c[name] ensures KeyOf(r) in Keys(rs) <==> r.mtime < t {
        if r.mtime < t {
          assert Overdue(c, t, r);
        } else if KeyOf(r) in Keys(rs) {
          var d :| d in rs && KeyOf(d) == KeyOf(r);
          assert Overdue(c, t, d);
          SameKeySameRecord(c[name], r, d);
        }
      }
      KeptIsTimely(c[name], Keys(rs), t);
    }
  }

  lemma SameKeySameRecord(v: seq<Registry>, a: Registry, b: Registry)
    requires Distinct(v) && a in v && b in v && KeyOf(a) == KeyOf(b)
    ensures a == b
  {}

  // --- loading ---

  function AddedAll(c: Services, rs: seq<Registry>): Services
    decreases |rs|
  {
    if rs == [] then c else AddedAll(Added(c, rs[0]), rs[1..])
  }

  /** The records of several names, name by name. */
  function Flat(c: Services, names: seq<seq<byte>>): seq<Registry>
    requires forall n | n in names :: n in c
  {
    if names == [] then [] else c[names[0]] + Flat(c, names[1..])
  }

  lemma {:induction false} AddsInTwoParts(c: Services, a: seq<Registry>, b: seq<Registry>)
    ensures AddedAll(c, a + b) == AddedAll(AddedAll(c, a), b)
    decreases |a|
  {
    if a == [] {
      assert a + b == b;
    } else {
      assert (a + b)[1..] == a[1..] + b;
      AddsInTwoParts(Added(c, a[0]), a[1..], b);
    }
  }

  /** A record stays until one that equals it is added. */
  lemma {:induction false} StaysAdded(c: Services, rs: seq<Registry>, r: Registry)
    requires Inv(c) && r in RecordsOf(c, r.name) && forall i | 0 <= i < |rs| :: !Equals(rs[i], r)
    ensures r in RecordsOf(AddedAll(c, rs), r.name)
    decreases |rs|
  {
    if rs != [] {
      AddedKeeps(c, rs[0]);
      KeptIsPart(RecordsOf(c, r.name), {KeyOf(rs[0])});
      hide Inv, Added, Kept;
      StaysAdded(Added(c, rs[0]), rs[1..], r);
    }
  }

  /** Of several records that are added, the last one of each kind is there in the end. */
  lemma LastIsThere(c: Services, rs: seq<Registry>, k: nat)
    requires Inv(c) && k < |rs| && Complete(rs[k]) && forall j | k < j < |rs| :: !Equals(rs[j], rs[k])
    ensures rs[k] in RecordsOf(AddedAll(c, rs), rs[k].name)
  {
    var before := AddedAll(c, rs[..k]);
    AddedAllKeeps(c, rs[..k]);
    AddedKeeps(before, rs[k]);
    assert rs == rs[..k] + rs[k..];
    AddsInTwoParts(c, rs[..k], rs[k..]);
    hide Inv, Added, Kept;
    StaysAdded(Added(before, rs[k]), rs[k..][1..], rs[k]);
  }

  lemma {:induction false} AddedAllKeeps(c: Services, rs: seq<Registry>)
    requires Inv(c)
    ensures Inv(AddedAll(c, rs))
    decreases |rs|
  {
    if rs != [] {
      AddedKeeps(c, rs[0]);
      AddedAllKeeps(Added(c, rs[0]), rs[1..]);
    }
  }

  /** Adding a sound vector, record by record, to what is there of it already. */
  lemma {:induction false} AddsVector(c: Services, name: seq<byte>, done: seq<Registry>, v: seq<Registry>)
    requires Sound(name, done + v) && RecordsOf(c, name) == done
    ensures AddedAll(c, v) == if v == [] then c else c[name := done + v]
    decreases |v|
  {
    if v != [] {
      FirstIsNew(name, done, v);
      assert Added(c, v[0]) == c[name := done + [v[0]]];
      hide Added, Sound;
      assert done + [v[0]] + v[1..] == done + v;
      AddsVector(Added(c, v[0]), name, done + [v[0]], v[1..]);
      if v[1..] == [] { assert done + [v[0]] == done + v; }
    }
  }

  /** The next record of a sound vector is added behind those before it. */
  lemma FirstIsNew(name: seq<byte>, done: seq<Registry>, v: seq<Registry>)
    requires v != [] && Sound(name, done + v)
    ensures Without(done, v[0]) == done && v[0].name == name && Complete(v[0])
  {
    var all := done + v;
    assert v[0] in all && all[|done|] == v[0];
    forall i | 0 <= i < |done| ensures KeyOf(done[i]) !in {KeyOf(v[0])} { assert !Equals(all[i], all[|done|]); }
    KeepsAll(done, {KeyOf(v[0])});
    assert Distinct(done) by {
      forall i, j | 0 <= i < j < |done| ensures !Equals(done[i], done[j]) { assert !Equals(all[i], all[j]); }
    }
    WithoutIsKept(done, v[0]);
  }
}
