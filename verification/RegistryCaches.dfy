/** The cache of core/RegistryCache.cpp: a map of vectors, searched, erased and appended to in place. */
module RegistryCaches {
  import opened Bytes
  import opened Limits
  import opened Registries
  import opened RegistryTexts
  import opened RegistryLoads
  import opened CacheSpec
  import opened Reloads
  import opened Sequences

  /** from_file */
  const FROM_FILE: seq<byte> := [0x66, 0x72, 0x6F, 0x6D, 0x5F, 0x66, 0x69, 0x6C, 0x65]

  /** A loaded record as the cache takes it. */
  function FileRow(r: Registry, now: nat): Registry { r.(ephemeral := FROM_FILE, mtime := now, ctime := now) }

  /** The k-th loaded record and those after it, each with the clock's next reading. */
  function FileRows(v: seq<Registry>, clock: nat -> nat, k: nat): (rs: seq<Registry>)
    ensures |rs| == |v| && forall i | 0 <= i < |v| :: rs[i] == FileRow(v[i], clock(k + i))
  {
    seq(|v|, i requires 0 <= i < |v| => FileRow(v[i], clock(k + i)))
  }

  /** r is the k-th loaded record with the mark of a file, stamped twice at the time that was read for it. */
  predicate IsStamped(r: Registry, loaded: Registry, time: nat) {
    && r.name == loaded.name && r.host == loaded.host && r.port == loaded.port
    && r.mtime == time && r.ctime == time && r.ephemeral == [0x66, 0x72, 0x6F, 0x6D, 0x5F, 0x66, 0x69, 0x6C, 0x65]
  }

  /** Nothing is in d that was not in c and does not come from the records v. */
  ghost predicate OnlyAdds(c: Services, d: Services, v: seq<Registry>, clock: nat -> nat) {
    forall n, r | n in d && r in d[n] ::
      (n in c && r in c[n]) || exists k :: 0 <= k < |v| && IsStamped(r, v[k], clock(k))
  }

  lemma RowsOnlyAdd(c: Services, v: seq<Registry>, clock: nat -> nat)
    ensures OnlyAdds(c, AddedAll(c, FileRows(v, clock, 0)), v, clock)
  {
    var rows := FileRows(v, clock, 0);
    var d := AddedAll(c, rows);
    forall n, r | n in d && r in d[n] && !(n in c && r in c[n])
      ensures exists k :: 0 <= k < |v| && IsStamped(r, v[k], clock(k))
    {
      AddedFrom(c, rows, n, r);
      hide AddedAll;
      var k :| 0 <= k < |rows| && rows[k] == r;
      assert IsStamped(r, v[k], clock(k));
    }
  }

  predicate Differ(a: Registry, b: Registry) { a.name != b.name || a.host != b.host || a.port != b.port }

  /** No record behind the k-th one equals it. */
  predicate LastOfKind(v: seq<Registry>, k: nat) {
    k < |v| && v[k].name != [] && v[k].host != [] && forall j | k < j < |v| :: Differ(v[j], v[k])
  }

  ghost predicate HasStamped(d: Services, loaded: Registry, time: nat) {
    loaded.name in d && exists r :: r in d[loaded.name] && IsStamped(r, loaded, time)
  }

  /** Of the loaded records with a name and a host, the last one of each kind is in d, with its stamp. */
  ghost predicate AllThere(d: Services, v: seq<Registry>, clock: nat -> nat) {
    forall k: nat | LastOfKind(v, k) :: HasStamped(d, v[k], clock(k))
  }

  predicate NoneEquals(v: seq<Registry>, r: Registry) { forall k | 0 <= k < |v| :: Differ(v[k], r) }

  /** The records of c that no loaded one equals are still there. */
  predicate AllElseStays(c: Services, d: Services, v: seq<Registry>) {
    forall n | n in c :: forall r | r in c[n] && NoneEquals(v, r) :: n in d && r in d[n]
  }

  lemma RowIsThere(c: Services, v: seq<Registry>, clock: nat -> nat, k: nat)
    requires Inv(c) && LastOfKind(v, k)
    ensures HasStamped(AddedAll(c, FileRows(v, clock, 0)), v[k], clock(k))
  {
    var rows := FileRows(v, clock, 0);
    hide AddedAll, Inv;
    forall j | k < j < |rows| ensures !Equals(rows[j], rows[k]) { assert Differ(v[j], v[k]); }
    LastIsThere(c, rows, k);
    assert IsStamped(rows[k], v[k], clock(k));
  }

  lemma RecordStays(c: Services, v: seq<Registry>, clock: nat -> nat, n: seq<byte>, r: Registry)
    requires Inv(c) && n in c && r in c[n] && NoneEquals(v, r)
    ensures var d := AddedAll(c, FileRows(v, clock, 0)); n in d && r in d[n]
  {
    var rows := FileRows(v, clock, 0);
    hide AddedAll;
    assert Sound(n, c[n]);
    forall i | 0 <= i < |rows| ensures !Equals(rows[i], r) { assert Differ(v[i], r); }
    StaysAdded(c, rows, r);
  }

  lemma RowsAreThere(c: Services, v: seq<Registry>, clock: nat -> nat)
    requires Inv(c)
    ensures AllThere(AddedAll(c, FileRows(v, clock, 0)), v, clock)
    ensures AllElseStays(c, AddedAll(c, FileRows(v, clock, 0)), v)
  {
    var d := AddedAll(c, FileRows(v, clock, 0));
    hide AddedAll, FileRows, Inv, HasStamped, LastOfKind, NoneEquals;
    forall k: nat | LastOfKind(v, k) ensures HasStamped(d, v[k], clock(k)) { RowIsThere(c, v, clock, k); }
    forall n, r | n in c && r in c[n] && NoneEquals(v, r) ensures n in d && r in d[n] {
      RecordStays(c, v, clock, n, r);
    }
  }

  /** The names of the cache, each once. */
  ghost predicate Enumerates(names: seq<seq<byte>>, c: Services) {
    NoDuplicates(names) && forall n :: n in names <==> n in c
  }

  lemma {:induction false} FlatNext(c: Services, names: seq<seq<byte>>, name: seq<byte>)
    requires name in c && forall n | n in names :: n in c
    ensures Flat(c, names + [name]) == Flat(c, names) + c[name]
  {
    if names == [] {
      assert Flat(c, [name]) == c[name] + [];
    } else {
      FlatNext(c, names[1..], name);
      assert (names + [name])[1..] == names[1..] + [name];
      assert (names + [name])[0] == names[0];
    }
  }

  function Weights(v: seq<Registry>, weight: Registry -> int): (w: seq<int>)
    ensures |w| == |v| && forall i | 0 <= i < |v| :: w[i] == weight(v[i])
  {
    seq(|v|, i requires 0 <= i < |v| => weight(v[i]))
  }

  /** The text of all records, taken name by name. */
  ghost function SavedText(c: Services, names: seq<seq<byte>>, weight: Registry -> int): seq<byte>
    requires Enumerates(names, c)
  {
    RecordsTo([LBRACKET], Flat(c, names), Weights(Flat(c, names), weight), true)
  }

  lemma AddedToNone(r: Registry)
    ensures Without([], r) == [] && [] + [r] == [r]
  {}

  class RegistryCache {
    var cache: Services

    ghost predicate Valid()
      reads this
    {
      Inv(cache)
    }

    constructor ()
      ensures Valid() && cache == map[]
    {
      cache := map[];
    }

    /** Puts a complete record last in its vector, in place of one equal to it. */
    method Add(reg: Registry)
      requires Valid()
      modifies this
      ensures Valid() && cache == Added(old(cache), reg)
      ensures reg.name == [] || reg.host == [] || reg.ephemeral == [] ==> cache == old(cache)
      ensures forall n | n != reg.name ::
        (n in cache <==> n in old(cache)) && (n in cache ==> cache[n] == old(cache)[n])
      ensures reg.name != [] && reg.host != [] && reg.ephemeral != [] ==>
        var v := if reg.name in old(cache) then old(cache)[reg.name] else [];
        && reg.name in cache && (forall i: nat | StandsAt(v, reg, i) :: cache[reg.name] == v[..i] + v[i + 1..] + [reg])
        && ((forall i: nat :: !StandsAt(v, reg, i)) ==> cache[reg.name] == v + [reg])
    {
      AddedKeeps(cache, reg);
      assert Sound(reg.name, RecordsOf(cache, reg.name));
      OnePlace(RecordsOf(cache, reg.name), reg);
      hide StandsAt, Inv, Distinct, Without;
      AddedToNone(reg);
      if reg.name == [] || reg.host == [] || reg.ephemeral == [] { return; }
      if reg.name !in cache {
        cache := cache[reg.name := [reg]];
      } else {
        var v := EraseEqual(cache[reg.name], reg);
        cache := cache[reg.name := v + [reg]];
      }
    }

    /** Erases the first record equal to reg. */
    static method EraseEqual(v: seq<Registry>, reg: Registry) returns (r: seq<Registry>)
      ensures r == Without(v, reg)
    {
      r := v;
      var i := 0;
      assert v[0..] == v;
      while i < |r|
        invariant i <= |r| && r == v && v[..i] + Without(v[i..], reg) == Without(v, reg)
      {
        assert v[i..][1..] == v[i + 1..];
        if Equals(r[i], reg) {
          r := r[..i] + r[i + 1..];
          return;
        }
        assert v[..i] + ([v[i]] + Without(v[i + 1..], reg)) == v[..i + 1] + Without(v[i + 1..], reg);
        i := i + 1;
      }
      assert v[..i] + [] == v;
    }

    static method EraseEphemeral(v: seq<Registry>, ephemeral: seq<byte>) returns (r: seq<Registry>)
      ensures r == WithoutEphemeral(v, ephemeral)
    {
      r := v;
      var i := 0;
      assert v[0..] == v;
      while i < |r|
        invariant i <= |r| && r == v && v[..i] + WithoutEphemeral(v[i..], ephemeral) == WithoutEphemeral(v, ephemeral)
      {
        assert v[i..][1..] == v[i + 1..];
        if r[i].ephemeral == ephemeral {
          r := r[..i] + r[i + 1..];
          return;
        }
        assert v[..i] + ([v[i]] + WithoutEphemeral(v[i + 1..], ephemeral))
          == v[..i + 1] + WithoutEphemeral(v[i + 1..], ephemeral);
        i := i + 1;
      }
      assert v[..i] + [] == v;
    }

    /** One instance of a service goes; the service stays, even with no instance left. */
    method RemoveInstance(name: seq<byte>, ephemeral: seq<byte>)
      requires Valid()
      modifies this
      ensures Valid() && cache == RemovedEphemeral(old(cache), name, ephemeral)
      ensures cache.Keys == old(cache).Keys && forall n | n in cache && n != name :: cache[n] == old(cache)[n]
      ensures name == [] || ephemeral == [] ==> cache == old(cache)
      ensures name != [] && ephemeral != [] && name in cache ==>
        && (forall i: nat | IsFirst(old(cache)[name], ephemeral, i) ::
              cache[name] == old(cache)[name][..i] + old(cache)[name][i + 1..])
        && ((forall r | r in old(cache)[name] :: r.ephemeral != ephemeral) ==> cache[name] == old(cache)[name])
    {
      RemovedEphemeralKeeps(cache, name, ephemeral);
      hide IsFirst, WithoutEphemeral, Inv;
      if name == [] || ephemeral == [] { return; }
      if name in cache {
        var v := EraseEphemeral(cache[name], ephemeral);
        cache := cache[name := v];
      }
    }

    /** The record equal to reg goes, and its service with the last one. */
    method Remove(reg: Registry)
      requires Valid()
      modifies this
      ensures Valid() && cache == Removed(old(cache), reg)
      ensures forall n | n != reg.name ::
        (n in cache <==> n in old(cache)) && (n in cache ==> cache[n] == old(cache)[n])
      ensures
        var v := if reg.name in old(cache) then old(cache)[reg.name] else [];
        var w := if reg.name in cache then cache[reg.name] else [];
        && (forall i: nat | StandsAt(v, reg, i) :: w == v[..i] + v[i + 1..])
        && ((forall i: nat :: !StandsAt(v, reg, i)) ==> w == v)
        && (reg.name in cache <==> w != [])
    {
      RemovedKeeps(cache, reg);
      assert Sound(reg.name, RecordsOf(cache, reg.name));
      OnePlace(RecordsOf(cache, reg.name), reg);
      AddedToNone(reg);
      hide StandsAt, Inv, Distinct, Without;
      if reg.name in cache {
        var v := EraseEqual(cache[reg.name], reg);
        cache := cache[reg.name := v];
        if |v| == 0 {
          cache := cache - {reg.name};
          assert cache == old(cache) - {reg.name};
        }
      }
    }

    method RemoveService(name: seq<byte>)
      requires Valid()
      modifies this
      ensures Valid() && cache == old(cache) - {name}
    {
      cache := cache - {name};
    }

    method Clear()
      modifies this
      ensures Valid() && cache == map[]
    {
      cache := map[];
    }

    /** The records that are older than the given time, over all services in any order. */
    method CollectOverdue(timestamp: nat) returns (overdue: seq<Registry>)
      requires Valid()
      ensures forall r :: r in overdue <==> Overdue(cache, timestamp, r)
    {
      overdue := [];
      var left := cache.Keys;
      while left != {}
        invariant left <= cache.Keys
        invariant forall r :: r in overdue <==> Overdue(cache, timestamp, r) && r.name !in left
        decreases |left|
      {
        var name :| name in left;
        var v := cache[name];
        assert Sound(name, v);
        ghost var before := overdue;
        for i := 0 to |v|
          invariant forall r :: r in overdue <==> r in before || (r in v[..i] && r.mtime < timestamp)
        {
          assert v[..i + 1] == v[..i] + [v[i]];
          if v[i].mtime < timestamp { overdue := overdue + [v[i]]; }
        }
        assert v[..|v|] == v;
        left := left - {name};
      }
    }

    /** Removes every record older than the given time: the others stay in their old order, and a
        service that loses its last record is dropped. */
    method RemoveOverdue(timestamp: nat)
      requires Valid()
      modifies this
      ensures Valid() && cache == Pruned(old(cache), timestamp)
      ensures forall n :: n in cache <==>
        n in old(cache) && (old(cache)[n] == [] || exists r :: r in old(cache)[n] && r.mtime >= timestamp)
      ensures forall n | n in cache ::
        && (forall r :: r in cache[n] <==> r in old(cache)[n] && r.mtime >= timestamp)
        && KeepsOrder(cache[n], old(cache)[n])
    {
      var overdue := CollectOverdue(timestamp);
      OverdueAreRemoved(cache, timestamp, overdue);
      PrunedIs(cache, timestamp);
      hide Pruned, KeepsOrder, Inv;
      for i := 0 to |overdue|
        invariant Valid() && cache == RemovedAll(old(cache), overdue[..i])
      {
        assert overdue[..i + 1][..i] == overdue[..i];
        Remove(overdue[i]);
      }
      assert overdue[..|overdue|] == overdue;
    }

    /** Every record, service by service in any order. */
    method Collect() returns (v: seq<Registry>, ghost names: seq<seq<byte>>)
      ensures Enumerates(names, cache) && v == Flat(cache, names)
    {
      v, names := [], [];
      var left := cache.Keys;
      while left != {}
        invariant left <= cache.Keys && NoDuplicates(names)
        invariant forall n :: n in names <==> n in cache && n !in left
        invariant v == Flat(cache, names)
        decreases |left|
      {
        var name :| name in left;
        OneMore(names, name);
        FlatNext(cache, names, name);
        v := v + cache[name];
        names := names + [name];
        left := left - {name};
      }
    }

    /** The text that save writes to its file. */
    method Save(weight: Registry -> int) returns (json: seq<byte>)
      ensures exists names | Enumerates(names, cache) ::
        && json == SavedText(cache, names, weight)
        && json == RecordsTo([0x5B], Flat(cache, names), Weights(Flat(cache, names), weight), true)
    {
      var v;
      ghost var names;
      v, names := Collect();
      json := Serialize(v, Weights(v, weight));
    }

    /** Adds the records of a file's content; false stands for a failed assertion. The clock is read by
        the loader first (`clock`), then once for each record (`later`). */
    method FromFile(content: seq<byte>, huge: Rounding, atol: seq<byte> -> int, clock: nat -> nat, later: nat -> nat)
        returns (ok: bool)
      requires Valid()
      modifies this
      ensures Valid() && ok == Loaded(huge, atol, content, clock).Some?
      ensures ok ==> cache == AddedAll(old(cache), FileRows(Loaded(huge, atol, content, clock).value, later, 0))
      ensures ok ==> var v := Loaded(huge, atol, content, clock).value;
        OnlyAdds(old(cache), cache, v, later) && AllThere(cache, v, later) && AllElseStays(old(cache), cache, v)
      ensures !ok ==> cache == old(cache)
    {
      hide Loaded, Added;
      var loaded := Unserialize(content, huge, atol, clock);
      if loaded.None? { return false; }
      var v := loaded.value;
      RowsOnlyAdd(cache, v, later);
      RowsAreThere(cache, v, later);
      hide OnlyAdds, AllThere, AllElseStays;
      ghost var rows := FileRows(v, later, 0);
      assert rows[0..] == rows;
      for i := 0 to |v|
        invariant Valid() && AddedAll(cache, rows[i..]) == AddedAll(old(cache), rows)
      {
        assert rows[i..][1..] == rows[i + 1..];
        Add(v[i].(ephemeral := FROM_FILE, mtime := later(i), ctime := later(i)));
      }
      ok := true;
    }
  }

  /** What matters of a record comes back; its times do not. */
  predicate SameRecords(v: seq<Registry>, w: seq<Registry>) {
    |v| == |w| && forall i | 0 <= i < |v| :: Equals(v[i], w[i]) && v[i].ephemeral == FROM_FILE
  }

  /** d is c after a reload: every service that had an instance, with the same names, hosts and ports in
      the same order, marked as from a file. */
  ghost predicate ComesBack(d: Services, c: Services) {
    && (forall n :: n in d <==> n in c && c[n] != [])
    && (forall n | n in d :: SameRecords(d[n], c[n]))
  }

  lemma RowsAreSame(name: seq<byte>, v: seq<Registry>, clock: nat -> nat, k: nat)
    requires Sound(name, v)
    ensures Sound(name, FileRows(v, clock, k)) && SameRecords(FileRows(v, clock, k), v)
  {}

  /** The services of a file that holds those of c in this order, the k-th record coming first. */
  function InOrder(c: Services, names: seq<seq<byte>>, clock: nat -> nat, k: nat): Services
    requires forall n | n in names :: n in c
  {
    if names == [] then map[]
    else
      var rest := InOrder(c, names[1..], clock, k + |c[names[0]]|);
      if c[names[0]] == [] then rest else rest[names[0] := FileRows(c[names[0]], clock, k)]
  }

  lemma {:induction false} InOrderIsSame(c: Services, names: seq<seq<byte>>, clock: nat -> nat, k: nat)
    requires Inv(c) && forall n | n in names :: n in c
    ensures forall n :: n in InOrder(c, names, clock, k) <==> n in names && c[n] != []
    ensures forall n | n in InOrder(c, names, clock, k) :: SameRecords(InOrder(c, names, clock, k)[n], c[n])
  {
    hide Sound, SameRecords, FileRows;
    if names != [] {
      InOrderIsSame(c, names[1..], clock, k + |c[names[0]]|);
      RowsAreSame(names[0], c[names[0]], clock, k);
      assert forall n :: n in names <==> n == names[0] || n in names[1..];
    }
  }

  lemma UpdateFirst(a: Services, b: Services, n: seq<byte>, v: seq<Registry>)
    requires n !in b
    ensures a[n := v] + b == a + b[n := v]
  {}

  lemma RowsSplit(v: seq<Registry>, w: seq<Registry>, clock: nat -> nat, k: nat)
    ensures FileRows(v + w, clock, k) == FileRows(v, clock, k) + FileRows(w, clock, k + |v|)
  {}

  /** The records of one service are added to a cache that does not have it. */
  lemma LoadsService(c: Services, n: seq<byte>, acc: Services, clock: nat -> nat, k: nat)
    requires Inv(c) && n in c && n !in acc
    ensures AddedAll(acc, FileRows(c[n], clock, k)) == if c[n] == [] then acc else acc[n := FileRows(c[n], clock, k)]
  {
    var v := FileRows(c[n], clock, k);
    assert Sound(n, c[n]) && |v| == |c[n]|;
    hide FileRows, Sound, AddedAll, Inv, SameRecords;
    RowsAreSame(n, c[n], clock, k);
    assert [] + v == v;
    AddsVector(acc, n, [], v);
  }

  lemma InOrderNext(c: Services, names: seq<seq<byte>>, acc: Services, clock: nat -> nat, k: nat)
    requires Inv(c) && names != [] && NoDuplicates(names) && forall n | n in names :: n in c && n !in acc
    ensures var (n, rest) := (names[0], names[1..]);
      var (rows, later) := (FileRows(c[n], clock, k), InOrder(c, rest, clock, k + |c[n]|));
      && NoDuplicates(rest) && (forall m | m in rest :: m in c && m !in acc && m != n)
      && Flat(c, names) == c[n] + Flat(c, rest)
      && acc + InOrder(c, names, clock, k) == if c[n] == [] then acc + later else acc[n := rows] + later
  {
    var (n, rest) := (names[0], names[1..]);
    var (rows, later) := (FileRows(c[n], clock, k), InOrder(c, rest, clock, k + |c[n]|));
    hide Inv, SameRecords, FileRows;
    InOrderIsSame(c, rest, clock, k + |c[n]|);
    UpdateFirst(acc, later, n, rows);
  }

  lemma LoadsNothing(c: Services, acc: Services, clock: nat -> nat, k: nat)
    ensures AddedAll(acc, FileRows(Flat(c, []), clock, k)) == acc + InOrder(c, [], clock, k)
  {
    assert FileRows(Flat(c, []), clock, k) == [];
    assert acc + InOrder(c, [], clock, k) == acc;
  }

  lemma {:induction false} LoadsFlat(c: Services, names: seq<seq<byte>>, acc: Services, clock: nat -> nat, k: nat)
    requires Inv(c) && NoDuplicates(names) && forall n | n in names :: n in c && n !in acc
    ensures AddedAll(acc, FileRows(Flat(c, names), clock, k)) == acc + InOrder(c, names, clock, k)
    decreases |names|
  {
    hide *;
    if names == [] {
      LoadsNothing(c, acc, clock, k);
    } else {
      var (n, rest, next) := (names[0], names[1..], k + |c[names[0]]|);
      var (v, w) := (FileRows(c[n], clock, k), FileRows(Flat(c, rest), clock, next));
      InOrderNext(c, names, acc, clock, k);
      RowsSplit(c[n], Flat(c, rest), clock, k);
      AddsInTwoParts(acc, v, w);
      LoadsService(c, n, acc, clock, k);
      LoadsFlat(c, rest, AddedAll(acc, v), clock, next);
      assert FileRows(Flat(c, names), clock, k) == v + w;
      assert AddedAll(acc, v) + InOrder(c, rest, clock, next) == acc + InOrder(c, names, clock, k);
    }
  }

  /** No name or host of the cache needs an escape. */
  ghost predicate AllClean(c: Services) {
    forall n, r | n in c && r in c[n] :: Clean(r.name) && Clean(r.host)
  }

  ghost predicate AllFit(c: Services) { forall n, r | n in c && r in c[n] :: Fits32(r.port) }

  /** Saving a cache and loading the file into an empty one: every service that has an instance comes
      back, with the same names, hosts and ports in the same order, exactly when no name or host needs an
      escape; whatever the order of the services in the file, whatever the weights and the times. */
  lemma SavedCacheLoads(c: Services, names: seq<seq<byte>>, weight: Registry -> int, huge: Rounding,
    atol: seq<byte> -> int, clock: nat -> nat, later: nat -> nat)
    requires Inv(c) && Enumerates(names, c) && AllFit(c) && forall r :: Fits32(weight(r))
    ensures var loaded := Loaded(huge, atol, SavedText(c, names, weight), clock);
      loaded.Some? && ComesBack(AddedAll(map[], FileRows(loaded.value, later, 0)), c) <==> AllClean(c)
  {
    var (v, loaded) := (Flat(c, names), Loaded(huge, atol, SavedText(c, names, weight), clock));
    hide Loaded, ComesBack, FileRows, AddedAll, AllClean, Inv, AllFit, Fits32, SavedText;
    if AllClean(c) {
      CleanCacheLoads(c, names, weight, huge, atol, clock, later);
    } else if loaded.Some? && ComesBack(AddedAll(map[], FileRows(loaded.value, later, 0)), c) {
      CacheIsClean(c, names, weight, huge, atol, clock, later);
    }
  }

  lemma CleanCacheLoads(c: Services, names: seq<seq<byte>>, weight: Registry -> int, huge: Rounding,
    atol: seq<byte> -> int, clock: nat -> nat, later: nat -> nat)
    requires Inv(c) && Enumerates(names, c) && AllFit(c) && AllClean(c) && forall r :: Fits32(weight(r))
    ensures var loaded := Loaded(huge, atol, SavedText(c, names, weight), clock);
      loaded.Some? && ComesBack(AddedAll(map[], FileRows(loaded.value, later, 0)), c)
  {
    var v := Flat(c, names);
    assert FileRows(AllReloaded(v, clock, 0), later, 0) == FileRows(v, later, 0);
    InOrderComesBack(c, names, later);
    hide Clean, Fits32, Loaded, RecordsTo, Inv, FileRows, AddedAll, Flat, AllReloaded, InOrder, ComesBack, Weights;
    FlatIsClean(c, names, v, weight);
    SavedRecordsLoad(huge, v, Weights(v, weight), atol, clock);
    LoadsFlat(c, names, map[], later, 0);
  }

  lemma CacheIsClean(c: Services, names: seq<seq<byte>>, weight: Registry -> int, huge: Rounding,
    atol: seq<byte> -> int, clock: nat -> nat, later: nat -> nat)
    requires Enumerates(names, c)
    requires var loaded := Loaded(huge, atol, SavedText(c, names, weight), clock);
      loaded.Some? && ComesBack(AddedAll(map[], FileRows(loaded.value, later, 0)), c)
    ensures AllClean(c)
  {
    hide Loaded, ComesBack, FileRows, AddedAll, Clean, RecordsTo, Flat;
    var v := Flat(c, names);
    var rows := Loaded(huge, atol, SavedText(c, names, weight), clock).value;
    FlatFrom(c, names);
    assert Among(v, rows) by {
      forall i | 0 <= i < |v| ensures HasEqual(rows, v[i]) {
        assert v[i] in v;
        var n :| n in c && v[i] in c[n];
        IsLoaded(c, rows, later, n, v[i]);
      }
    }
    AllAreClean(huge, v, Weights(v, weight), atol, clock);
    forall n, r | n in c && r in c[n] ensures Clean(r.name) && Clean(r.host) {
      FlatHas(c, names, n, r);
    }
  }

  /** A record that is back in the cache was in the file. */
  lemma IsLoaded(c: Services, rows: seq<Registry>, later: nat -> nat, n: seq<byte>, r: Registry)
    requires ComesBack(AddedAll(map[], FileRows(rows, later, 0)), c) && n in c && r in c[n]
    ensures HasEqual(rows, r)
  {
    hide AddedAll, FileRows;
    var d := AddedAll(map[], FileRows(rows, later, 0));
    var i :| 0 <= i < |c[n]| && c[n][i] == r;
    assert n in d && SameRecords(d[n], c[n]);
    AddedFrom(map[], FileRows(rows, later, 0), n, d[n][i]);
    var k :| 0 <= k < |rows| && FileRows(rows, later, 0)[k] == d[n][i];
    assert Equals(rows[k], r);
  }

  lemma {:induction false} AddedFrom(c: Services, rs: seq<Registry>, n: seq<byte>, r: Registry)
    requires n in AddedAll(c, rs) && r in AddedAll(c, rs)[n]
    ensures r in rs || (n in c && r in c[n])
    decreases |rs|
  {
    if rs != [] {
      AddedFrom(Added(c, rs[0]), rs[1..], n, r);
      WithoutIsPart(RecordsOf(c, rs[0].name), rs[0]);
    }
  }

  lemma {:induction false} WithoutIsPart(v: seq<Registry>, r: Registry)
    ensures forall x | x in Without(v, r) :: x in v
  {
    if v != [] { WithoutIsPart(v[1..], r); }
  }

  lemma {:induction false} FlatHas(c: Services, names: seq<seq<byte>>, n: seq<byte>, r: Registry)
    requires (forall m | m in names :: m in c) && n in names && r in c[n]
    ensures r in Flat(c, names)
  {
    if names[0] != n { FlatHas(c, names[1..], n, r); }
  }

  lemma InOrderComesBack(c: Services, names: seq<seq<byte>>, clock: nat -> nat)
    requires Inv(c) && Enumerates(names, c)
    ensures ComesBack(map[] + InOrder(c, names, clock, 0), c)
  {
    InOrderIsSame(c, names, clock, 0);
    assert map[] + InOrder(c, names, clock, 0) == InOrder(c, names, clock, 0);
  }

  lemma FlatIsClean(c: Services, names: seq<seq<byte>>, v: seq<Registry>, weight: Registry -> int)
    requires (forall n | n in names :: n in c) && v == Flat(c, names)
    requires AllClean(c) && AllFit(c) && forall r :: Fits32(weight(r))
    ensures forall i | 0 <= i < |v| :: Fits32(v[i].port) && Fits32(Weights(v, weight)[i])
    ensures forall i | 0 <= i < |v| :: Clean(v[i].name) && Clean(v[i].host)
  {
    FlatFrom(c, names);
    hide Clean, Fits32, Flat;
    forall i | 0 <= i < |v|
      ensures Clean(v[i].name) && Clean(v[i].host) && Fits32(v[i].port) && Fits32(Weights(v, weight)[i])
    {
      assert v[i] in v;
      assert Weights(v, weight)[i] == weight(v[i]);
    }
  }

  lemma {:induction false} FlatFrom(c: Services, names: seq<seq<byte>>)
    requires forall n | n in names :: n in c
    ensures forall r | r in Flat(c, names) :: exists n | n in c :: r in c[n]
  {
    if names != [] {
      FlatFrom(c, names[1..]);
      forall r | r in Flat(c, names) ensures exists n | n in c :: r in c[n] {
        assert r in c[names[0]] || r in Flat(c, names[1..]);
      }
    }
  }

  /** Save a cache and load the text into a fresh one; ok is false after a failed assertion. */
  method SaveAndReload(c: RegistryCache, weight: Registry -> int, huge: Rounding, atol: seq<byte> -> int,
    clock: nat -> nat, later: nat -> nat)
    returns (d: RegistryCache, ok: bool)
    requires c.Valid() && AllFit(c.cache) && forall r :: Fits32(weight(r))
    ensures fresh(d) && d.Valid()
    ensures ok && ComesBack(d.cache, c.cache) <==> AllClean(c.cache)
  {
    hide SavedText, AllClean, AllFit, Fits32, ComesBack, Loaded, FileRows, AddedAll;
    var json := c.Save(weight);
    ghost var names :| Enumerates(names, c.cache) && json == SavedText(c.cache, names, weight);
    SavedCacheLoads(c.cache, names, weight, huge, atol, clock, later);
    d := new RegistryCache();
    ok := d.FromFile(json, huge, atol, clock, later);
  }
}
