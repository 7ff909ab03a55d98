/** The pool of clients of core/ClientPool.cpp: which are in use, idle, or waiting to be destroyed. */
module ClientPools {
  import opened Sequences
  import opened StateBags
  import opened Clients

  const EVENT_TYPE_CLOSING := 2

  class ClientPool {
    const maxClient: nat
    const usedTimeout: nat
    const bag: StateBag
    var using: set<Client>
    var idle: set<Client>
    var toDestroy: seq<Client>
    var lastId: nat

    /** A client in use is counted once, an idle one not at all. */
    ghost predicate Valid()
      reads this, bag, using`usingCounter, idle`usingCounter
    {
      ValidBut(null)
    }

    /** The same while a client in use is closing: its own counter is down already. */
    ghost predicate ValidBut(closing: Client?)
      reads this, bag, using`usingCounter, idle`usingCounter
    {
      && Arranged(using, idle, toDestroy, bag.states, lastId, maxClient)
      && (forall c | c in using :: c.usingCounter == if c == closing then 0 else 1)
      && (forall c | c in idle :: c.usingCounter == 0)
    }

    /** The same while an idle client is taken into use: its own counter is up already. */
    ghost predicate ValidWith(taken: Client)
      reads this, bag, using`usingCounter, idle`usingCounter
    {
      && Arranged(using, idle, toDestroy, bag.states, lastId, maxClient)
      && (forall c | c in using :: c.usingCounter == 1)
      && (forall c | c in idle :: c.usingCounter == if c == taken then 1 else 0)
    }

    /** Of those that wait to be destroyed, the ones from m on are not counted as in use. */
    ghost predicate QueuedOut(m: nat)
      reads `toDestroy, toDestroy`usingCounter
    {
      m <= |toDestroy| && forall i | m <= i < |toDestroy| :: toDestroy[i].usingCounter == 0
    }

    function Size(): nat
      reads this
    {
      |using| + |idle|
    }

    constructor (maxClient: nat, usedTimeout: nat)
      ensures Valid() && this.maxClient == maxClient && this.usedTimeout == usedTimeout && fresh(bag)
      ensures using == {} && idle == {} && toDestroy == [] && lastId == 0 && bag.states == map[]
    {
      this.maxClient, this.usedTimeout := maxClient, usedTimeout;
      using, idle, toDestroy, lastId := {}, {}, [], 0;
      bag := new StateBag();
    }

    /** Deletes the clients that wait for it: all of them, or those not in use any more. */
    method DestroyClients(force: bool)
      requires Valid()
      modifies `toDestroy
      ensures Valid() && toDestroy == if force then [] else Busy(old(toDestroy))
      ensures forall c | c in toDestroy :: !force && c in old(toDestroy) && c.usingCounter >= 1
      ensures !force ==> forall c | c in old(toDestroy) && c.usingCounter >= 1 :: c in toDestroy
      ensures KeepsOrder(toDestroy, old(toDestroy))
    {
      BusyIs(toDestroy);
      NoneToOrder(toDestroy);
      hide Busy, KeepsOrder;
      BusyIsPart(toDestroy);
      ghost var left := if force then [] else Busy(toDestroy);
      FewerToDestroy(using, idle, toDestroy, bag.states, lastId, maxClient, left);
      hide Arranged;
      Sweep(force);
    }

    method Sweep(force: bool)
      modifies `toDestroy
      ensures toDestroy == if force then [] else Busy(old(toDestroy))
    {
      ghost var was := toDestroy;
      var i := 0;
      while i < |toDestroy|
        invariant 0 <= i <= |toDestroy| <= |was|
        invariant if force then i == 0 else toDestroy[..i] + Busy(toDestroy[i..]) == Busy(was)
        decreases |toDestroy| - i
      {
        hide Busy;
        BusyNext(toDestroy, i);
        if force || toDestroy[i].usingCounter < 1 {
          ghost var before := toDestroy;
          toDestroy := toDestroy[..i] + toDestroy[i + 1..];
          assert toDestroy[i..] == before[i + 1..] && toDestroy[..i] == before[..i];
        } else {
          i := i + 1;
        }
      }
      assert toDestroy[..i] + [] == toDestroy;
    }

    /** An idle client that lost its connection: its states belong to nobody now. */
    method RetireIdle(c: Client, ghost m: nat)
      requires Valid() && c in idle && QueuedOut(m)
      modifies `idle, `toDestroy, bag
      ensures QueuedOut(m)
      ensures Valid() && idle == old(idle) - {c} && toDestroy == old(toDestroy) + [c]
      ensures bag.states == Reassigned(old(bag.states), {c.id}, 0)
    {
      hide Arranged, Reassigned, ChangedHands;
      IdleToDestroy(using, idle, toDestroy, bag.states, lastId, maxClient, c);
      idle := idle - {c};
      toDestroy := toDestroy + [c];
      bag.ReplaceClientId(c.id, 0);
    }

    /** A client in use that is taken away from its user. */
    method RetireUsing(c: Client, ghost m: nat)
      requires Valid() && c in using && QueuedOut(m)
      modifies `using, `toDestroy, bag, c`usingCounter, c`useTimes
      ensures QueuedOut(m)
      ensures Valid() && using == old(using) - {c} && toDestroy == old(toDestroy) + [c] && idle == old(idle)
      ensures c.usingCounter == 0 && bag.states == Reassigned(old(bag.states), {c.id}, 0)
    {
      SizeIsBounded();
      hide Arranged, Reassigned, ChangedHands;
      c.SetInUsing(false);
      assert ValidBut(c) && QueuedOut(m);
      hide *;
      Discard(c, m);
    }

    /** A client that is counted out leaves those in use. */
    method Discard(c: Client, ghost m: nat)
      requires ValidBut(c) && c in using && c.usingCounter == 0 && QueuedOut(m)
      modifies `using, `toDestroy, bag
      ensures QueuedOut(m)
      ensures Valid() && using == old(using) - {c} && toDestroy == old(toDestroy) + [c] && idle == old(idle)
      ensures c.usingCounter == 0 && bag.states == Reassigned(old(bag.states), {c.id}, 0)
    {
      hide Arranged, Reassigned, ChangedHands;
      UsingToDestroy(using, idle, toDestroy, bag.states, lastId, maxClient, c);
      using := using - {c};
      toDestroy := toDestroy + [c];
      bag.ReplaceClientId(c.id, 0);
    }

    /** The event a closing client raises. */
    method OnClientClosing(client: Client?, event: int)
      modifies `using, `idle, `toDestroy, bag
      ensures client == null || event != EVENT_TYPE_CLOSING ==>
        using == old(using) && idle == old(idle) && toDestroy == old(toDestroy) && bag.states == old(bag.states)
      ensures client != null && event == EVENT_TYPE_CLOSING ==> Left(client)
      ensures client != null && event == EVENT_TYPE_CLOSING ==>
        Rehomed(bag.states, old(bag.states), if client.connected then [] else [client], null)
    {
      if client == null { return; }
      WatchesOf(bag.states, client);
      hide Rehomed, Reassigned, ChangedHands;
      if event == EVENT_TYPE_CLOSING {
        using := using - {client};
        if client.connected {
          idle := idle + {client};
        } else {
          toDestroy := toDestroy + [client];
          bag.ReplaceClientId(client.id, 0);
        }
      }
    }

    /** The client is not in use now: idle if connected, else waiting to be destroyed and owning nothing. */
    twostate predicate Left(client: Client)
      reads this, bag, client`connected
    {
      && using == old(using) - {client}
      && (client.connected ==>
            idle == old(idle) + {client} && toDestroy == old(toDestroy) && bag.states == old(bag.states))
      && (!client.connected ==>
            idle == old(idle) && toDestroy == old(toDestroy) + [client]
            && bag.states == Reassigned(old(bag.states), {client.id}, 0))
    }

    /** A client of the pool is closed. The pool stays sound exactly when the client was in use: one that
        was evicted before, or is idle, ends up in two places or with a wrong count. */
    method Close(client: Client)
      requires Valid() && (client in using || client in idle || client in toDestroy)
      modifies `using, `idle, `toDestroy, bag, client`usingCounter, client`useTimes
      ensures Left(client) && client.usingCounter == old(client.usingCounter) - 1
      ensures Rehomed(bag.states, old(bag.states), if client.connected then [] else [client], null)
      ensures Valid() <==> old(client in using)
    {
      hide Arranged, Reassigned, Rehomed, Valid, ValidBut;
      client.SetInUsing(false);
      OnClientClosing(client, EVENT_TYPE_CLOSING);
      SoundExactlyIfInUse(client);
    }

    twostate lemma SoundExactlyIfInUse(client: Client)
      requires old(Valid()) && Left(client) && client.usingCounter == old(client.usingCounter) - 1
      requires old(client in using || client in idle || client in toDestroy)
      requires lastId == old(lastId) && client.connected == old(client.connected)
      requires forall c | c in old(using) + old(idle) && c != client :: c.usingCounter == old(c.usingCounter)
      ensures Valid() <==> old(client in using)
    {
      ghost var (u, i, q, states) := (old(using), old(idle), old(toDestroy), old(bag.states));
      hide Reassigned;
      if client in u {
        UsingToIdle(u, i, q, states, lastId, maxClient, client);
        UsingToDestroy(u, i, q, states, lastId, maxClient, client);
        hide Arranged;
        assert Valid();
      } else if client in q {
        QueuedAlready(using, idle, q, bag.states, lastId, maxClient, client);
        hide Arranged;
        assert !Valid();
      } else {
        assert client.usingCounter == -1 && client in idle;
      }
    }

    // --- open ---

    /** When each of the clients was last used, and whether it is connected. */
    ghost function Uses(clients: set<Client>): map<Client, (nat, bool)>
      reads clients`lastUse, clients`connected
    {
      map d | d in clients :: (d.lastUse, d.connected)
    }

    /** The clients in `order` are the idle ones, as the walk from begin() meets them. */
    ghost predicate Walks(order: seq<Client>)
      reads `idle
    {
      NoDuplicates(order) && Elements(order) == idle
    }

    /** Drops idle clients until one is connected. */
    method FirstConnected(order: seq<Client>, ghost m: nat) returns (c: Client?, ghost n: nat)
      requires Valid() && Walks(order) && QueuedOut(m)
      modifies `idle, `toDestroy, bag
      ensures Valid() && n == old(Lost(order)) && QueuedOut(m)
      ensures if n < |order| then c == order[n] && c.connected && c in idle else c == null
      ensures idle == Elements(order[n..]) <= old(idle) && |idle| == |order| - n && using == old(using)
      ensures toDestroy == old(toDestroy) + order[..n] && bag.states == Freed(old(bag.states), order[..n])
      ensures forall d | d in old(using) + Elements(order) :: d.lastUse == old(d.lastUse)
    {
      hide Valid, ValidBut, Arranged, Lost, NoDuplicates, Elements, Reassigned, Freed, QueuedOut;
      n := Lost(order);
      var i := 0;
      FreedBoth(bag.states, [], []);
      assert order[0..] == order && toDestroy + order[..0] == toDestroy;
      ElementsCount(order);
      while |idle| > 0
        invariant Valid() && i <= n && NoDuplicates(order[i..]) && QueuedOut(m)
        invariant idle == Elements(order[i..]) <= old(idle) && |idle| == |order| - i
        invariant toDestroy == old(toDestroy) + order[..i] && bag.states == Freed(old(bag.states), order[..i])
        decreases |order| - i
      {
        c := order[i];
        FirstAndRest(order[i..]);
        assert order[i..][0] == c && order[i..][1..] == order[i + 1..];
        if c.connected { return; }
        assert order[..i] + [c] == order[..i + 1];
        FreedNext(old(bag.states), order[..i], c);
        RetireIdle(c, m);
        i := i + 1;
      }
      c := null;
    }

    /** Takes the first connected idle client into use; those before it have lost their connection. */
    method Reuse(order: seq<Client>, ghost now: nat, ghost others: set<Client>, ghost m: nat)
        returns (c: Client?, ghost n: nat)
      requires Valid() && Walks(order) && QueuedOut(m)
      modifies `using, `idle, `toDestroy, bag, idle`usingCounter, idle`useTimes
      ensures Valid() && n == old(Lost(order))
      ensures if n < |order| then c == order[n] && c.connected else c == null
      ensures using == old(using) + Nth(order, n)
      ensures idle == Elements(order[n..]) - Nth(order, n)
      ensures Size() == |old(using)| + |order| - n
      ensures toDestroy == old(toDestroy) + order[..n] && bag.states == Freed(old(bag.states), order[..n])
      ensures Uses(others) == old(Uses(others)) && QueuedOut(m)
      ensures Late(using, now, usedTimeout) == old(Late(using + Nth(order, Lost(order)), now, usedTimeout))
    {
      hide Valid, ValidBut, Arranged, Lost, NoDuplicates, Elements, Freed, Uses, QueuedOut;
      NthOf(order, Lost(order));
      hide Nth;
      c, n := FirstConnected(order, m);
      if c != null {
        MoveToUsing(c, m);
      }
    }

    method MoveToUsing(c: Client, ghost m: nat)
      requires Valid() && c in idle && QueuedOut(m)
      modifies `using, `idle, c`usingCounter, c`useTimes
      ensures QueuedOut(m)
      ensures Valid() && using == old(using) + {c} && idle == old(idle) - {c} && c !in old(using)
      ensures Size() == old(Size()) && toDestroy == old(toDestroy) && bag.states == old(bag.states)
      ensures forall d | d in old(using) + {c} :: d.lastUse == old(d.lastUse)
    {
      hide *;
      CountUp(c, m);
      Exchange(c, m);
    }

    method CountUp(c: Client, ghost m: nat)
      requires Valid() && c in idle && QueuedOut(m)
      modifies c`usingCounter, c`useTimes
      ensures ValidWith(c) && QueuedOut(m)
    {
      NotQueued(c);
      hide Arranged;
      c.SetInUsing(true);
    }

    /** An idle client that is counted already changes places. */
    method Exchange(c: Client, ghost m: nat)
      requires ValidWith(c) && c in idle && QueuedOut(m)
      modifies `using, `idle
      ensures Valid() && using == old(using) + {c} && idle == old(idle) - {c} && c !in old(using)
      ensures Size() == old(Size()) && QueuedOut(m) && toDestroy == old(toDestroy)
    {
      hide Arranged;
      IdleToUsing(using, idle, toDestroy, bag.states, lastId, maxClient, c);
      idle := idle - {c};
      using := using + {c};
    }

    lemma NotQueued(c: Client)
      requires Valid() && c in idle
      ensures c !in toDestroy && c !in using
    {}

    /** A new client, in use from the start. */
    method Create(ghost m: nat) returns (c: Client)
      requires Valid() && Size() < maxClient && QueuedOut(m)
      modifies `using, `lastId
      ensures QueuedOut(m)
      ensures Valid() && fresh(c) && using == old(using) + {c} && c.id == lastId == old(lastId) + 1
      ensures !c.connected && c.lastUse == 0
    {
      hide Arranged;
      c := new Client(lastId + 1);
      c.SetInUsing(true);
      Enter(c);
    }

    /** A client that is counted once joins those in use. */
    method Enter(c: Client)
      requires Valid() && Size() < maxClient && c.usingCounter == 1 && c.id == lastId + 1
      requires c !in using && c !in idle && c !in toDestroy
      modifies `using, `lastId
      ensures Valid() && using == old(using) + {c} && lastId == old(lastId) + 1
    {
      hide Arranged;
      NewToUsing(using, idle, toDestroy, bag.states, lastId, maxClient, c);
      lastId := lastId + 1;
      using := using + {c};
    }

    /** A client in use whose time is over, if there is one. */
    method FindTimedOut(now: nat) returns (p: Client?)
      ensures p != null ==> p in using && TimedOut(now, p.lastUse, usedTimeout)
      ensures p == null ==> forall c | c in using :: !TimedOut(now, c.lastUse, usedTimeout)
    {
      var left := using;
      while left != {}
        invariant left <= using
        invariant forall c | c in using - left :: !TimedOut(now, c.lastUse, usedTimeout)
        decreases |left|
      {
        p :| p in left;
        if TimedOut(now, p.lastUse, usedTimeout) { return; }
        left := left - {p};
      }
      p := null;
    }

    /** Takes away every client in use whose time is over; they wait to be destroyed, counted out. */
    method EvictTimedOut(now: nat, ghost m: nat) returns (ghost evicted: seq<Client>)
      requires Valid() && QueuedOut(m)
      modifies `using, `toDestroy, bag, using`usingCounter, using`useTimes
      ensures Valid() && using == old(using - Late(using, now, usedTimeout)) && idle == old(idle)
      ensures toDestroy == old(toDestroy) + evicted && Elements(evicted) == old(Late(using, now, usedTimeout))
      ensures bag.states == Freed(old(bag.states), evicted) && QueuedOut(m)
      ensures Rehomed(bag.states, old(bag.states), evicted, null)
      ensures forall c | c in old(using) :: c in using <==> !TimedOut(now, c.lastUse, usedTimeout)
    {
      hide Valid, ValidBut, Arranged, Reassigned, Freed, QueuedOut, Rehomed;
      evicted := [];
      FreedBoth(bag.states, [], []);
      assert toDestroy + [] == toDestroy;
      var p := FindTimedOut(now);
      while p != null
        invariant Valid() && using <= old(using) && Elements(evicted) == old(using) - using && idle == old(idle)
        invariant QueuedOut(m) && forall c | c in old(using) - using :: TimedOut(now, c.lastUse, usedTimeout)
        invariant toDestroy == old(toDestroy) + evicted && bag.states == Freed(old(bag.states), evicted)
        invariant p != null ==> p in using && TimedOut(now, p.lastUse, usedTimeout)
        invariant p == null ==> forall c | c in using :: !TimedOut(now, c.lastUse, usedTimeout)
        decreases |using|, p != null
      {
        Retired(old(using), using, evicted, p);
        FreedNext(old(bag.states), evicted, p);
        RetireUsing(p, m);
        evicted := evicted + [p];
        p := FindTimedOut(now);
      }
      assert forall c | c in old(using) :: c in using <==> !TimedOut(now, c.lastUse, usedTimeout);
      FreedIs(old(bag.states), evicted, null);
    }

    /** A new owner for all that nobody owns. The watches stay with clients in use or idle exactly when it is
        the id of one, or there is nothing to take. */
    method TakeOver(id: nat)
      requires Valid()
      modifies bag
      ensures bag.states == Reassigned(old(bag.states), {0}, id)
      ensures Valid() <==> id == 0 || id in Ids(using + idle) || AllOwned(old(bag.states))
    {
      TakesOverFine(using, idle, toDestroy, bag.states, lastId, maxClient, id);
      hide Arranged, Ids, Reassigned, AllOwned, ChangedHands;
      bag.ReplaceClientId(0, id);
    }

    /** The connection of a client comes or goes. */
    method SetConnected(c: Client, connected: bool)
      requires Valid()
      modifies c`connected
      ensures Valid() && c.connected == connected
    {
      c.connected := connected;
    }

    /** Opening a client that is not connected: if that succeeds, it takes over what belongs to nobody. The
        watches stay with clients in use or idle exactly when it is one, or there is nothing to take. */
    method Connect(c: Client, connects: bool)
      requires Valid() && !c.connected
      modifies bag, c`connected
      ensures c.connected == connects
      ensures bag.states == if connects then Reassigned(old(bag.states), {0}, c.id) else old(bag.states)
      ensures Rehomed(bag.states, old(bag.states), [], if connects then c else null)
      ensures Valid() <==> !connects || c.id == 0 || c.id in Ids(using + idle) || AllOwned(old(bag.states))
    {
      FreedIs(bag.states, [], if connects then c else null);
      FreedBoth(bag.states, [], []);
      hide *;
      SetConnected(c, connects);
      if connects { TakeOver(c.id); }
    }

    /** The pool stays full after the walk over the idle clients: those in use for too long are given up. */
    ghost predicate Crowded(order: seq<Client>)
      reads `using, order`connected
    {
      |using| + |order| - Lost(order) == maxClient
    }

    /** Those given up by an open at `now`: even the client just taken, since its time of use is set last. */
    ghost function Gone(order: seq<Client>, now: nat): set<Client>
      reads `using, order`connected, order`lastUse, using`lastUse
    {
      if Crowded(order) then Late(using + Nth(order, Lost(order)), now, usedTimeout) else {}
    }

    /** What goes wrong: the pool is full, and the first idle client is connected but was last used too
        long ago. */
    predicate ReusesTooLate(order: seq<Client>, now: nat)
      reads `using, `idle, order`connected, order`lastUse
    {
      |using| + |idle| == maxClient && order != [] && order[0].connected && TimedOut(now, order[0].lastUse, usedTimeout)
    }

    /** The clients that an open does not return. */
    ghost function Others(order: seq<Client>): set<Client>
      reads `using, `idle, order`connected
    {
      using + idle - Nth(order, Lost(order))
    }

    /** The part of open that holds the pool's lock: a client is taken or made, or there is none. */
    method Obtain(order: seq<Client>, now: nat, ghost others: set<Client>, ghost m: nat)
        returns (c: Client?, ghost n: nat, ghost made: set<Client>, ghost evicted: seq<Client>)
      requires Valid() && Walks(order) && QueuedOut(m)
      modifies `using, `idle, `toDestroy, `lastId, bag, using`usingCounter, using`useTimes
      modifies idle`usingCounter, idle`useTimes
      ensures Valid() && n == old(Lost(order))
      ensures fresh(made) && NextId(made, old(lastId), lastId)
      ensures n == |order| && c != null ==> c.lastUse == 0
      ensures n < |order| ==> c == order[n] && made == {}
      ensures c != null ==> c.connected == (made == {})
      ensures n == |order| ==> made == (if |old(using)| < maxClient then {c} else {}) && (c == null <==> made == {})
      ensures using == old(using) + Nth(order, n) + made - Elements(evicted)
      ensures idle == Elements(order[n..]) - Nth(order, n)
      ensures toDestroy == old(toDestroy) + order[..n] + evicted && Elements(evicted) == old(Gone(order, now))
      ensures bag.states == Freed(old(bag.states), order[..n] + evicted)
      ensures Rehomed(bag.states, old(bag.states), order[..n] + evicted, null)
      ensures Uses(others) == old(Uses(others)) && QueuedOut(m)
    {
      ghost var late, gone := BeforeOpen(order, now);
      hide *;
      c, n := Reuse(order, now, others, m);
      assert n == |order| ==> order[n..] == [];
      c, made, evicted := MakeRoom(c, now, others, m);
      FreedBoth(old(bag.states), order[..n], evicted);
      FreedIs(old(bag.states), order[..n] + evicted, null);
    }

    /** The walk and the clients to give up, before anything is changed. */
    lemma BeforeOpen(order: seq<Client>, now: nat) returns (late: set<Client>, gone: set<Client>)
      requires Valid() && Walks(order)
      ensures late == Late(using + Nth(order, Lost(order)), now, usedTimeout)
      ensures gone == Gone(order, now) == if |using| + |order| - Lost(order) == maxClient then late else {}
      ensures |using| + |order| == Size() <= maxClient && Lost(order) <= |order|
      ensures Nth(order, |order|) == {} && Elements([]) == {}
    {
      SizeIsBounded();
      ElementsCount(order);
      late, gone := Late(using + Nth(order, Lost(order)), now, usedTimeout), Gone(order, now);
    }

    /** A new client when there was no idle one and there is room; else room is made in a full pool. */
    method MakeRoom(found: Client?, now: nat, ghost others: set<Client>, ghost m: nat)
        returns (c: Client?, ghost made: set<Client>, ghost evicted: seq<Client>)
      requires Valid() && (found == null ==> idle == {}) && QueuedOut(m)
      modifies `using, `toDestroy, `lastId, bag, using`usingCounter, using`useTimes
      ensures Valid() && toDestroy == old(toDestroy) + evicted && idle == old(idle)
      ensures bag.states == Freed(old(bag.states), evicted) && Uses(others) == old(Uses(others)) && QueuedOut(m)
      ensures fresh(made) && NextId(made, old(lastId), lastId)
      ensures found == null && c != null ==> c.lastUse == 0
      ensures made != {} ==> c != null && !c.connected
      ensures found != null ==> c == found && made == {} && c.connected == old(found.connected)
      ensures found == null ==> made == (if old(Size()) < maxClient then {c} else {}) && (c == null <==> made == {})
      ensures using == old(using) + made - Elements(evicted)
      ensures Elements(evicted) == if old(Size()) == maxClient then old(Late(using, now, usedTimeout)) else {}
    {
      hide *;
      NthOf([], 0);
      NextIdOf(null, lastId);
      FreedBoth(bag.states, [], []);
      c, made, evicted := found, {}, [];
      assert toDestroy + [] == toDestroy;
      if c == null && |idle| == 0 && Size() < maxClient {
        c := Create(m);
        made := {c};
        NextIdOf(c, c.id - 1);
      } else if Size() == maxClient {
        evicted := EvictTimedOut(now, m);
      }
    }

    /** The client that is taken is given up again in exactly one case. */
    lemma MissesExactly(order: seq<Client>, now: nat) returns (gone: set<Client>, missed: bool)
      requires Valid() && Walks(order)
      ensures gone == Gone(order, now) && missed == ReusesTooLate(order, now)
      ensures var n := Lost(order);
        if n < |order| then order[n] in idle && order[n] !in using && (order[n] in gone <==> missed) else !missed
    {
      gone, missed := Gone(order, now), ReusesTooLate(order, now);
      SizeIsBounded();
      ElementsCount(order);
      assert forall d | d in order :: d in Elements(order);
      hide Arranged;
    }

    lemma SizeIsBounded()
      requires Valid()
      ensures using !! idle && Size() <= maxClient
    {}

    /** Destroying those that wait for it changes nothing for an open. */
    method Clean(ghost order: seq<Client>, ghost now: nat, ghost others: set<Client>)
      requires Valid() && Walks(order)
      modifies `toDestroy
      ensures Valid() && Walks(order) && toDestroy == old(Busy(toDestroy))
      ensures using == old(using) && idle == old(idle) && lastId == old(lastId) && Lost(order) == old(Lost(order))
      ensures bag.states == old(bag.states) && Uses(others) == old(Uses(others)) && QueuedOut(|toDestroy|)
      ensures Gone(order, now) == old(Gone(order, now))
    {
      hide Valid, ValidBut, Arranged, Busy;
      DestroyClients(false);
    }

    /** A client for the caller: the first idle one that is connected, or else a new one, or none when all
        are in use. What is returned is in use except in the one case named; every client of the pool is
        accounted for. */
    method Open(order: seq<Client>, now: nat, later: nat, connects: bool)
        returns (c: Client?, ghost n: nat, ghost made: set<Client>, ghost evicted: seq<Client>)
      requires Valid() && Walks(order)
      modifies `using, `idle, `toDestroy, `lastId, bag, using`usingCounter, using`useTimes
      modifies idle`usingCounter, idle`useTimes, idle`lastUse, idle`connected
      ensures Valid() && n == old(Lost(order)) && (c != null ==> c.lastUse == later)
      ensures fresh(made) && (n < |order| ==> c == order[n] && made == {})
      ensures n == |order| ==> made == (if |old(using)| < maxClient then {c} else {}) && (c == null <==> made == {})
      ensures c != null ==> c.connected == (n < |order| || connects)
      ensures NextId(made, old(lastId), lastId)
      ensures c != null && c !in using <==> old(ReusesTooLate(order, now))
      ensures using == old(using) + Nth(order, n) + made - Elements(evicted)
      ensures idle == Elements(order[n..]) - Nth(order, n)
      ensures toDestroy == old(Busy(toDestroy)) + order[..n] + evicted && Elements(evicted) == old(Gone(order, now))
      ensures var left := Freed(old(bag.states), order[..n] + evicted);
        bag.states == if c != null && made != {} && connects then Reassigned(left, {0}, c.id) else left
      ensures Rehomed(bag.states, old(bag.states), order[..n] + evicted, if made != {} && connects then c else null)
      ensures Uses(old(Others(order))) == old(Uses(Others(order))) && QueuedOut(old(|Busy(toDestroy)|))
    {
      ghost var gone, missed := MissesExactly(order, now);
      ghost var others := Others(order);
      assert others == using + idle - Nth(order, Lost(order));
      hide *;
      Clean(order, now, others);
      c, n, made, evicted := Obtain(order, now, others, |toDestroy|);
      NthOf(order, n);
      if c != null { HandOut(c, later, connects, others, old(|Busy(toDestroy)|)); }
      FreedIs(old(bag.states), order[..n] + evicted, if made != {} && connects then c else null);
    }

    /** What open does once the lock is released: the time of use, and the connection. For a client that is
        in use the pool stays sound; for another one it does not exactly when there are watches to take over. */
    method HandOut(c: Client, later: nat, connects: bool, ghost others: set<Client>, ghost m: nat)
      requires Valid() && c !in others
      modifies bag, c`lastUse, c`connected
      ensures c.lastUse == later && c.connected == (old(c.connected) || connects)
      ensures using == old(using) && idle == old(idle) && toDestroy == old(toDestroy) && lastId == old(lastId)
      ensures bag.states ==
        if !old(c.connected) && connects then Reassigned(old(bag.states), {0}, c.id) else old(bag.states)
      ensures Rehomed(bag.states, old(bag.states), [], if !old(c.connected) && connects then c else null)
      ensures Valid() <==>
        old(c.connected) || !connects || c.id == 0 || c.id in Ids(using + idle) || AllOwned(old(bag.states))
      ensures (c in using ==> Valid()) && Uses(others) == old(Uses(others)) && QueuedOut(m) == old(QueuedOut(m))
    {
      assert c in using ==> c.id in Ids(using + idle);
      hide Arranged, Ids, OwnersIn, Reassigned, AllOwned;
      FreedIs(bag.states, [], null);
      FreedBoth(bag.states, [], []);
      hide Rehomed, Freed;
      c.lastUse := later;
      if !c.connected { Connect(c, connects); }
    }

    // --- what clients in use do, and reset ---

    /** A client records a watch. The watches stay with clients in use or idle exactly when it is one. */
    method Watch(c: Client, key: string, payload: string)
      requires Valid()
      modifies bag
      ensures bag.states == old(bag.states)[key :=
        if key in old(bag.states) then old(bag.states)[key].(clientId := c.id) else State(c.id, payload)]
      ensures Valid() <==> c.id == 0 || c.id in Ids(using + idle)
    {
      ghost var (was, ids) := (bag.states, Ids(using + idle));
      ghost var after := was[key := if key in was then was[key].(clientId := c.id) else State(c.id, payload)];
      OwnersAreWhatMatters(using, idle, toDestroy, bag.states, lastId, maxClient, after);
      hide Arranged, Ids;
      bag.Add(key, State(c.id, payload));
      OwnersWith(was, bag.states, key, ids);
    }

    method Unwatch(key: string)
      requires Valid()
      modifies bag
      ensures Valid() && bag.states == old(bag.states) - {key}
    {
      bag.Remove(key);
    }

    /** A watch whose client cannot restore it waits for another one. */
    method Abandon(key: string)
      requires Valid()
      modifies bag
      ensures Valid() && bag.states ==
        if key in old(bag.states) then old(bag.states)[key := old(bag.states)[key].(clientId := 0)]
        else old(bag.states)
    {
      bag.ReplaceOwnerOf(key, 0);
    }

    /** Everything goes: after some turns of waiting for clients still in use, by force. */
    method Reset(turns: nat)
      requires Valid()
      modifies `using, `idle, `toDestroy, bag
      ensures Valid() && using == {} && idle == {} && toDestroy == []
      ensures bag.states == Disowned(old(bag.states)) && SamePayloads(bag.states, old(bag.states))
    {
      DisownedKeeps(bag.states);
      hide SamePayloads, Disowned;
      Surrender();
      var i := 0;
      while i < turns && |toDestroy| > 0
        invariant Valid() && using == {} && idle == {} && bag.states == Disowned(old(bag.states))
      {
        DestroyClients(false);
        i := i + 1;
      }
      DestroyClients(true);
    }

    /** The clients in use or idle leave for destruction, those in use with their counters up. */
    method Surrender()
      requires Valid()
      modifies `using, `idle, `toDestroy, bag
      ensures Valid() && using == {} && idle == {}
      ensures old(toDestroy) <= toDestroy && Elements(toDestroy) == old(Elements(toDestroy) + using + idle)
      ensures bag.states == Disowned(old(bag.states)) && SamePayloads(bag.states, old(bag.states))
    {
      hide NoDuplicates, Elements, Disowned, SamePayloads;
      Empty();
      bag.ResetClientId();
    }

    method Empty()
      requires Valid()
      modifies `using, `idle, `toDestroy
      ensures using == {} && idle == {} && NoDuplicates(toDestroy) && old(toDestroy) <= toDestroy
      ensures Elements(toDestroy) == old(Elements(toDestroy) + using + idle)
    {
      ghost var all := Elements(toDestroy) + using + idle;
      hide Valid, ValidBut, NoDuplicates, Moving, Elements;
      NoneMoved();
      QueueUsing(all);
      assert using + idle == idle;
      QueueIdle(all);
      Moved(toDestroy, all);
    }

    lemma NoneMoved()
      requires Valid()
      ensures using !! idle && Moving(using + idle, toDestroy, Elements(toDestroy) + using + idle)
    {
      hide NoDuplicates;
    }

    method QueueUsing(ghost all: set<Client>)
      requires using !! idle && Moving(using + idle, toDestroy, all)
      modifies `using, `toDestroy
      ensures using == {} && Moving(using + idle, toDestroy, all) && old(toDestroy) <= toDestroy
    {
      hide NoDuplicates, Moving;
      while |using| > 0
        invariant using !! idle && Moving(using + idle, toDestroy, all) && old(toDestroy) <= toDestroy
        decreases |using|
      {
        var c :| c in using;
        Moves(using + idle, toDestroy, all, c);
        assert using + idle - {c} == (using - {c}) + idle;
        toDestroy := toDestroy + [c];
        using := using - {c};
      }
    }

    method QueueIdle(ghost all: set<Client>)
      requires Moving(idle, toDestroy, all)
      modifies `idle, `toDestroy
      ensures idle == {} && Moving(idle, toDestroy, all) && old(toDestroy) <= toDestroy
    {
      hide NoDuplicates, Moving;
      while |idle| > 0
        invariant Moving(idle, toDestroy, all) && old(toDestroy) <= toDestroy
        decreases |idle|
      {
        var c :| c in idle;
        Moves(idle, toDestroy, all, c);
        toDestroy := toDestroy + [c];
        idle := idle - {c};
      }
    }
  }

  lemma Retired(live: set<Client>, left: set<Client>, gone: seq<Client>, p: Client)
    requires Elements(gone) == live - left && p in left && left <= live
    ensures Elements(gone + [p]) == live - (left - {p})
  {
    assert forall c :: c in Elements(gone + [p]) <==> c in Elements(gone) || c == p;
  }

  /** All the clients: each is still in its place or on the queue, once. */
  ghost predicate Moving(left: set<Client>, queue: seq<Client>, all: set<Client>) {
    NoDuplicates(queue) && (forall c | c in queue :: c !in left) && Elements(queue) + left == all
  }

  lemma Moves(left: set<Client>, queue: seq<Client>, all: set<Client>, c: Client)
    requires Moving(left, queue, all) && c in left
    ensures Moving(left - {c}, queue + [c], all)
  {
    OneMore(queue, c);
    assert Elements(queue + [c]) == Elements(queue) + {c};
  }

  lemma Moved(queue: seq<Client>, all: set<Client>)
    requires Moving({}, queue, all)
    ensures NoDuplicates(queue) && Elements(queue) == all
  {}

  lemma FreedNone()
    ensures forall clients :: Freed(map[], clients) == map[]
    ensures Reassigned(map[], {0}, 1) == map[]
  {}

  lemma OneClient(c: Client)
    ensures NoDuplicates([c]) && Elements([c]) == {c}
  {
    assert [c][1..] == [];
  }

  /** A pool of one whose only client was opened at time 0 and closed. */
  method OpenAndClose() returns (pool: ClientPool, first: Client)
    ensures fresh(pool) && fresh(pool.bag) && fresh(first) && pool.Valid() && pool.bag.states == map[]
    ensures pool.maxClient == 1 && pool.usedTimeout == 1000 && first.id == 1 == pool.lastId
    ensures pool.using == {} && pool.idle == {first} && first.connected && first.lastUse == 0 && pool.toDestroy == []
  {
    pool := new ClientPool(1, 1000);
    FirstOpen(pool, 0);
    FreedNone();
    hide *;
    var c, n, made, evicted := pool.Open([], 0, 0, true);
    first := c;
    MadeOne(made, first, evicted, 0, pool.lastId);
    FreedBoth(map[], [], []);
    pool.Close(first);
  }

  /** What an open of an empty pool finds. */
  lemma FirstOpen(pool: ClientPool, now: nat)
    requires pool.using == {} && pool.idle == {} && pool.toDestroy == [] && pool.maxClient == 1
    ensures pool.Walks([]) && Lost([]) == 0 && Nth([], 0) == {} && Busy([]) == []
    ensures pool.Gone([], now) == {} && !pool.ReusesTooLate([], now) && Elements([]) == {}
  {}

  lemma HasFirst(clients: seq<Client>)
    ensures clients != [] ==> clients[0] in Elements(clients)
  {}

  /** Nobody was evicted, and the client that was made has the next id. */
  lemma MadeOne(made: set<Client>, c: Client, evicted: seq<Client>, was: nat, now: nat)
    requires made == {c} && Elements(evicted) == {} && NextId(made, was, now)
    ensures evicted == [] && c.id == was + 1 == now
  {
    HasFirst(evicted);
  }

  /** A pool of one, its client closed and opened again much later: the caller gets a client that is
      not in use but waits to be destroyed. */
  method ReopenedTooLate() returns (pool: ClientPool, c: Client)
    ensures fresh(pool) && fresh(pool.bag) && fresh(c) && c.id == 1 && pool.bag.states == map[]
    ensures pool.Valid() && pool.using == {} && pool.idle == {} && c in pool.toDestroy && c.connected
  {
    var first;
    pool, first := OpenAndClose();
    OneClient(first);
    FreedNone();
    assert pool.Walks([first]) && Lost([first]) == 0 && Nth([first], 0) == {first};
    assert pool.ReusesTooLate([first], 2000) && pool.Gone([first], 2000) == {first};
    hide *;
    var again, n, made, evicted := pool.Open([first], 2000, 2000, true);
    c := first;
    InEither(evicted, c);
  }

  lemma InEither(clients: seq<Client>, c: Client)
    ensures c in Elements(clients) <==> c in clients
  {}

  /** A client is closed after an eviction: it is now both idle and waiting to be destroyed. */
  method ClosedAfterEviction() returns (pool: ClientPool, c: Client)
    ensures c in pool.idle && c in pool.toDestroy && !pool.Valid()
  {
    pool, c := ReopenedTooLate();
    hide Arranged;
    pool.Close(c);
  }

  /** A client records a watch after an eviction: it belongs to no client of the pool, and no client will
      take it over. */
  method WatchedAfterEviction() returns (pool: ClientPool, c: Client)
    ensures pool.using == {} && pool.idle == {} && !pool.Valid()
    ensures pool.bag.states == map["/a" := State(c.id, "")] && c.id == 1
  {
    pool, c := ReopenedTooLate();
    NextIdOf(c, 0);
    hide ClientPool.Valid, ClientPool.ValidBut, Arranged;
    pool.Watch(c, "/a", "");
  }

  /** An empty pool with a watch that waits for a client. */
  method WatchLeft() returns (pool: ClientPool)
    ensures fresh(pool) && fresh(pool.bag) && pool.Valid() && pool.maxClient == 1 && pool.usedTimeout == 1000
    ensures pool.using == {} && pool.idle == {} && pool.toDestroy == [] && pool.lastId == 1
    ensures pool.bag.states == map["/a" := State(0, "")]
  {
    var first;
    pool, first := OpenAndClose();
    assert first.id in Ids(pool.using + pool.idle);
    hide ClientPool.Valid, ClientPool.ValidBut, Arranged, Ids;
    pool.Watch(first, "/a", "");
    pool.Reset(1);
  }

  /** What a second open finds while the only client is not handed out yet. */
  lemma SecondOpen(pool: ClientPool, c: Client, states: map<string, State>)
    requires pool.using == {c} && pool.idle == {} && pool.maxClient == 1 && pool.usedTimeout == 1000
    requires c.lastUse == 0 && states == map["/a" := State(0, "")] && c.id == 2
    ensures pool.Walks([]) && Lost([]) == 0 && Nth([], 0) == {} && |pool.using| == 1 && Elements([]) == {}
    ensures pool.Gone([], 5000) == {c} && !pool.ReusesTooLate([], 5000)
    ensures Freed(states, [c]) == states
  {
    assert Elements([c]) == {c} && Ids({c}) == {2};
  }

  lemma OnlyOne(clients: seq<Client>, c: Client)
    requires Elements(clients) == {c}
    ensures forall states :: Freed(states, clients) == Freed(states, [c])
    ensures c in clients
  {
    assert Elements([c]) == {c};
    assert c in Elements(clients);
  }

  /** The first of two threads that open a pool of one: it has left the lock with a new client, but has
      not connected it yet. */
  method FirstOpener() returns (pool: ClientPool, c: Client)
    ensures fresh(pool) && fresh(pool.bag) && fresh(c) && pool.Valid() && pool.maxClient == 1
    ensures pool.usedTimeout == 1000 && pool.using == {c} && pool.idle == {} && pool.toDestroy == []
    ensures c.id == 2 && !c.connected && c.lastUse == 0 && pool.bag.states == map["/a" := State(0, "")]
  {
    pool := WatchLeft();
    FirstOpen(pool, 5000);
    FreedBoth(pool.bag.states, [], []);
    assert pool.QueuedOut(0);
    hide *;
    var got;
    ghost var n, made, evicted;
    got, n, made, evicted := pool.Obtain([], 5000, {}, 0);
    c := got;
    MadeOne(made, c, evicted, 1, pool.lastId);
  }

  /** The second one finds the pool full and takes the client away again, since its time of use is not set
      yet. */
  method SecondOpener() returns (pool: ClientPool, c: Client)
    ensures fresh(pool) && fresh(pool.bag) && fresh(c) && pool.Valid() && c.id == 2 && !c.connected
    ensures pool.using == {} && pool.idle == {} && c in pool.toDestroy
    ensures pool.bag.states == map["/a" := State(0, "")]
  {
    pool, c := FirstOpener();
    SecondOpen(pool, c, pool.bag.states);
    hide *;
    ghost var n, made, evicted;
    var d;
    d, n, made, evicted := pool.Open([], 5000, 5000, true);
    OnlyOne(evicted, c);
  }

  /** Then the first connects its client: it takes over a watch, but waits to be destroyed. */
  method TwoOpeners() returns (pool: ClientPool, c: Client)
    ensures pool.using == {} && pool.idle == {} && c in pool.toDestroy && c.connected
    ensures pool.bag.states == map["/a" := State(c.id, "")] && !pool.Valid()
  {
    pool, c := SecondOpener();
    TakesOver(c.id);
    hide *;
    pool.HandOut(c, 5000, true, {}, 0);
  }

  lemma TakesOver(id: nat)
    ensures var states := map["/a" := State(0, "")];
      !AllOwned(states) && Reassigned(states, {0}, id) == map["/a" := State(id, "")] && Ids({} + {}) == {}
  {
    assert map["/a" := State(0, "")]["/a"].clientId == 0;
  }
}
