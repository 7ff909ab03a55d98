/** The clients of a pool, and how they may be spread over it. */
module Clients {
  import opened Sequences
  import opened StateBags

  const TWO64 := 0x1_0000_0000_0000_0000

  /** now - last > timeout, subtracted on 64 unsigned bits. */
  predicate TimedOut(now: nat, last: nat, timeout: nat) { (now - last + TWO64) % TWO64 > timeout }

  /** The test also fires for a time of use that lies ahead of now, unless it is far ahead. */
  lemma TimedOutExactly(now: nat, last: nat, timeout: nat)
    requires now < TWO64 && last < TWO64
    ensures TimedOut(now, last, timeout) <==> if last <= now then now - last > timeout else last - now < TWO64 - timeout
  {}

  /** A client: ClientBase, as far as the pool deals with it. */
  class Client {
    var lastUse: nat
    var useTimes: nat
    var usingCounter: int
    var connected: bool
    const id: nat

    constructor (id: nat)
      ensures this.id == id && usingCounter == 0 && !connected && lastUse == 0 && useTimes == 0
    {
      this.id, usingCounter, connected, lastUse, useTimes := id, 0, false, 0, 0;
    }

    method SetInUsing(inUsing: bool)
      modifies `usingCounter, `useTimes
      ensures usingCounter == old(usingCounter) + if inUsing then 1 else -1
      ensures useTimes == old(useTimes) + if inUsing then 1 else 0
    {
      if inUsing {
        usingCounter := usingCounter + 1;
        useTimes := useTimes + 1;
      } else {
        usingCounter := usingCounter - 1;
      }
    }
  }

  function Ids(clients: set<Client>): set<nat> { set c | c in clients :: c.id }

  /** Ids are given out once, counting up to lastId. */
  ghost predicate Numbered(clients: set<Client>, lastId: nat) {
    && (forall c | c in clients :: 1 <= c.id <= lastId)
    && (forall c, d | c in clients && d in clients && c != d :: c.id != d.id)
  }

  /** Each client is in one place only, not more than max are in use or idle, and the recorded
      states belong to these, or to nobody. */
  ghost predicate Arranged(using: set<Client>, idle: set<Client>, toDestroy: seq<Client>,
    states: map<string, State>, lastId: nat, max: nat)
  {
    && using !! idle && (forall c | c in toDestroy :: c !in using && c !in idle) && NoDuplicates(toDestroy)
    && |using| + |idle| <= max && Numbered(using + idle, lastId) && OwnersIn(states, Ids(using + idle))
  }

  lemma UsingToIdle(using: set<Client>, idle: set<Client>, toDestroy: seq<Client>,
    states: map<string, State>, lastId: nat, max: nat, c: Client)
    requires Arranged(using, idle, toDestroy, states, lastId, max) && c in using
    ensures Arranged(using - {c}, idle + {c}, toDestroy, states, lastId, max)
    ensures c !in idle
  {}

  lemma IdleToUsing(using: set<Client>, idle: set<Client>, toDestroy: seq<Client>,
    states: map<string, State>, lastId: nat, max: nat, c: Client)
    requires Arranged(using, idle, toDestroy, states, lastId, max) && c in idle
    ensures Arranged(using + {c}, idle - {c}, toDestroy, states, lastId, max)
    ensures c !in using
  {}

  /** A client leaves for destruction, and its states are given to nobody. */
  lemma UsingToDestroy(using: set<Client>, idle: set<Client>, toDestroy: seq<Client>,
    states: map<string, State>, lastId: nat, max: nat, c: Client)
    requires Arranged(using, idle, toDestroy, states, lastId, max) && c in using
    ensures Arranged(using - {c}, idle, toDestroy + [c], Reassigned(states, {c.id}, 0), lastId, max)
    ensures c !in idle
  {
    OneMore(toDestroy, c);
    assert (using - {c}) + idle == using + idle - {c};
    Leaves(using + idle, states, c);
  }

  lemma IdleToDestroy(using: set<Client>, idle: set<Client>, toDestroy: seq<Client>,
    states: map<string, State>, lastId: nat, max: nat, c: Client)
    requires Arranged(using, idle, toDestroy, states, lastId, max) && c in idle
    ensures Arranged(using, idle - {c}, toDestroy + [c], Reassigned(states, {c.id}, 0), lastId, max)
    ensures c !in using
  {
    OneMore(toDestroy, c);
    assert using + (idle - {c}) == using + idle - {c};
    Leaves(using + idle, states, c);
  }

  lemma Leaves(live: set<Client>, states: map<string, State>, c: Client)
    requires c in live && OwnersIn(states, Ids(live))
    ensures OwnersIn(Reassigned(states, {c.id}, 0), Ids(live - {c}))
  {}

  /** A new client with a new id. */
  lemma NewToUsing(using: set<Client>, idle: set<Client>, toDestroy: seq<Client>,
    states: map<string, State>, lastId: nat, max: nat, c: Client)
    requires Arranged(using, idle, toDestroy, states, lastId, max) && |using| + |idle| < max
    requires c !in using && c !in idle && c !in toDestroy && c.id == lastId + 1
    ensures Arranged(using + {c}, idle, toDestroy, states, lastId + 1, max)
  {}

  lemma FewerToDestroy(using: set<Client>, idle: set<Client>, toDestroy: seq<Client>,
    states: map<string, State>, lastId: nat, max: nat, left: seq<Client>)
    requires Arranged(using, idle, toDestroy, states, lastId, max)
    requires NoDuplicates(left) && forall c | c in left :: c in toDestroy
    ensures Arranged(using, idle, left, states, lastId, max)
  {}

  /** Those still in use, in order. */
  function Busy(clients: seq<Client>): (r: seq<Client>)
    reads clients`usingCounter
  {
    if clients == [] then []
    else
      var rest := Busy(clients[1..]);
      if clients[0].usingCounter < 1 then rest else [clients[0]] + rest
  }

  /** The client at i goes, or stays in its place. */
  lemma BusyNext(clients: seq<Client>, i: nat)
    requires i < |clients|
    ensures clients[..i] + Busy(clients[i..]) ==
      if clients[i].usingCounter < 1 then clients[..i] + Busy(clients[i + 1..])
      else clients[..i + 1] + Busy(clients[i + 1..])
  {
    assert clients[i..][1..] == clients[i + 1..];
    var rest := Busy(clients[i + 1..]);
    assert clients[..i] + ([clients[i]] + rest) == clients[..i + 1] + rest;
  }

  /** Those left are exactly the ones that somebody uses, in their old order. */
  lemma {:induction false} BusyIs(clients: seq<Client>)
    ensures forall c | c in Busy(clients) :: c in clients && c.usingCounter >= 1
    ensures forall c | c in clients && c.usingCounter >= 1 :: c in Busy(clients)
    ensures KeepsOrder(Busy(clients), clients)
  {
    hide KeepsOrder;
    if clients == [] {
      NoneToOrder(clients);
    } else {
      var rest := Busy(clients[1..]);
      BusyIs(clients[1..]);
      assert clients == [clients[0]] + clients[1..];
      assert forall c :: c in clients <==> c == clients[0] || c in clients[1..];
      if clients[0].usingCounter < 1 {
        OrderBehind(rest, clients[0], clients[1..]);
      } else {
        OrderWith(rest, clients[0], clients[1..]);
      }
    }
  }

  lemma NoneToOrder(clients: seq<Client>)
    ensures KeepsOrder([], clients)
  {}

  lemma {:induction false} BusyIsPart(clients: seq<Client>)
    requires NoDuplicates(clients)
    ensures NoDuplicates(Busy(clients)) && forall c | c in Busy(clients) :: c in clients
  {
    if clients != [] {
      BusyIsPart(clients[1..]);
      assert Busy(clients) == Busy(clients[1..]) || Busy(clients) == [clients[0]] + Busy(clients[1..]);
      assert ([clients[0]] + Busy(clients[1..]))[1..] == Busy(clients[1..]);
    }
  }

  /** Other states change nothing but whose they are. */
  lemma OwnersAreWhatMatters(using: set<Client>, idle: set<Client>, toDestroy: seq<Client>,
    states: map<string, State>, lastId: nat, max: nat, others: map<string, State>)
    requires Arranged(using, idle, toDestroy, states, lastId, max)
    ensures OwnersIn(states, Ids(using + idle))
    ensures Arranged(using, idle, toDestroy, others, lastId, max) <==> OwnersIn(others, Ids(using + idle))
  {}

  /** Somebody takes over what nobody owned: the pool stays arranged if it is a client in use or idle, or there
      is nothing to take. */
  lemma TakesOverFine(using: set<Client>, idle: set<Client>, toDestroy: seq<Client>,
    states: map<string, State>, lastId: nat, max: nat, id: nat)
    requires Arranged(using, idle, toDestroy, states, lastId, max)
    ensures Arranged(using, idle, toDestroy, Reassigned(states, {0}, id), lastId, max) <==>
      id == 0 || id in Ids(using + idle) || AllOwned(states)
  {
    OwnersAreWhatMatters(using, idle, toDestroy, states, lastId, max, Reassigned(states, {0}, id));
    hide Arranged;
    NewOwner(states, Ids(using + idle), id);
  }

  /** The client that was made, if any, got the next id. */
  predicate NextId(made: set<Client>, was: nat, now: nat) {
    (forall c | c in made :: c.id == was + 1) && (now == if made == {} then was else was + 1)
  }

  lemma NextIdOf(c: Client?, was: nat)
    ensures NextId({}, was, was) && Ids({}) == {}
    ensures c != null && c.id == was + 1 ==> NextId({c}, was, c.id)
  {}

  /** A client that is already waiting to be destroyed cannot be idle, nor wait twice. */
  lemma QueuedAlready(using: set<Client>, idle: set<Client>, toDestroy: seq<Client>,
    states: map<string, State>, lastId: nat, max: nat, c: Client)
    requires c in toDestroy
    ensures c in idle ==> !Arranged(using, idle, toDestroy, states, lastId, max)
    ensures !Arranged(using, idle, toDestroy + [c], states, lastId, max)
  {
    NotTwice(toDestroy, c);
  }

  lemma {:induction false} NotTwice(s: seq<Client>, c: Client)
    requires c in s
    ensures !NoDuplicates(s + [c])
  {
    assert (s + [c])[1..] == s[1..] + [c];
    if s[0] == c {
      assert (s[1..] + [c])[|s| - 1] == c;
    } else {
      NotTwice(s[1..], c);
    }
  }

  function Elements(clients: seq<Client>): set<Client> { set c | c in clients }

  /** The states with the owners among these clients given to nobody. */
  function Freed(states: map<string, State>, clients: seq<Client>): map<string, State> {
    Reassigned(states, Ids(Elements(clients)), 0)
  }

  /** Every watch is still there with its payload. It belongs to nobody if a retired client had it, and then,
      or if nobody had it before, to the taker if there is one; else to whom it belonged. */
  predicate Rehomed(now: map<string, State>, was: map<string, State>, retired: seq<Client>, taker: Client?) {
    && SamePayloads(now, was)
    && forall key | key in was ::
      now[key].clientId ==
        if was[key].clientId != 0 && (forall c | c in retired :: c.id != was[key].clientId) then was[key].clientId
        else if taker != null then taker.id
        else 0
  }

  lemma FreedIs(states: map<string, State>, retired: seq<Client>, taker: Client?)
    ensures var left := Freed(states, retired);
      Rehomed(if taker != null then Reassigned(left, {0}, taker.id) else left, states, retired, taker)
  {
    var left := Freed(states, retired);
    forall key | key in states
      ensures states[key].clientId in Ids(Elements(retired)) <==>
        exists c :: c in retired && c.id == states[key].clientId
    {}
    OnlyOwnersChange(states, Ids(Elements(retired)), 0);
    if taker != null { OnlyOwnersChange(left, {0}, taker.id); }
  }

  lemma WatchesOf(states: map<string, State>, c: Client)
    ensures Rehomed(states, states, [], null) && Rehomed(Reassigned(states, {c.id}, 0), states, [c], null)
  {
    OnlyOwnersChange(states, {c.id}, 0);
    assert forall d :: d in [c] <==> d == c;
  }

  lemma FreedBoth(states: map<string, State>, a: seq<Client>, b: seq<Client>)
    ensures Freed(Freed(states, a), b) == Freed(states, a + b)
    ensures Freed(states, []) == states && a + [] == a
  {
    assert Elements(a + b) == Elements(a) + Elements(b) && Elements([]) == {};
    assert Ids(Elements(a + b)) == Ids(Elements(a)) + Ids(Elements(b));
    ReassignedTwice(states, Ids(Elements(a)), Ids(Elements(b)));
  }

  lemma FreedNext(states: map<string, State>, clients: seq<Client>, c: Client)
    ensures Reassigned(Freed(states, clients), {c.id}, 0) == Freed(states, clients + [c])
  {
    assert Elements(clients + [c]) == Elements(clients) + {c};
    assert Ids(Elements(clients + [c])) == Ids(Elements(clients)) + {c.id};
    ReassignedTwice(states, Ids(Elements(clients)), {c.id});
  }

  /** The first of a sequence without repetition, and the rest. */
  lemma FirstAndRest(clients: seq<Client>)
    requires clients != [] && NoDuplicates(clients)
    ensures clients[0] in Elements(clients) && clients[0] !in clients[1..] && NoDuplicates(clients[1..])
    ensures Elements(clients) - {clients[0]} == Elements(clients[1..])
  {}

  lemma {:induction false} ElementsCount(clients: seq<Client>)
    requires NoDuplicates(clients)
    ensures |Elements(clients)| == |clients|
  {
    if clients == [] {
      assert Elements(clients) == {};
    } else {
      FirstAndRest(clients);
      ElementsCount(clients[1..]);
    }
  }

  /** How many of the clients, from the first on, have lost their connection. */
  function Lost(clients: seq<Client>): (n: nat)
    reads clients`connected
    ensures n <= |clients| && (n < |clients| ==> clients[n].connected)
    ensures forall i | 0 <= i < n :: !clients[i].connected
  {
    if clients == [] || clients[0].connected then 0 else 1 + Lost(clients[1..])
  }

  /** The client at n, if there is one. */
  function Nth(clients: seq<Client>, n: nat): set<Client> { if n < |clients| then {clients[n]} else {} }

  lemma NthOf(clients: seq<Client>, n: nat)
    ensures Nth(clients, n) == if n < |clients| then {clients[n]} else {}
    ensures Elements([]) == {}
  {}

  /** Those whose time is over. */
  function Late(clients: set<Client>, now: nat, timeout: nat): set<Client>
    reads clients`lastUse
  {
    set c | c in clients && TimedOut(now, c.lastUse, timeout)
  }
}
