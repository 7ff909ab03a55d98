/** The watches that clients have recorded (StateBag of core/ClientPool.h): each under its key, with
    the id of the client that keeps it, or 0. */
module StateBags {
  datatype State = State(clientId: nat, payload: string)

  /** The states with owner `from` given to `to`. */
  function Reassigned(states: map<string, State>, from: set<nat>, to: nat): map<string, State> {
    map key | key in states :: if states[key].clientId in from then states[key].(clientId := to) else states[key]
  }

  /** No state is lost or made, and none changes its payload. */
  predicate SamePayloads(now: map<string, State>, was: map<string, State>) {
    now.Keys == was.Keys && forall key | key in was :: now[key].payload == was[key].payload
  }

  /** The states of one owner have the other one now, and nothing else is different. */
  predicate ChangedHands(now: map<string, State>, was: map<string, State>, from: nat, to: nat) {
    && SamePayloads(now, was)
    && forall key | key in was :: now[key].clientId == if was[key].clientId == from then to else was[key].clientId
  }

  /** Exactly the states of these owners change hands, and with the owner alone. */
  lemma OnlyOwnersChange(states: map<string, State>, from: set<nat>, to: nat)
    ensures SamePayloads(Reassigned(states, from, to), states)
    ensures forall key | key in states ::
      Reassigned(states, from, to)[key].clientId == if states[key].clientId in from then to else states[key].clientId
  {}

  /** Every owner is one of `ids`, or nobody. */
  predicate OwnersIn(states: map<string, State>, ids: set<nat>) {
    forall key | key in states :: states[key].clientId == 0 || states[key].clientId in ids
  }

  /** Nobody owns a state. */
  function Disowned(states: map<string, State>): (r: map<string, State>)
    ensures OwnersIn(r, {}) && r.Keys == states.Keys
  {
    map key | key in states :: states[key].(clientId := 0)
  }

  lemma DisownedKeeps(states: map<string, State>)
    ensures SamePayloads(Disowned(states), states) && forall key | key in states :: Disowned(states)[key].clientId == 0
  {}

  /** Every state has an owner. */
  predicate AllOwned(states: map<string, State>) { forall key | key in states :: states[key].clientId != 0 }

  /** What nobody owned goes to a new owner: the bound on owners holds exactly if it is allowed as one, or
      gets nothing. */
  lemma NewOwner(states: map<string, State>, ids: set<nat>, id: nat)
    requires OwnersIn(states, ids)
    ensures OwnersIn(Reassigned(states, {0}, id), ids) <==> id == 0 || id in ids || AllOwned(states)
  {
    var next := Reassigned(states, {0}, id);
    forall key | key in states && states[key].clientId == 0 ensures next[key].clientId == id {}
  }

  lemma ReassignedTwice(states: map<string, State>, a: set<nat>, b: set<nat>)
    ensures Reassigned(Reassigned(states, a, 0), b, 0) == Reassigned(states, a + b, 0)
    ensures Reassigned(states, {}, 0) == states
  {}

  /** One key changes: what matters is its new owner. */
  lemma OwnersWith(was: map<string, State>, states: map<string, State>, key: string, ids: set<nat>)
    requires OwnersIn(was, ids) && key in states && states - {key} == was - {key}
    ensures OwnersIn(states, ids) <==> states[key].clientId == 0 || states[key].clientId in ids
  {
    assert forall k | k in states && k != key :: k in states - {key} && states[k] == (states - {key})[k];
    assert forall k | k in states - {key} :: k in was && (was - {key})[k] == was[k];
  }

  class StateBag {
    var states: map<string, State>

    constructor ()
      ensures states == map[]
    {
      states := map[];
    }

    /** Records a state. A key that is there already keeps its payload and gets the new owner. */
    method Add(key: string, state: State)
      modifies this
      ensures states == old(states)[key :=
        if key in old(states) then old(states)[key].(clientId := state.clientId) else state]
    {
      if key in states {
        states := states[key := states[key].(clientId := state.clientId)];
      } else {
        states := states[key := state];
      }
    }

    method Remove(key: string)
      modifies this
      ensures states == old(states) - {key}
    {
      if key in states {
        states := states - {key};
      }
    }

    method ReplaceOwnerOf(key: string, to: nat)
      modifies this
      ensures states ==
        if key in old(states) then old(states)[key := old(states)[key].(clientId := to)] else old(states)
    {
      if key in states {
        states := states[key := states[key].(clientId := to)];
      }
    }

    /** Visits every state, in any order, and gives those of one owner to another. */
    method ReplaceClientId(from: nat, to: nat)
      modifies this
      ensures states == Reassigned(old(states), {from}, to) && ChangedHands(states, old(states), from, to)
    {
      var left := states.Keys;
      while left != {}
        invariant left <= states.Keys == old(states).Keys
        invariant forall key | key in left :: states[key] == old(states)[key]
        invariant forall key | key in states && key !in left :: states[key] == Reassigned(old(states), {from}, to)[key]
        decreases |left|
      {
        var key :| key in left;
        left := left - {key};
        if states[key].clientId == from {
          states := states[key := states[key].(clientId := to)];
        }
      }
    }

    method ResetClientId()
      modifies this
      ensures states == Disowned(old(states)) && SamePayloads(states, old(states))
      ensures forall key | key in states :: states[key].clientId == 0
    {
      var left := states.Keys;
      while left != {}
        invariant left <= states.Keys == old(states).Keys
        invariant forall key | key in states && key !in left :: states[key] == Disowned(old(states))[key]
        invariant forall key | key in left :: states[key] == old(states)[key]
        decreases |left|
      {
        var key :| key in left;
        left := left - {key};
        states := states[key := states[key].(clientId := 0)];
      }
    }

    /** The keys of one client's states. */
    method Get(clientId: nat) returns (keys: set<string>)
      ensures keys == set key | key in states && states[key].clientId == clientId
    {
      keys := {};
      var left := states.Keys;
      while left != {}
        invariant left <= states.Keys
        invariant keys == set key | key in states && key !in left && states[key].clientId == clientId
        decreases |left|
      {
        var key :| key in left;
        left := left - {key};
        if states[key].clientId == clientId { keys := keys + {key}; }
      }
    }
  }
}
