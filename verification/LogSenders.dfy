/** The buffered log sender of log/scribe_log.cpp: writers put messages on a bounded list, one worker
    takes them off and sends them without holding the lock. Each region under the lock is one step. */
module LogSenders {
  import opened Options

  datatype LogEntry = LogEntry(category: string, message: string)

  /** A message that was written, with its place in the order of writing. */
  datatype Message = Message(stamp: nat, entry: LogEntry)

  /** The list, the message the worker is sending, and what became of the others. */
  datatype State = State(
    queue: seq<Message>, inFlight: seq<Message>, written: seq<LogEntry>, acked: seq<Message>, dropped: seq<Message>)

  datatype Action = Write(entry: LogEntry) | Take | SendOk | SendFail

  /** The limit as the comparison with a size_t sees it: a negative one is huge. */
  function Limit(maxCache: int): int { if maxCache >= 0 then maxCache else maxCache + 0x1_0000_0000_0000_0000 }

  const INIT := State([], [], [], [], [])

  predicate Enabled(s: State, a: Action) {
    match a
    case Write(_) => true
    case Take => s.inFlight == [] && s.queue != []
    case _ => |s.inFlight| == 1
  }

  function Next(limit: int, s: State, a: Action): State
    requires Enabled(s, a)
  {
    match a
    case Write(entry) =>
      var (longer, all) := (s.queue + [Message(|s.written|, entry)], s.written + [entry]);
      if |longer| > limit then s.(queue := longer[1..], written := all, dropped := s.dropped + [longer[0]])
      else s.(queue := longer, written := all)
    case Take => s.(queue := s.queue[1..], inFlight := [s.queue[0]])
    case SendOk => s.(inFlight := [], acked := s.acked + s.inFlight)
    case SendFail =>
      if |s.queue| <= limit then s.(queue := s.inFlight + s.queue, inFlight := [])
      else s.(inFlight := [], dropped := s.dropped + s.inFlight)
  }

  /** What each action does to each place, told apart from how the state is computed. */
  lemma EachStep(limit: int, s: State, a: Action)
    requires Inv(limit, s) && limit >= 0 && Enabled(s, a)
    ensures var next := Next(limit, s, a);
      && next.acked == s.acked + (if a.SendOk? then s.inFlight else [])
      && next.written == s.written + (if a.Write? then [a.entry] else [])
      && next.inFlight == (if a.Write? then s.inFlight else if a.Take? then [s.queue[0]] else [])
      && (a.Take? ==> [s.queue[0]] + next.queue == s.queue)
      && (a.SendOk? ==> next.queue == s.queue)
      && (a.SendFail? ==> next.queue == s.inFlight + s.queue)
    ensures var next := Next(limit, s, a);
      a.Write? ==>
        && next.dropped + next.queue == s.dropped + s.queue + [Message(|s.written|, a.entry)]
        && |next.queue| == if |s.queue| < limit then |s.queue| + 1 else |s.queue|
    ensures !a.Write? ==> Next(limit, s, a).dropped == s.dropped
  {
    if a.Write? {
      var longer := s.queue + [Message(|s.written|, a.entry)];
      assert longer == [longer[0]] + longer[1..];
    }
  }

  predicate Ascending(ms: seq<Message>) { forall i, j | 0 <= i < j < |ms| :: ms[i].stamp < ms[j].stamp }

  function Stamped(written: seq<LogEntry>): (ms: seq<Message>)
    ensures |ms| == |written|
  {
    seq(|written|, i requires 0 <= i < |written| => Message(i, written[i]))
  }

  /** Every message written is in exactly one place, unchanged. */
  predicate Conserved(s: State) {
    multiset(s.acked) + multiset(s.inFlight) + multiset(s.queue) + multiset(s.dropped) == multiset(Stamped(s.written))
  }

  /** What every run keeps: nothing lost or doubled, the order of writing, and the bound. */
  predicate Inv(limit: int, s: State) {
    && Conserved(s) && Ascending(s.acked + s.inFlight + s.queue)
    && |s.queue| + |s.inFlight| <= limit + 1 && |s.inFlight| <= 1
  }

  /** A message that failed always passes the test for being put back. */
  lemma FailedMessageGoesBack(limit: int, s: State)
    requires Inv(limit, s) && Enabled(s, SendFail)
    ensures Next(limit, s, SendFail) == s.(queue := s.inFlight + s.queue, inFlight := [])
  {}

  /** A message is lost exactly when one is written while the list is full, and then it is the oldest there. */
  lemma LossOnlyWhenFull(limit: int, s: State, a: Action)
    requires Inv(limit, s) && Enabled(s, a)
    ensures Next(limit, s, a).dropped == s.dropped <==> !(a.Write? && |s.queue| >= limit)
    ensures a.Write? && |s.queue| >= limit ==>
      Next(limit, s, a).dropped == s.dropped + [(s.queue + [Message(|s.written|, a.entry)])[0]]
  {}

  lemma StampedNext(written: seq<LogEntry>, entry: LogEntry)
    ensures Stamped(written + [entry]) == Stamped(written) + [Message(|written|, entry)]
  {}

  /** A message in any of the places was written earlier than the next one. */
  lemma StampsBelow(s: State, m: Message)
    requires Conserved(s) && m in s.acked + s.inFlight + s.queue
    ensures m.stamp < |s.written|
  {
    assert m in multiset(Stamped(s.written));
    assert m in Stamped(s.written);
  }

  /** A message is appended. */
  lemma PushKeeps(s: State, entry: LogEntry)
    requires Conserved(s) && Ascending(s.acked + s.inFlight + s.queue)
    ensures var next := s.(queue := s.queue + [Message(|s.written|, entry)], written := s.written + [entry]);
      Conserved(next) && Ascending(next.acked + next.inFlight + next.queue)
  {
    var (m, all) := (Message(|s.written|, entry), s.acked + s.inFlight + s.queue);
    StampedNext(s.written, entry);
    forall i | 0 <= i < |all| ensures all[i].stamp < m.stamp {
      StampsBelow(s, all[i]);
    }
    assert s.acked + s.inFlight + (s.queue + [m]) == all + [m];
  }

  lemma AscendingWithout(a: seq<Message>, m: Message, b: seq<Message>)
    requires Ascending(a + [m] + b)
    ensures Ascending(a + b)
  {
    var all := a + [m] + b;
    forall i | 0 <= i < |a + b| ensures (a + b)[i] == all[if i < |a| then i else i + 1] {}
  }

  /** The oldest message on the list is dropped. */
  lemma DropKeeps(s: State)
    requires Conserved(s) && Ascending(s.acked + s.inFlight + s.queue) && s.queue != []
    ensures var next := s.(queue := s.queue[1..], dropped := s.dropped + [s.queue[0]]);
      Conserved(next) && Ascending(next.acked + next.inFlight + next.queue)
  {
    var before := s.acked + s.inFlight;
    assert s.queue == [s.queue[0]] + s.queue[1..];
    assert before + s.queue == before + [s.queue[0]] + s.queue[1..];
    AscendingWithout(before, s.queue[0], s.queue[1..]);
  }

  lemma WriteKeeps(limit: int, s: State, entry: LogEntry)
    requires Inv(limit, s) && limit >= 0
    ensures Inv(limit, Next(limit, s, Write(entry)))
  {
    hide Conserved, Ascending;
    PushKeeps(s, entry);
    var pushed := s.(queue := s.queue + [Message(|s.written|, entry)], written := s.written + [entry]);
    if |pushed.queue| > limit { DropKeeps(pushed); }
  }

  lemma StepKeeps(limit: int, s: State, a: Action)
    requires Inv(limit, s) && limit >= 0 && Enabled(s, a)
    ensures Inv(limit, Next(limit, s, a))
  {
    match a {
      case Write(entry) => WriteKeeps(limit, s, entry);
      case Take =>
        assert s.queue == [s.queue[0]] + s.queue[1..];
        assert s.acked + s.inFlight + s.queue == s.acked + [s.queue[0]] + s.queue[1..];
      case SendOk =>
        assert s.acked + s.inFlight + s.queue == (s.acked + s.inFlight) + [] + s.queue;
      case SendFail =>
        assert s.acked + s.inFlight + s.queue == s.acked + [] + (s.inFlight + s.queue);
    }
  }

  /** The state after a run, if every action of it was possible. */
  function After(limit: int, actions: seq<Action>): Option<State> {
    if actions == [] then Some(INIT)
    else
      var (before, last) := (After(limit, actions[..|actions| - 1]), actions[|actions| - 1]);
      if before.Some? && Enabled(before.value, last) then Some(Next(limit, before.value, last)) else None
  }

  /** Safety of every run: the list and the message under way stay within the bound, and what was
      acknowledged, is under way and is queued make up, in this order, a part of what was written;
      everything else was dropped. */
  lemma {:induction false} EveryRunIsSafe(maxCache: int, actions: seq<Action>)
    requires -0x8000_0000 <= maxCache < 0x8000_0000 && After(Limit(maxCache), actions).Some?
    ensures var s := After(Limit(maxCache), actions).value;
      Inv(Limit(maxCache), s) && |s.acked| + |s.inFlight| + |s.queue| + |s.dropped| == |s.written|
  {
    var limit := Limit(maxCache);
    if actions != [] {
      EveryRunIsSafe(maxCache, actions[..|actions| - 1]);
      StepKeeps(limit, After(limit, actions[..|actions| - 1]).value, actions[|actions| - 1]);
    }
    var s := After(limit, actions).value;
    assert |multiset(Stamped(s.written))| == |s.written|;
  }

  /** The messages that were sent, one after the other: those under way when a send succeeded. */
  function SentBy(limit: int, actions: seq<Action>): seq<Message> {
    if actions == [] then []
    else
      var (init, last) := (actions[..|actions| - 1], actions[|actions| - 1]);
      SentBy(limit, init) + if last.SendOk? && After(limit, init).Some? then After(limit, init).value.inFlight else []
  }

  /** What was written, in order. */
  function WrittenBy(actions: seq<Action>): seq<LogEntry> {
    if actions == [] then []
    else
      var (init, last) := (actions[..|actions| - 1], actions[|actions| - 1]);
      WrittenBy(init) + if last.Write? then [last.entry] else []
  }

  function Successes(actions: seq<Action>): nat {
    if actions == [] then 0
    else Successes(actions[..|actions| - 1]) + if actions[|actions| - 1].SendOk? then 1 else 0
  }

  /** Every successful send acknowledges exactly the message under way, and nothing else does. */
  lemma {:induction false} EveryRunAcknowledges(maxCache: int, actions: seq<Action>)
    requires -0x8000_0000 <= maxCache < 0x8000_0000 && After(Limit(maxCache), actions).Some?
    ensures var s := After(Limit(maxCache), actions).value;
      s.acked == SentBy(Limit(maxCache), actions) && |s.acked| == Successes(actions) && s.written == WrittenBy(actions)
  {
    var limit := Limit(maxCache);
    if actions != [] {
      var init := actions[..|actions| - 1];
      EveryRunAcknowledges(maxCache, init);
      EveryRunIsSafe(maxCache, init);
      hide Inv, Next;
      EachStep(limit, After(limit, init).value, actions[|actions| - 1]);
    }
  }

  // --- the sender itself, step by step ---

  function Entries(ms: seq<Message>): (es: seq<LogEntry>)
    ensures |es| == |ms| && forall i | 0 <= i < |ms| :: es[i] == ms[i].entry
  {
    seq(|ms|, i requires 0 <= i < |ms| => ms[i].entry)
  }

  class BufferedLogSender {
    var msgList: seq<LogEntry>
    /** The worker's own copy of the message it is sending. */
    var begin: Option<LogEntry>
    const maxCache: int
    ghost var state: State

    ghost predicate Valid()
      reads this
    {
      && -0x8000_0000 <= maxCache < 0x8000_0000 && Inv(Limit(maxCache), state)
      && msgList == Entries(state.queue)
      && Entries(state.inFlight) == if begin.Some? then [begin.value] else []
    }

    constructor (maxCache: int)
      requires -0x8000_0000 <= maxCache < 0x8000_0000
      ensures Valid() && state == INIT && this.maxCache == maxCache
    {
      this.maxCache := maxCache;
      msgList, begin, state := [], None, INIT;
    }

    /** A writer appends a message; a list that is too long loses its first one. */
    method Write(category: string, message: string)
      requires Valid()
      modifies `msgList, `state
      ensures Valid() && state == Next(Limit(maxCache), old(state), Action.Write(LogEntry(category, message)))
      ensures var longer := old(msgList) + [LogEntry(category, message)];
        var limit := if maxCache >= 0 then maxCache else maxCache + 0x1_0000_0000_0000_0000;
        msgList == if |longer| <= limit then longer else longer[1..]
    {
      hide Conserved, Ascending;
      StepKeeps(Limit(maxCache), state, Action.Write(LogEntry(category, message)));
      msgList := msgList + [LogEntry(category, message)];
      if |msgList| > Limit(maxCache) {
        msgList := msgList[1..];
      }
      state := Next(Limit(maxCache), state, Action.Write(LogEntry(category, message)));
      assert msgList == Entries(state.queue);
    }

    /** The worker takes the first message off the list, if there is one. */
    method TakeFirst() returns (send: bool)
      requires Valid() && begin == None
      modifies `msgList, `begin, `state
      ensures Valid() && send == (old(msgList) != []) && begin.Some? == send
      ensures state == if send then Next(Limit(maxCache), old(state), Take) else old(state)
      ensures if send then begin == Some(old(msgList)[0]) && msgList == old(msgList)[1..] else msgList == old(msgList)
    {
      send := false;
      if |msgList| > 0 {
        StepKeeps(Limit(maxCache), state, Take);
        begin := Some(msgList[0]);
        msgList := msgList[1..];
        send := true;
        state := Next(Limit(maxCache), state, Take);
        assert msgList == Entries(state.queue);
      }
    }

    /** What the worker does when the message was sent, or was not: then it goes back to the front. */
    method Sent(ok: bool)
      requires Valid() && begin.Some?
      modifies `msgList, `begin, `state
      ensures Valid() && begin == None
      ensures state == Next(Limit(maxCache), old(state), if ok then SendOk else SendFail)
      ensures state.dropped == old(state.dropped)
      ensures ok ==> msgList == old(msgList) && state.acked == old(state.acked) + old(state.inFlight)
      ensures !ok ==> msgList == [old(begin).value] + old(msgList) && state.acked == old(state.acked)
    {
      hide Conserved, Ascending;
      assert |state.inFlight| == |Entries(state.inFlight)| == 1;
      StepKeeps(Limit(maxCache), state, if ok then SendOk else SendFail);
      if !ok {
        if |msgList| <= Limit(maxCache) {
          msgList := [begin.value] + msgList;
        }
      }
      begin := None;
      state := Next(Limit(maxCache), state, if ok then SendOk else SendFail);
      assert msgList == Entries(state.queue);
    }
  }
}
