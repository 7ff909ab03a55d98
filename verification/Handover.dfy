/** What events and values mean when their strings lie in the parsed buffer. */
module Handover {
  import opened Options
  import opened Bytes
  import opened Json
  import opened Dom

  /** The meaning of an event: a string in the buffer stands for its bytes there. It must be closed
      by a NUL and lie wholly before `limit`. */
  function Meaning1(e: Event, buf: seq<byte>, limit: nat): Option<Event> {
    if e.String? && e.str.InPlace? then
      if e.str.head + e.str.len < limit <= |buf| && buf[e.str.head + e.str.len] == 0
      then Some(String(Copied(buf[e.str.head..e.str.head + e.str.len])))
      else None
    else Some(e)
  }

  function Meaning(es: seq<Event>, buf: seq<byte>, limit: nat): Option<seq<Event>> {
    if es == [] then Some([])
    else
      var (init, last) := (Meaning(es[..|es| - 1], buf, limit), Meaning1(es[|es| - 1], buf, limit));
      if init.None? || last.None? then None else Some(init.value + [last.value])
  }

  lemma MeanNext(es: seq<Event>, e: Event, buf: seq<byte>, limit: nat)
    requires Meaning(es, buf, limit).Some? && Meaning1(e, buf, limit).Some?
    ensures Meaning(es + [e], buf, limit) == Some(Meaning(es, buf, limit).value + [Meaning1(e, buf, limit).value])
  {}

  /** Bytes written at or after the limit leave every string handed over intact. */
  lemma {:induction false} StillMean(es: seq<Event>, buf: seq<byte>, buf': seq<byte>, limit: nat, limit': nat)
    requires Meaning(es, buf, limit).Some? && limit <= limit' <= |buf| == |buf'|
    requires forall k | 0 <= k < limit :: buf'[k] == buf[k]
    ensures Meaning(es, buf', limit') == Meaning(es, buf, limit)
    decreases |es|
  {
    if es != [] {
      var (n, e) := (|es| - 1, es[|es| - 1]);
      StillMean(es[..n], buf, buf', limit, limit');
      if e.String? && e.str.InPlace? {
        assert buf'[e.str.head..e.str.head + e.str.len] == buf[e.str.head..e.str.head + e.str.len];
      }
    }
  }

  function ResolveText(s: Text, buf: seq<byte>): Text {
    if s.InPlace? && s.head + s.len <= |buf| then Copied(buf[s.head..s.head + s.len]) else s
  }

  /** The value with every string in the buffer replaced by its bytes. */
  function Resolve(v: Value, buf: seq<byte>): Value
    decreases v
  {
    match v
    case VString(s) => VString(ResolveText(s, buf))
    case VObject(fs) => VObject(ResolveFields(fs, buf))
    case VArray(vs) => VArray(ResolveAll(vs, buf))
    case _ => v
  }

  function ResolveField(f: Field, buf: seq<byte>): Field
    decreases f
  {
    Field(ResolveText(f.name, buf), Resolve(f.value, buf))
  }

  function ResolveFields(fs: seq<Field>, buf: seq<byte>): (rs: seq<Field>)
    ensures |rs| == |fs| && forall i | 0 <= i < |fs| :: rs[i] == ResolveField(fs[i], buf)
    decreases fs
  {
    seq(|fs|, i requires 0 <= i < |fs| => ResolveField(fs[i], buf))
  }

  function ResolveAll(vs: seq<Value>, buf: seq<byte>): (rs: seq<Value>)
    ensures |rs| == |vs| && forall i | 0 <= i < |vs| :: rs[i] == Resolve(vs[i], buf)
    decreases vs
  {
    seq(|vs|, i requires 0 <= i < |vs| => Resolve(vs[i], buf))
  }

  lemma FieldsMean(members: seq<Value>, buf: seq<byte>)
    requires Paired(members)
    ensures Paired(ResolveAll(members, buf))
    ensures Fields(ResolveAll(members, buf)) == ResolveFields(Fields(members), buf)
  {}

  /** Closing an object or an array, before and after resolving. */
  lemma EndMeans(st: seq<Value>, e: Event, buf: seq<byte>)
    requires (e.EndObject? || e.EndArray?) && Step(st, e).Some?
    ensures Step(ResolveAll(st, buf), e) == Some(ResolveAll(Step(st, e).value, buf))
  {
    var (rs, next) := (ResolveAll(st, buf), Step(st, e).value);
    if e.EndObject? {
      var n := e.memberCount;
      assert rs[|st| - 2 * n..] == ResolveAll(st[|st| - 2 * n..], buf);
      FieldsMean(st[|st| - 2 * n..], buf);
    } else {
      var n := e.elementCount;
      assert VArray(rs[|st| - n..]) == Resolve(VArray(st[|st| - n..]), buf);
    }
    assert Step(rs, e).value == ResolveAll(next, buf);
  }

  /** An event in the buffer and the event it means do the same to the stack, up to resolving. */
  lemma StepMeans(st: seq<Value>, e: Event, buf: seq<byte>, limit: nat)
    requires Meaning1(e, buf, limit).Some? && Step(st, e).Some?
    ensures Step(ResolveAll(st, buf), Meaning1(e, buf, limit).value) == Some(ResolveAll(Step(st, e).value, buf))
  {
    if e.EndObject? || e.EndArray? {
      EndMeans(st, e, buf);
    } else {
      var (rs, next) := (ResolveAll(st, buf), Step(st, e).value);
      var g := Meaning1(e, buf, limit).value;
      if e.StartObject? {
        assert Resolve(VObject([]), buf) == VObject([]);
      } else if e.StartArray? {
        assert Resolve(VArray([]), buf) == VArray([]);
      } else {
        assert Resolve(Leaf(e), buf) == Leaf(g);
      }
      assert Step(rs, g).value == ResolveAll(next, buf);
    }
  }

  /** The stack built from events in the buffer resolves to the stack built from what they mean. */
  lemma {:induction false} RunMeans(es: seq<Event>, buf: seq<byte>, limit: nat)
    requires Meaning(es, buf, limit).Some? && Run(es).Some?
    ensures Run(Meaning(es, buf, limit).value) == Some(ResolveAll(Run(es).value, buf))
    decreases |es|
  {
    if es != [] {
      var n := |es| - 1;
      RunMeans(es[..n], buf, limit);
      StepMeans(Run(es[..n]).value, es[n], buf, limit);
      RunNext(Meaning(es[..n], buf, limit).value, Meaning1(es[n], buf, limit).value);
    }
  }
}
