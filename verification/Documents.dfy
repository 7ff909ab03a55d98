/** The document as the handler of a reader: its stack of values, updated call by call. */
module Documents {
  import opened Options
  import opened Bytes
  import opened Json
  import opened Dom

  class Document {
    var stack: seq<Value>
    var root: Value
    var parseError: Option<Error>
    var errorOffset: int
    ghost var log: seq<Event>

    /** The stack is the run of the handler calls made so far. */
    ghost predicate Valid()
      reads this
    {
      Run(log) == Some(stack)
    }

    constructor ()
      ensures Valid() && log == [] && stack == [] && root == VNull && parseError == None
    {
      stack, root, parseError, errorOffset, log := [], VNull, None, 0, [];
    }

    method Null()
      requires Valid()
      modifies `stack, `log
      ensures Valid() && log == old(log) + [Event.Null] && stack == old(stack) + [VNull]
    {
      hide Run;
      stack := stack + [VNull];
      RunNext(log, Event.Null);
      log := log + [Event.Null];
    }

    method Bool(b: bool)
      requires Valid()
      modifies `stack, `log
      ensures Valid() && log == old(log) + [Event.Bool(b)] && stack == old(stack) + [VBool(b)]
    {
      hide Run;
      stack := stack + [VBool(b)];
      RunNext(log, Event.Bool(b));
      log := log + [Event.Bool(b)];
    }

    method Int(i: int)
      requires Valid()
      modifies `stack, `log
      ensures Valid() && log == old(log) + [Event.Int(i)] && stack == old(stack) + [Leaf(Event.Int(i))]
    {
      hide Run;
      stack := stack + [VNumber(FromInt(i))];
      RunNext(log, Event.Int(i));
      log := log + [Event.Int(i)];
    }

    method Uint(i: int)
      requires Valid()
      modifies `stack, `log
      ensures Valid() && log == old(log) + [Event.Uint(i)] && stack == old(stack) + [Leaf(Event.Uint(i))]
    {
      hide Run;
      stack := stack + [VNumber(FromUint(i))];
      RunNext(log, Event.Uint(i));
      log := log + [Event.Uint(i)];
    }

    method Int64(i: int)
      requires Valid()
      modifies `stack, `log
      ensures Valid() && log == old(log) + [Event.Int64(i)] && stack == old(stack) + [Leaf(Event.Int64(i))]
    {
      hide Run;
      stack := stack + [VNumber(FromInt64(i))];
      RunNext(log, Event.Int64(i));
      log := log + [Event.Int64(i)];
    }

    method Uint64(i: int)
      requires Valid()
      modifies `stack, `log
      ensures Valid() && log == old(log) + [Event.Uint64(i)] && stack == old(stack) + [Leaf(Event.Uint64(i))]
    {
      hide Run;
      stack := stack + [VNumber(FromUint64(i))];
      RunNext(log, Event.Uint64(i));
      log := log + [Event.Uint64(i)];
    }

    method Double(literal: seq<byte>)
      requires Valid()
      modifies `stack, `log
      ensures Valid() && log == old(log) + [Event.Double(literal)] && stack == old(stack) + [VDouble(literal)]
    {
      hide Run;
      stack := stack + [VDouble(literal)];
      RunNext(log, Event.Double(literal));
      log := log + [Event.Double(literal)];
    }

    method String(str: Text)
      requires Valid()
      modifies `stack, `log
      ensures Valid() && log == old(log) + [Event.String(str)] && stack == old(stack) + [VString(str)]
    {
      hide Run;
      stack := stack + [VString(str)];
      RunNext(log, Event.String(str));
      log := log + [Event.String(str)];
    }

    method StartObject()
      requires Valid()
      modifies `stack, `log
      ensures Valid() && log == old(log) + [Event.StartObject] && stack == old(stack) + [VObject([])]
    {
      hide Run;
      stack := stack + [VObject([])];
      RunNext(log, Event.StartObject);
      log := log + [Event.StartObject];
    }

    /** Pops the members and makes them the object on top. */
    method EndObject(memberCount: nat)
      requires Valid() && |stack| > 2 * memberCount && Paired(stack[|stack| - 2 * memberCount..])
      modifies `stack, `log
      ensures Valid() && log == old(log) + [Event.EndObject(memberCount)]
      ensures var base := |old(stack)| - 2 * memberCount - 1;
        stack == old(stack)[..base] + [VObject(Fields(old(stack)[base + 1..]))]
    {
      hide Run;
      var bottom := |stack| - 2 * memberCount;
      var members := stack[bottom..];
      ghost var was := stack;
      stack := stack[..bottom];
      stack := stack[bottom - 1 := VObject(Fields(members))];
      assert stack == was[..bottom - 1] + [VObject(Fields(members))];
      RunNext(log, Event.EndObject(memberCount));
      log := log + [Event.EndObject(memberCount)];
    }

    method StartArray()
      requires Valid()
      modifies `stack, `log
      ensures Valid() && log == old(log) + [Event.StartArray] && stack == old(stack) + [VArray([])]
    {
      hide Run;
      stack := stack + [VArray([])];
      RunNext(log, Event.StartArray);
      log := log + [Event.StartArray];
    }

    /** Pops the elements and makes them the array on top. */
    method EndArray(elementCount: nat)
      requires Valid() && |stack| > elementCount
      modifies `stack, `log
      ensures Valid() && log == old(log) + [Event.EndArray(elementCount)]
      ensures var base := |old(stack)| - elementCount - 1;
        stack == old(stack)[..base] + [VArray(old(stack)[base + 1..])]
    {
      hide Run;
      var bottom := |stack| - elementCount;
      var elements := stack[bottom..];
      ghost var was := stack;
      stack := stack[..bottom];
      stack := stack[bottom - 1 := VArray(elements)];
      assert stack == was[..bottom - 1] + [VArray(elements)];
      RunNext(log, Event.EndArray(elementCount));
      log := log + [Event.EndArray(elementCount)];
    }

    /** Takes the root off the stack, or drops what a failed parse left there. */
    method Finish(ok: bool, error: Option<Error>, offset: int)
      requires ok ==> |stack| == 1
      modifies this
      ensures Valid() && stack == [] && log == []
      ensures root == if ok then old(stack)[0] else VNull
      ensures parseError == (if ok then None else error) && errorOffset == (if ok then 0 else offset)
    {
      root := if ok then stack[0] else VNull;
      parseError := if ok then None else error;
      errorOffset := if ok then 0 else offset;
      stack, log := [], [];
    }
  }
}
