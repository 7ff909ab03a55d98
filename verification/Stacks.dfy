/** The growing stack of rapidjson/internal/stack.h, in a block of the pool allocator. */
module Stacks {
  import opened Bytes
  import opened Allocators

  lemma TwoParts(m: seq<byte>, a: nat, b: nat, c: nat)
    requires a <= b <= c <= |m|
    ensures m[a..c][..b - a] == m[a..b] && m[a..c][b - a..] == m[b..c]
  {}

  class Stack {
    const allocator: MemoryPoolAllocator
    var stack: nat
    var stackTop: nat
    var stackEnd: nat
    var capacity: nat
    /** Which of the allocator's blocks holds the stack. */
    ghost var k: nat

    ghost predicate Valid()
      reads this, allocator
    {
      && allocator.Valid() && k < |allocator.blocks| && capacity > 0
      && allocator.blocks[k].addr == stack != 0 && allocator.blocks[k].size == capacity
      && stackEnd == stack + capacity && stack <= stackTop <= stackEnd
    }

    /** The contents are the bytes from the bottom to the top. */
    lemma ContentsAre()
      requires Valid()
      ensures stackTop <= allocator.memory.Length && Contents() == allocator.memory[stack..stackTop]
    {
      BlockInMemory(allocator.chunks, allocator.blocks, allocator.memory.Length, k);
    }

    /** What was pushed and not popped, oldest byte first. */
    ghost function Contents(): seq<byte>
      reads this, allocator, allocator.memory
    {
      if stack <= stackTop then Stretch(allocator.memory[..], stack, stackTop - stack) else []
    }

    predicate Crowded(n: nat)
      reads this
    {
      stackTop + n >= stackEnd
    }

    /** The capacity after growing for n more bytes. */
    function Grown(n: nat): nat
      requires stack <= stackTop
      reads this
    {
      if capacity * 2 < stackTop - stack + n then stackTop - stack + n else capacity * 2
    }

    /** If the stack must grow for n more bytes, the allocator can serve it. */
    ghost predicate CanPush(n: nat, granted: nat)
      requires Valid()
      reads this, allocator
    {
      Crowded(n) ==> allocator.CanRealloc(stack, capacity, Grown(n), granted)
    }

    constructor (allocator: MemoryPoolAllocator, capacity: nat, granted: nat)
      requires allocator.Valid() && capacity > 0 && allocator.CanMalloc(capacity, granted)
      modifies allocator`chunks, allocator`blocks
      ensures Valid() && this.allocator == allocator && this.capacity == capacity && Contents() == []
      ensures |allocator.blocks| == |old(allocator.blocks)| + 1 && k == |old(allocator.blocks)|
      ensures allocator.blocks[..k] == old(allocator.blocks)
    {
      var buffer := allocator.Malloc(capacity, granted);
      this.allocator, this.capacity, this.k := allocator, capacity, |allocator.blocks| - 1;
      stack, stackTop, stackEnd := buffer, buffer, buffer + capacity;
    }

    method Clear()
      requires Valid()
      modifies `stackTop
      ensures Valid() && Contents() == []
    {
      stackTop := stack;
    }

    /** Room for n bytes on top. All that was on the stack is still there, wherever the stack is now. */
    method Push(n: nat, granted: nat) returns (room: nat)
      requires Valid() && CanPush(n, granted)
      modifies this, allocator, allocator.memory
      ensures Valid() && k == old(k) && room == stackTop - n && room - stack == |old(Contents())|
      ensures old(stackTop + n < stackEnd) ==> capacity == old(capacity) && stack == old(stack)
      ensures old(stackTop + n >= stackEnd) ==> var needed := |old(Contents())| + n;
        capacity == if old(capacity) * 2 < needed then needed else old(capacity) * 2
      ensures |Contents()| == |old(Contents())| + n && Contents()[..|old(Contents())|] == old(Contents())
      ensures |allocator.blocks| == |old(allocator.blocks)|
      ensures forall j | 0 <= j < |allocator.blocks| && j != k ::
        allocator.blocks[j] == old(allocator.blocks[j])
        && allocator.Content(allocator.blocks[j]) == old(allocator.Content(allocator.blocks[j]))
    {
      ContentsAre();
      hide Laid;
      if stackTop + n >= stackEnd {
        Expand(n, granted);
      }
      room := Raise(n);
    }

    /** The top goes up within the capacity. */
    method Raise(n: nat) returns (room: nat)
      requires Valid() && stackTop + n <= stackEnd
      modifies `stackTop
      ensures Valid() && room == old(stackTop) == stackTop - n && room - stack == |old(Contents())|
      ensures |Contents()| == |old(Contents())| + n && Contents()[..|old(Contents())|] == old(Contents())
    {
      BlockInMemory(allocator.chunks, allocator.blocks, allocator.memory.Length, k);
      hide Laid;
      room := stackTop;
      stackTop := stackTop + n;
    }

    /** Moves the stack into a block of at least twice the capacity and with room for n bytes. */
    method Expand(n: nat, granted: nat)
      requires Valid() && allocator.CanRealloc(stack, capacity, Grown(n), granted)
      modifies this, allocator, allocator.memory
      ensures Valid() && k == old(k) && capacity == old(Grown(n)) && stackTop + n <= stackEnd
      ensures Contents() == old(Contents())
      ensures |allocator.blocks| == |old(allocator.blocks)|
      ensures forall j | 0 <= j < |allocator.blocks| && j != k ::
        allocator.blocks[j] == old(allocator.blocks[j])
        && allocator.Content(allocator.blocks[j]) == old(allocator.Content(allocator.blocks[j]))
    {
      var newCapacity := capacity * 2;
      var size := stackTop - stack;
      var newSize := stackTop - stack + n;
      if newCapacity < newSize {
        newCapacity := newSize;
      }
      hide Laid, Stretch;
      assert capacity < newCapacity;
      ghost var (was, base) := (allocator.memory[..], stack);
      BlockInMemory(allocator.chunks, allocator.blocks, allocator.memory.Length, k);
      stack := allocator.Realloc(stack, capacity, newCapacity, granted, k);
      BlockInMemory(allocator.chunks, allocator.blocks, allocator.memory.Length, k);
      StretchPrefix(was, allocator.memory[..], base, stack, capacity, size);
      capacity := newCapacity;
      stackTop := stack + size;
      stackEnd := stack + capacity;
    }

    /** The n bytes on top are taken off, and handed to the caller where they are. */
    method Pop(n: nat) returns (popped: nat)
      requires Valid() && |Contents()| >= n
      modifies `stackTop
      ensures Valid() && Contents() == old(Contents())[..|old(Contents())| - n]
      ensures popped + n <= allocator.memory.Length
        && allocator.memory[popped..popped + n] == old(Contents())[|old(Contents())| - n..]
    {
      ContentsAre();
      TwoParts(allocator.memory[..], stack, stackTop - n, stackTop);
      hide Laid, Contents;
      stackTop := stackTop - n;
      popped := stackTop;
      ContentsAre();
    }

    /** A value is pushed by writing its bytes into the room made for it. */
    method PushBytes(x: seq<byte>, granted: nat)
      requires Valid() && CanPush(|x|, granted)
      modifies this, allocator, allocator.memory
      ensures Valid() && k == old(k) && Contents() == old(Contents()) + x
      ensures |allocator.blocks| == |old(allocator.blocks)|
      ensures forall j | 0 <= j < |allocator.blocks| && j != k ::
        allocator.blocks[j] == old(allocator.blocks[j])
        && allocator.Content(allocator.blocks[j]) == old(allocator.Content(allocator.blocks[j]))
    {
      var room := Push(|x|, granted);
      Store(room, x);
    }

    /** Writes into the bytes on top. */
    method Store(room: nat, x: seq<byte>)
      requires Valid() && stack <= room && room + |x| == stackTop
      modifies allocator.memory
      ensures Valid() && Contents() == old(Contents())[..room - stack] + x
      ensures forall j | 0 <= j < |allocator.blocks| && j != k ::
        allocator.Content(allocator.blocks[j]) == old(allocator.Content(allocator.blocks[j]))
    {
      hide Laid;
      BlockInMemory(allocator.chunks, allocator.blocks, allocator.memory.Length, k);
      ghost var was := allocator.memory[..];
      Fill(room, x);
      ghost var now := allocator.memory[..];
      assert now[stack..stackTop] == was[stack..room] + x;
      forall j | 0 <= j < |allocator.blocks| && j != k
        ensures allocator.Content(allocator.blocks[j]) == old(allocator.Content(allocator.blocks[j]))
      {
        OthersKept(allocator.chunks, allocator.blocks, was, now, k, j);
      }
    }

    /** The bytes of x are written one by one. */
    method Fill(room: nat, x: seq<byte>)
      requires room + |x| <= allocator.memory.Length
      modifies allocator.memory
      ensures var was := old(allocator.memory[..]);
        allocator.memory[..] == was[..room] + x + was[room + |x|..]
    {
      ghost var was := allocator.memory[..];
      for i := 0 to |x|
        invariant allocator.memory[..] == was[..room] + x[..i] + was[room + i..]
      {
        allocator.memory[room + i] := x[i];
      }
    }
  }
}
