/** The pool allocator of rapidjson/rapidjson.h, over a flat memory: chunks obtained from the base
    allocator, blocks carved out of the newest chunk, and the blocks that are live. */
module Allocators {
  import opened Bytes

  const MAX_SIZE := 0xFFFF_FFFF_FFFF_FFFF

  /** sizeof(ChunkHeader): capacity, size, next. */
  const HEADER: nat := 24

  /** (size + 3) & ~3 on a 64-bit size_t. */
  function Round4(size: nat): (r: nat)
    ensures r <= MAX_SIZE
  {
    (size + 3) % (MAX_SIZE + 1) / 4 * 4
  }

  /** The sum of two sizes, as the machine computes it. */
  function Plus(a: nat, b: nat): (r: nat)
    ensures r <= MAX_SIZE
  {
    (a + b) % (MAX_SIZE + 1)
  }

  lemma PlusNothing(n: nat)
    requires n <= MAX_SIZE
    ensures Plus(0, n) == n
  {}

  /** Exactly the last three sizes are rounded to less than was asked for. */
  lemma RoundingIsSafe(size: nat)
    requires size <= MAX_SIZE
    ensures size <= MAX_SIZE - 3 <==> Round4(size) >= size
    ensures size <= MAX_SIZE - 3 ==> Round4(size) < size + 4 && Round4(size) % 4 == 0
    ensures size > MAX_SIZE - 3 ==> Round4(size) == 0
  {}

  /** The test for space in a chunk is right exactly when its sum does not wrap. */
  lemma FitTestIsExact(used: nat, capacity: nat, size: nat)
    requires used <= capacity <= MAX_SIZE && size <= MAX_SIZE
    ensures (Plus(used, size) <= capacity <==> used + size <= capacity) <==> used + size <= MAX_SIZE
  {}

  /** A chunk's memory is base..base + capacity, of which the first `size` bytes are taken. */
  datatype Chunk = Chunk(base: nat, capacity: nat, size: nat)

  /** A size that the head of the chunk list can take without a wrap, be there room or not. */
  ghost predicate Small(c: Chunk, size: nat) { size <= MAX_SIZE - 3 && c.size + Round4(size) <= MAX_SIZE }

  /** What is taken then: enough, a multiple of 4, and tested for as it should be. */
  lemma SmallIsSafe(c: Chunk, size: nat)
    requires c.size <= c.capacity <= MAX_SIZE && c.size % 4 == 0 && Small(c, size)
    ensures size <= Round4(size) && (c.size + Round4(size)) % 4 == 0
    ensures Plus(c.size, Round4(size)) == c.size + Round4(size)
  {
    RoundingIsSafe(size);
  }

  /** Any other size is taken for one that fits, and less is taken than was asked for. */
  lemma OthersAreCutShort(c: Chunk, size: nat)
    requires c.size <= c.capacity <= MAX_SIZE && size <= MAX_SIZE && !Small(c, size)
    ensures size > 0 && Plus(c.size, Round4(size)) <= c.capacity
    ensures size > MAX_SIZE - 3 || Plus(c.size, Round4(size)) < c.size
  {
    RoundingIsSafe(size);
  }

  /** A block handed out, and the index of the chunk it lies in. */
  datatype Block = Block(addr: nat, size: nat, home: nat)

  ghost predicate Inside(b: Block, c: Chunk) { c.base <= b.addr && b.addr + b.size <= c.base + c.size }

  ghost predicate Apart(b: Block, d: Block) {
    b.size > 0 && d.size > 0 ==> b.addr + b.size <= d.addr || d.addr + d.size <= b.addr
  }

  /** The memory of two chunks, headers included, does not overlap. */
  ghost predicate Separate(c: Chunk, d: Chunk) {
    c.base + c.capacity + HEADER <= d.base || d.base + d.capacity + HEADER <= c.base
  }

  /** The base allocator may return the `request` bytes from HEADER before `base` on: they lie in the memory
      and are not part of a chunk. */
  ghost predicate Granted(chunks: seq<Chunk>, limit: nat, base: nat, request: nat) {
    && HEADER <= base && base % 4 == 0 && base - HEADER + request <= limit
    && forall i | 0 <= i < |chunks| ::
      chunks[i].base + chunks[i].capacity + HEADER <= base || base + request <= chunks[i].base
  }

  /** A new chunk has its memory exactly when the request for it, header included, does not wrap. */
  lemma ChunkIsGranted(chunks: seq<Chunk>, blocks: seq<Block>, limit: nat, base: nat, capacity: nat)
    requires Laid(chunks, blocks, limit) && limit <= MAX_SIZE && capacity <= MAX_SIZE
    requires Granted(chunks, limit, base, Plus(HEADER, capacity))
    ensures Laid(chunks + [Chunk(base, capacity, 0)], blocks, limit) <==> HEADER + capacity <= MAX_SIZE
    ensures HEADER + capacity > MAX_SIZE ==> base + capacity > limit && HEADER <= base
  {
    var (c, all) := (Chunk(base, capacity, 0), chunks + [Chunk(base, capacity, 0)]);
    if HEADER + capacity <= MAX_SIZE {
      assert forall i | 0 <= i < |chunks| :: Separate(chunks[i], c);
    } else {
      assert all[|chunks|] == c && !ChunkOk(c, limit);
    }
  }

  /** The chunks with `size` bytes of the head taken. */
  function HeadTaken(chunks: seq<Chunk>, size: nat): seq<Chunk>
    requires |chunks| > 0
  {
    chunks[..|chunks| - 1] + [chunks[|chunks| - 1].(size := size)]
  }

  ghost predicate ChunkOk(c: Chunk, limit: nat) {
    HEADER <= c.base && c.base % 4 == 0 && c.size % 4 == 0 && c.size <= c.capacity && c.base + c.capacity <= limit
  }

  ghost predicate Placed(b: Block, chunks: seq<Chunk>) {
    b.addr % 4 == 0 && b.home < |chunks| && Inside(b, chunks[b.home])
  }

  /** Every block lies inside one chunk and at a multiple of 4; no two blocks overlap, no two chunks do. */
  ghost predicate Laid(chunks: seq<Chunk>, blocks: seq<Block>, limit: nat) {
    && (forall i | 0 <= i < |chunks| :: ChunkOk(chunks[i], limit))
    && (forall i, j | 0 <= i < j < |chunks| :: Separate(chunks[i], chunks[j]))
    && (forall k | 0 <= k < |blocks| :: Placed(blocks[k], chunks))
    && (forall k, l | 0 <= k < l < |blocks| :: Apart(blocks[k], blocks[l]))
  }

  function HeadOf(chunks: seq<Chunk>): Chunk
    requires |chunks| > 0
  {
    chunks[|chunks| - 1]
  }

  function HeadEnd(chunks: seq<Chunk>): nat
    requires |chunks| > 0
  {
    HeadOf(chunks).base + HeadOf(chunks).size
  }

  lemma HeadIsOk(chunks: seq<Chunk>, blocks: seq<Block>, limit: nat)
    requires Laid(chunks, blocks, limit) && |chunks| > 0
    ensures ChunkOk(HeadOf(chunks), limit)
  {}

  /** Taking more of the head keeps everything in place. */
  lemma TakesHead(chunks: seq<Chunk>, blocks: seq<Block>, limit: nat, size: nat)
    requires Laid(chunks, blocks, limit) && |chunks| > 0
    requires HeadOf(chunks).size <= size <= HeadOf(chunks).capacity && size % 4 == 0
    ensures Laid(HeadTaken(chunks, size), blocks, limit)
  {}

  /** A block whose last byte is the last one taken lies in the head. */
  lemma LastBlockIsInHead(chunks: seq<Chunk>, b: Block, limit: nat)
    requires Laid(chunks, [b], limit) && |chunks| > 0 && b.addr + b.size == HeadEnd(chunks)
    ensures b.home == |chunks| - 1
  {
    assert Placed([b][0], chunks);
    assert b.home < |chunks| - 1 ==> Separate(chunks[b.home], HeadOf(chunks));
  }

  /** What starts at the end of the head's taken bytes overlaps no block; nor does the block that
      ends there, however far it is extended. */
  lemma BeyondAllBlocks(chunks: seq<Chunk>, blocks: seq<Block>, limit: nat, b: Block, j: nat)
    requires Laid(chunks, blocks, limit) && |chunks| > 0 && j < |blocks|
    requires b.addr + b.size <= HeadOf(chunks).base + HeadOf(chunks).capacity
    requires b.addr == HeadEnd(chunks) ||
      exists k :: 0 <= k < |blocks| && k != j && b.addr == blocks[k].addr && b.addr + blocks[k].size == HeadEnd(chunks)
    ensures Apart(blocks[j], b)
  {}

  /** A block moved or resized into a place of its own. */
  lemma Replaces(chunks: seq<Chunk>, blocks: seq<Block>, limit: nat, k: nat, b: Block)
    requires Laid(chunks, blocks, limit) && k < |blocks| && Placed(b, chunks)
    requires forall j | 0 <= j < |blocks| && j != k :: Apart(blocks[j], b)
    ensures Laid(chunks, blocks[k := b], limit)
  {}

  lemma Appends(chunks: seq<Chunk>, blocks: seq<Block>, limit: nat, b: Block)
    requires Laid(chunks, blocks, limit) && Placed(b, chunks)
    requires forall j | 0 <= j < |blocks| :: Apart(blocks[j], b)
    ensures Laid(chunks, blocks + [b], limit)
  {}

  /** The newest block takes the place of block k. */
  lemma Drops(chunks: seq<Chunk>, blocks: seq<Block>, limit: nat, k: nat)
    requires Laid(chunks, blocks, limit) && k < |blocks| - 1
    ensures Laid(chunks, blocks[..|blocks| - 1][k := blocks[|blocks| - 1]], limit)
  {}

  /** A new block at the end of what is taken. */
  lemma Carves(chunks: seq<Chunk>, blocks: seq<Block>, limit: nat, taken: nat, b: Block)
    requires Laid(chunks, blocks, limit) && |chunks| > 0
    requires HeadOf(chunks).size <= taken <= HeadOf(chunks).capacity && taken % 4 == 0
    requires b.home == |chunks| - 1 && b.addr == HeadEnd(chunks) && b.addr + b.size <= HeadOf(chunks).base + taken
    ensures Laid(HeadTaken(chunks, taken), blocks + [b], limit)
  {
    forall j | 0 <= j < |blocks| ensures Apart(blocks[j], b) {
      BeyondAllBlocks(chunks, blocks, limit, b, j);
    }
    TakesHead(chunks, blocks, limit, taken);
    Appends(HeadTaken(chunks, taken), blocks, limit, b);
  }

  /** A block that is cut short does not lie in the chunk's taken bytes. */
  lemma Spoils(chunks: seq<Chunk>, blocks: seq<Block>, limit: nat, taken: nat, b: Block)
    requires Laid(chunks, blocks, limit) && |chunks| > 0 && limit <= MAX_SIZE
    requires b.home == |chunks| - 1 && b.addr == HeadEnd(chunks) && b.size > 0 && taken <= HeadOf(chunks).capacity
    requires b.size > MAX_SIZE - 3 || taken < HeadOf(chunks).size
    ensures !Laid(HeadTaken(chunks, taken), blocks + [b], limit)
  {
    var all := blocks + [b];
    assert !Placed(all[|blocks|], HeadTaken(chunks, taken));
  }

  /** The last block gets more of the head. */
  lemma Extends(chunks: seq<Chunk>, blocks: seq<Block>, limit: nat, taken: nat, k: nat, size: nat)
    requires Laid(chunks, blocks, limit) && |chunks| > 0
    requires HeadOf(chunks).size <= taken <= HeadOf(chunks).capacity && taken % 4 == 0
    requires k < |blocks| && blocks[k].addr + blocks[k].size == HeadEnd(chunks)
    requires blocks[k].addr + size <= HeadOf(chunks).base + taken
    ensures Laid(HeadTaken(chunks, taken), blocks[k := blocks[k].(size := size)], limit)
  {
    var b := blocks[k].(size := size);
    assert Placed(blocks[k], chunks);
    LastBlockIsInHead(chunks, blocks[k], limit);
    forall j | 0 <= j < |blocks| && j != k ensures Apart(blocks[j], b) {
      BeyondAllBlocks(chunks, blocks, limit, b, j);
    }
    TakesHead(chunks, blocks, limit, taken);
    Replaces(HeadTaken(chunks, taken), blocks, limit, k, b);
  }

  /** The last block gets less than it was given. */
  lemma SpoilsLast(chunks: seq<Chunk>, blocks: seq<Block>, limit: nat, taken: nat, k: nat, size: nat)
    requires Laid(chunks, blocks, limit) && |chunks| > 0 && limit <= MAX_SIZE && taken <= HeadOf(chunks).capacity
    requires k < |blocks| && blocks[k].addr + blocks[k].size == HeadEnd(chunks) && blocks[k].size < size
    requires size - blocks[k].size > MAX_SIZE - 3 || taken < HeadOf(chunks).size
    ensures !Laid(HeadTaken(chunks, taken), blocks[k := blocks[k].(size := size)], limit)
  {
    assert Placed(blocks[k], chunks);
    LastBlockIsInHead(chunks, blocks[k], limit);
    var all := blocks[k := blocks[k].(size := size)];
    assert !Placed(all[k], HeadTaken(chunks, taken));
  }

  /** A chunk whose capacity is not there stays so. */
  lemma NoMemory(chunks: seq<Chunk>, blocks: seq<Block>, limit: nat, taken: nat)
    requires |chunks| > 0 && HeadOf(chunks).base + HeadOf(chunks).capacity > limit
    ensures !Laid(HeadTaken(chunks, taken), blocks, limit)
  {
    assert !ChunkOk(HeadTaken(chunks, taken)[|chunks| - 1], limit);
  }

  /** The bytes at addr..addr + size. */
  function Stretch(memory: seq<byte>, addr: nat, size: nat): seq<byte> {
    if addr + size <= |memory| then memory[addr..addr + size] else []
  }

  lemma StretchPrefix(was: seq<byte>, now: seq<byte>, from: nat, to: nat, n: nat, m: nat)
    requires m <= n && from + n <= |was| && to + n <= |now| && Stretch(now, to, n) == Stretch(was, from, n)
    ensures Stretch(now, to, m) == Stretch(was, from, m)
  {
    assert Stretch(now, to, m) == Stretch(now, to, n)[..m] && Stretch(was, from, m) == Stretch(was, from, n)[..m];
  }

  lemma BlockInMemory(chunks: seq<Chunk>, blocks: seq<Block>, limit: nat, k: nat)
    requires Laid(chunks, blocks, limit) && k < |blocks|
    ensures 0 < blocks[k].addr && blocks[k].addr + blocks[k].size <= limit
  {}

  /** Bytes written inside one block leave the others as they are. */
  lemma OthersKept(chunks: seq<Chunk>, blocks: seq<Block>, was: seq<byte>, now: seq<byte>, to: nat, j: nat)
    requires Laid(chunks, blocks, |was|) && |now| == |was| && to < |blocks| && j < |blocks| && j != to
    requires forall a | 0 <= a < |was| && !(blocks[to].addr <= a < blocks[to].addr + blocks[to].size) ::
      now[a] == was[a]
    ensures Stretch(now, blocks[j].addr, blocks[j].size) == Stretch(was, blocks[j].addr, blocks[j].size)
  {}

  class MemoryPoolAllocator {
    const memory: array<byte>
    const chunkCapacity: nat
    /** The chunk list; the head of the linked list is the last one here. */
    var chunks: seq<Chunk>
    ghost var blocks: seq<Block>

    ghost predicate Valid()
      reads this
    {
      && memory.Length <= MAX_SIZE && chunkCapacity <= MAX_SIZE && |chunks| > 0
      && Laid(chunks, blocks, memory.Length)
    }

    ghost function Content(b: Block): seq<byte>
      reads memory
    {
      Stretch(memory[..], b.addr, b.size)
    }

    /** What the base allocator may return for a chunk of this capacity. */
    ghost predicate Grants(base: nat, capacity: nat)
      reads this
    {
      Granted(chunks, memory.Length, base, Plus(HEADER, capacity))
    }

    predicate NeedsChunk(size: nat)
      requires |chunks| > 0
      reads this
    {
      Plus(HeadOf(chunks).size, Round4(size)) > HeadOf(chunks).capacity
    }

    /** Without a wrap, a new chunk is needed exactly when the size, rounded up to a multiple of 4, is more than
        the head has left. */
    lemma NeedsExactly(size: nat)
      requires Valid() && Serves(size)
      ensures Round4(size) == (size + 3) / 4 * 4
      ensures NeedsChunk(size) <==> HeadOf(chunks).size + (size + 3) / 4 * 4 > HeadOf(chunks).capacity
    {
      hide Laid;
    }

    function ChunkFor(size: nat): nat { if chunkCapacity > Round4(size) then chunkCapacity else Round4(size) }

    /** No sum wraps in serving this size: neither where the head is tested, nor in asking for a chunk. */
    ghost predicate Serves(size: nat)
      requires |chunks| > 0
      reads this
    {
      Small(HeadOf(chunks), size) && (NeedsChunk(size) ==> HEADER + ChunkFor(size) <= MAX_SIZE)
    }

    /** A block of this size can be asked for: `granted` is what the base allocator returns if it is needed. */
    ghost predicate CanMalloc(size: nat, granted: nat)
      requires |chunks| > 0
      reads this
    {
      Serves(size) && (NeedsChunk(size) ==> Grants(granted, ChunkFor(size)))
    }

    /** A block can be resized: one that is last and fits its chunk needs nothing from the base allocator. */
    ghost predicate CanRealloc(originalPtr: nat, originalSize: nat, newSize: nat, granted: nat)
      requires |chunks| > 0
      reads this
    {
      if newSize > MAX_SIZE then false
      else if originalPtr == 0 then CanMalloc(newSize, granted)
      else if originalSize >= newSize then true
      else if originalPtr == HeadEnd(chunks) - originalSize then
        Small(HeadOf(chunks), newSize - originalSize)
        && (NeedsChunk(newSize - originalSize) ==> CanMalloc(newSize, granted))
      else CanMalloc(newSize, granted)
    }

    /** The first chunk. */
    constructor (memory: array<byte>, chunkCapacity: nat, granted: nat)
      requires memory.Length <= MAX_SIZE && chunkCapacity <= MAX_SIZE
      requires Granted([], memory.Length, granted, Plus(HEADER, chunkCapacity))
      ensures this.memory == memory && this.chunkCapacity == chunkCapacity
      ensures chunks == [Chunk(granted, chunkCapacity, 0)] && blocks == []
      ensures Valid() <==> HEADER + chunkCapacity <= MAX_SIZE
    {
      this.memory, this.chunkCapacity := memory, chunkCapacity;
      chunks, blocks := [Chunk(granted, chunkCapacity, 0)], [];
      ChunkIsGranted([], [], memory.Length, granted, chunkCapacity);
      assert [] + [Chunk(granted, chunkCapacity, 0)] == [Chunk(granted, chunkCapacity, 0)];
    }

    /** A new head. If the request wraps, the capacity that is recorded is more than was granted. */
    method AddChunk(capacity: nat, granted: nat)
      requires Valid() && capacity <= MAX_SIZE && Grants(granted, capacity)
      modifies `chunks
      ensures chunks == old(chunks) + [Chunk(granted, capacity, 0)]
      ensures Valid() <==> HEADER + capacity <= MAX_SIZE
      ensures HEADER <= granted && (!Valid() ==> granted + capacity > memory.Length)
    {
      ChunkIsGranted(chunks, blocks, memory.Length, granted, capacity);
      hide Laid, ChunkOk;
      chunks := chunks + [Chunk(granted, capacity, 0)];
    }

    /** A block at the end of the head chunk, or in a new chunk when the head has no room. The layout
        stays sound exactly when no sum wraps. */
    method Malloc(size: nat, granted: nat) returns (buffer: nat)
      requires Valid() && size <= MAX_SIZE && (NeedsChunk(size) ==> Grants(granted, ChunkFor(size)))
      modifies `chunks, `blocks
      ensures buffer != 0 && |chunks| > 0 && blocks == old(blocks) + [Block(buffer, size, |chunks| - 1)]
      ensures old(NeedsChunk(size)) ==>
        chunks == old(chunks) + [Chunk(granted, ChunkFor(size), Round4(size))] && buffer == granted
      ensures !old(NeedsChunk(size)) ==>
        chunks == HeadTaken(old(chunks), old(Plus(HeadOf(chunks).size, Round4(size)))) && buffer == old(HeadEnd(chunks))
      ensures Valid() <==> old(Serves(size))
      ensures old(Serves(size)) ==>
        var (head, rounded) := (old(HeadOf(chunks)), (size + 3) / 4 * 4);
        if head.size + rounded <= head.capacity then
          buffer == head.base + head.size && |chunks| == |old(chunks)|
          && HeadOf(chunks) == head.(size := head.size + rounded)
        else
          buffer == granted && |chunks| == |old(chunks)| + 1
          && HeadOf(chunks) == Chunk(granted, if chunkCapacity > rounded then chunkCapacity else rounded, rounded)
    {
      var rounded := Round4(size);
      hide Laid, Round4, Plus, Grants, Granted;
      HeadIsOk(chunks, blocks, memory.Length);
      ghost var (small, serves) := (Small(HeadOf(chunks), size), Serves(size));
      if serves { NeedsExactly(size); }
      if small { SmallIsSafe(HeadOf(chunks), size); } else { OthersAreCutShort(HeadOf(chunks), size); }
      if Plus(HeadOf(chunks).size, rounded) > HeadOf(chunks).capacity {
        AddChunk(ChunkFor(size), granted);
        PlusNothing(rounded);
        if serves { SmallIsSafe(HeadOf(chunks), size); }
      }
      buffer := HeadEnd(chunks);
      ghost var b := Block(buffer, size, |chunks| - 1);
      var taken := Plus(HeadOf(chunks).size, rounded);
      if serves {
        Carves(chunks, blocks, memory.Length, taken, b);
      } else if small {
        NoMemory(chunks, blocks + [b], memory.Length, taken);
      } else {
        Spoils(chunks, blocks, memory.Length, taken, b);
      }
      chunks := HeadTaken(chunks, taken);
      blocks := blocks + [b];
    }

    /** A block that its owner now takes for smaller. */
    ghost method Shrink(size: nat, k: nat)
      requires Valid() && k < |blocks| && size <= blocks[k].size
      modifies `blocks
      ensures Valid() && blocks == old(blocks)[k := old(blocks)[k].(size := size)]
    {
      var b := blocks[k].(size := size);
      assert Placed(blocks[k], chunks);
      forall j | 0 <= j < |blocks| && j != k ensures Apart(blocks[j], b) {
        if k < j { assert Apart(blocks[k], blocks[j]); } else { assert Apart(blocks[j], blocks[k]); }
      }
      Replaces(chunks, blocks, memory.Length, k, b);
      blocks := blocks[k := b];
    }

    /** memcpy between two stretches that do not overlap. */
    method Copy(buffer: nat, original: nat, size: nat)
      requires buffer + size <= memory.Length && original + size <= memory.Length
      requires size > 0 ==> buffer + size <= original || original + size <= buffer
      modifies memory
      ensures Stretch(memory[..], buffer, size) == old(Stretch(memory[..], original, size))
      ensures memory[buffer..buffer + size] == old(memory[..])[original..original + size]
      ensures forall a | 0 <= a < memory.Length && !(buffer <= a < buffer + size) :: memory[a] == old(memory[a])
    {
      for i := 0 to size
        invariant memory[buffer..buffer + i] == old(memory[original..original + i])
        invariant forall a | 0 <= a < memory.Length && !(buffer <= a < buffer + i) :: memory[a] == old(memory[a])
      {
        memory[buffer + i] := memory[original + i];
      }
    }

    /** A new block, filled from block k, takes the place of block k. */
    method Move(newSize: nat, granted: nat, original: nat, size: nat, ghost k: nat) returns (buffer: nat)
      requires Valid() && CanMalloc(newSize, granted)
      requires k < |blocks| && blocks[k].addr == original && blocks[k].size == size < newSize
      modifies `chunks, `blocks, memory
      ensures Valid() && buffer != 0 && |blocks| == |old(blocks)| && blocks == old(blocks)[k := blocks[k]]
      ensures blocks[k].addr == buffer && blocks[k].size == newSize
      ensures Stretch(memory[..], buffer, size) == old(Stretch(memory[..], original, size))
      ensures buffer + size <= memory.Length && original + size <= memory.Length
        && memory[buffer..buffer + size] == old(memory[..])[original..original + size]
      ensures forall j | 0 <= j < |blocks| && j != k :: Content(blocks[j]) == old(Content(blocks[j]))
    {
      buffer := Malloc(newSize, granted);
      ghost var (last, b) := (|blocks| - 1, blocks[|blocks| - 1]);
      assert Apart(blocks[k], b) && Placed(blocks[k], chunks) && Placed(b, chunks);
      Copy(buffer, original, size);
      forall j | 0 <= j < last ensures Content(blocks[j]) == old(Content(blocks[j])) {
        OthersKept(chunks, blocks, old(memory[..]), memory[..], last, j);
      }
      Drops(chunks, blocks, memory.Length, k);
      blocks := blocks[..last][k := b];
    }

    /** Resizes block k: in place when it shrinks, or when it is the last one and the chunk has room;
        otherwise into a new block. Its first bytes stay, and so does every other block. */
    method Realloc(originalPtr: nat, originalSize: nat, newSize: nat, granted: nat, ghost k: nat) returns (buffer: nat)
      requires Valid() && CanRealloc(originalPtr, originalSize, newSize, granted)
      requires originalPtr != 0 ==> k < |blocks| && blocks[k].addr == originalPtr && blocks[k].size == originalSize
      modifies `chunks, `blocks, memory
      ensures Valid() && buffer != 0
      ensures originalPtr == 0 ==>
        memory[..] == old(memory[..]) && blocks == old(blocks) + [Block(buffer, newSize, |chunks| - 1)]
      ensures originalPtr != 0 ==> |blocks| == |old(blocks)| && blocks == old(blocks)[k := blocks[k]]
      ensures originalPtr != 0 ==> blocks[k].addr == buffer && blocks[k].size == newSize
      ensures originalPtr != 0 ==> var kept := if originalSize < newSize then originalSize else newSize;
        Stretch(memory[..], buffer, kept) == old(Stretch(memory[..], originalPtr, kept))
        && buffer + kept <= memory.Length && originalPtr + kept <= memory.Length
        && memory[buffer..buffer + kept] == old(memory[..])[originalPtr..originalPtr + kept]
      ensures originalPtr != 0 ==>
        forall j | 0 <= j < |blocks| && j != k :: Content(blocks[j]) == old(Content(blocks[j]))
    {
      hide Laid, Round4, Plus, Grants;
      if originalPtr == 0 {
        buffer := Malloc(newSize, granted);
        return;
      }
      BlockInMemory(chunks, blocks, memory.Length, k);
      if originalSize >= newSize {
        Shrink(newSize, k);
        return originalPtr;
      }
      var grown := GrowInPlace(originalPtr, originalSize, newSize, k);
      if grown { return originalPtr; }
      buffer := Move(newSize, granted, originalPtr, originalSize, k);
    }

    /** Expands a block that is the last allocation, if there is space. The layout stays sound exactly when
        no sum wraps in testing for it. */
    method GrowInPlace(originalPtr: nat, originalSize: nat, newSize: nat, ghost k: nat) returns (grown: bool)
      requires Valid() && originalSize < newSize <= MAX_SIZE
      requires k < |blocks| && blocks[k].addr == originalPtr && blocks[k].size == originalSize
      modifies `chunks, `blocks
      ensures grown <==>
        old(originalPtr == HeadEnd(chunks) - originalSize && !NeedsChunk(newSize - originalSize))
      ensures grown ==>
        chunks == HeadTaken(old(chunks), old(Plus(HeadOf(chunks).size, Round4(newSize - originalSize))))
        && blocks == old(blocks)[k := old(blocks)[k].(size := newSize)]
      ensures !grown ==> chunks == old(chunks) && blocks == old(blocks)
      ensures Valid() <==> !grown || old(Small(HeadOf(chunks), newSize - originalSize))
    {
      if originalPtr != HeadEnd(chunks) - originalSize { return false; }
      ghost var small := Small(HeadOf(chunks), newSize - originalSize);
      var increment := Round4(newSize - originalSize);
      var taken := Plus(HeadOf(chunks).size, increment);
      if small {
        SmallIsSafe(HeadOf(chunks), newSize - originalSize);
      } else {
        OthersAreCutShort(HeadOf(chunks), newSize - originalSize);
        SpoilsLast(chunks, blocks, memory.Length, taken, k, newSize);
      }
      hide Round4, Plus, Laid, Small;
      grown := taken <= HeadOf(chunks).capacity;
      if grown {
        if small { Extends(chunks, blocks, memory.Length, taken, k, newSize); }
        chunks := HeadTaken(chunks, taken);
        blocks := blocks[k := blocks[k].(size := newSize)];
      }
    }
  }

  // --- sizes near the end of the range ---

  /** A block of all the bytes there can be: its size is rounded to nothing, so no room is taken for it,
      and the next block would stand in the same place. */
  method NothingForMuch(memory: array<byte>) returns (a: MemoryPoolAllocator, first: nat)
    requires memory.Length == 64
    ensures fresh(a) && !a.Valid() && a.blocks == [Block(first, MAX_SIZE, 0)]
    ensures |a.chunks| > 0 && first == HeadEnd(a.chunks)
  {
    a := new MemoryPoolAllocator(memory, 16, 24);
    assert Round4(MAX_SIZE) == 0;
    first := a.Malloc(MAX_SIZE, 0);
  }

  /** A smaller size is rounded well, but with the header of its chunk it wraps: eight bytes are asked for,
      and a capacity of nearly all there can be is recorded. */
  method EightForMuch(memory: array<byte>) returns (a: MemoryPoolAllocator)
    requires memory.Length == 64
    ensures fresh(a) && !a.Valid() && |a.chunks| > 0 && Plus(HEADER, HeadOf(a.chunks).capacity) == 8
  {
    a := new MemoryPoolAllocator(memory, 16, 24);
    var size := MAX_SIZE - 15;
    assert Round4(size) == size && Plus(HEADER, size) == 8;
    var first := a.Malloc(size, 64);
  }
}
