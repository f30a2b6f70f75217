/**
 The memory pool of the JSON library: blocks are cut from the newest chunk and never freed one by one.  Chunks
 and blocks have addresses in one flat memory; the base allocator may put a chunk anywhere that is free, or fail.
 */
module PoolAllocator {
  import opened Slices

  const HEADER: nat := 24

  /** `RAPIDJSON_ALIGN`: the next multiple of eight. */
  function Align(n: nat): (a: nat)
    ensures n <= a < n + 8 && a % 8 == 0
  {
    (n + 7) / 8 * 8
  }

  datatype Chunk = Chunk(base: nat, capacity: nat, size: nat) {
    /** Where its blocks start. */
    function Data(): nat { base + HEADER }

    /** Where the next block starts. */
    function Free(): nat { Data() + size }

    function End(): nat { Data() + capacity }
  }

  /** A block handed out: the number of its chunk, oldest chunk first, its address and the bytes it holds. */
  datatype Block = Block(chunk: nat, addr: nat, room: nat) {
    function End(): nat { addr + room }
  }

  datatype Pointer = Null | At(addr: nat)

  // ---- what is kept --------------------------------------------------------------------

  predicate ChunkOk(c: Chunk, limit: nat) {
    c.size <= c.capacity && c.size % 8 == 0 && c.End() <= limit
  }

  predicate Apart(c: Chunk, d: Chunk) {
    c.End() <= d.base || d.End() <= c.base
  }

  predicate ChunksOk(chunks: seq<Chunk>, limit: nat) {
    && (forall i :: 0 <= i < |chunks| ==> ChunkOk(chunks[i], limit))
    && (forall i, j :: 0 <= i < j < |chunks| ==> Apart(chunks[i], chunks[j]))
  }

  /** The block lies in the used part of its chunk, at a multiple of eight bytes. */
  predicate BlockOk(b: Block, chunks: seq<Chunk>) {
    && b.chunk < |chunks| && chunks[b.chunk].Data() <= b.addr && b.End() <= chunks[b.chunk].Free()
    && (b.addr - chunks[b.chunk].Data()) % 8 == 0 && b.room % 8 == 0 && b.room > 0
  }

  predicate Disjoint(a: Block, b: Block) {
    a.End() <= b.addr || b.End() <= a.addr
  }

  predicate BlocksOk(blocks: seq<Block>, chunks: seq<Chunk>) {
    && (forall i :: 0 <= i < |blocks| ==> BlockOk(blocks[i], chunks))
    && (forall i, j :: 0 <= i < j < |blocks| ==> Disjoint(blocks[i], blocks[j]))
  }

  function Rooms(blocks: seq<Block>): nat {
    if blocks == [] then 0 else Rooms(blocks[..|blocks| - 1]) + blocks[|blocks| - 1].room
  }

  function Used(chunks: seq<Chunk>): nat {
    if chunks == [] then 0 else Used(chunks[..|chunks| - 1]) + chunks[|chunks| - 1].size
  }

  /** Everything the pool keeps; the last conjunct says that no used byte is outside the blocks. */
  predicate PoolOk(chunks: seq<Chunk>, blocks: seq<Block>, limit: nat) {
    ChunksOk(chunks, limit) && BlocksOk(blocks, chunks) && Rooms(blocks) == Used(chunks)
  }

  function Head(chunks: seq<Chunk>): Chunk
    requires chunks != []
  {
    chunks[|chunks| - 1]
  }

  /** The head chunk with `n` more bytes used. */
  function Bump(chunks: seq<Chunk>, n: nat): (r: seq<Chunk>)
    requires chunks != []
    ensures |r| == |chunks| && r[0].base == chunks[0].base
  {
    chunks[|chunks| - 1 := Head(chunks).(size := Head(chunks).size + n)]
  }

  // ---- steps ---------------------------------------------------------------------------

  lemma BumpKeepsChunks(chunks: seq<Chunk>, n: nat, limit: nat)
    requires ChunksOk(chunks, limit) && chunks != [] && n % 8 == 0 && Head(chunks).size + n <= Head(chunks).capacity
    ensures ChunksOk(Bump(chunks, n), limit)
    ensures Used(Bump(chunks, n)) == Used(chunks) + n
  {
    var after := Bump(chunks, n);
    assert after[..|chunks| - 1] == chunks[..|chunks| - 1];
    forall i | 0 <= i < |after|
      ensures ChunkOk(after[i], limit) && after[i].base == chunks[i].base && after[i].End() == chunks[i].End()
    {
      assert ChunkOk(chunks[i], limit);
    }
    forall i, j | 0 <= i < j < |after| ensures Apart(after[i], after[j]) {
      assert Apart(chunks[i], chunks[j]);
    }
  }

  lemma BumpKeepsBlock(b: Block, chunks: seq<Chunk>, n: nat)
    requires chunks != [] && BlockOk(b, chunks)
    ensures BlockOk(b, Bump(chunks, n))
  {
  }

  /** A block in the used part of a chunk is disjoint from what lies behind the used part of the head. */
  lemma BeforeFree(b: Block, chunks: seq<Chunk>, next: Block, limit: nat)
    requires ChunksOk(chunks, limit) && chunks != [] && BlockOk(b, chunks)
    requires Head(chunks).Free() <= next.addr && next.End() <= Head(chunks).End()
    ensures Disjoint(b, next)
  {
    var h := |chunks| - 1;
    assert ChunkOk(chunks[b.chunk], limit) && ChunkOk(chunks[h], limit);
    if b.chunk < h {
      assert Apart(chunks[b.chunk], chunks[h]);
    }
  }

  lemma AddBlock(chunks: seq<Chunk>, blocks: seq<Block>, n: nat, limit: nat)
    requires PoolOk(chunks, blocks, limit) && chunks != [] && 0 < n && n % 8 == 0
    requires Head(chunks).size + n <= Head(chunks).capacity
    ensures PoolOk(Bump(chunks, n), blocks + [Block(|chunks| - 1, Head(chunks).Free(), n)], limit)
  {
    var b, after := Block(|chunks| - 1, Head(chunks).Free(), n), Bump(chunks, n);
    var more := blocks + [b];
    BumpKeepsChunks(chunks, n, limit);
    assert ChunkOk(Head(chunks), limit);
    forall i | 0 <= i < |more| ensures BlockOk(more[i], after) {
      if i < |blocks| {
        BumpKeepsBlock(blocks[i], chunks, n);
      }
    }
    forall i, j | 0 <= i < j < |more| ensures Disjoint(more[i], more[j]) {
      if j < |blocks| {
        assert Disjoint(blocks[i], blocks[j]);
      } else {
        BeforeFree(blocks[i], chunks, b, limit);
      }
    }
    assert more[..|blocks|] == blocks;
  }

  lemma PushChunk(chunks: seq<Chunk>, blocks: seq<Block>, c: Chunk, limit: nat)
    requires PoolOk(chunks, blocks, limit) && ChunkOk(c, limit) && c.size == 0
    requires forall i :: 0 <= i < |chunks| ==> Apart(chunks[i], c)
    ensures PoolOk(chunks + [c], blocks, limit)
  {
    var after := chunks + [c];
    assert after[..|chunks|] == chunks;
    assert forall i :: 0 <= i < |blocks| ==> BlockOk(blocks[i], chunks) && BlockOk(blocks[i], after);
  }

  /** The test of `Realloc` holds only of the block that ends where the head chunk is free, so of the true last
      one: no block of an older chunk can be mistaken for it, whatever the addresses of the chunks. */
  lemma OnlyLastBlockPasses(chunks: seq<Chunk>, b: Block, asked: nat, limit: nat)
    requires ChunksOk(chunks, limit) && BlockOk(b, chunks) && 0 < asked <= b.room
    requires b.addr == Head(chunks).Free() - asked
    ensures b.chunk == |chunks| - 1 && b.room == asked && b.End() == Head(chunks).Free()
  {
    var h := |chunks| - 1;
    assert ChunkOk(chunks[b.chunk], limit) && ChunkOk(chunks[h], limit);
    assert b.chunk < h ==> Apart(chunks[b.chunk], chunks[h]);
  }

  /** No block starts where the head chunk is free. */
  lemma NoBlockAtFree(chunks: seq<Chunk>, b: Block, limit: nat)
    requires ChunksOk(chunks, limit) && BlockOk(b, chunks)
    ensures b.addr != Head(chunks).Free()
  {
    var h := |chunks| - 1;
    assert ChunkOk(chunks[b.chunk], limit) && ChunkOk(chunks[h], limit);
    assert b.chunk < h ==> Apart(chunks[b.chunk], chunks[h]);
  }

  lemma {:induction false} RoomsUpdate(blocks: seq<Block>, k: nat, b: Block)
    requires k < |blocks|
    ensures Rooms(blocks[k := b]) == Rooms(blocks) - blocks[k].room + b.room
  {
    var last := |blocks| - 1;
    if k == last {
      assert blocks[k := b][..last] == blocks[..last];
    } else {
      RoomsUpdate(blocks[..last], k, b);
      assert blocks[k := b][..last] == blocks[..last][k := b];
    }
  }

  lemma GrowBlock(chunks: seq<Chunk>, blocks: seq<Block>, k: nat, n: nat, limit: nat)
    requires PoolOk(chunks, blocks, limit) && k < |blocks| && n % 8 == 0
    requires blocks[k].chunk == |chunks| - 1 && blocks[k].End() == Head(chunks).Free()
    requires Head(chunks).size + n <= Head(chunks).capacity
    ensures PoolOk(Bump(chunks, n), blocks[k := blocks[k].(room := blocks[k].room + n)], limit)
  {
    var b := blocks[k].(room := blocks[k].room + n);
    var grown, after := blocks[k := b], Bump(chunks, n);
    BumpKeepsChunks(chunks, n, limit);
    RoomsUpdate(blocks, k, b);
    assert BlockOk(blocks[k], chunks);
    GrownOk(chunks, blocks[k], n, limit);
    forall i | 0 <= i < |grown| ensures BlockOk(grown[i], after) {
      if i != k {
        assert BlockOk(blocks[i], chunks);
        BumpKeepsBlock(blocks[i], chunks, n);
      }
    }
    GrownApart(chunks, blocks, k, n, limit);
  }

  lemma GrownOk(chunks: seq<Chunk>, b: Block, n: nat, limit: nat)
    requires ChunksOk(chunks, limit) && BlockOk(b, chunks) && n % 8 == 0
    requires b.chunk == |chunks| - 1 && b.End() == Head(chunks).Free()
    ensures BlockOk(b.(room := b.room + n), Bump(chunks, n))
  {
  }

  lemma GrownApart(chunks: seq<Chunk>, blocks: seq<Block>, k: nat, n: nat, limit: nat)
    requires ChunksOk(chunks, limit) && BlocksOk(blocks, chunks) && k < |blocks|
    requires blocks[k].chunk == |chunks| - 1 && blocks[k].End() == Head(chunks).Free()
    requires Head(chunks).size + n <= Head(chunks).capacity
    ensures var grown := blocks[k := blocks[k].(room := blocks[k].room + n)];
            forall i, j :: 0 <= i < j < |grown| ==> Disjoint(grown[i], grown[j])
  {
    var b := blocks[k].(room := blocks[k].room + n);
    var grown := blocks[k := b];
    forall i | 0 <= i < |blocks| && i != k ensures Disjoint(blocks[i], b) {
      assert BlockOk(blocks[i], chunks) && BlockOk(blocks[k], chunks);
      assert if i < k then Disjoint(blocks[i], blocks[k]) else Disjoint(blocks[k], blocks[i]);
      GrownDisjoint(chunks, blocks[i], blocks[k], n, limit);
    }
    hide BlockOk, ChunkOk;
    forall i, j | 0 <= i < j < |grown| ensures Disjoint(grown[i], grown[j]) {
      if i == k {
        assert Disjoint(blocks[j], b);
      } else if j == k {
        assert Disjoint(blocks[i], b);
      } else {
        assert Disjoint(blocks[i], blocks[j]);
      }
    }
  }

  lemma GrownDisjoint(chunks: seq<Chunk>, other: Block, b: Block, n: nat, limit: nat)
    requires ChunksOk(chunks, limit) && BlockOk(other, chunks) && BlockOk(b, chunks) && Disjoint(other, b)
    requires b.chunk == |chunks| - 1 && b.End() == Head(chunks).Free()
    requires Head(chunks).size + n <= Head(chunks).capacity
    ensures Disjoint(other, b.(room := b.room + n))
  {
    BeforeFree(other, chunks, Block(b.chunk, Head(chunks).Free(), n), limit);
  }

  // ---- the pool ------------------------------------------------------------------------

  class Pool {
    const memory: array<bv8>
    const chunkCapacity: nat

    /** The address of the user's buffer, if there is one. */
    const userBuffer: Pointer

    /** Oldest chunk first, so that the head of the source's list is the last. */
    var chunks: seq<Chunk>

    /** The blocks handed out since the last `Clear`, in that order. */
    ghost var blocks: seq<Block>

    ghost predicate Valid()
      reads this
    {
      && PoolOk(chunks, blocks, memory.Length)
      && (userBuffer.At? ==> chunks != [] && chunks[0].base == userBuffer.addr)
    }

    constructor (memory: array<bv8>, chunkCapacity: nat)
      ensures Valid() && chunks == [] && blocks == []
      ensures this.memory == memory && this.chunkCapacity == chunkCapacity && userBuffer == Null
    {
      this.memory, this.chunkCapacity, userBuffer, chunks, blocks := memory, chunkCapacity, Null, [], [];
    }

    constructor WithBuffer(memory: array<bv8>, buffer: nat, size: nat, chunkCapacity: nat)
      requires size > HEADER && buffer + size <= memory.Length
      ensures Valid() && chunks == [Chunk(buffer, size - HEADER, 0)] && blocks == []
      ensures this.memory == memory && this.chunkCapacity == chunkCapacity && userBuffer == At(buffer)
    {
      this.memory, this.chunkCapacity, userBuffer := memory, chunkCapacity, At(buffer);
      chunks, blocks := [Chunk(buffer, size - HEADER, 0)], [];
    }

    /** The base allocator: any region apart from the chunks still held, or none. */
    method BaseMalloc(capacity: nat) returns (p: Pointer)
      ensures p.At? ==> p.addr + HEADER + capacity <= memory.Length
      ensures p.At? ==> forall i :: 0 <= i < |chunks| ==> Apart(chunks[i], Chunk(p.addr, capacity, 0))
    {
      var addr: nat := *;
      if addr + HEADER + capacity > memory.Length {
        return Null;
      }
      for i := 0 to |chunks|
        invariant forall k :: 0 <= k < i ==> Apart(chunks[k], Chunk(addr, capacity, 0))
      {
        if !Apart(chunks[i], Chunk(addr, capacity, 0)) {
          return Null;
        }
      }
      p := At(addr);
    }

    method AddChunk(capacity: nat) returns (ok: bool)
      requires Valid()
      modifies this`chunks
      ensures Valid()
      ensures !ok ==> chunks == old(chunks)
      ensures ok ==> |chunks| == |old(chunks)| + 1 && chunks[..|old(chunks)|] == old(chunks)
      ensures ok ==> Head(chunks).capacity == capacity && Head(chunks).size == 0
    {
      hide PoolOk;
      var p := BaseMalloc(capacity);
      if p == Null {
        return false;
      }
      PushChunk(chunks, blocks, Chunk(p.addr, capacity, 0), memory.Length);
      chunks := chunks + [Chunk(p.addr, capacity, 0)];
      ok := true;
    }

    /** Whether `n` bytes fit the head chunk. */
    predicate Fits(n: nat)
      reads this
    {
      chunks != [] && Head(chunks).size + n <= Head(chunks).capacity
    }

    /** What has happened when `p` is the answer to a request: a null pointer, for size zero or for want of a chunk,
        leaves the pool as it was; a block that fits the head chunk is cut from it, and otherwise from a new one. */
    twostate predicate Malloced(size: nat, p: Pointer)
      reads this
    {
      && (p == Null ==> chunks == old(chunks) && blocks == old(blocks) && !(size > 0 && old(Fits(Align(size)))))
      && (p.At? ==> size > 0 && chunks != [] && blocks == old(blocks) + [Block(|chunks| - 1, p.addr, Align(size))])
      && (size > 0 && old(Fits(Align(size))) ==>
            p == At(old(Head(chunks).Free())) && chunks == Bump(old(chunks), Align(size)))
      && (p.At? && !old(Fits(Align(size))) ==>
            && |chunks| == |old(chunks)| + 1 && chunks[..|old(chunks)|] == old(chunks)
            && p.addr == Head(chunks).Data() && Head(chunks).size == Align(size)
            && Head(chunks).capacity == if chunkCapacity > Align(size) then chunkCapacity else Align(size))
    }

    /** A new block, disjoint from all others by `Valid`; no byte of memory is written. */
    method Malloc(size: nat) returns (p: Pointer)
      requires Valid()
      modifies this`chunks, this`blocks
      ensures Valid()
      ensures Malloced(size, p)
    {
      hide PoolOk, Align;
      if size == 0 {
        return Null;
      }
      var n := Align(size);
      if !Fits(n) {
        var ok := AddChunk(if chunkCapacity > n then chunkCapacity else n);
        if !ok {
          return Null;
        }
      }
      AddBlock(chunks, blocks, n, memory.Length);
      p := At(Head(chunks).Free());
      blocks := blocks + [Block(|chunks| - 1, p.addr, n)];
      chunks := Bump(chunks, n);
    }

    /** Whether block `k`, of which the client uses `asked` bytes, is the last of the head chunk. */
    ghost predicate IsLast(k: nat, asked: nat)
      requires k < |blocks|
      reads this
    {
      && chunks != [] && blocks[k].chunk == |chunks| - 1
      && blocks[k].room == asked && blocks[k].End() == Head(chunks).Free()
    }

    lemma LastBlock(k: nat, asked: nat)
      requires Valid() && k < |blocks| && asked <= blocks[k].room
      ensures chunks != []
      ensures blocks[k].addr == Head(chunks).Free() - asked <==> IsLast(k, asked)
    {
      assert BlockOk(blocks[k], chunks);
      if asked == 0 {
        NoBlockAtFree(chunks, blocks[k], memory.Length);
      } else if blocks[k].addr == Head(chunks).Free() - asked {
        OnlyLastBlockPasses(chunks, blocks[k], asked, memory.Length);
      }
    }

    /** Grows the block with number `k`, or hands out a new one if there is no original.  A request that does not
        exceed the old size returns the block itself; the last block, and no other, grows where it is if the head
        chunk has room; in every other case the result is a new block, or null.  The old contents are a prefix of
        the result, no byte of any block handed out before changes, and a block that was moved stays handed out. */
    method Realloc(ghost k: nat, original: Pointer, originalSize: nat, newSize: nat) returns (p: Pointer)
      requires Valid()
      requires original.At? ==>
        k < |blocks| && blocks[k].addr == original.addr && Align(originalSize) <= blocks[k].room
      modifies this`chunks, this`blocks, memory
      ensures Valid()
      ensures original == Null ==> Malloced(newSize, p) && memory[..] == old(memory[..])
      ensures original.At? && newSize == 0 ==> p == Null
      ensures original.At? && 0 < newSize && Align(newSize) <= Align(originalSize) ==>
                p == original && blocks == old(blocks) && chunks == old(chunks)
      ensures var more := Align(newSize) - Align(originalSize);
              original.At? && newSize > 0 && more > 0 && old(IsLast(k, Align(originalSize)) && Fits(more)) ==>
                && p == original && chunks == Bump(old(chunks), more)
                && blocks == old(blocks)[k := old(blocks[k]).(room := Align(newSize))]
      ensures var more := Align(newSize) - Align(originalSize);
              original.At? && newSize > 0 && more > 0 && p != Null
              && !old(IsLast(k, Align(originalSize)) && Fits(more)) ==>
                && chunks != [] && blocks == old(blocks) + [Block(|chunks| - 1, p.addr, Align(newSize))]
                && Copied(old(memory[..]), original.addr, memory[..], p.addr, Align(originalSize))
      ensures p == Null ==> chunks == old(chunks) && blocks == old(blocks)
      ensures AllKept(old(blocks), old(memory[..]), memory[..])
    {
      hide PoolOk, Align, Head, Bump, Copied, AllKept;
      NothingWritten(chunks, blocks, memory[..]);
      if original == Null {
        p := Malloc(newSize);
        return;
      }
      if newSize == 0 {
        return Null;
      }
      var oldSize, size := Align(originalSize), Align(newSize);
      if oldSize >= size {
        return original;
      }
      LastBlock(k, oldSize);
      if original.addr == Head(chunks).Free() - oldSize && Fits(size - oldSize) {
        GrowBlock(chunks, blocks, k, size - oldSize, memory.Length);
        chunks := Bump(chunks, size - oldSize);
        blocks := blocks[k := blocks[k].(room := size)];
        return original;
      }
      p := Malloc(newSize);
      if p.At? {
        MoveIsSafe(chunks, blocks, k, oldSize, memory.Length);
        ghost var before := memory[..];
        CopyBytes(original.addr, p.addr, oldSize);
        CopyKeeps(chunks, blocks, original.addr, oldSize, before, memory[..]);
        assert blocks[..|blocks| - 1] == old(blocks);
      }
    }

    /** `memcpy`. */
    method CopyBytes(source: nat, target: nat, n: nat)
      requires source + n <= memory.Length && target + n <= memory.Length
      requires source + n <= target || target + n <= source
      modifies memory
      ensures Copied(old(memory[..]), source, memory[..], target, n)
    {
      forall i | target <= i < target + n {
        memory[i] := memory[source + (i - target)];
      }
    }

    /** `Clear`: gives every chunk back but the user's buffer, which becomes empty. */
    method Clear()
      requires Valid()
      modifies this`chunks, this`blocks
      ensures Valid() && blocks == []
      ensures userBuffer == Null ==> chunks == []
      ensures userBuffer.At? ==> chunks == [old(chunks[0]).(size := 0)]
    {
      ghost var all := chunks;
      while chunks != [] && At(Head(chunks).base) != userBuffer
        invariant |chunks| <= |all| && chunks == all[..|chunks|]
        invariant userBuffer.At? ==> chunks != []
        decreases |chunks|
      {
        chunks := chunks[..|chunks| - 1];
      }
      blocks := [];
      if chunks != [] && At(Head(chunks).base) == userBuffer {
        OnlyBufferIsThere(all, |chunks| - 1, memory.Length);
        chunks := [Head(chunks).(size := 0)];
      }
    }

    /** The total of bytes used is the total of the rooms of the blocks: nothing is lost between them. */
    method Size() returns (size: nat)
      requires Valid()
      ensures size == Rooms(blocks)
    {
      size := 0;
      for i := 0 to |chunks|
        invariant size == Used(chunks[..i])
      {
        assert chunks[..i + 1][..i] == chunks[..i];
        size := size + chunks[i].size;
      }
      assert chunks[..|chunks|] == chunks;
    }
  }

  // ---- memory --------------------------------------------------------------------------

  /** No byte of the block differs. */
  predicate Kept(b: Block, before: seq<bv8>, after: seq<bv8>) {
    b.End() <= |before| == |after| && before[b.addr..b.End()] == after[b.addr..b.End()]
  }

  predicate AllKept(blocks: seq<Block>, before: seq<bv8>, after: seq<bv8>) {
    forall i :: 0 <= i < |blocks| ==> Kept(blocks[i], before, after)
  }

  /** `n` bytes were copied, and no others written. */
  predicate Copied(before: seq<bv8>, source: nat, after: seq<bv8>, target: nat, n: nat) {
    && source + n <= |before| == |after| && target + n <= |after|
    && after[target..target + n] == before[source..source + n]
    && after[..target] == before[..target] && after[target + n..] == before[target + n..]
  }

  lemma InMemory(chunks: seq<Chunk>, b: Block, limit: nat)
    requires ChunksOk(chunks, limit) && BlockOk(b, chunks)
    ensures b.End() <= limit
  {
    assert ChunkOk(chunks[b.chunk], limit);
  }

  lemma NothingWritten(chunks: seq<Chunk>, blocks: seq<Block>, memory: seq<bv8>)
    requires PoolOk(chunks, blocks, |memory|)
    ensures AllKept(blocks, memory, memory)
  {
    forall i | 0 <= i < |blocks| ensures Kept(blocks[i], memory, memory) {
      InMemory(chunks, blocks[i], |memory|);
    }
  }

  lemma MoveIsSafe(chunks: seq<Chunk>, blocks: seq<Block>, k: nat, n: nat, limit: nat)
    requires PoolOk(chunks, blocks, limit) && k < |blocks| - 1 && n <= blocks[k].room
    requires n <= blocks[|blocks| - 1].room
    ensures var a, b := blocks[k].addr, blocks[|blocks| - 1].addr;
            a + n <= limit && b + n <= limit && (a + n <= b || b + n <= a)
  {
    assert Disjoint(blocks[k], blocks[|blocks| - 1]);
    InMemory(chunks, blocks[k], limit);
    InMemory(chunks, blocks[|blocks| - 1], limit);
  }

  lemma OutsideKept(b: Block, before: seq<bv8>, source: nat, after: seq<bv8>, target: nat, n: nat)
    requires Copied(before, source, after, target, n) && b.End() <= |before|
    requires b.End() <= target || target + n <= b.addr
    ensures Kept(b, before, after)
  {
    if b.End() <= target {
      SliceOfPrefix(before, after, target, b.addr, b.End());
    } else {
      SliceOfSuffix(before, after, target + n, b.addr, b.End());
    }
  }

  /** Writing to the newest block changes none of the others. */
  lemma CopyKeeps(chunks: seq<Chunk>, blocks: seq<Block>, source: nat, n: nat, before: seq<bv8>, after: seq<bv8>)
    requires PoolOk(chunks, blocks, |before|) && blocks != [] && n <= blocks[|blocks| - 1].room
    requires Copied(before, source, after, blocks[|blocks| - 1].addr, n)
    ensures AllKept(blocks[..|blocks| - 1], before, after)
  {
    hide Copied, Kept;
    var others := blocks[..|blocks| - 1];
    forall i | 0 <= i < |others| ensures Kept(others[i], before, after) {
      assert Disjoint(blocks[i], blocks[|blocks| - 1]);
      InMemory(chunks, blocks[i], |before|);
      OutsideKept(blocks[i], before, source, after, blocks[|blocks| - 1].addr, n);
    }
  }

  /** A chunk at the address of the oldest is the oldest. */
  lemma OnlyBufferIsThere(chunks: seq<Chunk>, i: nat, limit: nat)
    requires ChunksOk(chunks, limit) && i < |chunks| && chunks[i].base == chunks[0].base
    ensures i == 0 && ChunkOk(chunks[0], limit)
  {
    assert i > 0 ==> Apart(chunks[0], chunks[i]);
  }
}
