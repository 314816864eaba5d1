/** MemoryPoolAllocator: blocks carved from a linked list of chunks. */
module PoolAllocators {
  import opened Bytes

  const ALIGNMENT: nat := 8
  const HEADER: nat := 24

  /** RAPIDJSON_ALIGN. */
  function Align(size: nat): (r: nat)
    ensures r % ALIGNMENT == 0 && size <= r < size + ALIGNMENT
    ensures size % ALIGNMENT == 0 ==> r == size
  {
    (size + 7) / ALIGNMENT * ALIGNMENT
  }

  /** A ChunkHeader and the `capacity` bytes behind it. */
  class Chunk {
    const capacity: nat
    const next: Chunk?
    const data: array<Byte>
    var size: nat

    constructor (capacity: nat, next: Chunk?, data: array<Byte>)
      ensures this.capacity == capacity && this.next == next && this.data == data && size == 0
    {
      this.capacity, this.next, this.data, this.size := capacity, next, data, 0;
    }
  }

  /** An address: a chunk and an offset into its bytes. */
  datatype Pointer = Null | At(chunk: Chunk, offset: nat)

  /** Two blocks have no byte in common. */
  predicate Disjoint(p: Pointer, m: nat, q: Pointer, n: nat)
    requires p.At? && q.At?
  {
    p.chunk != q.chunk || p.offset + m <= q.offset || q.offset + n <= p.offset
  }

  ghost function BlockBytes(p: Pointer, n: nat): Text
    requires p.At? && p.offset + n <= p.chunk.data.Length
    reads if p.At? then {p.chunk.data} else {}
  {
    p.chunk.data[p.offset..p.offset + n]
  }

  function First(chunks: seq<Chunk>): Chunk? {
    if chunks == [] then null else chunks[0]
  }

  ghost function Elements(chunks: seq<Chunk>): set<Chunk> {
    if chunks == [] then {} else {chunks[0]} + Elements(chunks[1..])
  }

  lemma HeadElement(chunks: seq<Chunk>)
    ensures chunks != [] ==> chunks[0] in Elements(chunks)
  {}

  lemma {:induction false} ElementsIn(chunks: seq<Chunk>)
    ensures forall c :: c in Elements(chunks) ==> c in chunks
  {
    if chunks != [] {
      ElementsIn(chunks[1..]);
    }
  }

  lemma ElementsCons(chunk: Chunk, chunks: seq<Chunk>)
    ensures Elements([chunk] + chunks) == {chunk} + Elements(chunks)
  {
    assert ([chunk] + chunks)[1..] == chunks;
  }

  /** The chunks are linked by `next`. */
  ghost predicate Chained(chunks: seq<Chunk>) {
    chunks != [] ==> chunks[0].next == First(chunks[1..]) && Chained(chunks[1..])
  }

  lemma ChainedCons(chunk: Chunk, chunks: seq<Chunk>)
    requires Chained(chunks) && chunk.next == First(chunks)
    ensures Chained([chunk] + chunks)
  {
    assert ([chunk] + chunks)[1..] == chunks;
  }

  /** No chunk occurs twice, and no two share memory. */
  ghost predicate Separate(chunks: seq<Chunk>) {
    chunks != [] ==>
      Separate(chunks[1..]) && forall c :: c in Elements(chunks[1..]) ==> c != chunks[0] && c.data != chunks[0].data
  }

  lemma SeparateCons(chunk: Chunk, chunks: seq<Chunk>)
    requires Separate(chunks) && forall c :: c in Elements(chunks) ==> c != chunk && c.data != chunk.data
    ensures Separate([chunk] + chunks)
  {
    assert ([chunk] + chunks)[1..] == chunks;
  }

  lemma {:induction false} SeparateData(chunks: seq<Chunk>, c: Chunk, d: Chunk)
    requires Separate(chunks) && c in Elements(chunks) && d in Elements(chunks) && c != d
    ensures c.data != d.data
    decreases |chunks|
  {
    if c in Elements(chunks[1..]) && d in Elements(chunks[1..]) {
      SeparateData(chunks[1..], c, d);
    }
  }

  /** The block is aligned in its chunk and inside the used part. */
  ghost predicate Fits(p: Pointer, n: nat)
    reads if p.At? then {p.chunk} else {}
  {
    p.At? && p.offset % ALIGNMENT == 0 && n > 0 && p.offset + n <= p.chunk.size
  }

  ghost predicate AllDisjoint(blocks: map<Pointer, nat>) {
    forall p, q :: p in blocks && q in blocks && p != q ==> p.At? && q.At? && Disjoint(p, blocks[p], q, blocks[q])
  }

  /** A block behind all others of its chunk is disjoint from them. */
  lemma AddBehind(blocks: map<Pointer, nat>, p: Pointer, n: nat)
    requires AllDisjoint(blocks) && p.At?
    requires forall q :: q in blocks && q != p ==> q.At? && (q.chunk == p.chunk ==> q.offset + blocks[q] <= p.offset)
    ensures AllDisjoint(blocks[p := n])
  {}

  class MemoryPoolAllocator {
    var chunkHead: Chunk?
    const chunkCapacity: nat
    const userBuffer: Chunk?
    /** The list from the head on. */
    ghost var chunks: seq<Chunk>
    /** The live blocks and their rounded sizes. */
    ghost var blocks: map<Pointer, nat>
    /** What has been given back to the base allocator. */
    ghost var freed: set<Chunk>

    /** The list is the chain of `next`, ending in the user's buffer if there is one. */
    ghost predicate Linked()
      reads this
    {
      && chunkHead == First(chunks) && Chained(chunks) && Separate(chunks)
      && (userBuffer != null ==> chunks != [] && chunks[|chunks| - 1] == userBuffer)
      && freed !! Elements(chunks)
    }

    ghost predicate Sized()
      reads this, Elements(chunks)
    {
      forall c :: c in Elements(chunks) ==> c.size <= c.capacity == c.data.Length && c.size % ALIGNMENT == 0
    }

    /** Every live block is aligned in its chunk and inside the used part. */
    ghost predicate Placed()
      reads this, Elements(chunks)
    {
      forall p :: p in blocks ==> p.At? && p.chunk in Elements(chunks) && Fits(p, blocks[p])
    }

    ghost predicate Valid()
      reads this, Elements(chunks)
    {
      Linked() && Sized() && Placed() && AllDisjoint(blocks)
    }

    constructor (chunkSize: nat)
      ensures Valid() && chunks == [] && blocks == map[] && freed == {} && chunkCapacity == chunkSize && userBuffer == null
    {
      chunkHead, chunkCapacity, userBuffer := null, chunkSize, null;
      chunks, blocks, freed := [], map[], {};
    }

    /** `data` is the part of the user's buffer behind the header written at its start. */
    constructor WithBuffer(data: array<Byte>, size: nat, chunkSize: nat)
      requires size > HEADER && data.Length == size - HEADER
      ensures Valid() && userBuffer != null && fresh(userBuffer) && userBuffer.data == data
      ensures chunks == [userBuffer] && blocks == map[] && freed == {} && chunkCapacity == chunkSize
    {
      var chunk := new Chunk(size - HEADER, null, data);
      chunkHead, chunkCapacity, userBuffer := chunk, chunkSize, chunk;
      chunks, blocks, freed := [chunk], map[], {};
    }

    /** `granted`: whether the base allocator has the memory. */
    method AddChunk(capacity: nat, granted: bool) returns (ok: bool)
      requires Valid()
      modifies this
      ensures Valid() && ok == granted && blocks == old(blocks) && freed == old(freed)
      ensures !ok ==> chunks == old(chunks) && chunkHead == old(chunkHead)
      ensures ok ==> chunkHead != null && fresh(chunkHead) && fresh(chunkHead.data) && chunks == [chunkHead] + old(chunks)
      ensures ok ==> chunkHead.capacity == capacity && chunkHead.size == 0
      ensures TotalSize(chunks) == old(TotalSize(chunks))
    {
      if !granted {
        return false;
      }
      hide Chained, Separate, AllDisjoint, Elements;
      ElementsIn(chunks);
      var data := new Byte[capacity];
      var chunk := new Chunk(capacity, chunkHead, data);
      ChainedCons(chunk, chunks);
      SeparateCons(chunk, chunks);
      ElementsCons(chunk, chunks);
      assert ([chunk] + chunks)[1..] == chunks;
      chunkHead := chunk;
      chunks := [chunk] + chunks;
      assert Linked();
      assert Sized();
      assert Placed();
      hide Linked, Sized, Placed;
      return true;
    }

    /** The list is as it was or has one new chunk at its head. */
    twostate predicate Extended(head: Chunk?, list: seq<Chunk>)
      reads this
    {
      || (chunkHead == head && chunks == list)
      || (chunkHead != null && fresh(chunkHead) && fresh(chunkHead.data) && chunks == [chunkHead] + list)
    }

    /** The head chunk has `n` bytes left. */
    ghost predicate HasRoom(n: nat)
      reads this, chunkHead
    {
      chunkHead != null && chunkHead.size + n <= chunkHead.capacity
    }

    /** The chunk at the head has its used part behind which nothing has been taken. */
    twostate predicate Untouched(head: Chunk?, list: seq<Chunk>)
      reads this, head
    {
      chunkHead == head && chunks == list && (head != null ==> head.size == old(head.size))
    }

    /** `n` bytes are taken behind those used, in the head chunk if it has room, else at the start of a chunk made for them. */
    twostate predicate Carved(head: Chunk?, list: seq<Chunk>, n: nat, granted: bool, new p: Pointer)
      reads this, head, chunkHead
    {
      if head != null && old(head.size) + n <= head.capacity then
        p == At(head, old(head.size)) && chunkHead == head && chunks == list && head.size == old(head.size) + n
      else if granted then
        && chunkHead != null && fresh(chunkHead) && fresh(chunkHead.data) && chunks == [chunkHead] + list
        && chunkHead.capacity == (if chunkCapacity > n then chunkCapacity else n) && chunkHead.size == n
        && p == At(chunkHead, 0) && (head != null ==> head.size == old(head.size))
      else
        p == Null && Untouched(head, list)
    }

    /** A new block, disjoint from every live one; NULL only for no bytes or no memory. No byte is written. */
    method Malloc(size: nat, granted: bool) returns (p: Pointer)
      requires Valid()
      modifies this, chunkHead
      ensures Valid() && freed == old(freed)
      ensures size > 0 ==> Carved(old(chunkHead), old(chunks), Align(size), granted, p)
      ensures size == 0 ==> p == Null && Untouched(old(chunkHead), old(chunks))
      ensures TotalSize(chunks) == old(TotalSize(chunks)) + if p.At? then Align(size) else 0
      ensures p.Null? ==> (size == 0 || !granted) && blocks == old(blocks) && chunks == old(chunks)
      ensures p.At? ==> size > 0 && p !in old(blocks) && blocks == old(blocks)[p := Align(size)] && p.chunk == chunkHead
      ensures Extended(old(chunkHead), old(chunks))
    {
      hide Valid, Chained, Separate, AllDisjoint, Elements, TotalSize;
      if size == 0 {
        return Null;
      }
      var aligned := Align(size);
      if chunkHead == null || chunkHead.size + aligned > chunkHead.capacity {
        var ok := AddChunk(if chunkCapacity > aligned then chunkCapacity else aligned, granted);
        if !ok {
          return Null;
        }
      }
      p := Carve(aligned);
    }

    /** The end of Malloc: the block behind what the head chunk has used. */
    method Carve(n: nat) returns (p: Pointer)
      requires Valid() && n > 0 && n % ALIGNMENT == 0 && HasRoom(n)
      modifies `blocks, chunkHead
      ensures Valid() && p == At(chunkHead, old(chunkHead.size)) && p !in old(blocks) && blocks == old(blocks)[p := n]
      ensures chunkHead.size == old(chunkHead.size) + n && TotalSize(chunks) == old(TotalSize(chunks)) + n
    {
      hide Chained, AllDisjoint, Elements;
      p := At(chunkHead, chunkHead.size);
      assert p !in blocks;
      HeadElement(chunks);
      HeadOnce(chunks);
      hide Separate;
      AddBehind(blocks, p, n);
      chunkHead.size := chunkHead.size + n;
      blocks := blocks[p := n];
      assert Linked();
    }

    /** memcpy between two disjoint live blocks. */
    method Copy(p: Pointer, q: Pointer, n: nat)
      requires p.At? && q.At? && Disjoint(p, n, q, n) && (p.chunk == q.chunk || p.chunk.data != q.chunk.data)
      requires p.offset + n <= p.chunk.data.Length && q.offset + n <= q.chunk.data.Length
      modifies q.chunk.data
      ensures BlockBytes(q, n) == old(BlockBytes(p, n))
      ensures forall k :: 0 <= k < q.chunk.data.Length && !(q.offset <= k < q.offset + n) ==> q.chunk.data[k] == old(q.chunk.data[k])
    {
      var i := 0;
      while i < n
        invariant 0 <= i <= n
        invariant BlockBytes(q, i) == old(BlockBytes(p, i))
        invariant forall k :: 0 <= k < q.chunk.data.Length && !(q.offset <= k < q.offset + i) ==> q.chunk.data[k] == old(q.chunk.data[k])
      {
        q.chunk.data[q.offset + i] := p.chunk.data[p.offset + i];
        i := i + 1;
      }
    }

    /** Clear gives back every chunk but the user's buffer, which becomes empty; no chunk is lost. */
    method Clear()
      requires Valid()
      modifies this, userBuffer
      ensures Valid() && blocks == map[]
      ensures chunks == if userBuffer == null then [] else [userBuffer]
      ensures userBuffer != null ==> userBuffer.size == 0
      ensures freed + Elements(chunks) == old(freed) + Elements(old(chunks))
    {
      assert AllDisjoint(map[]);
      hide AllDisjoint;
      blocks := map[];
      while chunkHead != null && chunkHead != userBuffer
        invariant Linked() && Sized() && blocks == map[]
        invariant freed + Elements(chunks) == old(freed) + Elements(old(chunks))
        decreases |chunks|
      {
        var next := chunkHead.next;
        freed := freed + {chunkHead};
        SeparateHead(chunks);
        chunkHead := next;
        chunks := chunks[1..];
      }
      if chunkHead != null && chunkHead == userBuffer {
        OnlyHead(chunks, userBuffer);
        chunkHead.size := 0;
      }
    }

    method Capacity() returns (capacity: nat)
      requires Valid()
      ensures capacity == TotalCapacity(chunks)
    {
      hide AllDisjoint, Placed, Sized, Separate, Elements;
      capacity := 0;
      var c := chunkHead;
      ghost var rest := chunks;
      while c != null
        invariant c == First(rest) && Chained(rest) && capacity + TotalCapacity(rest) == TotalCapacity(chunks)
        decreases |rest|
      {
        capacity := capacity + c.capacity;
        c := c.next;
        rest := rest[1..];
      }
    }

    method Size() returns (size: nat)
      requires Valid()
      ensures size == TotalSize(chunks) <= TotalCapacity(chunks)
    {
      hide AllDisjoint, Placed, Separate, Elements;
      SizeWithinCapacity(chunks);
      size := 0;
      var c := chunkHead;
      ghost var rest := chunks;
      while c != null
        invariant c == First(rest) && Chained(rest) && size + TotalSize(rest) == TotalSize(chunks)
        decreases |rest|
      {
        size := size + c.size;
        c := c.next;
        rest := rest[1..];
      }
    }

    /** The user's buffer is the last chunk of the list and is never given back. */
    lemma UserBufferKept()
      requires Valid() && userBuffer != null
      ensures chunks != [] && chunks[|chunks| - 1] == userBuffer && userBuffer !in freed
    {
      hide AllDisjoint, Placed, Separate, Chained;
      LastElement(chunks);
    }

    lemma BlockInside(p: Pointer)
      requires Valid() && p in blocks
      ensures p.At? && p.chunk in Elements(chunks) && p.chunk.data.Length == p.chunk.capacity
      ensures 0 < blocks[p] && p.offset + blocks[p] <= p.chunk.size <= p.chunk.data.Length
    {
      hide Elements, Chained, Separate, AllDisjoint;
    }

    lemma NullIsNoBlock()
      requires Valid()
      ensures Null !in blocks
    {
      hide Elements, Chained, Separate, AllDisjoint;
    }

    /** The caller gives a block up: its bytes are not reused. */
    ghost method Forget(p: Pointer)
      requires Valid()
      modifies `blocks
      ensures Valid() && blocks == old(blocks) - {p}
    {
      hide Elements, Chained, Separate;
      DropDisjoint(blocks, p);
      hide AllDisjoint;
      blocks := blocks - {p};
    }

    ghost method Shrink(p: Pointer, n: nat)
      requires Valid() && p in blocks && 0 < n <= blocks[p]
      modifies `blocks
      ensures Valid() && blocks == old(blocks)[p := n]
    {
      hide Elements, Chained, Separate;
      ShrinkDisjoint(blocks, p, n);
      hide AllDisjoint;
      blocks := blocks[p := n];
    }

    /** The last block of the head chunk takes the bytes behind it. */
    method Expand(p: Pointer, increment: nat)
      requires Valid() && p in blocks && p.chunk == chunkHead && p.offset + blocks[p] == p.chunk.size
      requires increment % ALIGNMENT == 0 && p.chunk.size + increment <= p.chunk.capacity
      modifies `blocks, chunkHead
      ensures Valid() && blocks == old(blocks)[p := old(blocks)[p] + increment]
      ensures chunkHead.size == old(chunkHead.size) + increment
      ensures TotalSize(chunks) == old(TotalSize(chunks)) + increment
    {
      assert chunks != [];
      hide Elements, Chained, First;
      HeadElement(chunks);
      HeadOnce(chunks);
      hide Separate;
      BlockInside(p);
      GrowDisjoint(blocks, p, blocks[p] + increment);
      hide AllDisjoint;
      chunkHead.size := chunkHead.size + increment;
      blocks := blocks[p := blocks[p] + increment];
    }

    /** Allocates, copies and forgets the old block. */
    method Move(p: Pointer, original: nat, newSize: nat, granted: bool) returns (q: Pointer)
      requires Valid() && p in blocks && blocks[p] == original < Align(newSize) && newSize > 0
      modifies this, chunkHead, if chunkHead != null then {chunkHead.data} else {}
      ensures Valid() && freed == old(freed)
      ensures TotalSize(chunks) == old(TotalSize(chunks)) + if q.At? then Align(newSize) else 0
      ensures Carved(old(chunkHead), old(chunks), Align(newSize), granted, q)
      ensures q.Null? ==> !granted && blocks == old(blocks)
      ensures q.At? ==> q !in old(blocks) && blocks == (old(blocks) - {p})[q := Align(newSize)]
      ensures Extended(old(chunkHead), old(chunks))
      ensures forall r :: r in old(blocks) ==> Kept(r, old(blocks)[r])
      ensures q.At? ==> Copied(p, q, original)
    {
      hide Valid, Elements, Chained, Separate, AllDisjoint, TotalSize, Align;
      BlockInside(p);
      q := Malloc(newSize, granted);
      if q.At? {
        BlockInside(p);
        BlockInside(q);
        BlocksApart(q);
        assert forall r :: r in old(blocks) ==> r in blocks && blocks[r] == old(blocks)[r] && r != q;
        ElementsIn(chunks);
        Copy(p, q, original);
        Forget(p);
        assert blocks == (old(blocks) - {p})[q := Align(newSize)];
      }
    }

    /** No other live block shares memory with `q`. */
    lemma BlocksApart(q: Pointer)
      requires Valid() && q in blocks
      ensures forall r :: r in blocks && r != q ==> q.At? && r.At? && Disjoint(r, blocks[r], q, blocks[q])
      ensures forall r :: r in blocks && r != q ==> r.chunk == q.chunk || r.chunk.data != q.chunk.data
    {
      hide Elements, Chained, Separate;
      forall r | r in blocks && r != q
        ensures r.chunk == q.chunk || r.chunk.data != q.chunk.data
      {
        if r.chunk != q.chunk {
          SeparateData(chunks, r.chunk, q.chunk);
        }
      }
    }

    /** The last block taken from the head chunk has room behind it to grow from `original` to `wanted` bytes. */
    ghost predicate CanExpand(p: Pointer, original: nat, wanted: nat)
      reads this, chunkHead
    {
      && p.At? && chunkHead != null && p.chunk == chunkHead && p.offset + original == chunkHead.size
      && original <= wanted && chunkHead.size + (wanted - original) <= chunkHead.capacity
    }

    /** Which block Realloc returns, and what it takes for it; sizes are rounded, `wanted` is not zero. */
    twostate predicate Resized(head: Chunk?, list: seq<Chunk>, p: Pointer, original: nat, wanted: nat, granted: bool, new q: Pointer)
      reads this, head, chunkHead
    {
      if p.At? && original >= wanted then q == p && Untouched(head, list)
      else if old(CanExpand(p, original, wanted)) then
        q == p && head != null && chunkHead == head && chunks == list && head.size == old(head.size) + (wanted - original)
      else Carved(head, list, wanted, granted, q)
    }

    /** Resizes a block: in place if it shrinks or is the last one with room behind it, else by copying. */
    method Realloc(p: Pointer, originalSize: nat, newSize: nat, granted: bool) returns (q: Pointer)
      requires Valid()
      requires p.At? ==> p in blocks && blocks[p] == Align(originalSize)
      modifies this, chunkHead, if chunkHead != null then {chunkHead.data} else {}
      ensures Valid() && freed == old(freed)
      ensures TotalSize(chunks) == old(TotalSize(chunks)) + Taken(p, Align(originalSize), Align(newSize), q)
      ensures newSize == 0 ==> q == Null && Untouched(old(chunkHead), old(chunks))
      ensures newSize > 0 ==> Resized(old(chunkHead), old(chunks), p, Align(originalSize), Align(newSize), granted, q)
      ensures q.Null? ==> newSize == 0 || !granted
      ensures q.Null? ==> blocks == if newSize == 0 then old(blocks) - {p} else old(blocks)
      ensures q.At? ==> newSize > 0 && (q == p || q !in old(blocks)) && blocks == (old(blocks) - {p})[q := Align(newSize)]
      ensures Extended(old(chunkHead), old(chunks))
      ensures forall r :: r in old(blocks) ==> Kept(r, old(blocks)[r])
      ensures q.At? && p.At? ==> Copied(p, q, if originalSize < newSize then Align(originalSize) else Align(newSize))
    {
      hide Valid, Elements, Chained, Separate, AllDisjoint, Align, TotalSize;
      if p.Null? {
        NullIsNoBlock();
        q := Malloc(newSize, granted);
        assert old(blocks) - {p} == old(blocks);
      } else {
        q := ReallocBlock(p, originalSize, newSize, granted);
      }
    }

    method ReallocBlock(p: Pointer, originalSize: nat, newSize: nat, granted: bool) returns (q: Pointer)
      requires Valid() && p in blocks && blocks[p] == Align(originalSize)
      modifies this, chunkHead, if chunkHead != null then {chunkHead.data} else {}
      ensures Valid() && freed == old(freed)
      ensures TotalSize(chunks) == old(TotalSize(chunks)) + Taken(p, Align(originalSize), Align(newSize), q)
      ensures newSize == 0 ==> q == Null && Untouched(old(chunkHead), old(chunks))
      ensures newSize > 0 ==> Resized(old(chunkHead), old(chunks), p, Align(originalSize), Align(newSize), granted, q)
      ensures q.Null? ==> newSize == 0 || !granted
      ensures q.Null? ==> blocks == if newSize == 0 then old(blocks) - {p} else old(blocks)
      ensures q.At? ==> newSize > 0 && (q == p || q !in old(blocks)) && blocks == (old(blocks) - {p})[q := Align(newSize)]
      ensures Extended(old(chunkHead), old(chunks))
      ensures forall r :: r in old(blocks) ==> Kept(r, old(blocks)[r])
      ensures q.At? ==> Copied(p, q, if originalSize < newSize then Align(originalSize) else Align(newSize))
    {
      hide Valid, Elements, Chained, Separate, AllDisjoint, Align, TotalSize;
      BlockInside(p);
      AlignOrder(originalSize, newSize);
      if newSize == 0 {
        Forget(p);
        return Null;
      }
      var original, wanted := Align(originalSize), Align(newSize);
      if original >= wanted {
        Shrink(p, wanted);
        assert blocks == (old(blocks) - {p})[p := wanted];
        return p;
      }
      if chunkHead != null && p.chunk == chunkHead && p.offset + original == chunkHead.size {
        var increment := wanted - original;
        if chunkHead.size + increment <= chunkHead.capacity {
          Expand(p, increment);
          assert blocks == (old(blocks) - {p})[p := wanted];
          return p;
        }
      }
      q := Move(p, original, newSize, granted);
    }
  }

  /** The bytes a resized block takes beyond those it had. */
  function Taken(p: Pointer, original: nat, wanted: nat, q: Pointer): nat {
    if q.Null? then 0
    else if q != p then wanted
    else if original < wanted then wanted - original
    else 0
  }

  lemma AlignOrder(a: nat, b: nat)
    ensures a < b ==> Align(a) <= Align(b)
    ensures b <= a ==> Align(b) <= Align(a)
  {}

  lemma {:induction false} InElements(chunks: seq<Chunk>)
    ensures forall c :: c in chunks ==> c in Elements(chunks)
    decreases |chunks|
  {
    if chunks != [] {
      InElements(chunks[1..]);
    }
  }

  lemma HeadOnce(chunks: seq<Chunk>)
    requires Separate(chunks) && chunks != []
    ensures chunks[0] !in chunks[1..]
  {
    SeparateHead(chunks);
    InElements(chunks[1..]);
  }

  lemma SeparateHead(chunks: seq<Chunk>)
    requires Separate(chunks) && chunks != []
    ensures chunks[0] !in Elements(chunks[1..])
  {}

  /** A chunk that is first and last in the list is alone there. */
  lemma OnlyHead(chunks: seq<Chunk>, c: Chunk)
    requires Separate(chunks) && chunks != [] && chunks[0] == c && chunks[|chunks| - 1] == c
    ensures chunks == [c] && Elements(chunks) == {c}
  {
    SeparateHead(chunks);
    if |chunks| > 1 {
      LastElement(chunks[1..]);
    }
    assert |chunks| == 1;
    assert chunks[1..] == [];
  }

  lemma {:induction false} LastElement(chunks: seq<Chunk>)
    requires chunks != []
    ensures chunks[|chunks| - 1] in Elements(chunks)
    decreases |chunks|
  {
    if |chunks| > 1 {
      LastElement(chunks[1..]);
    }
  }

  ghost function TotalCapacity(chunks: seq<Chunk>): nat {
    if chunks == [] then 0 else chunks[0].capacity + TotalCapacity(chunks[1..])
  }

  ghost function TotalSize(chunks: seq<Chunk>): nat
    reads chunks
  {
    if chunks == [] then 0 else chunks[0].size + TotalSize(chunks[1..])
  }

  lemma {:induction false} SizeWithinCapacity(chunks: seq<Chunk>)
    requires forall c :: c in Elements(chunks) ==> c.size <= c.capacity
    ensures TotalSize(chunks) <= TotalCapacity(chunks)
    decreases |chunks|
  {
    if chunks != [] {
      SizeWithinCapacity(chunks[1..]);
    }
  }

  /** The bytes of a block are what they were. */
  twostate predicate Kept(p: Pointer, n: nat)
    reads if p.At? then {p.chunk.data} else {}
  {
    p.At? && p.offset + n <= p.chunk.data.Length ==>
      forall k :: p.offset <= k < p.offset + n ==> p.chunk.data[k] == old(p.chunk.data[k])
  }

  /** `q` now begins with the `n` bytes that `p` began with. */
  twostate predicate Copied(p: Pointer, new q: Pointer, n: nat)
    reads if q.At? then {q.chunk.data} else {}
  {
    && p.At? && q.At? && q.offset + n <= q.chunk.data.Length && p.offset + n <= p.chunk.data.Length
    && BlockBytes(q, n) == old(BlockBytes(p, n))
  }

  lemma DropDisjoint(blocks: map<Pointer, nat>, p: Pointer)
    requires AllDisjoint(blocks)
    ensures AllDisjoint(blocks - {p})
  {}

  lemma ShrinkDisjoint(blocks: map<Pointer, nat>, p: Pointer, n: nat)
    requires AllDisjoint(blocks) && p in blocks && n <= blocks[p]
    ensures AllDisjoint(blocks[p := n])
  {}

  /** The last block of a chunk can grow. */
  lemma GrowDisjoint(blocks: map<Pointer, nat>, p: Pointer, n: nat)
    requires AllDisjoint(blocks) && p in blocks && p.At? && blocks[p] > 0
    requires forall q :: q in blocks ==> q.At? && blocks[q] > 0 && (q.chunk == p.chunk ==> q.offset + blocks[q] <= p.offset + blocks[p])
    ensures AllDisjoint(blocks[p := n])
  {
    forall q | q in blocks && q != p
      ensures q.At? && (q.chunk == p.chunk ==> q.offset + blocks[q] <= p.offset)
    {
      assert Disjoint(p, blocks[p], q, blocks[q]);
    }
    AddBehind(blocks, p, n);
  }
}
