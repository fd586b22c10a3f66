/** The class block_allocator over a system heap. */
module BlockAllocation {
  import opened Blocks

  /** Stands for ::malloc and ::free: any placement apart from all live blocks would do, and
      only a live block may be released. */
  class SystemHeap {
    var live: map<nat, nat>
    var brk: nat
    var released: seq<nat>

    ghost predicate Valid()
      reads this
    {
      forall p :: p in live ==> p < brk && p + live[p] <= brk
    }

    constructor ()
      ensures Valid() && live == map[] && released == []
    {
      live, brk, released := map[], 0, [];
    }

    method Malloc(n: nat) returns (p: nat)
      requires Valid()
      modifies this
      ensures Valid() && p !in old(live) && live == old(live)[p := n] && released == old(released)
      ensures forall q :: q in old(live) ==> Apart(Range(p, n), Range(q, old(live)[q]))
    {
      p := brk;
      live, brk := live[p := n], brk + n + 1;
    }

    method Free(p: nat)
      requires Valid() && p in live
      modifies this
      ensures Valid() && live == old(live) - {p} && released == old(released) + [p]
    {
      live, released := live - {p}, released + [p];
    }
  }

  class BlockNode {
    var size: nat
    var used: nat
    var buffer: nat
    var next: BlockNode?

    constructor (size: nat, used: nat, buffer: nat, next: BlockNode?)
      ensures this.size == size && this.used == used && this.buffer == buffer && this.next == next
    {
      this.size, this.used, this.buffer, this.next := size, used, buffer, next;
    }
  }

  ghost function At(list: seq<BlockNode>, i: nat): BlockNode? {
    if i < |list| then list[i] else null
  }

  ghost function View(n: BlockNode): Block
    reads n
  {
    Block(n.buffer, n.size, n.used)
  }

  ghost function Views(list: seq<BlockNode>): seq<Block>
    reads list
  {
    seq(|list|, i requires 0 <= i < |list| reads list => View(list[i]))
  }

  ghost predicate Chained(list: seq<BlockNode>)
    reads list
  {
    && (forall i :: 0 <= i < |list| ==> list[i].next == At(list, i + 1))
    && (forall i, j :: 0 <= i < j < |list| ==> list[i] != list[j])
  }

  /** All blocks are live in the system heap, each at its own address. */
  ghost predicate Owned(blocks: seq<Block>, live: map<nat, nat>) {
    && (forall i :: 0 <= i < |blocks| ==> blocks[i].buffer in live && live[blocks[i].buffer] == blocks[i].size)
    && (forall i, j :: 0 <= i < j < |blocks| ==> blocks[i].buffer != blocks[j].buffer)
  }

  lemma OwnedMore(pool: Pool, size: nat, base: nat, live: map<nat, nat>)
    requires Owned(pool.blocks, live) && !Fits(pool, size) && base !in live
    requires forall q :: q in live ==> Apart(Range(base, AllocSize(pool, size)), Range(q, live[q]))
    ensures Owned(Malloc(pool, size, base).blocks, live[base := AllocSize(pool, size)])
    ensures Placed(pool, size, base)
  {
  }

  lemma OwnedStill(pool: Pool, size: nat, base: nat, live: map<nat, nat>)
    requires Owned(pool.blocks, live) && Fits(pool, size)
    ensures Owned(Malloc(pool, size, base).blocks, live)
  {
  }

  ghost predicate AllLive(buffers: seq<nat>, live: map<nat, nat>) {
    && (forall i :: 0 <= i < |buffers| ==> buffers[i] in live)
    && (forall i, j :: 0 <= i < j < |buffers| ==> buffers[i] != buffers[j])
  }

  lemma AllLiveAtFirst(blocks: seq<Block>, live: map<nat, nat>)
    requires Owned(blocks, live)
    ensures AllLive(Buffers(blocks), live) && Without(live, Buffers(blocks), 0) == live
  {
  }

  /** The live blocks after the first k buffers have been released. */
  ghost function Without(live: map<nat, nat>, buffers: seq<nat>, k: nat): map<nat, nat>
    requires k <= |buffers|
  {
    live - (set b | b in buffers[..k])
  }

  lemma OneLess(live: map<nat, nat>, buffers: seq<nat>, k: nat)
    requires k < |buffers| && AllLive(buffers, live)
    ensures buffers[k] in Without(live, buffers, k)
    ensures Without(live, buffers, k) - {buffers[k]} == Without(live, buffers, k + 1)
  {
    assert buffers[..k + 1] == buffers[..k] + [buffers[k]];
  }

  class BlockAllocator {
    var head: BlockNode?
    var blocksize: nat
    /** The blocks from head on. */
    ghost var list: seq<BlockNode>

    ghost predicate Valid()
      reads this, list
    {
      head == At(list, 0) && Chained(list)
    }

    ghost function Contents(): Pool
      reads this, list
    {
      Pool(Views(list), blocksize)
    }

    constructor (blocksize: nat)
      ensures Valid() && list == [] && Contents() == Pool([], blocksize)
    {
      head, this.blocksize, list := null, blocksize, [];
    }

    /** A new block in front of the list. */
    method AddBlock(size: nat, sys: SystemHeap) returns (base: nat)
      requires Valid() && sys.Valid() && Owned(Contents().blocks, sys.live) && !Fits(Contents(), size)
      modifies this, sys
      ensures Valid() && sys.Valid() && |list| == |old(list)| + 1 && list[1..] == old(list) && fresh(list[0])
      ensures Contents() == Roomy(old(Contents()), size, base)
      ensures base !in old(sys.live) && sys.live == old(sys.live)[base := AllocSize(old(Contents()), size)]
      ensures forall q :: q in old(sys.live) ==> Apart(Range(base, AllocSize(old(Contents()), size)), Range(q, old(sys.live)[q]))
      ensures sys.released == old(sys.released)
    {
      var allocSize := if HEADER + size < blocksize then blocksize else HEADER + size;
      base := sys.Malloc(allocSize);
      LinkFront(allocSize, base);
    }

    method LinkFront(allocSize: nat, base: nat)
      requires Valid()
      modifies this`head, this`list
      ensures Valid() && |list| == |old(list)| + 1 && list[1..] == old(list) && fresh(list[0])
      ensures Contents() == old(Contents()).(blocks := [Block(base, allocSize, HEADER)] + old(Contents()).blocks)
    {
      head := new BlockNode(allocSize, HEADER, base, head);
      list := [head] + list;
    }

    /** `malloc`: the start of the returned range. */
    method Malloc(size: nat, sys: SystemHeap) returns (ptr: nat, ghost base: nat)
      requires Valid() && sys.Valid() && Owned(Contents().blocks, sys.live)
      modifies this, list, sys
      ensures Valid() && sys.Valid() && Owned(Contents().blocks, sys.live)
      ensures Placed(old(Contents()), size, base) && Contents() == Blocks.Malloc(old(Contents()), size, base)
      ensures Range(ptr, size) == Given(old(Contents()), size, base)
      ensures sys.live == if Fits(old(Contents()), size) then old(sys.live)
                          else old(sys.live)[base := AllocSize(old(Contents()), size)]
      ensures sys.released == old(sys.released)
      ensures forall n :: n in list ==> n in old(list) || fresh(n)
    {
      ghost var pool, live := Contents(), sys.live;
      base := 0;
      if (head != null && head.used + size > head.size) || head == null {
        base := AddBlock(size, sys);
        OwnedMore(pool, size, base, live);
      } else {
        OwnedStill(pool, size, base, live);
      }
      ptr := Take(size, pool, base);
    }

    method Take(size: nat, ghost pool: Pool, ghost base: nat) returns (ptr: nat)
      requires Valid() && head != null && Contents() == Roomy(pool, size, base)
      modifies head
      ensures Valid() && Contents() == Blocks.Malloc(pool, size, base)
      ensures Range(ptr, size) == Given(pool, size, base)
    {
      ptr := head.buffer + head.used;
      head.used := head.used + size;
    }

    /** `swap` */
    method Swap(rhs: BlockAllocator)
      requires Valid() && rhs.Valid()
      modifies this, rhs
      ensures Valid() && rhs.Valid()
      ensures list == old(rhs.list) && rhs.list == old(list)
      ensures Contents() == old(rhs.Contents()) && rhs.Contents() == old(Contents())
    {
      ghost var mine, theirs := Views(list), Views(rhs.list);
      SwapFields(rhs);
      assert Views(list) == theirs && Views(rhs.list) == mine;
    }

    method SwapFields(rhs: BlockAllocator)
      modifies this, rhs
      ensures blocksize == old(rhs.blocksize) && rhs.blocksize == old(blocksize)
      ensures head == old(rhs.head) && rhs.head == old(head)
      ensures list == old(rhs.list) && rhs.list == old(list)
    {
      blocksize, rhs.blocksize := rhs.blocksize, blocksize;
      head, rhs.head := rhs.head, head;
      list, rhs.list := rhs.list, list;
    }

    /** The destructor: every block goes back to the system exactly once. */
    method Destroy(sys: SystemHeap)
      requires Valid() && sys.Valid() && Owned(Contents().blocks, sys.live)
      modifies this, sys
      ensures Valid() && list == [] && sys.Valid()
      ensures sys.released == old(sys.released) + Buffers(old(Contents()).blocks)
      ensures sys.live == old(sys.live) - (set b | b in Buffers(old(Contents()).blocks))
    {
      ghost var k, buffers := 0, Buffers(Contents().blocks);
      ghost var live, released := sys.live, sys.released;
      AllLiveAtFirst(Contents().blocks, live);
      while head != null
        invariant Releasing(sys, k, buffers, live, released) && list == old(list)
        decreases |list| - k
      {
        ReleaseHead(sys, k, buffers, live, released);
        k := k + 1;
      }
      assert buffers[..|buffers|] == buffers;
      list := [];
    }

    /** k blocks of the list have been released. */
    ghost predicate Releasing(sys: SystemHeap, k: nat, buffers: seq<nat>, live: map<nat, nat>, released: seq<nat>)
      reads this, list, sys
    {
      && k <= |list| == |buffers| && head == At(list, k) && Chained(list) && sys.Valid() && AllLive(buffers, live)
      && (forall i :: 0 <= i < |list| ==> list[i].buffer == buffers[i])
      && sys.live == Without(live, buffers, k) && sys.released == released + buffers[..k]
    }

    /** One turn of the loop. */
    method ReleaseHead(sys: SystemHeap, ghost k: nat, ghost buffers: seq<nat>, ghost live: map<nat, nat>,
                       ghost released: seq<nat>)
      requires Releasing(sys, k, buffers, live, released) && head != null
      modifies this`head, sys
      ensures Releasing(sys, k + 1, buffers, live, released)
    {
      var temp := head.next;
      OneLess(live, buffers, k);
      sys.Free(head.buffer);
      head := temp;
      assert released + buffers[..k] + [buffers[k]] == released + buffers[..k + 1];
    }

    /** `free`: all blocks go back, and the block size becomes 0. */
    method Free(sys: SystemHeap)
      requires Valid() && sys.Valid() && Owned(Contents().blocks, sys.live)
      modifies this, sys
      ensures Valid() && list == [] && Contents() == Pool([], 0) && sys.Valid()
      ensures sys.released == old(sys.released) + Buffers(old(Contents()).blocks)
      ensures sys.live == old(sys.live) - (set b | b in Buffers(old(Contents()).blocks))
    {
      var temp := new BlockAllocator(0);
      temp.Swap(this);
      temp.Destroy(sys);
    }
  }
}
