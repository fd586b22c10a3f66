/** core/common/block_allocator.cpp: memory handed out from a list of large blocks. */
module Blocks {
  /** sizeof(block): two sizes and two pointers of eight bytes. */
  const HEADER: nat := 32

  /** The addresses from, ..., from + size - 1. */
  datatype Range = Range(from: nat, size: nat)

  predicate Apart(a: Range, b: Range) {
    a.from + a.size <= b.from || b.from + b.size <= a.from
  }

  datatype Block = Block(buffer: nat, size: nat, used: nat)

  /** The newest block comes first. */
  datatype Pool = Pool(blocks: seq<Block>, blocksize: nat)

  function Whole(b: Block): Range {
    Range(b.buffer, b.size)
  }

  predicate Fits(pool: Pool, size: nat) {
    pool.blocks != [] && pool.blocks[0].used + size <= pool.blocks[0].size
  }

  function AllocSize(pool: Pool, size: nat): nat {
    if HEADER + size < pool.blocksize then pool.blocksize else HEADER + size
  }

  /** The pool with room for size bytes in its first block; base is where the system puts a new block. */
  function Roomy(pool: Pool, size: nat, base: nat): (r: Pool)
    ensures r.blocks != []
  {
    if Fits(pool, size) then pool
    else pool.(blocks := [Block(base, AllocSize(pool, size), HEADER)] + pool.blocks)
  }

  function Malloc(pool: Pool, size: nat, base: nat): Pool {
    var p := Roomy(pool, size, base);
    p.(blocks := p.blocks[0 := p.blocks[0].(used := p.blocks[0].used + size)])
  }

  /** What the call returns. */
  function Given(pool: Pool, size: nat, base: nat): Range {
    var b := Roomy(pool, size, base).blocks[0];
    Range(b.buffer + b.used, size)
  }

  function Buffers(blocks: seq<Block>): seq<nat> {
    seq(|blocks|, i requires 0 <= i < |blocks| => blocks[i].buffer)
  }

  // ----- safety

  /** r lies in the used part of b, behind the header. */
  ghost predicate Holds(b: Block, r: Range) {
    b.buffer + HEADER <= r.from && r.from + r.size <= b.buffer + b.used
  }

  ghost predicate Sound(b: Block) {
    HEADER <= b.used <= b.size
  }

  ghost predicate Within(blocks: seq<Block>, r: Range) {
    exists i :: 0 <= i < |blocks| && Holds(blocks[i], r)
  }

  ghost predicate AllApart(rs: seq<Range>) {
    forall i, j :: 0 <= i < j < |rs| ==> Apart(rs[i], rs[j])
  }

  /** Every block is sound and every range handed out is inside a block, apart from all others. */
  ghost predicate Safe(pool: Pool, given: seq<Range>) {
    && (forall i :: 0 <= i < |pool.blocks| ==> Sound(pool.blocks[i]))
    && (forall i, j :: 0 <= i < j < |pool.blocks| ==> Apart(Whole(pool.blocks[i]), Whole(pool.blocks[j])))
    && (forall k :: 0 <= k < |given| ==> Within(pool.blocks, given[k]))
    && AllApart(given)
  }

  /** The system places a new block apart from those it has given before. */
  ghost predicate Placed(pool: Pool, size: nat, base: nat) {
    Fits(pool, size) ||
    forall i :: 0 <= i < |pool.blocks| ==> Apart(Range(base, AllocSize(pool, size)), Whole(pool.blocks[i]))
  }

  lemma RoomySafe(pool: Pool, given: seq<Range>, size: nat, base: nat)
    requires Safe(pool, given) && Placed(pool, size, base)
    ensures Safe(Roomy(pool, size, base), given)
  {
    var p := Roomy(pool, size, base);
    if !Fits(pool, size) {
      forall k | 0 <= k < |given| ensures Within(p.blocks, given[k]) {
        assert Within(pool.blocks, given[k]);
        var i :| 0 <= i < |pool.blocks| && Holds(pool.blocks[i], given[k]);
        assert p.blocks[i + 1] == pool.blocks[i];
      }
    }
  }

  /** A range that was handed out before is apart from the unused part of the first block. */
  lemma BeforeUnused(pool: Pool, r: Range, size: nat)
    requires Fits(pool, size) && Within(pool.blocks, r) && Sound(pool.blocks[0])
    requires forall i :: 0 < i < |pool.blocks| ==> Apart(Whole(pool.blocks[0]), Whole(pool.blocks[i])) && Sound(pool.blocks[i])
    ensures Apart(r, Range(pool.blocks[0].buffer + pool.blocks[0].used, size))
  {
    var i :| 0 <= i < |pool.blocks| && Holds(pool.blocks[i], r);
  }

  lemma StillWithin(blocks: seq<Block>, size: nat, r: Range)
    requires blocks != [] && Within(blocks, r)
    ensures Within(blocks[0 := blocks[0].(used := blocks[0].used + size)], r)
  {
    var more := blocks[0 := blocks[0].(used := blocks[0].used + size)];
    var i :| 0 <= i < |blocks| && Holds(blocks[i], r);
    assert Holds(more[i], r);
  }

  /** One call of malloc. */
  lemma MallocSafe(pool: Pool, given: seq<Range>, size: nat, base: nat)
    requires Safe(pool, given) && Placed(pool, size, base)
    ensures Safe(Malloc(pool, size, base), given + [Given(pool, size, base)])
  {
    RoomySafe(pool, given, size, base);
    var p, q, r := Roomy(pool, size, base), Malloc(pool, size, base), Given(pool, size, base);
    forall k | 0 <= k < |given| ensures Within(q.blocks, given[k]) && Apart(given[k], r) {
      StillWithin(p.blocks, size, given[k]);
      BeforeUnused(p, given[k], size);
    }
    assert Holds(q.blocks[0], r);
  }

  // ----- all runs

  datatype Op = Allocate(size: nat, base: nat) | Free

  /** The allocator together with what is in use and all addresses obtained from and returned
      to the system, in order. */
  datatype World = World(pool: Pool, given: seq<Range>, obtained: seq<nat>, released: seq<nat>)

  function Start(blocksize: nat): World {
    World(Pool([], blocksize), [], [], [])
  }

  function Step(w: World, op: Op): World {
    match op
    case Allocate(size, base) =>
      World(Malloc(w.pool, size, base), w.given + [Given(w.pool, size, base)],
            w.obtained + (if Fits(w.pool, size) then [] else [base]), w.released)
    case Free => World(Pool([], 0), [], w.obtained, w.released + Buffers(w.pool.blocks))
  }

  function Run(w: World, ops: seq<Op>): World {
    if ops == [] then w else Step(Run(w, ops[..|ops| - 1]), ops[|ops| - 1])
  }

  /** The system behaves: all blocks it gives are apart from those in use. */
  ghost predicate Behaves(w: World, ops: seq<Op>) {
    ops == [] ||
    var last, before := ops[|ops| - 1], ops[..|ops| - 1];
    Behaves(w, before) && (last.Allocate? ==> Placed(Run(w, before).pool, last.size, last.base))
  }

  function Bytes(given: seq<Range>): nat {
    if given == [] then 0 else Bytes(given[..|given| - 1]) + given[|given| - 1].size
  }

  function Used(blocks: seq<Block>): int {
    if blocks == [] then 0 else blocks[0].used - HEADER + Used(blocks[1..])
  }

  /** In every run of calls of malloc and free, whatever the block size: the ranges in use are
      safe, they account for all used bytes, and what was obtained from the system but not yet
      released is exactly the buffers of the listed blocks. */
  lemma {:induction false} RunIsSafe(blocksize: nat, ops: seq<Op>)
    requires Behaves(Start(blocksize), ops)
    ensures var w := Run(Start(blocksize), ops);
            && Safe(w.pool, w.given) && Used(w.pool.blocks) == Bytes(w.given)
            && multiset(w.obtained) == multiset(w.released) + multiset(Buffers(w.pool.blocks))
  {
    if ops != [] {
      var before, last := ops[..|ops| - 1], ops[|ops| - 1];
      RunIsSafe(blocksize, before);
      var w := Run(Start(blocksize), before);
      if last.Allocate? {
        MallocSafe(w.pool, w.given, last.size, last.base);
        MallocAccounts(w.pool, w.given, last.size, last.base);
        MallocBuffers(w.pool, last.size, last.base);
      }
    }
  }

  lemma MallocAccounts(pool: Pool, given: seq<Range>, size: nat, base: nat)
    requires Used(pool.blocks) == Bytes(given)
    ensures Used(Malloc(pool, size, base).blocks) == Bytes(given + [Given(pool, size, base)])
  {
    var p, q, more := Roomy(pool, size, base), Malloc(pool, size, base), given + [Given(pool, size, base)];
    assert more[..|given|] == given;
    assert !Fits(pool, size) ==> p.blocks[1..] == pool.blocks;
    assert q.blocks[1..] == p.blocks[1..];
  }

  lemma MallocBuffers(pool: Pool, size: nat, base: nat)
    ensures Buffers(Malloc(pool, size, base).blocks)
         == (if Fits(pool, size) then [] else [base]) + Buffers(pool.blocks)
  {
  }

  /** After a final free, or the destructor, every block obtained has been released exactly as
      often as it was obtained. */
  lemma AllReleased(blocksize: nat, ops: seq<Op>)
    requires Behaves(Start(blocksize), ops)
    ensures var w := Step(Run(Start(blocksize), ops), Free);
            multiset(w.obtained) == multiset(w.released) && w.pool == Pool([], 0)
  {
    RunIsSafe(blocksize, ops);
  }

  // ----- how many blocks are obtained

  ghost predicate AllAllocate(ops: seq<Op>) {
    forall i :: 0 <= i < |ops| ==> ops[i].Allocate?
  }

  /** The bytes asked for. */
  function Asked(ops: seq<Op>): nat
    requires AllAllocate(ops)
  {
    if ops == [] then 0 else Asked(ops[..|ops| - 1]) + ops[|ops| - 1].size
  }

  /** What the block for the first request holds: the block size, or, if that is too small, the
      request behind a header of 32 bytes. */
  function FirstSize(blocksize: nat, size: nat): nat {
    if 32 + size <= blocksize then blocksize else 32 + size
  }

  /** The state after requests that all fit into the first block, or have not. */
  ghost predicate OneBlock(w: World, blocksize: nat, ops: seq<Op>)
    requires ops != [] && AllAllocate(ops)
  {
    var first := FirstSize(blocksize, ops[0].size);
    && |w.pool.blocks| == |w.obtained| && w.pool.blocksize == blocksize && |w.given| == |ops|
    && if 32 + Asked(ops) <= first
       then w.obtained == [ops[0].base] && w.pool.blocks == [Block(ops[0].base, first, 32 + Asked(ops))]
       else |w.obtained| >= 2
  }

  lemma FirstBlock(blocksize: nat, op: Op)
    requires op.Allocate?
    ensures OneBlock(Step(Start(blocksize), op), blocksize, [op])
  {
    var w := Step(Start(blocksize), op);
    assert [op][..0] == [] && Asked([op]) == op.size;
    assert w.pool.blocks == [Block(op.base, FirstSize(blocksize, op.size), 32 + op.size)];
  }

  lemma NextBlock(w: World, blocksize: nat, ops: seq<Op>)
    requires |ops| > 1 && AllAllocate(ops) && OneBlock(w, blocksize, ops[..|ops| - 1])
    ensures OneBlock(Step(w, ops[|ops| - 1]), blocksize, ops)
  {
    var last := ops[|ops| - 1];
    assert Asked(ops) == Asked(ops[..|ops| - 1]) + last.size;
    if 32 + Asked(ops) <= FirstSize(blocksize, ops[0].size) {
      assert Fits(w.pool, last.size);
    }
  }

  lemma {:induction false} OneBlockAlways(blocksize: nat, ops: seq<Op>)
    requires ops != [] && AllAllocate(ops)
    ensures OneBlock(Run(Start(blocksize), ops), blocksize, ops)
  {
    var before, last := ops[..|ops| - 1], ops[|ops| - 1];
    if before == [] {
      assert ops == [last];
      FirstBlock(blocksize, last);
    } else {
      OneBlockAlways(blocksize, before);
      NextBlock(Run(Start(blocksize), before), blocksize, ops);
    }
  }

  /** Requests share one block exactly when all of them fit, behind its header, into the block
      that the first one obtains: of the block size, or larger if the first request is. */
  lemma OneBlockExactlyWhen(blocksize: nat, ops: seq<Op>)
    requires ops != [] && AllAllocate(ops)
    ensures |Run(Start(blocksize), ops).obtained| == 1 <==>
            32 + Asked(ops) <= blocksize || Asked(ops) == ops[0].size
  {
    OneBlockAlways(blocksize, ops);
    AskedIsMore(ops);
  }

  lemma {:induction false} AskedIsMore(ops: seq<Op>)
    requires ops != [] && AllAllocate(ops)
    ensures Asked(ops) >= ops[0].size
  {
    if |ops| > 1 {
      AskedIsMore(ops[..|ops| - 1]);
    } else {
      assert ops[..0] == [];
    }
  }

  /** The next request that still fits stands behind what was asked for before. */
  lemma NextGiven(blocksize: nat, ops: seq<Op>)
    requires ops != [] && AllAllocate(ops) && (32 + Asked(ops) <= blocksize || Asked(ops) == ops[0].size)
    ensures var before, last := ops[..|ops| - 1], ops[|ops| - 1];
            Given(Run(Start(blocksize), before).pool, last.size, last.base)
            == Range(ops[0].base + 32 + Asked(before), last.size)
  {
    var before := ops[..|ops| - 1];
    if before == [] {
      assert Run(Start(blocksize), before) == Start(blocksize);
    } else {
      AskedIsMore(before);
      OneBlockAlways(blocksize, before);
    }
  }

  lemma GivenGrows(blocksize: nat, ops: seq<Op>)
    requires ops != [] && AllAllocate(ops)
    ensures var before, last := ops[..|ops| - 1], ops[|ops| - 1];
            var now := Run(Start(blocksize), before);
            Run(Start(blocksize), ops).given == now.given + [Given(now.pool, last.size, last.base)]
            && |now.given| == |before|
  {
    var before := ops[..|ops| - 1];
    if before != [] {
      OneBlockAlways(blocksize, before);
    }
  }

  /** As long as they share it they stand side by side, from its 32nd byte on. */
  lemma {:induction false} SideBySide(blocksize: nat, ops: seq<Op>, k: nat)
    requires k < |ops| && AllAllocate(ops)
    requires 32 + Asked(ops) <= blocksize || Asked(ops) == ops[0].size
    ensures var w := Run(Start(blocksize), ops);
            |w.given| == |ops| && w.given[k] == Range(ops[0].base + 32 + Asked(ops[..k]), ops[k].size)
  {
    var before := ops[..|ops| - 1];
    NextGiven(blocksize, ops);
    GivenGrows(blocksize, ops);
    if k < |before| {
      AskedIsMore(before);
      SideBySide(blocksize, before, k);
      assert before[..k] == ops[..k];
    }
  }
}
