module ArenaLayout {
  // Where an arena's live allocations lie (base/arena.h, base/arena.cc).
  //
  // Pure facts about the blocks, the bump pointer and the ledger of live allocations, used by
  // the class in Arenas to show that every operation keeps them.

  const NULL := 0
  const DEFAULT_ALIGNMENT := 8

  datatype Block = Block(mem: nat, size: nat) {
    function End(): nat { mem + size }
  }

  /** Powers of two up to DEFAULT_ALIGNMENT, the only alignments the arena's asserts allow. */
  predicate AlignmentOk(align: nat) {
    align == 1 || align == 2 || align == 4 || align == 8
  }

  /** p & (align - 1). */
  function Overage(p: nat, align: nat): (r: nat)
    requires AlignmentOk(align)
    ensures r < align
    ensures p % DEFAULT_ALIGNMENT == 0 ==> r == 0
  {
    if align == 1 then 0 else if align == 2 then p % 2 else if align == 4 then p % 4 else p % 8
  }

  lemma SkippingOverageAligns(p: nat, align: nat)
    requires AlignmentOk(align) && Overage(p, align) > 0
    ensures Overage(p + (align - Overage(p, align)), align) == 0
  {
  }

  /** A live allocation and the index of the block that holds it. */
  datatype Allocation = Allocation(addr: nat, size: nat, align: nat, block: nat) {
    function End(): nat { addr + size }
  }

  /** The bump region: the block being filled, freestart_, and last_alloc_. */
  datatype Cursor = Cursor(block: nat, free: nat, last: nat)

  predicate Apart(a: nat, aEnd: nat, b: nat, bEnd: nat) {
    aEnd <= b || bEnd <= a
  }

  ghost predicate BlocksOk(bs: seq<Block>) {
    && (forall i :: 0 <= i < |bs| ==> bs[i].mem != NULL && bs[i].size > 0)
    && (forall i :: 1 <= i < |bs| ==> bs[i].mem % DEFAULT_ALIGNMENT == 0)
    && (forall i, j :: 0 <= i < j < |bs| ==> Apart(bs[i].mem, bs[i].End(), bs[j].mem, bs[j].End()))
  }

  /** malloc returns memory aligned for any type and apart from all memory in use. */
  ghost predicate MallocGives(bs: seq<Block>, mem: nat, size: nat) {
    && mem != NULL && mem % DEFAULT_ALIGNMENT == 0
    && forall i :: 0 <= i < |bs| ==> Apart(bs[i].mem, bs[i].End(), mem, mem + size)
  }

  predicate Placed(bs: seq<Block>, a: Allocation) {
    && a.block < |bs| && a.size > 0 && AlignmentOk(a.align) && Overage(a.addr, a.align) == 0
    && bs[a.block].mem <= a.addr && a.End() <= bs[a.block].End()
  }

  ghost predicate Disjoint(live: set<Allocation>) {
    forall a, b :: a in live && b in live && a != b ==> Apart(a.addr, a.End(), b.addr, b.End())
  }

  /** Everything live in the block being filled ends at or before the last allocation. */
  predicate BehindCursor(c: Cursor, a: Allocation) {
    a.block == c.block ==> c.last != NULL && (if a.addr == c.last then a.End() == c.free else a.End() <= c.last)
  }

  ghost predicate CursorOk(bs: seq<Block>, c: Cursor) {
    && c.block < |bs|
    && bs[c.block].mem <= c.free <= bs[c.block].End()
    && (c.last == NULL || (bs[c.block].mem <= c.last <= c.free && c.last < bs[c.block].End()))
  }

  ghost predicate LiveOk(bs: seq<Block>, c: Cursor, live: set<Allocation>) {
    && CursorOk(bs, c)
    && (forall a :: a in live ==> Placed(bs, a) && BehindCursor(c, a))
    && Disjoint(live)
  }

  /** Nothing was ever placed before the first aligned byte of the first block. */
  ghost predicate AboveStart(c: Cursor, live: set<Allocation>, start: nat) {
    && (forall a :: a in live && a.block == 0 ==> start <= a.addr)
    && (c.block == 0 ==> start <= c.free && (c.last != NULL ==> start <= c.last))
  }

  function TotalSize(bs: seq<Block>): nat {
    if bs == [] then 0 else TotalSize(bs[..|bs| - 1]) + bs[|bs| - 1].size
  }

  /** Taking size bytes at addr, at or after the free pointer, inside the current block. */
  lemma BumpKeepsLive(bs: seq<Block>, c: Cursor, live: set<Allocation>, addr: nat, size: nat, align: nat)
    requires BlocksOk(bs) && LiveOk(bs, c, live)
    requires c.free <= addr && addr + size <= bs[c.block].End() && size > 0 && AlignmentOk(align)
    requires Overage(addr, align) == 0
    ensures var a := Allocation(addr, size, align, c.block);
      a !in live && LiveOk(bs, Cursor(c.block, addr + size, addr), live + {a})
  {
    var a := Allocation(addr, size, align, c.block);
    forall b | b in live
      ensures Apart(a.addr, a.End(), b.addr, b.End()) && BehindCursor(Cursor(c.block, addr + size, addr), b)
    {
    }
  }

  /** Moving the cursor to the start of a block nothing lives in yet. */
  lemma FreshBlockKeepsLive(bs: seq<Block>, c: Cursor, live: set<Allocation>, b: Block)
    requires BlocksOk(bs) && LiveOk(bs, c, live) && MallocGives(bs, b.mem, b.size) && b.size > 0
    ensures BlocksOk(bs + [b]) && LiveOk(bs + [b], Cursor(|bs|, b.mem, NULL), live)
  {
    assert forall a :: a in live ==> a.block < |bs|;
  }

  /** A block of its own for one allocation. */
  lemma PrivateBlockKeepsLive(bs: seq<Block>, c: Cursor, live: set<Allocation>, b: Block, align: nat)
    requires BlocksOk(bs) && LiveOk(bs, c, live) && MallocGives(bs, b.mem, b.size) && b.size > 0
    requires AlignmentOk(align)
    ensures var a := Allocation(b.mem, b.size, align, |bs|);
      a !in live && BlocksOk(bs + [b]) && LiveOk(bs + [b], c, live + {a})
  {
    var a, all := Allocation(b.mem, b.size, align, |bs|), bs + [b];
    FreshBlockKeepsLive(bs, c, live, b);
    hide BlocksOk;
    forall o | o in live ensures Placed(all, o) && BehindCursor(c, o) && Apart(a.addr, a.End(), o.addr, o.End()) {
      assert all[o.block] == bs[o.block];
    }
    assert all[c.block] == bs[c.block];
  }

  /** Forgetting an allocation, and giving its bytes back when it was the last one. */
  lemma ReleaseKeepsLive(bs: seq<Block>, c: Cursor, live: set<Allocation>, a: Allocation)
    requires BlocksOk(bs) && LiveOk(bs, c, live) && a in live
    ensures LiveOk(bs, c, live - {a})
    ensures a.addr == c.last ==> a.block == c.block && LiveOk(bs, c.(free := c.last), live - {a})
  {
    if a.addr == c.last {
      LastIsInCurrentBlock(bs, c, live, a);
      forall b | b in live - {a} ensures BehindCursor(c.(free := c.last), b) {
        assert Apart(a.addr, a.End(), b.addr, b.End());
      }
    }
  }

  lemma LastIsInCurrentBlock(bs: seq<Block>, c: Cursor, live: set<Allocation>, a: Allocation)
    requires BlocksOk(bs) && LiveOk(bs, c, live) && a in live && a.addr == c.last
    ensures a.block == c.block && a.End() == c.free
  {
  }

  /** What is left of an allocation shrunk to nothing: no byte, but an address the client may still use. */
  predicate Emptied(bs: seq<Block>, a: Allocation) {
    && a.size == 0 && a.block < |bs| && AlignmentOk(a.align) && Overage(a.addr, a.align) == 0
    && bs[a.block].mem <= a.addr < bs[a.block].End()
  }

  /** The allocations a client may name: the live ones, those shrunk to nothing, and NULL. */
  ghost predicate Known(bs: seq<Block>, live: set<Allocation>, a: Allocation) {
    if a.size > 0 then a in live else a.addr == NULL || Emptied(bs, a)
  }

  /** The ledger after the size of a has changed. */
  ghost function Resized(live: set<Allocation>, a: Allocation, size: nat): set<Allocation> {
    live - {a} + (if size == 0 then {} else {a.(size := size)})
  }

  /** No other live allocation starts where a does. */
  ghost predicate Alone(live: set<Allocation>, a: Allocation) {
    forall b :: b in live && b.addr == a.addr ==> b == a
  }

  lemma LiveIsAlone(bs: seq<Block>, c: Cursor, live: set<Allocation>, a: Allocation)
    requires LiveOk(bs, c, live) && a in live
    ensures Alone(live, a)
  {
    assert forall b :: b in live && b.addr == a.addr && b != a ==> Apart(a.addr, a.End(), b.addr, b.End());
  }

  lemma EmptiedAtLast(bs: seq<Block>, c: Cursor, a: Allocation)
    requires BlocksOk(bs) && CursorOk(bs, c) && Emptied(bs, a) && a.addr == c.last
    ensures a.block == c.block
  {
    var i, j := a.block, c.block;
    assert i < j ==> Apart(bs[i].mem, bs[i].End(), bs[j].mem, bs[j].End());
    assert j < i ==> Apart(bs[j].mem, bs[j].End(), bs[i].mem, bs[i].End());
  }

  /** Nothing lives where the last allocation was: its place can be taken again. */
  lemma ReopenLast(bs: seq<Block>, c: Cursor, live: set<Allocation>, a: Allocation, size: nat)
    requires BlocksOk(bs) && LiveOk(bs, c, live) && Emptied(bs, a) && a.addr == c.last && Alone(live, a)
    requires c.last + size <= bs[c.block].End()
    ensures LiveOk(bs, c.(free := c.last + size), Resized(live, a, size))
  {
    EmptiedAtLast(bs, c, a);
    assert LiveOk(bs, c.(free := c.last), live) by {
      assert forall b :: b in live ==> b.addr != c.last;
    }
    if size > 0 {
      BumpKeepsLive(bs, c.(free := c.last), live, a.addr, size, a.align);
    }
    assert live - {a} == live;
  }

  /** Growing or shrinking the last allocation in place; down to nothing is a release. */
  lemma ResizeLastKeepsLive(bs: seq<Block>, c: Cursor, live: set<Allocation>, a: Allocation, size: nat)
    requires BlocksOk(bs) && LiveOk(bs, c, live) && a in live && a.addr == c.last
    requires c.last + size <= bs[c.block].End()
    ensures a.block == c.block
    ensures LiveOk(bs, c.(free := c.last + size), Resized(live, a, size))
  {
    ReleaseKeepsLive(bs, c, live, a);
    if size > 0 {
      BumpKeepsLive(bs, c.(free := c.last), live - {a}, a.addr, size, a.align);
    }
  }

  /** Keeping only the front of an allocation that cannot give bytes back. */
  lemma TrimKeepsLive(bs: seq<Block>, c: Cursor, live: set<Allocation>, a: Allocation, size: nat)
    requires BlocksOk(bs) && LiveOk(bs, c, live) && a in live && a.addr != c.last && size <= a.size
    ensures LiveOk(bs, c, Resized(live, a, size))
  {
    forall b | b in live - {a} ensures size > 0 ==> Apart(a.addr, a.addr + size, b.addr, b.End()) {
      assert Apart(a.addr, a.End(), b.addr, b.End());
    }
  }

  // ----- bytes -----

  /** An address never written reads as 0. */
  function ReadByte(m: map<nat, bv8>, p: nat): bv8 {
    if p in m then m[p] else 0
  }

  function Bytes(m: map<nat, bv8>, p: nat, n: nat): (s: seq<bv8>)
    ensures |s| == n
    ensures forall i :: 0 <= i < n ==> s[i] == ReadByte(m, p + i)
  {
    seq(n, i requires 0 <= i < n => ReadByte(m, p + i))
  }

  ghost predicate ChangedOnly(m: map<nat, bv8>, m1: map<nat, bv8>, from: nat, to: nat) {
    forall q: nat :: q < from || to <= q ==> ReadByte(m1, q) == ReadByte(m, q)
  }

  /** A write inside one live allocation leaves the bytes of all others alone. */
  lemma OthersKeepBytes(m: map<nat, bv8>, m1: map<nat, bv8>, live: set<Allocation>, b: Allocation, to: nat)
    requires Disjoint(live) && b in live && to <= b.End() && ChangedOnly(m, m1, b.addr, to)
    ensures forall o :: o in live - {b} ==> Bytes(m1, o.addr, o.size) == Bytes(m, o.addr, o.size)
  {
    forall o | o in live - {b} ensures Bytes(m1, o.addr, o.size) == Bytes(m, o.addr, o.size) {
      assert Apart(o.addr, o.End(), b.addr, b.End());
      forall i | 0 <= i < o.size ensures Bytes(m1, o.addr, o.size)[i] == Bytes(m, o.addr, o.size)[i] {
        assert ReadByte(m1, o.addr + i) == ReadByte(m, o.addr + i);
      }
    }
  }

  // ----- the whole state -----

  /** What every operation keeps: layout, the room left in the current block, and the statistics. */
  ghost predicate ArenaOk(bs: seq<Block>, c: Cursor, live: set<Allocation>, start: nat, remaining: nat, bytes: nat,
                          blockSize: nat) {
    && BlocksOk(bs) && LiveOk(bs, c, live) && AboveStart(c, live, start)
    && bs[0].size == blockSize && bs[c.block].size == blockSize
    && c.free + remaining == bs[c.block].End()
    && bytes == TotalSize(bs)
    && blockSize > DEFAULT_ALIGNMENT
  }

  lemma FreshBlockKeepsArena(bs: seq<Block>, c: Cursor, live: set<Allocation>, start: nat, remaining: nat, bytes: nat,
                             b: Block)
    requires ArenaOk(bs, c, live, start, remaining, bytes, b.size) && MallocGives(bs, b.mem, b.size)
    ensures ArenaOk(bs + [b], Cursor(|bs|, b.mem, NULL), live, start, b.size, bytes + b.size, b.size)
  {
    FreshBlockKeepsLive(bs, c, live, b);
  }

  lemma PrivateBlockKeepsArena(bs: seq<Block>, c: Cursor, live: set<Allocation>, start: nat, remaining: nat,
                               bytes: nat, blockSize: nat, b: Block, align: nat)
    requires ArenaOk(bs, c, live, start, remaining, bytes, blockSize) && MallocGives(bs, b.mem, b.size) && b.size > 0
    requires AlignmentOk(align)
    ensures var a := Allocation(b.mem, b.size, align, |bs|);
      a !in live && ArenaOk(bs + [b], c, live + {a}, start, remaining, bytes + b.size, blockSize)
  {
    PrivateBlockKeepsLive(bs, c, live, b, align);
  }

  lemma EmptyArenaIsOk(b: Block, waste: nat)
    requires b.mem != NULL && b.size > DEFAULT_ALIGNMENT > waste
    ensures ArenaOk([b], Cursor(0, b.mem + waste, NULL), {}, b.mem + waste, b.size - waste, b.size, b.size)
  {
    assert [] + [b] == [b];
  }
}
