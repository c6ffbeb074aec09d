module Arenas {
  // The arena allocator (base/arena.h, base/arena.cc).
  //
  // Blocks come from malloc, whose answer is a parameter of each operation that may need one.
  // A ghost ledger holds the live allocations: what the caller obtained and has not freed,
  // shrunk to nothing, or lost to Reset.  Valid says where they lie.

  import opened Wrappers
  import opened ArenaLayout
  import opened ArenaHandles

  const FIRST_BLOCKS := 16

  class BaseArena {
    const blockSize: nat
    const firstBlocks: array<Block>
    var blocksAlloced: nat
    var overflow: seq<Block>
    var freestart: nat
    var freestartWhenEmpty: nat
    var remaining: nat
    var lastAlloc: nat
    var bytesAllocated: nat
    var handleAlignmentBits: nat
    const blockSizeBits: nat
    /** The bytes at each address of the machine. */
    var memory: map<nat, bv8>

    /** All blocks, in the order IndexToBlock numbers them. */
    ghost var blocks: seq<Block>
    ghost var live: set<Allocation>
    /** The index of the block that freestart points into. */
    ghost var current: nat

    ghost function At(): Cursor
      reads this
    {
      Cursor(current, freestart, lastAlloc)
    }

    /** The array and the vector together hold the blocks; the bit counts fit the sizes. */
    ghost predicate Structure()
      reads this, firstBlocks
    {
      && firstBlocks.Length == FIRST_BLOCKS && 1 <= blocksAlloced <= FIRST_BLOCKS
      && (overflow != [] ==> blocksAlloced == FIRST_BLOCKS)
      && blocks == firstBlocks[..blocksAlloced] + overflow
      && blockSize <= Pow2(blockSizeBits) && handleAlignmentBits <= blockSizeBits
    }

    ghost predicate Valid()
      reads this, firstBlocks
    {
      && Structure()
      && ArenaOk(blocks, At(), live, freestartWhenEmpty, remaining, bytesAllocated, blockSize)
    }

    /** The size of the block malloc would be asked for. */
    function BlockNeeded(size: nat): nat {
      if size > blockSize / 4 then size else blockSize
    }

    /** first is the caller's own first block, or NULL to have one malloc'ed at mem. */
    constructor (first: nat, blockSize: nat, mem: nat)
      requires blockSize > DEFAULT_ALIGNMENT
      requires first == NULL ==> mem != NULL && mem % DEFAULT_ALIGNMENT == 0
      ensures Valid() && live == {} && this.blockSize == blockSize && fresh(firstBlocks)
      ensures blocks == [Block(if first == NULL then mem else first, blockSize)]
      ensures handleAlignmentBits == 0 && blockSize > Pow2(blockSizeBits) / 2
      ensures lastAlloc == NULL && freestart == freestartWhenEmpty && freestart + remaining == blocks[0].End()
      ensures blocks[0].mem <= freestart < blocks[0].mem + DEFAULT_ALIGNMENT && freestart % DEFAULT_ALIGNMENT == 0
      ensures bytesAllocated == blockSize
    {
      var bits := 0;
      var size := 1;
      while size < blockSize
        invariant size == Pow2(bits) && (bits > 0 ==> size / 2 < blockSize)
        decreases blockSize - size
      {
        bits := bits + 1;
        size := 2 * size;
      }
      var start := if first == NULL then mem else first;
      this.blockSize, this.blockSizeBits := blockSize, bits;
      firstBlocks := new Block[FIRST_BLOCKS](_ => Block(NULL, 0));
      blocksAlloced, overflow, blocks := 1, [], [];
      handleAlignmentBits, memory, live, current := 0, map[], {}, 0;
      freestart, freestartWhenEmpty, remaining, lastAlloc, bytesAllocated := start, start, blockSize, NULL, blockSize;
      new;
      firstBlocks[0] := Block(start, blockSize);
      ResetCursor();
    }

    /** Past the bytes before the first one aligned by default. */
    static method FirstAligned(mem: nat, size: nat) returns (start: nat, left: nat)
      requires size > DEFAULT_ALIGNMENT
      ensures mem <= start < mem + DEFAULT_ALIGNMENT && start % DEFAULT_ALIGNMENT == 0 && start + left == mem + size
    {
      start, left := mem, size;
      var overage := start % DEFAULT_ALIGNMENT;
      if overage > 0 {
        var waste := DEFAULT_ALIGNMENT - overage;
        start := start + waste;
        left := left - waste;
      }
    }

    /** The end of Reset: the first block may not be aligned, so fix that now. */
    method ResetCursor()
      requires firstBlocks.Length == FIRST_BLOCKS && blocksAlloced == 1 && overflow == []
      requires firstBlocks[0].mem != NULL && firstBlocks[0].size == blockSize > DEFAULT_ALIGNMENT
      requires blockSize <= Pow2(blockSizeBits) && handleAlignmentBits <= blockSizeBits
      modifies this
      ensures blocks == [old(firstBlocks[0])]
      ensures Valid() && live == {} && memory == old(memory) && handleAlignmentBits == old(handleAlignmentBits)
      ensures freestart == freestartWhenEmpty && lastAlloc == NULL
      ensures blocks[0].mem <= freestart < blocks[0].mem + DEFAULT_ALIGNMENT && freestart % DEFAULT_ALIGNMENT == 0
      ensures freestart + remaining == blocks[0].End() && bytesAllocated == blockSize
    {
      hide ArenaOk, Pow2;
      lastAlloc, bytesAllocated := NULL, blockSize;
      freestart, remaining := FirstAligned(firstBlocks[0].mem, firstBlocks[0].size);
      freestartWhenEmpty := freestart;
      live, current, blocks := {}, 0, [firstBlocks[0]];
      EmptyArenaIsOk(firstBlocks[0], freestart - firstBlocks[0].mem);
    }

    /** Frees all blocks but the first and starts over. */
    method Reset()
      requires Valid()
      modifies this, firstBlocks
      ensures Valid() && live == {} && blocks == [old(blocks[0])]
      ensures memory == old(memory) && handleAlignmentBits == old(handleAlignmentBits)
      ensures freestart == freestartWhenEmpty && lastAlloc == NULL
      ensures blocks[0].mem <= freestart < blocks[0].mem + DEFAULT_ALIGNMENT && freestart % DEFAULT_ALIGNMENT == 0
      ensures freestart + remaining == blocks[0].End() && bytesAllocated == blockSize
    {
      for i := 1 to blocksAlloced
        modifies firstBlocks
        invariant firstBlocks[0] == old(firstBlocks[0])
      {
        firstBlocks[i] := Block(NULL, 0);
      }
      blocksAlloced, overflow := 1, [];
      ResetCursor();
    }

    /** AllocNewBlock: an array slot while there is one, then the vector. */
    method AllocNewBlock(size: nat, mem: nat)
      requires Structure()
      modifies this`blocksAlloced, this`overflow, this`bytesAllocated, this`blocks, firstBlocks
      ensures Structure() && blocks == old(blocks) + [Block(mem, size)]
      ensures bytesAllocated == old(bytesAllocated) + size
    {
      blocks := blocks + [Block(mem, size)];
      if blocksAlloced < FIRST_BLOCKS {
        firstBlocks[blocksAlloced] := Block(mem, size);
        blocksAlloced := blocksAlloced + 1;
      } else {
        overflow := overflow + [Block(mem, size)];
      }
      bytesAllocated := bytesAllocated + size;
    }

    /** Takes size bytes at start, which the waste before it has aligned; left bytes are there. */
    method Bump(start: nat, left: nat, size: nat, align: nat) returns (p: nat, ghost a: Allocation)
      requires Valid() && freestart <= start && start + left == freestart + remaining && 0 < size <= left
      requires AlignmentOk(align) && Overage(start, align) == 0
      modifies this`lastAlloc, this`freestart, this`remaining, this`live
      ensures Valid() && p == start && lastAlloc == p && freestart == p + size && freestart + remaining == start + left
      ensures a == Allocation(p, size, align, current) && a !in old(live) && live == old(live) + {a}
    {
      a := Allocation(start, size, align, current);
      BumpKeepsLive(blocks, At(), live, start, size, align);
      lastAlloc := start;
      freestart := start + size;
      remaining := left - size;
      p := lastAlloc;
      live := live + {a};
    }

    /** An allocation too big to share: it gets a block of its own, which the cursor ignores. */
    method AllocPrivate(size: nat, align: nat, mem: nat) returns (ghost a: Allocation)
      requires Valid() && size > 0 && AlignmentOk(align) && MallocGives(blocks, mem, size)
      modifies this`blocksAlloced, this`overflow, this`bytesAllocated, this`blocks, this`live, firstBlocks
      ensures Valid() && blocks == old(blocks) + [Block(mem, size)]
      ensures a == Allocation(mem, size, align, |old(blocks)|) && a !in old(live) && live == old(live) + {a}
    {
      hide ArenaOk, MallocGives;
      a := Allocation(mem, size, align, |blocks|);
      PrivateBlockKeepsArena(blocks, At(), live, freestartWhenEmpty, remaining, bytesAllocated, blockSize,
                             Block(mem, size), align);
      AllocNewBlock(size, mem);
      live := live + {a};
    }

    /** Leaves the current block and starts on a malloc'ed one; the caller sets the last allocation next. */
    method MakeNewBlock(mem: nat)
      requires Valid() && MallocGives(blocks, mem, blockSize)
      modifies this`blocksAlloced, this`overflow, this`bytesAllocated, this`blocks, firstBlocks
      modifies this`freestart, this`remaining, this`lastAlloc, this`current
      ensures Valid() && blocks == old(blocks) + [Block(mem, blockSize)]
      ensures freestart == mem && remaining == blockSize
    {
      hide ArenaOk, MallocGives;
      FreshBlockKeepsArena(blocks, At(), live, freestartWhenEmpty, remaining, bytesAllocated, Block(mem, blockSize));
      AllocNewBlock(blockSize, mem);
      freestart, remaining := mem, blockSize;
      lastAlloc, current := NULL, |blocks| - 1;
    }

    /** size bytes may start there: the first aligned byte from free on, where room bytes are left. */
    static ghost predicate FitsAt(free: nat, room: nat, start: nat, size: nat, align: nat)
      requires AlignmentOk(align)
    {
      free <= start < free + align && Overage(start, align) == 0 && start + size <= free + room
    }

    static lemma FirstAlignedIsOne(free: nat, start: nat, other: nat, align: nat)
      requires AlignmentOk(align) && Overage(start, align) == 0 && Overage(other, align) == 0
      requires free <= start < free + align && free <= other < free + align
      ensures start == other
    {
      match align
      case 1 =>
      case 2 => assert start / 2 == other / 2;
      case 4 => assert start / 4 == other / 4;
      case _ => assert start / 8 == other / 8;
    }

    /** Where the next aligned byte is and how many bytes are left there. */
    method SkipWaste(align: nat) returns (start: nat, left: nat)
      requires AlignmentOk(align)
      ensures freestart <= start < freestart + align && Overage(start, align) == 0
      ensures if start < freestart + remaining then start + left == freestart + remaining else left == 0
    {
      var overage := Overage(freestart, align);
      start, left := freestart, remaining;
      if overage > 0 {
        var waste := align - overage;
        SkippingOverageAligns(start, align);
        start := start + waste;
        left := if waste < left then left - waste else 0;
      }
    }

    lemma AlignedByDefault(mem: nat, align: nat)
      requires AlignmentOk(align) && MallocGives(blocks, mem, blockSize)
      ensures Overage(mem, align) == 0
    {
    }

    /** An aligned place with room in the current block, or in a new one when there is none. */
    method FindRoom(size: nat, align: nat, mem: nat) returns (start: nat, left: nat)
      requires Valid() && 0 < size <= blockSize / 4 && AlignmentOk(align) && MallocGives(blocks, mem, blockSize)
      modifies this`blocksAlloced, this`overflow, this`bytesAllocated, this`blocks, firstBlocks
      modifies this`freestart, this`remaining, this`lastAlloc, this`current
      ensures Valid() && freestart <= start && Overage(start, align) == 0
      ensures start + left == freestart + remaining && size <= left
      ensures blocks == old(blocks) ==>
        && FitsAt(old(freestart), old(remaining), start, size, align)
        && current == old(current) && freestart + remaining == old(freestart + remaining)
      ensures blocks != old(blocks) ==>
        && blocks == old(blocks) + [Block(mem, blockSize)] && start == mem && start + left == mem + blockSize
        && forall other :: !FitsAt(old(freestart), old(remaining), other, size, align)
    {
      AlignedByDefault(mem, align);
      hide ArenaOk, MallocGives;
      start, left := SkipWaste(align);
      if size > left {
        NoOtherFits(freestart, remaining, start, size, align);
        MakeNewBlock(mem);
        start, left := freestart, remaining;
      }
    }

    /** size bytes at p have come from the current block where they fit in it, and else from a new one at mem. */
    twostate predicate SharedAt(p: nat, size: nat, align: nat, mem: nat)
      requires AlignmentOk(align)
      reads this
    {
      && lastAlloc == p && freestart == p + size
      && (blocks == old(blocks) ==>
            && FitsAt(old(freestart), old(remaining), p, size, align)
            && current == old(current) && freestart + remaining == old(freestart + remaining))
      && (blocks != old(blocks) ==>
            && blocks == old(blocks) + [Block(mem, blockSize)] && p == mem && freestart + remaining == mem + blockSize
            && forall start :: !FitsAt(old(freestart), old(remaining), start, size, align))
    }

    /** An allocation from the current block, or from a new one when it does not fit. */
    method AllocShared(size: nat, align: nat, mem: nat) returns (p: nat, ghost a: Allocation)
      requires Valid() && 0 < size <= blockSize / 4 && AlignmentOk(align) && MallocGives(blocks, mem, blockSize)
      modifies this`blocksAlloced, this`overflow, this`bytesAllocated, this`blocks, firstBlocks
      modifies this`freestart, this`remaining, this`lastAlloc, this`current, this`live
      ensures Valid() && old(blocks) <= blocks
      ensures a == Allocation(p, size, align, current) && a !in old(live) && live == old(live) + {a}
      ensures SharedAt(p, size, align, mem)
    {
      hide ArenaOk, MallocGives;
      var start, left := FindRoom(size, align, mem);
      p, a := Bump(start, left, size, align);
    }

    static lemma NoOtherFits(free: nat, room: nat, start: nat, size: nat, align: nat)
      requires AlignmentOk(align) && free <= start < free + align && Overage(start, align) == 0
      requires start + size > free + room
      ensures forall other :: !FitsAt(free, room, other, size, align)
    {
      forall other | FitsAt(free, room, other, size, align) ensures false {
        FirstAlignedIsOne(free, start, other, align);
      }
    }

    method GetMemoryFallback(size: nat, align: nat, mem: nat) returns (p: nat, ghost a: Allocation)
      requires Valid() && AlignmentOk(align) && MallocGives(blocks, mem, BlockNeeded(size))
      modifies this, firstBlocks
      ensures Valid() && old(blocks) <= blocks
      ensures memory == old(memory) && handleAlignmentBits == old(handleAlignmentBits)
      ensures size == 0 ==> p == NULL && live == old(live) && blocks == old(blocks)
      ensures size > 0 ==> p == a.addr && a.size == size && a.align == align
      ensures size > 0 ==> a !in old(live) && live == old(live) + {a}
      ensures size > 0 ==> a.block == current || p == blocks[a.block].mem
      ensures size > blockSize / 4 ==>
        && blocks == old(blocks) + [Block(mem, size)] && p == mem
        && freestart == old(freestart) && remaining == old(remaining)
        && lastAlloc == old(lastAlloc) && current == old(current)
      ensures 0 < size <= blockSize / 4 ==> SharedAt(p, size, align, mem)
    {
      if size == 0 {
        return NULL, Allocation(0, 0, 1, 0);
      }
      if size > blockSize / 4 {
        a := AllocPrivate(size, align, mem);
        p := mem;
      } else {
        p, a := AllocShared(size, align, mem);
      }
    }

    method GetMemory(size: nat, align: nat, mem: nat) returns (p: nat, ghost a: Allocation)
      requires Valid() && AlignmentOk(align) && MallocGives(blocks, mem, BlockNeeded(size))
      modifies this, firstBlocks
      ensures Valid() && old(blocks) <= blocks
      ensures memory == old(memory) && handleAlignmentBits == old(handleAlignmentBits)
      ensures size == 0 ==> p == NULL && live == old(live) && blocks == old(blocks)
      ensures size > 0 ==> p == a.addr && a.size == size && a.align == align
      ensures size > 0 ==> a !in old(live) && live == old(live) + {a}
      ensures size > 0 ==> a.block == current || p == blocks[a.block].mem
      ensures 0 < size < old(remaining) && align == 1 ==>
        && p == old(freestart) && lastAlloc == p && freestart == p + size
        && freestart + remaining == old(freestart) + old(remaining) && blocks == old(blocks) && current == old(current)
      ensures size > blockSize / 4 && !(size < old(remaining) && align == 1) ==>
        && blocks == old(blocks) + [Block(mem, size)] && p == mem
        && freestart == old(freestart) && remaining == old(remaining)
        && lastAlloc == old(lastAlloc) && current == old(current)
      ensures 0 < size <= blockSize / 4 ==> SharedAt(p, size, align, mem)
    {
      if 0 < size < remaining && align == 1 {
        p, a := Bump(freestart, remaining, size, align);
      } else {
        p, a := GetMemoryFallback(size, align, mem);
      }
    }

    /** Takes back the last piece allocated; anything else stays allocated until Reset. */
    method ReturnMemory(p: nat, size: nat, ghost a: Allocation)
      requires Valid() && Known(blocks, live, a) && p == a.addr && size == a.size
      modifies this`freestart, this`remaining, this`live
      ensures Valid() && live == old(live) - {a}
      ensures freestart == if p == lastAlloc && size > 0 then p else old(freestart)
    {
      if size > 0 {
        ReleaseKeepsLive(blocks, At(), live, a);
        if p == lastAlloc {
          LastIsInCurrentBlock(blocks, At(), live, a);
        }
      } else {
        EmptyIsNotLive(a);
      }
      if p == lastAlloc && size == freestart - lastAlloc {
        remaining := remaining + size;
        freestart := lastAlloc;
      }
      live := live - {a};
    }

    lemma EmptyIsNotLive(a: Allocation)
      requires Valid() && a.size == 0
      ensures live - {a} == live
    {
      assert forall b :: b in live ==> Placed(blocks, b);
    }

    /** AdjustLastAlloc takes a for the last allocation, and has room for newSize bytes there. */
    predicate FitsInPlace(p: nat, newSize: nat)
      reads this
    {
      p != NULL && p == lastAlloc && newSize <= freestart - lastAlloc + remaining
    }

    /** And there it would cut into another live allocation, which starts where a was shrunk to nothing. */
    ghost predicate Clashes(a: Allocation, newSize: nat)
      reads this
    {
      FitsInPlace(a.addr, newSize) && !Alone(live, a)
    }

    /**
     Grows or shrinks the last allocation in place, when it is the last and there is room.  This
     keeps the arena in order exactly when no other live allocation starts at p.
     */
    method AdjustLastAlloc(p: nat, newSize: nat, ghost a: Allocation) returns (ok: bool)
      requires Valid() && Known(blocks, live, a) && p == a.addr
      modifies this`freestart, this`remaining, this`live
      ensures ok <==> old(FitsInPlace(p, newSize))
      ensures ok ==> freestart == p + newSize && freestart + remaining == old(freestart) + old(remaining)
      ensures !ok ==> freestart == old(freestart) && remaining == old(remaining)
      ensures !old(Clashes(a, newSize)) ==> Valid() && live == if ok then Resized(old(live), a, newSize) else old(live)
      ensures old(Clashes(a, newSize)) ==> Structure() && live == old(live)
    {
      hide ArenaOk, Known, Alone, Resized;
      if p == NULL || p != lastAlloc {
        return false;
      }
      if newSize > (freestart - lastAlloc) + remaining {
        return false;
      }
      var oldFreestart := freestart;
      if Alone(live, a) {
        ReshapeLast(a, newSize);
        live := Resized(live, a, newSize);
      }
      freestart := lastAlloc + newSize;
      remaining := remaining - (freestart - oldFreestart);
      return true;
    }

    lemma ReshapeLast(a: Allocation, newSize: nat)
      requires Valid() && Known(blocks, live, a) && FitsInPlace(a.addr, newSize) && Alone(live, a)
      ensures var c := At().(free := lastAlloc + newSize);
        ArenaOk(blocks, c, Resized(live, a, newSize), freestartWhenEmpty,
                freestart + remaining - (lastAlloc + newSize), bytesAllocated, blockSize)
    {
      if a.size > 0 {
        ResizeLastKeepsLive(blocks, At(), live, a, newSize);
      } else {
        ReopenLast(blocks, At(), live, a, newSize);
        EmptiedAtLast(blocks, At(), a);
      }
    }

    /** The caller says that newSize is no greater than the size. */
    method Shrink(p: nat, newSize: nat, ghost a: Allocation)
      requires Valid() && Known(blocks, live, a) && p == a.addr && newSize <= a.size
      modifies this`freestart, this`remaining, this`live
      ensures !old(Clashes(a, newSize)) ==> Valid() && live == Resized(old(live), a, newSize)
      ensures old(Clashes(a, newSize)) ==> Structure() && live == old(live) && freestart == p
      ensures old(FitsInPlace(p, newSize)) ==> freestart == p + newSize
      ensures freestart + remaining == old(freestart) + old(remaining)
    {
      var ok := AdjustLastAlloc(p, newSize, a);
      if !ok {
        KeepFront(a, newSize);
      }
    }

    /** What was not resized in place: only its front is used from now on. */
    ghost method KeepFront(a: Allocation, newSize: nat)
      requires Valid() && Known(blocks, live, a) && newSize <= a.size && !FitsInPlace(a.addr, newSize)
      modifies this`live
      ensures Valid() && live == Resized(old(live), a, newSize)
    {
      if a.size > 0 {
        LastHasRoom(a, newSize);
        TrimKeepsLive(blocks, At(), live, a, newSize);
        live := Resized(live, a, newSize);
      } else {
        EmptyIsNotLive(a);
      }
    }

    lemma LastHasRoom(a: Allocation, size: nat)
      requires Valid() && a in live && size <= a.size
      ensures a.addr != NULL && (a.addr == lastAlloc ==> size <= freestart - a.addr + remaining)
    {
      if a.addr == lastAlloc {
        LastIsInCurrentBlock(blocks, At(), live, a);
      }
    }

    /** memcpy between areas that do not overlap. */
    method MemCopy(to: nat, from: nat, n: nat)
      requires Apart(to, to + n, from, from + n)
      modifies this`memory
      ensures Bytes(memory, to, n) == Bytes(old(memory), from, n)
      ensures ChangedOnly(old(memory), memory, to, to + n)
    {
      for i := 0 to n
        invariant ChangedOnly(old(memory), memory, to, to + i)
        invariant forall q: nat :: to <= q < to + i ==> ReadByte(memory, q) == ReadByte(old(memory), from + (q - to))
      {
        ghost var before := memory;
        memory := memory[to + i := ReadByte(memory, from + i)];
        assert forall q: nat :: q != to + i ==> ReadByte(memory, q) == ReadByte(before, q);
      }
      forall i | 0 <= i < n ensures Bytes(memory, to, n)[i] == Bytes(old(memory), from, n)[i] {
        assert ReadByte(memory, to + i) == ReadByte(old(memory), from + i);
      }
    }

    /** Whatever the caller writes, byte by byte, into memory it holds. */
    method Store(q: nat, value: bv8, ghost a: Allocation)
      requires Valid() && a in live && a.addr <= q < a.End()
      modifies this`memory
      ensures Valid() && memory == old(memory)[q := value]
      ensures forall o :: o in live - {a} ==> Bytes(memory, o.addr, o.size) == Bytes(old(memory), o.addr, o.size)
    {
      memory := memory[q := value];
      OthersKeepBytes(old(memory), memory, live, a, a.End());
    }

    /**
     Resizes an allocation, moving it when it cannot grow in place.  Unless that clashes, the first
     min(oldSize, newSize) bytes survive and no other live allocation changes.
     */
    method Realloc(s: nat, oldSize: nat, newSize: nat, mem: nat, ghost a: Allocation)
      returns (r: nat, ghost b: Allocation)
      requires Valid() && MallocGives(blocks, mem, BlockNeeded(newSize))
      requires Known(blocks, live, a) && s == a.addr && oldSize == a.size
      modifies this, firstBlocks
      ensures old(blocks) <= blocks && handleAlignmentBits == old(handleAlignmentBits)
      ensures !old(Clashes(a, newSize)) ==>
        && Valid() && (newSize > 0 ==> b !in old(live) - {a})
        && live == old(live) - {a} + (if newSize == 0 then {} else {b})
        && forall o :: o in old(live) - {a} ==> Bytes(memory, o.addr, o.size) == Bytes(old(memory), o.addr, o.size)
      ensures old(FitsInPlace(s, newSize)) ==>
        && freestart == s + newSize && freestart + remaining == old(freestart) + old(remaining)
        && lastAlloc == old(lastAlloc) && current == old(current) && blocks == old(blocks) && memory == old(memory)
      ensures old(Clashes(a, newSize)) ==> Structure() && live == old(live)
      ensures newSize <= oldSize || old(FitsInPlace(s, newSize)) ==> r == s && b == a.(size := newSize)
      ensures newSize > 0 ==> b.addr == r && b.size == newSize
      ensures Bytes(memory, r, Min(oldSize, newSize)) == Bytes(old(memory), s, Min(oldSize, newSize))
    {
      hide ArenaOk, MallocGives, Alone;
      OnlyOneThere(a, newSize);
      var ok := AdjustLastAlloc(s, newSize, a);
      b := a.(size := newSize);
      if ok {
        return s, b;
      }
      if newSize <= oldSize {
        KeepFront(a, newSize);
        return s, b;
      }
      r, b := Move(s, oldSize, newSize, mem, a);
    }

    lemma LiveStandsAlone(a: Allocation)
      requires Valid() && a in live
      ensures Alone(live, a)
    {
      LiveIsAlone(blocks, At(), live, a);
    }

    lemma OnlyOneThere(a: Allocation, size: nat)
      requires Valid() && (a.size > 0 ==> a in live)
      ensures Alone(live, a) ==> a.(size := size) !in live - {a}
      ensures a.size > 0 ==> Alone(live, a)
    {
      if a.size > 0 {
        LiveStandsAlone(a);
      }
    }

    /** Realloc's last resort: a new place, a copy, and the old place forgotten. */
    method Move(s: nat, oldSize: nat, newSize: nat, mem: nat, ghost a: Allocation) returns (r: nat, ghost b: Allocation)
      requires Valid() && Known(blocks, live, a) && s == a.addr && oldSize == a.size < newSize
      requires MallocGives(blocks, mem, BlockNeeded(newSize))
      modifies this, firstBlocks
      ensures Valid() && old(blocks) <= blocks && handleAlignmentBits == old(handleAlignmentBits)
      ensures live == old(live) - {a} + {b} && b !in old(live) && b.addr == r && b.size == newSize
      ensures Bytes(memory, r, oldSize) == Bytes(old(memory), s, oldSize)
      ensures forall o :: o in old(live) - {a} ==> Bytes(memory, o.addr, o.size) == Bytes(old(memory), o.addr, o.size)
    {
      hide ArenaOk, MallocGives;
      if oldSize == 0 {
        EmptyIsNotLive(a);
      }
      r, b := GetMemory(newSize, 1, mem);
      if oldSize > 0 {
        CopyLive(r, s, oldSize, b, a);
        Forget(a);
      }
    }

    method CopyLive(to: nat, from: nat, n: nat, ghost b: Allocation, ghost a: Allocation)
      requires Valid() && a in live && b in live && a != b && to == b.addr && from == a.addr && n <= a.size
      requires n <= b.size
      modifies this`memory
      ensures Bytes(memory, to, n) == Bytes(old(memory), from, n)
      ensures forall o :: o in live - {b} ==> Bytes(memory, o.addr, o.size) == Bytes(old(memory), o.addr, o.size)
    {
      assert Apart(b.addr, b.End(), a.addr, a.End());
      MemCopy(to, from, n);
      OthersKeepBytes(old(memory), memory, live, b, to + n);
    }

    ghost method Forget(a: Allocation)
      requires Valid() && a in live
      modifies this`live
      ensures Valid() && live == old(live) - {a}
    {
      ReleaseKeepsLive(blocks, At(), live, a);
      live := live - {a};
    }

    static function Min(x: nat, y: nat): nat {
      if x < y then x else y
    }

    // ----- handles -----

    function BlockCount(): nat
      reads this
    {
      blocksAlloced + |overflow|
    }

    function IndexToBlock(index: nat): Checked<Block>
      reads this, firstBlocks
      requires firstBlocks.Length == FIRST_BLOCKS
    {
      if index < FIRST_BLOCKS then Ok(firstBlocks[index])
      else if index - FIRST_BLOCKS < |overflow| then Ok(overflow[index - FIRST_BLOCKS])
      else Fault
    }

    lemma IndexToBlockNumbersBlocks(index: nat)
      requires Valid() && index < |blocks|
      ensures IndexToBlock(index) == Ok(blocks[index])
    {
    }

    /** The block that p lies in; the source searches from the newest block down. */
    method FindBlock(p: nat) returns (r: Checked<nat>)
      requires Valid()
      ensures r.Ok? ==> r.value < |blocks| && blocks[r.value].mem <= p < blocks[r.value].End()
      ensures r.Fault? ==> forall i :: 0 <= i < |blocks| ==> !(blocks[i].mem <= p < blocks[i].End())
    {
      var i: int := BlockCount() - 1;
      while i >= 0
        invariant -1 <= i < |blocks|
        invariant forall j :: i < j < |blocks| ==> !(blocks[j].mem <= p < blocks[j].End())
      {
        IndexToBlockNumbersBlocks(i);
        var block := IndexToBlock(i).value;
        if block.mem <= p < block.mem + block.size {
          return Ok(i);
        }
        i := i - 1;
      }
      return Fault;
    }

    /**
     Allocates and names the allocation by a handle.  Asking for no bytes trips the check that
     a block was found.  A valid handle resolves to the allocation's address exactly when the
     block it lies in starts at an address aligned for handles; a malloc'ed block always does,
     so only a first block supplied by the caller can fail.
     */
    method GetMemoryWithHandle(size: nat, mem: nat) returns (r: Checked<(nat, nat)>, ghost a: Allocation)
      requires Valid() && handleAlignmentBits <= 3 && MallocGives(blocks, mem, BlockNeeded(size))
      modifies this, firstBlocks
      ensures Valid() && old(blocks) <= blocks
      ensures memory == old(memory) && handleAlignmentBits == old(handleAlignmentBits)
      ensures r.Fault? <==> size == 0
      ensures r.Ok? ==> var (p, handle) := r.value;
        && p == a.addr && a.size == size && a !in old(live) && live == old(live) + {a}
        && (handle != INVALID_HANDLE ==>
              var at := Resolve(blocks, handle, blockSizeBits, handleAlignmentBits);
              at.Ok? && (at == Ok(p) <==> Mod(blocks[a.block].mem, Pow2(handleAlignmentBits)) == 0))
        && (a.block > 0 ==> Mod(blocks[a.block].mem, Pow2(handleAlignmentBits)) == 0)
        && (handle == INVALID_HANDLE <==> PlaceOf(blocks, a, blockSizeBits, handleAlignmentBits) >= INVALID_HANDLE)
        && (handle != INVALID_HANDLE ==> HandleOf(blocks, a, handle, blockSizeBits, handleAlignmentBits))
        && a.align == Pow2(handleAlignmentBits) && Overage(p, a.align) == 0
    {
      SmallPowers(handleAlignmentBits);
      var p;
      p, a := GetMemory(size, Pow2(handleAlignmentBits), mem);
      var found := FindBlock(p);
      if found.Fault? {
        return Fault, a;
      }
      var handle := HandleFor(p, found.value, a);
      return Ok((p, handle)), a;
    }

    method HandleFor(p: nat, index: nat, ghost a: Allocation) returns (handle: nat)
      requires Valid() && handleAlignmentBits <= 3 && a in live && p == a.addr
      requires a.align == Pow2(handleAlignmentBits) && (a.block == current || p == blocks[a.block].mem)
      requires index < |blocks| && blocks[index].mem <= p < blocks[index].End()
      ensures handle != INVALID_HANDLE ==>
        var at := Resolve(blocks, handle, blockSizeBits, handleAlignmentBits);
        at.Ok? && (at == Ok(p) <==> Mod(blocks[a.block].mem, Pow2(handleAlignmentBits)) == 0)
      ensures a.block > 0 ==> Mod(blocks[a.block].mem, Pow2(handleAlignmentBits)) == 0
      ensures handle == INVALID_HANDLE <==> PlaceOf(blocks, a, blockSizeBits, handleAlignmentBits) >= INVALID_HANDLE
      ensures handle != INVALID_HANDLE ==> HandleOf(blocks, a, handle, blockSizeBits, handleAlignmentBits)
    {
      OneBlockHolds(blocks, a, index);
      IndexToBlockNumbersBlocks(index);
      var offset := p - IndexToBlock(index).value.mem;
      var value := Encode(index, offset, blockSizeBits, handleAlignmentBits);
      handle := if value >= INVALID_HANDLE then INVALID_HANDLE else value;
      DecodeUndoesEncode(index, offset, blockSizeBits, handleAlignmentBits);
      OffsetAlignment(p, blocks[index].mem, Pow2(handleAlignmentBits));
    }

    /** Resolving in the arena, through the array and the overflow vector. */
    function HandleToPointer(handle: nat): (r: Checked<nat>)
      reads this, firstBlocks
      requires Valid()
      ensures handle != INVALID_HANDLE && DecodeBlock(handle, blockSizeBits, handleAlignmentBits) < |blocks|
          ==> r == Resolve(blocks, handle, blockSizeBits, handleAlignmentBits)
    {
      if handle == INVALID_HANDLE then Fault
      else
        var index := DecodeBlock(handle, blockSizeBits, handleAlignmentBits);
        assert index < |blocks| ==> IndexToBlock(index) == Ok(blocks[index]);
        var block :- IndexToBlock(index);
        Ok(block.mem + DecodeOffset(handle, blockSizeBits, handleAlignmentBits))
    }

    /** Refused unless align is a power of two dividing a larger block size and nothing is allocated. */
    method SetHandleAlignment(align: nat) returns (ok: bool)
      requires Valid()
      modifies this`handleAlignmentBits
      ensures Valid()
      ensures ok <==> IsPowerOfTwo(align) && align < blockSize && blockSize % align == 0
                      && freestart == freestartWhenEmpty && |blocks| == 1
      ensures ok ==> Pow2(handleAlignmentBits) == align && live == {}
      ensures !ok ==> handleAlignmentBits == old(handleAlignmentBits)
    {
      if !IsPowerOfTwo(align) || align >= blockSize || blockSize % align != 0
         || freestart != freestartWhenEmpty || BlockCount() != 1 {
        return false;
      }
      var bits := 0;
      while Pow2(bits) < align
        invariant Pow2(bits) <= align
        decreases align - Pow2(bits)
      {
        PowerOfTwoHasLog(align, bits);
        bits := bits + 1;
      }
      if bits > blockSizeBits {
        Pow2Monotonic(blockSizeBits, bits);
      }
      handleAlignmentBits := bits;
      EmptyMeansNothingLives();
      return true;
    }

    lemma EmptyMeansNothingLives()
      requires Valid() && freestart == freestartWhenEmpty && |blocks| == 1
      ensures live == {}
    {
      assert forall a :: a in live ==> BehindCursor(At(), a);
    }
  }

  // ----- handles over a growing list of blocks -----

  function Resolve(bs: seq<Block>, handle: nat, blockBits: nat, alignBits: nat): Checked<nat> {
    var index := DecodeBlock(handle, blockBits, alignBits);
    if index < |bs| then Ok(bs[index].mem + DecodeOffset(handle, blockBits, alignBits)) else Fault
  }

  /** The 64-bit value before it is cut to a handle. */
  function PlaceOf(bs: seq<Block>, a: Allocation, blockBits: nat, alignBits: nat): nat
    requires Placed(bs, a)
  {
    Encode(a.block, a.addr - bs[a.block].mem, blockBits, alignBits)
  }

  /** The handle names the place of an allocation that is aligned for handles. */
  ghost predicate HandleOf(bs: seq<Block>, a: Allocation, handle: nat, blockBits: nat, alignBits: nat) {
    && a.block < |bs| && AlignmentOk(a.align) && a.align == Pow2(alignBits) && Overage(a.addr, a.align) == 0
    && alignBits <= blockBits && 0 <= a.addr - bs[a.block].mem < Pow2(blockBits) && handle < INVALID_HANDLE
    && handle == Encode(a.block, a.addr - bs[a.block].mem, blockBits, alignBits)
  }

  lemma SameResidue(p: nat, q: nat, mem: nat, align: nat)
    requires mem <= p && mem <= q && AlignmentOk(align) && Overage(p, align) == 0 && Overage(q, align) == 0
    ensures Mod(p - mem, align) == Mod(q - mem, align)
  {
    ModIsOverage(p - mem, align);
    ModIsOverage(q - mem, align);
    match align
    case 1 =>
    case 2 => assert (p - mem) - (q - mem) == 2 * (p / 2 - q / 2);
    case 4 => Residue4(p, q, mem);
    case _ => Residue8(p, q, mem);
  }

  lemma Residue4(p: nat, q: nat, mem: nat)
    requires mem <= p && mem <= q && p % 4 == 0 && q % 4 == 0
    ensures (p - mem) % 4 == (q - mem) % 4
  {
    assert p - mem == (q - mem) + 4 * (p / 4 - q / 4);
  }

  lemma Residue8(p: nat, q: nat, mem: nat)
    requires mem <= p && mem <= q && p % 8 == 0 && q % 8 == 0
    ensures (p - mem) % 8 == (q - mem) % 8
  {
    assert p - mem == (q - mem) + 8 * (p / 8 - q / 8);
  }

  /** Two places never share a handle, wherever their blocks start. */
  lemma HandlesDiffer(bs: seq<Block>, a: Allocation, b: Allocation, handle: nat, blockBits: nat, alignBits: nat)
    requires HandleOf(bs, a, handle, blockBits, alignBits) && HandleOf(bs, b, handle, blockBits, alignBits)
    ensures a.block == b.block && a.addr == b.addr
  {
    var offA, offB := a.addr - bs[a.block].mem, b.addr - bs[b.block].mem;
    DecodeUndoesEncode(a.block, offA, blockBits, alignBits);
    DecodeUndoesEncode(b.block, offB, blockBits, alignBits);
    SameResidue(a.addr, b.addr, bs[a.block].mem, a.align);
  }

  /** A handle resolves to its place exactly when the block starts aligned for handles. */
  lemma HandleResolves(bs: seq<Block>, a: Allocation, handle: nat, blockBits: nat, alignBits: nat)
    requires HandleOf(bs, a, handle, blockBits, alignBits)
    ensures DecodeBlock(handle, blockBits, alignBits) == a.block
    ensures Resolve(bs, handle, blockBits, alignBits) == Ok(a.addr) <==> Mod(bs[a.block].mem, Pow2(alignBits)) == 0
  {
    DecodeUndoesEncode(a.block, a.addr - bs[a.block].mem, blockBits, alignBits);
    OffsetAlignment(a.addr, bs[a.block].mem, a.align);
  }

  /** A handle keeps its meaning while blocks are only added. */
  lemma HandleSurvivesNewBlocks(bs: seq<Block>, more: seq<Block>, handle: nat, blockBits: nat, alignBits: nat)
    requires bs <= more && Resolve(bs, handle, blockBits, alignBits).Ok?
    ensures Resolve(more, handle, blockBits, alignBits) == Resolve(bs, handle, blockBits, alignBits)
  {
  }

  /** With blocks larger than the default alignment the index cut from a handle fits in an int. */
  lemma HandleIndexFitsInt(blockSize: nat, handle: nat, blockBits: nat, alignBits: nat)
    requires DEFAULT_ALIGNMENT < blockSize <= Pow2(blockBits) && alignBits <= 3 && handle < INVALID_HANDLE
    ensures DecodeBlock(handle, blockBits, alignBits) < 0x8000_0000
  {
    assert Pow2(3) == 8 by {
      assert Pow2(1) == 2 && Pow2(2) == 4;
    }
    if blockBits < 4 {
      Pow2Monotonic(blockBits, 3);
    }
    BlockIndexFitsInt(handle, blockBits, alignBits);
  }

  lemma SmallPowers(bits: nat)
    requires bits <= 3
    ensures AlignmentOk(Pow2(bits))
  {
    assert Pow2(1) == 2 && Pow2(2) == 4 && Pow2(3) == 8;
  }

  lemma OneBlockHolds(bs: seq<Block>, a: Allocation, index: nat)
    requires BlocksOk(bs) && Placed(bs, a) && index < |bs| && bs[index].mem <= a.addr < bs[index].End()
    ensures index == a.block
  {
  }

  lemma ModIsOverage(x: nat, align: nat)
    requires AlignmentOk(align)
    ensures Mod(x, align) == Overage(x, align)
  {
    match align
    case 1 => assert Mod(x, 1) == x % 1;
    case 2 => assert Mod(x, 2) == x % 2;
    case 4 => assert Mod(x, 4) == x % 4;
    case _ => assert Mod(x, 8) == x % 8;
  }

  lemma OffsetAlignment(p: nat, mem: nat, align: nat)
    requires mem <= p && AlignmentOk(align) && Overage(p, align) == 0
    ensures Mod(p - mem, align) == 0 <==> Mod(mem, align) == 0
    ensures mem % DEFAULT_ALIGNMENT == 0 ==> Mod(mem, align) == 0
  {
    OverageOfDifference(p, mem, align);
    ModIsOverage(p - mem, align);
    ModIsOverage(mem, align);
  }

  lemma OverageOfDifference(p: nat, mem: nat, align: nat)
    requires mem <= p && AlignmentOk(align) && Overage(p, align) == 0
    ensures Overage(p - mem, align) == 0 <==> Overage(mem, align) == 0
  {
  }
}
