module ArenaClients {
  // A client of the arena that serves any list of requests, and keeps order exactly until one
  // clashes; and two runs in which one does.

  import opened Wrappers
  import opened ArenaLayout
  import opened ArenaHandles
  import opened Arenas
  import opened ArenaRuns

  /** malloc gives aligned memory apart from the blocks in use, whenever it is asked. */
  ghost predicate Mallocs(malloc: (seq<Block>, nat) -> nat) {
    forall bs, size :: MallocGives(bs, malloc(bs, size), size)
  }

  /** The blocks in use, as the array and the vector hold them. */
  function BlocksOf(arena: BaseArena): seq<Block>
    reads arena, arena.firstBlocks
    requires arena.Valid()
  {
    arena.firstBlocks[..arena.blocksAlloced] + arena.overflow
  }

  /** The arena is in order, its live allocations are the client's places, and the handles name them. */
  ghost predicate Keeps(arena: BaseArena, places: seq<Place>, owners: seq<Allocation>)
    reads arena, arena.firstBlocks
  {
    && arena.Valid() && arena.handleAlignmentBits <= 3
    && Owned(arena.blocks, arena.live, places, owners)
    && HandlesOk(arena.blocks, places, owners, arena.blockSizeBits, arena.handleAlignmentBits)
  }

  lemma PieceOfNothing(m: map<nat, bv8>, at: Place)
    requires at.size == 0
    ensures PieceAt(m, at) == Piece(at.addr, [], at.handle)
  {
    assert Bytes(m, at.addr, 0) == [];
  }

  lemma LiveIsAligned(arena: BaseArena, a: Allocation)
    requires arena.Valid() && a in arena.live
    ensures Overage(a.addr, a.align) == 0 && a.addr != NULL
  {
    assert Placed(arena.blocks, a);
  }

  /** A new piece is in the client's hands. */
  lemma PieceAdded(arena: BaseArena, bs: seq<Block>, live: set<Allocation>, places: seq<Place>, owners: seq<Allocation>,
                   at: Place, a: Allocation)
    requires arena.Valid() && arena.handleAlignmentBits <= 3 && bs <= arena.blocks
    requires Owned(bs, live, places, owners)
    requires HandlesOk(bs, places, owners, arena.blockSizeBits, arena.handleAlignmentBits)
    requires a.addr == at.addr && a.size == at.size
    requires if at.size == 0 then at == NOWHERE && arena.live == live else a !in live && arena.live == live + {a}
    requires at.handle != INVALID_HANDLE ==>
      HandleOf(arena.blocks, a, at.handle, arena.blockSizeBits, arena.handleAlignmentBits)
    ensures Keeps(arena, places + [at], owners + [a])
    ensures Pieces(arena.memory, places + [at])[..|places|] == Pieces(arena.memory, places)
  {
    hide Owned, HandleOf;
    OwnedGrows(bs, arena.blocks, live, places, owners, arena.blockSizeBits, arena.handleAlignmentBits);
    AddOwner(arena.blocks, live, places, owners, at, a);
  }

  method AllocPiece(arena: BaseArena, malloc: (seq<Block>, nat) -> nat, places: seq<Place>,
                    ghost owners: seq<Allocation>, size: nat, align: nat)
    returns (places1: seq<Place>, ghost owners1: seq<Allocation>)
    requires Keeps(arena, places, owners) && Mallocs(malloc) && AlignmentOk(align)
    modifies arena, arena.firstBlocks
    ensures Keeps(arena, places1, owners1) && arena.handleAlignmentBits == old(arena.handleAlignmentBits)
    ensures Follows(Pieces(old(arena.memory), places), Alloc(size, align), Pieces(arena.memory, places1),
                    arena.handleAlignmentBits)
  {
    hide Owned, HandlesOk;
    var mem := malloc(BlocksOf(arena), arena.BlockNeeded(size));
    var p;
    ghost var a;
    p, a := arena.GetMemory(size, align, mem);
    if size == 0 {
      a := NOBODY;
    } else {
      LiveIsAligned(arena, a);
    }
    var at := Place(p, size, INVALID_HANDLE);
    places1, owners1 := places + [at], owners + [a];
    PieceAdded(arena, old(arena.blocks), old(arena.live), places, owners, at, a);
    PieceOfNothing(arena.memory, NOWHERE);
  }

  method AllocHandlePiece(arena: BaseArena, malloc: (seq<Block>, nat) -> nat, places: seq<Place>,
                          ghost owners: seq<Allocation>, size: nat)
    returns (places1: seq<Place>, ghost owners1: seq<Allocation>)
    requires Keeps(arena, places, owners) && Mallocs(malloc) && size > 0
    modifies arena, arena.firstBlocks
    ensures Keeps(arena, places1, owners1) && arena.handleAlignmentBits == old(arena.handleAlignmentBits)
    ensures Follows(Pieces(old(arena.memory), places), AllocWithHandle(size), Pieces(arena.memory, places1),
                    arena.handleAlignmentBits)
  {
    hide Owned, HandlesOk;
    var mem := malloc(BlocksOf(arena), arena.BlockNeeded(size));
    var r;
    ghost var a;
    r, a := arena.GetMemoryWithHandle(size, mem);
    SmallPowers(arena.handleAlignmentBits);
    var at := Place(r.value.0, size, r.value.1);
    places1, owners1 := places + [at], owners + [a];
    PieceAdded(arena, old(arena.blocks), old(arena.live), places, owners, at, a);
  }

  /** The size, place or owner of a piece has changed. */
  lemma PieceChanged(arena: BaseArena, bs: seq<Block>, live: set<Allocation>, m: map<nat, bv8>, places: seq<Place>,
                     owners: seq<Allocation>, k: nat, at: Place, a: Allocation)
    requires arena.Valid() && arena.handleAlignmentBits <= 3 && bs <= arena.blocks && k < |places|
    requires Owned(bs, live, places, owners)
    requires HandlesOk(bs, places, owners, arena.blockSizeBits, arena.handleAlignmentBits)
    requires a.addr == at.addr && a.size == at.size
    requires arena.live == Others(live, owners[k]) + (if at.size == 0 then {} else {a})
    requires if at.size == 0 then Known(arena.blocks, live, a) else a !in Others(live, owners[k])
    requires at.handle == INVALID_HANDLE || (at.handle == places[k].handle && a == owners[k].(size := a.size))
    requires forall o :: o in Others(live, owners[k]) ==>
      Bytes(arena.memory, o.addr, o.size) == Bytes(m, o.addr, o.size)
    ensures Keeps(arena, places[k := at], owners[k := a])
    ensures Pieces(arena.memory, places[k := at]) == Pieces(m, places)[k := PieceAt(arena.memory, at)]
  {
    assert |owners| == |places|;
    hide Owned, HandlesOk, HandleOf, Known;
    PiecesChanged(m, arena.memory, bs, live, places, owners, k, at);
    OwnedGrows(bs, arena.blocks, live, places, owners, arena.blockSizeBits, arena.handleAlignmentBits);
    ChangeOwner(arena.blocks, live, places, owners, k, at, a);
    HandleChanged(arena.blocks, places, owners, k, at, a, arena.blockSizeBits, arena.handleAlignmentBits);
  }

  lemma OwnerOf(arena: BaseArena, places: seq<Place>, owners: seq<Allocation>, k: nat)
    requires Keeps(arena, places, owners) && k < |places|
    ensures |owners| == |places| && OwnedBy(arena.blocks, arena.live, places[k], owners[k])
  {
  }

  method FreePiece(arena: BaseArena, places: seq<Place>, ghost owners: seq<Allocation>, k: nat)
    returns (places1: seq<Place>, ghost owners1: seq<Allocation>)
    requires Keeps(arena, places, owners) && k < |places|
    modifies arena`freestart, arena`remaining, arena`live
    ensures Keeps(arena, places1, owners1)
    ensures Follows(Pieces(arena.memory, places), Free(k), Pieces(arena.memory, places1), arena.handleAlignmentBits)
  {
    hide Owned, HandlesOk;
    OwnerOf(arena, places, owners, k);
    arena.ReturnMemory(places[k].addr, places[k].size, owners[k]);
    places1, owners1 := places[k := NOWHERE], owners[k := NOBODY];
    PieceChanged(arena, arena.blocks, old(arena.live), arena.memory, places, owners, k, NOWHERE, NOBODY);
    PieceOfNothing(arena.memory, NOWHERE);
  }

  lemma FrontOf(m: map<nat, bv8>, at: Place, size: nat)
    requires size <= at.size
    ensures Front(PieceAt(m, at), size) == PieceAt(m, at.(size := size))
  {
    assert Bytes(m, at.addr, at.size)[..size] == Bytes(m, at.addr, size);
  }

  /** An allocation shrunk to nothing may still be named. */
  lemma ShrunkIsKnown(bs: seq<Block>, c: Cursor, live: set<Allocation>, a: Allocation)
    requires LiveOk(bs, c, live) && Known(bs, live, a)
    ensures Known(bs, live, a.(size := 0))
  {
    assert a.size > 0 ==> Placed(bs, a);
  }

  method ShrinkPiece(arena: BaseArena, places: seq<Place>, ghost owners: seq<Allocation>, k: nat, size: nat)
    returns (places1: seq<Place>, ghost owners1: seq<Allocation>)
    requires Keeps(arena, places, owners) && k < |places| && size <= places[k].size
    modifies arena`freestart, arena`remaining, arena`live
    ensures !old(Clash(arena, places, Shrink(k, size))) ==> Keeps(arena, places1, owners1)
    ensures old(Clash(arena, places, Shrink(k, size))) ==> !Sound(arena, places1)
    ensures Follows(Pieces(arena.memory, places), Shrink(k, size), Pieces(arena.memory, places1),
                    arena.handleAlignmentBits)
  {
    ClashIsClash(arena, places, owners, Shrink(k, size));
    hide Owned, HandlesOk, Follows, Sound, Alone, Known, BaseArena.Valid;
    OwnerOf(arena, places, owners, k);
    ghost var a, clash := owners[k], Clash(arena, places, Shrink(k, size));
    arena.OnlyOneThere(a, size);
    ShrunkStaysKnown(arena, a);
    arena.Shrink(places[k].addr, size, a);
    var at := places[k].(size := size);
    places1, owners1 := places[k := at], owners[k := a.(size := size)];
    FrontOf(arena.memory, places[k], size);
    if clash {
      AfterClash(arena, arena.blocks, old(arena.At()), places, k, at);
    } else {
      PieceChanged(arena, arena.blocks, old(arena.live), arena.memory, places, owners, k, at, a.(size := size));
    }
    FollowsShrink(Pieces(arena.memory, places), k, size, Pieces(arena.memory, places1), arena.handleAlignmentBits);
  }

  lemma FollowsShrink(ps: seq<Piece>, k: nat, size: nat, qs: seq<Piece>, alignBits: nat)
    requires k < |ps| && size <= |ps[k].bytes| && qs == ps[k := Front(ps[k], size)]
    ensures Follows(ps, Shrink(k, size), qs, alignBits)
  {
  }

  lemma ClashIsUnsound(arena: BaseArena, bs: seq<Block>, c: Cursor, places: seq<Place>, k: nat, at: Place)
    requires BlocksOk(bs) && CursorOk(bs, c) && k < |places| && places[k].size == 0
    requires arena.blocks == bs && arena.At() == c.(free := c.last + at.size) && arena.At().free <= bs[c.block].End()
    requires at.addr == c.last != NULL && exists j :: 0 <= j < |places| && Starts(places[j], c.last)
    ensures !Sound(arena, places[k := at])
  {
    var j :| 0 <= j < |places| && Starts(places[j], c.last);
    ClashBreaksOrder(bs, arena.At(), places, k, j, at);
    assert j != k && places[k := at][j] == places[j];
  }

  lemma ReallocKeepsFront(m: map<nat, bv8>, m1: map<nat, bv8>, before: Place, at: Place)
    requires at.size <= before.size ==> at == before.(size := at.size)
    requires at.handle == INVALID_HANDLE || (at.handle == before.handle && at.addr == before.addr)
    requires var n := BaseArena.Min(before.size, at.size); Bytes(m1, at.addr, n) == Bytes(m, before.addr, n)
    ensures if at.size <= before.size then PieceAt(m1, at) == Front(PieceAt(m, before), at.size)
      else GrownFrom(PieceAt(m, before), PieceAt(m1, at))
  {
    if at.size <= before.size {
      FrontOf(m, before, at.size);
    } else {
      FrontOf(m1, at, before.size);
      assert Bytes(m1, at.addr, at.size)[..before.size] == Bytes(m1, at.addr, before.size);
    }
  }

  method ReallocPiece(arena: BaseArena, malloc: (seq<Block>, nat) -> nat, places: seq<Place>,
                      ghost owners: seq<Allocation>, k: nat, size: nat)
    returns (places1: seq<Place>, ghost owners1: seq<Allocation>)
    requires Keeps(arena, places, owners) && Mallocs(malloc) && k < |places|
    modifies arena, arena.firstBlocks
    ensures arena.handleAlignmentBits == old(arena.handleAlignmentBits)
    ensures !old(Clash(arena, places, Request.Realloc(k, size))) ==> Keeps(arena, places1, owners1)
    ensures old(Clash(arena, places, Request.Realloc(k, size))) ==> !Sound(arena, places1)
    ensures Follows(Pieces(old(arena.memory), places), Request.Realloc(k, size), Pieces(arena.memory, places1),
                    arena.handleAlignmentBits)
  {
    ClashIsClash(arena, places, owners, Request.Realloc(k, size));
    hide Owned, HandlesOk, Follows, Sound, Alone, Known, BaseArena.Valid;
    OwnerOf(arena, places, owners, k);
    ghost var a, clash := owners[k], Clash(arena, places, Request.Realloc(k, size));
    ShrunkStaysKnown(arena, a);
    var stays := size <= places[k].size || arena.FitsInPlace(places[k].addr, size);
    var mem := malloc(BlocksOf(arena), arena.BlockNeeded(size));
    var r;
    ghost var b;
    r, b := arena.Realloc(places[k].addr, places[k].size, size, mem, a);
    var at := Place(r, size, if stays then places[k].handle else INVALID_HANDLE);
    places1, owners1 := places[k := at], owners[k := b];
    ReallocKeepsFront(old(arena.memory), arena.memory, places[k], at);
    if clash {
      AfterClash(arena, old(arena.blocks), old(arena.At()), places, k, at);
    } else {
      KnownGrows(old(arena.blocks), arena.blocks, old(arena.live), a.(size := 0));
      PieceChanged(arena, old(arena.blocks), old(arena.live), old(arena.memory), places, owners, k, at, b);
    }
    FollowsRealloc(Pieces(old(arena.memory), places), k, size, Pieces(arena.memory, places1),
                   arena.handleAlignmentBits);
  }

  lemma ShrunkStaysKnown(arena: BaseArena, a: Allocation)
    requires arena.Valid() && Known(arena.blocks, arena.live, a)
    ensures Known(arena.blocks, arena.live, a.(size := 0))
    ensures BlocksOk(arena.blocks) && CursorOk(arena.blocks, arena.At())
    ensures arena.freestart + arena.remaining == arena.blocks[arena.current].End()
  {
    ShrunkIsKnown(arena.blocks, arena.At(), arena.live, a);
  }

  lemma AfterClash(arena: BaseArena, bs: seq<Block>, c: Cursor, places: seq<Place>, k: nat, at: Place)
    requires BlocksOk(bs) && CursorOk(bs, c) && k < |places| && places[k].size == 0
    requires arena.blocks == bs && arena.At() == c.(free := c.last + at.size) && arena.At().free <= bs[c.block].End()
    requires at.addr == c.last != NULL && exists j :: 0 <= j < |places| && Starts(places[j], c.last)
    ensures !Sound(arena, places[k := at])
    ensures Pieces(arena.memory, places[k := at]) == Pieces(arena.memory, places)[k := PieceAt(arena.memory, at)]
  {
    ClashIsUnsound(arena, bs, c, places, k, at);
  }

  lemma FollowsRealloc(ps: seq<Piece>, k: nat, size: nat, qs: seq<Piece>, alignBits: nat)
    requires k < |ps| && |qs| == |ps| && qs == ps[k := qs[k]] && |qs[k].bytes| == size
    requires if size <= |ps[k].bytes| then qs[k] == Front(ps[k], size) else GrownFrom(ps[k], qs[k])
    ensures Follows(ps, Request.Realloc(k, size), qs, alignBits)
  {
  }

  lemma KnownGrows(bs: seq<Block>, more: seq<Block>, live: set<Allocation>, a: Allocation)
    requires bs <= more && Known(bs, live, a)
    ensures Known(more, live, a)
  {
  }

  method WritePiece(arena: BaseArena, places: seq<Place>, ghost owners: seq<Allocation>, k: nat, offset: nat,
                    value: bv8)
    requires Keeps(arena, places, owners) && k < |places| && offset < places[k].size
    modifies arena`memory
    ensures Keeps(arena, places, owners)
    ensures Follows(Pieces(old(arena.memory), places), Write(k, offset, value), Pieces(arena.memory, places),
                    arena.handleAlignmentBits)
  {
    OwnerOf(arena, places, owners, k);
    var at := places[k];
    arena.Store(at.addr + offset, value, owners[k]);
    PiecesChanged(old(arena.memory), arena.memory, arena.blocks, arena.live, places, owners, k, at);
    hide Owned, HandlesOk;
    assert places[k := at] == places;
    WrittenByte(old(arena.memory), arena.memory, at, offset, value);
  }

  lemma WrittenByte(m: map<nat, bv8>, m1: map<nat, bv8>, at: Place, offset: nat, value: bv8)
    requires offset < at.size && m1 == m[at.addr + offset := value]
    ensures Bytes(m1, at.addr, at.size) == Bytes(m, at.addr, at.size)[offset := value]
  {
  }

  method ResetPieces(arena: BaseArena, places: seq<Place>, ghost owners: seq<Allocation>)
    returns (places1: seq<Place>, ghost owners1: seq<Allocation>)
    requires Keeps(arena, places, owners)
    modifies arena, arena.firstBlocks
    ensures Keeps(arena, places1, owners1) && arena.handleAlignmentBits == old(arena.handleAlignmentBits)
    ensures Follows(Pieces(old(arena.memory), places), Request.Reset, Pieces(arena.memory, places1),
                    arena.handleAlignmentBits)
  {
    arena.Reset();
    places1 := seq(|places|, _ => NOWHERE);
    owners1 := seq(|places|, _ => NOBODY);
    PieceOfNothing(arena.memory, NOWHERE);
  }

  /**
   One request; one that names no piece, or asks for what cannot be, is passed over.  The client
   stays safe exactly when the request does not clash.
   */
  method Serve(arena: BaseArena, malloc: (seq<Block>, nat) -> nat, places: seq<Place>, ghost owners: seq<Allocation>,
               r: Request) returns (places1: seq<Place>, ghost owners1: seq<Allocation>)
    requires Keeps(arena, places, owners) && Mallocs(malloc)
    modifies arena, arena.firstBlocks
    ensures arena.handleAlignmentBits == old(arena.handleAlignmentBits)
    ensures !old(Clash(arena, places, r)) ==> Keeps(arena, places1, owners1)
    ensures Sound(arena, places1) <==> !old(Clash(arena, places, r))
    ensures Follows(Pieces(old(arena.memory), places), r, Pieces(arena.memory, places1), arena.handleAlignmentBits)
  {
    hide Sound, Keeps, Follows;
    ghost var clash := Clash(arena, places, r);
    places1, owners1 := places, owners;
    match r {
      case Alloc(size, align) =>
        if AlignmentOk(align) {
          places1, owners1 := AllocPiece(arena, malloc, places, owners, size, align);
        } else {
          PassedOver(Pieces(arena.memory, places), r, arena.handleAlignmentBits);
        }
      case AllocWithHandle(size) =>
        if size > 0 {
          places1, owners1 := AllocHandlePiece(arena, malloc, places, owners, size);
        } else {
          PassedOver(Pieces(arena.memory, places), r, arena.handleAlignmentBits);
        }
      case Free(k) =>
        if k < |places| {
          places1, owners1 := FreePiece(arena, places, owners, k);
        } else {
          PassedOver(Pieces(arena.memory, places), r, arena.handleAlignmentBits);
        }
      case Shrink(k, size) =>
        if k < |places| && size <= places[k].size {
          places1, owners1 := ShrinkPiece(arena, places, owners, k, size);
        } else {
          PassedOver(Pieces(arena.memory, places), r, arena.handleAlignmentBits);
        }
      case Realloc(k, size) =>
        if k < |places| {
          places1, owners1 := ReallocPiece(arena, malloc, places, owners, k, size);
        } else {
          PassedOver(Pieces(arena.memory, places), r, arena.handleAlignmentBits);
        }
      case Write(k, offset, value) =>
        if k < |places| && offset < places[k].size {
          WritePiece(arena, places, owners, k, offset, value);
        } else {
          PassedOver(Pieces(arena.memory, places), r, arena.handleAlignmentBits);
        }
      case Reset =>
        places1, owners1 := ResetPieces(arena, places, owners);
    }
    if !clash {
      KeptIsSound(arena, places1, owners1);
    }
  }

  lemma KeptIsSound(arena: BaseArena, places: seq<Place>, owners: seq<Allocation>)
    requires Keeps(arena, places, owners)
    ensures Sound(arena, places)
  {
    OwnedIsSound(arena, places, owners);
  }

  ghost predicate NamesNothing(ps: seq<Piece>, r: Request) {
    match r
    case Alloc(_, align) => !AlignmentOk(align)
    case AllocWithHandle(size) => size == 0
    case Free(k) => k >= |ps|
    case Shrink(k, size) => k >= |ps| || size > |ps[k].bytes|
    case Realloc(k, _) => k >= |ps|
    case Write(k, offset, _) => k >= |ps| || offset >= |ps[k].bytes|
    case Reset => false
  }

  lemma PassedOver(ps: seq<Piece>, r: Request, alignBits: nat)
    requires NamesNothing(ps, r)
    ensures Follows(ps, r, ps, alignBits)
  {
  }

  /** The client sees it coming: the request names a piece of no bytes where another has some. */
  lemma ClashIsSeen(arena: BaseArena, places: seq<Place>, r: Request)
    requires Clash(arena, places, r)
    ensures MayClash(Pieces(arena.memory, places), r)
  {
    var ps := Pieces(arena.memory, places);
    var j :| 0 <= j < |places| && Starts(places[j], places[r.k].addr);
    assert ps[r.k] == PieceAt(arena.memory, places[r.k]) && ps[j] == PieceAt(arena.memory, places[j]);
    assert ps[j].bytes != [] && ps[j].addr == ps[r.k].addr;
  }

  lemma NothingKept(arena: BaseArena)
    requires arena.Valid() && arena.live == {} && arena.handleAlignmentBits <= 3
    ensures Keeps(arena, [], []) && Orderly([])
  {
  }

  lemma KeptIsOrderly(arena: BaseArena, places: seq<Place>, owners: seq<Allocation>)
    requires Keeps(arena, places, owners)
    ensures Orderly(Pieces(arena.memory, places))
  {
    OwnedIsOrderly(arena.memory, arena.blocks, arena.live, places, owners, arena.blockSizeBits,
                   arena.handleAlignmentBits);
  }

  lemma SmallAlignment(bits: nat)
    requires AlignmentOk(Pow2(bits))
    ensures bits <= 3
  {
    assert Pow2(4) == 16 by {
      assert Pow2(1) == 2 && Pow2(2) == 4 && Pow2(3) == 8;
    }
    if bits > 3 {
      Pow2Monotonic(4, bits);
    }
  }

  /** In the end: the statistics are exact, and handles resolve to their pieces. */
  ghost predicate Exact(arena: BaseArena, places: seq<Place>)
    reads arena, arena.firstBlocks
  {
    && arena.Valid() && arena.bytesAllocated == TotalSize(arena.blocks)
    && forall k :: 0 <= k < |places| && places[k].handle != INVALID_HANDLE ==> Resolves(arena, places[k])
  }

  /** Exactly when it does not lie in a first block of the caller's that is not aligned for handles. */
  ghost predicate Resolves(arena: BaseArena, at: Place)
    reads arena, arena.firstBlocks
    requires arena.Valid()
  {
    var first := arena.blocks[0];
    var astray := first.mem <= at.addr < first.End() && Mod(first.mem, Pow2(arena.handleAlignmentBits)) != 0;
    arena.HandleToPointer(at.handle) == Ok(at.addr) <==> !astray
  }

  lemma KeptResolves(arena: BaseArena, places: seq<Place>, owners: seq<Allocation>, k: nat)
    requires Keeps(arena, places, owners) && k < |places| && places[k].handle != INVALID_HANDLE
    ensures Resolves(arena, places[k])
  {
    var a, bs := owners[k], arena.blocks;
    assert OwnedBy(bs, arena.live, places[k], a);
    assert HandleOf(bs, a, places[k].handle, arena.blockSizeBits, arena.handleAlignmentBits);
    HandleResolves(bs, a, places[k].handle, arena.blockSizeBits, arena.handleAlignmentBits);
    assert bs[a.block].mem <= a.addr < bs[a.block].End() by {
      assert a.size > 0 ==> Placed(bs, a);
    }
    assert a.block > 0 ==> Apart(bs[0].mem, bs[0].End(), bs[a.block].mem, bs[a.block].End());
    if a.block > 0 {
      OffsetAlignment(a.addr, bs[a.block].mem, a.align);
    }
  }

  lemma KeptIsExact(arena: BaseArena, places: seq<Place>, owners: seq<Allocation>)
    requires Keeps(arena, places, owners)
    ensures Exact(arena, places)
  {
    forall k | 0 <= k < |places| && places[k].handle != INVALID_HANDLE ensures Resolves(arena, places[k]) {
      KeptResolves(arena, places, owners, k);
    }
  }

  /** An empty arena, with the handle alignment asked for if it is accepted. */
  method Start(first: nat, blockSize: nat, mem: nat, handleAlign: nat) returns (arena: BaseArena)
    requires blockSize > DEFAULT_ALIGNMENT && AlignmentOk(handleAlign)
    requires first == NULL ==> mem != NULL && mem % DEFAULT_ALIGNMENT == 0
    ensures fresh(arena) && fresh(arena.firstBlocks) && Keeps(arena, [], [])
    ensures Pow2(arena.handleAlignmentBits) == if blockSize % handleAlign == 0 then handleAlign else 1
  {
    arena := new BaseArena(first, blockSize, mem);
    assert IsPowerOfTwo(handleAlign) by {
      assert IsPowerOfTwo(1) && IsPowerOfTwo(2) && IsPowerOfTwo(4);
    }
    var accepted := arena.SetHandleAlignment(handleAlign);
    SmallPowers(0);
    SmallAlignment(arena.handleAlignmentBits);
    NothingKept(arena);
  }

  lemma RunSoFar(states: seq<seq<Piece>>, rs: seq<Request>, served: nat, alignBits: nat)
    requires served <= |rs| && |states| == served + 1 && states[0] == []
    requires forall i :: 0 <= i < served ==> Follows(states[i], rs[i], states[i + 1], alignBits)
    ensures IsRun(states, rs[..served], alignBits)
  {
  }

  /**
   Any run of requests, as far as the first that clashes.  Until then the pieces share no byte and
   no handle, each is as its last request left it, and the arena protects them; a clash breaks that,
   and the client could have seen it coming.
   */
  method ServeAll(first: nat, blockSize: nat, mem: nat, handleAlign: nat, mallocs: nat -> (seq<Block>, nat) -> nat,
                  rs: seq<Request>)
    returns (arena: BaseArena, places: seq<Place>, served: nat, safe: bool, ghost states: seq<seq<Piece>>)
    requires blockSize > DEFAULT_ALIGNMENT && AlignmentOk(handleAlign) && forall i :: Mallocs(mallocs(i))
    requires first == NULL ==> mem != NULL && mem % DEFAULT_ALIGNMENT == 0
    ensures served <= |rs| && (safe ==> served == |rs|)
    ensures Pow2(arena.handleAlignmentBits) == if blockSize % handleAlign == 0 then handleAlign else 1
    ensures IsRun(states, rs[..served], arena.handleAlignmentBits) && states[served] == Pieces(arena.memory, places)
    ensures forall i :: 0 <= i < served ==> Orderly(states[i])
    ensures safe <==> Sound(arena, places)
    ensures safe ==> Orderly(states[served]) && Exact(arena, places)
    ensures !safe ==> served > 0 && MayClash(states[served - 1], rs[served - 1])
  {
    hide Follows, Sound, Exact, Keeps, Orderly, MayClash, Clash, IsRun, Mallocs;
    arena := Start(first, blockSize, mem, handleAlign);
    ghost var bits := arena.handleAlignmentBits;
    places, served, safe := [], 0, true;
    ghost var owners: seq<Allocation> := [];
    states := [[]];
    KeptIsSound(arena, places, owners);
    KeptIsOrderly(arena, places, owners);
    assert Pieces(arena.memory, places) == [];
    while served < |rs| && safe
      invariant fresh(arena) && fresh(arena.firstBlocks) && (safe ==> Keeps(arena, places, owners))
      invariant arena.handleAlignmentBits == bits
      invariant served <= |rs| && |states| == served + 1
      invariant states[0] == [] && states[served] == Pieces(arena.memory, places)
      invariant forall i :: 0 <= i < served ==> Follows(states[i], rs[i], states[i + 1], arena.handleAlignmentBits)
      invariant forall i :: 0 <= i < served ==> Orderly(states[i])
      invariant (safe <==> Sound(arena, places)) && (safe ==> Orderly(states[served]))
      invariant !safe ==> served > 0 && MayClash(states[served - 1], rs[served - 1])
      decreases |rs| - served
    {
      safe := !Clash(arena, places, rs[served]);
      if !safe {
        ClashIsSeen(arena, places, rs[served]);
      }
      places, owners := Serve(arena, mallocs(served), places, owners, rs[served]);
      if safe {
        KeptIsOrderly(arena, places, owners);
      }
      states := states + [Pieces(arena.memory, places)];
      served := served + 1;
    }
    RunSoFar(states, rs, served, arena.handleAlignmentBits);
    if safe {
      KeptIsExact(arena, places, owners);
    }
  }

  // ----- two runs that clash -----

  /** A piece of 8 bytes, shrunk to nothing, and another that gets the same address. */
  method TwoAtOneAddress(blockSize: nat, mem: nat, more: nat)
    returns (arena: BaseArena, s: nat, t: nat, ghost a: Allocation, ghost b: Allocation)
    requires blockSize >= 64 && mem != NULL && mem % DEFAULT_ALIGNMENT == 0
    requires MallocGives([Block(mem, blockSize)], more, blockSize)
    ensures fresh(arena) && fresh(arena.firstBlocks) && arena.Valid() && arena.blocks == [Block(mem, blockSize)]
    ensures arena.blockSize == blockSize && arena.remaining >= 16
    ensures s == t == a.addr == b.addr == arena.lastAlloc && arena.freestart == t + 8
    ensures arena.live == {b} && b.size == 8 && a.size == 0 && Known(arena.blocks, arena.live, a)
  {
    arena := new BaseArena(NULL, blockSize, mem);
    s, a := arena.GetMemory(8, 1, more);
    arena.LiveStandsAlone(a);
    ShrunkStaysKnown(arena, a);
    var r;
    r, a := arena.Realloc(s, 8, 0, more, a);
    t, b := arena.GetMemory(8, 1, more);
  }

  /** To reallocate the first again takes the bytes of the second as well: the two overlap. */
  method EmptiedPieceGrows(blockSize: nat, mem: nat, more: nat)
    returns (arena: BaseArena, t: nat, r: nat, ghost b: Allocation)
    requires blockSize >= 64 && mem != NULL && mem % DEFAULT_ALIGNMENT == 0
    requires MallocGives([Block(mem, blockSize)], more, blockSize)
    ensures b in arena.live && b.addr == t && b.size == 8 && !Apart(t, t + 8, r, r + 16)
  {
    var s;
    ghost var a, c;
    arena, s, t, a, b := TwoAtOneAddress(blockSize, mem, more);
    r, c := arena.Realloc(s, 0, 16, more, a);
  }

  /** To shrink the first again gives back the bytes of the second: they are given out next. */
  method EmptiedPieceGivesBack(blockSize: nat, mem: nat, more: nat)
    returns (arena: BaseArena, t: nat, ghost b: Allocation)
    requires blockSize >= 64 && mem != NULL && mem % DEFAULT_ALIGNMENT == 0
    requires MallocGives([Block(mem, blockSize)], more, blockSize)
    ensures b in arena.live && b.addr == t && b.size == 8 && arena.freestart == t && arena.remaining >= 24
  {
    var s;
    ghost var a;
    arena, s, t, a, b := TwoAtOneAddress(blockSize, mem, more);
    arena.Shrink(s, 0, a);
  }
}
