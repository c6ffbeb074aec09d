module ArenaRuns {
  // Any run of requests to an arena, seen by the client: what each piece it holds contains, and
  // what its handle names.
  //
  // A piece shrunk to nothing keeps its address, which the next allocation may get as well.  To
  // shrink or reallocate it again then cuts into that allocation: the one way to break a run.

  import opened Wrappers
  import opened ArenaLayout
  import opened ArenaHandles
  import opened Arenas

  /** A request names an earlier piece by its number; Reset frees them all. */
  datatype Request =
    | Alloc(size: nat, align: nat)
    | AllocWithHandle(size: nat)
    | Free(k: nat)
    | Shrink(k: nat, size: nat)
    | Realloc(k: nat, size: nat)
    | Write(k: nat, offset: nat, value: bv8)
    | Reset

  /** A piece of memory in the client's hands, with the handle that was made for it. */
  datatype Piece = Piece(addr: nat, bytes: seq<bv8>, handle: nat) {
    function End(): nat { addr + |bytes| }
  }

  const NO_PIECE := Piece(NULL, [], INVALID_HANDLE)

  /** What a request may do to the pieces: only the one it names changes. */
  ghost predicate Follows(ps: seq<Piece>, r: Request, qs: seq<Piece>, alignBits: nat) {
    match r
    case Alloc(size, align) =>
      if !AlignmentOk(align) then qs == ps
      else IsAllocated(ps, qs, size, align) && qs[|ps|].handle == INVALID_HANDLE
    case AllocWithHandle(size) =>
      if size == 0 then qs == ps
      else AlignmentOk(Pow2(alignBits)) && IsAllocated(ps, qs, size, Pow2(alignBits))
    case Free(k) => qs == if k < |ps| then ps[k := NO_PIECE] else ps
    case Shrink(k, size) => qs == if k < |ps| && size <= |ps[k].bytes| then ps[k := Front(ps[k], size)] else ps
    case Realloc(k, size) =>
      if k >= |ps| then qs == ps
      else
        && |qs| == |ps| && qs == ps[k := qs[k]] && |qs[k].bytes| == size
        && if size <= |ps[k].bytes| then qs[k] == Front(ps[k], size) else GrownFrom(ps[k], qs[k])
    case Write(k, offset, value) =>
      if k >= |ps| || offset >= |ps[k].bytes| then qs == ps
      else qs == ps[k := ps[k].(bytes := ps[k].bytes[offset := value])]
    case Reset => |qs| == |ps| && forall k :: 0 <= k < |qs| ==> qs[k] == NO_PIECE
  }

  ghost predicate IsAllocated(ps: seq<Piece>, qs: seq<Piece>, size: nat, align: nat)
    requires AlignmentOk(align)
  {
    && |qs| == |ps| + 1 && qs[..|ps|] == ps && |qs[|ps|].bytes| == size
    && (size == 0 ==> qs[|ps|] == NO_PIECE) && Overage(qs[|ps|].addr, align) == 0
  }

  /** The bytes stay in front; a handle is lost when they move. */
  ghost predicate GrownFrom(p: Piece, q: Piece) {
    p.bytes <= q.bytes && (q.handle == INVALID_HANDLE || (q.handle == p.handle && q.addr == p.addr))
  }

  function Front(p: Piece, size: nat): Piece
    requires size <= |p.bytes|
  {
    p.(bytes := p.bytes[..size])
  }

  /** No two pieces share a byte. */
  ghost predicate AllApart(ps: seq<Piece>) {
    forall j, k :: 0 <= j < k < |ps| && ps[j].bytes != [] && ps[k].bytes != [] ==>
      Apart(ps[j].addr, ps[j].End(), ps[k].addr, ps[k].End())
  }

  /** No two pieces share a valid handle. */
  ghost predicate HandlesApart(ps: seq<Piece>) {
    forall j, k :: 0 <= j < k < |ps| && ps[j].bytes != [] && ps[k].bytes != [] && ps[j].handle != INVALID_HANDLE ==>
      ps[j].handle != ps[k].handle
  }

  ghost predicate Orderly(ps: seq<Piece>) {
    AllApart(ps) && HandlesApart(ps)
  }

  /** A run of requests through the states of the client's pieces. */
  ghost predicate IsRun(states: seq<seq<Piece>>, rs: seq<Request>, alignBits: nat) {
    && |states| == |rs| + 1 && states[0] == []
    && forall i :: 0 <= i < |rs| ==> Follows(states[i], rs[i], states[i + 1], alignBits)
  }

  /** The request shrinks or reallocates a piece of no bytes where another piece has bytes. */
  ghost predicate MayClash(ps: seq<Piece>, r: Request) {
    && (r.Shrink? || r.Realloc?) && r.k < |ps| && ps[r.k].bytes == [] && ps[r.k].addr != NULL
    && exists j :: 0 <= j < |ps| && ps[j].bytes != [] && ps[j].addr == ps[r.k].addr
  }

  // ----- places and their owners -----

  /** Where a piece is; its bytes are in the arena's memory. */
  datatype Place = Place(addr: nat, size: nat, handle: nat)

  const NOWHERE := Place(NULL, 0, INVALID_HANDLE)
  const NOBODY := Allocation(NULL, 0, 1, 0)

  ghost function PieceAt(m: map<nat, bv8>, at: Place): Piece {
    Piece(at.addr, Bytes(m, at.addr, at.size), at.handle)
  }

  ghost function Pieces(m: map<nat, bv8>, places: seq<Place>): (ps: seq<Piece>)
    ensures |ps| == |places| && forall k :: 0 <= k < |ps| ==> ps[k] == PieceAt(m, places[k])
  {
    seq(|places|, k requires 0 <= k < |places| => PieceAt(m, places[k]))
  }

  /** The client's places with bytes are the live allocations: owners tells which is which. */
  ghost predicate Owned(bs: seq<Block>, live: set<Allocation>, places: seq<Place>, owners: seq<Allocation>) {
    && |owners| == |places|
    && (forall k :: 0 <= k < |places| ==> OwnedBy(bs, live, places[k], owners[k]))
    && (forall j, k :: 0 <= j < k < |places| && places[j].size > 0 && places[k].size > 0 ==> owners[j] != owners[k])
    && (forall a :: a in live ==> HasPlace(places, owners, a))
  }

  ghost predicate OwnedBy(bs: seq<Block>, live: set<Allocation>, at: Place, a: Allocation) {
    Known(bs, live, a) && a.addr == at.addr && a.size == at.size
  }

  ghost predicate HasPlace(places: seq<Place>, owners: seq<Allocation>, a: Allocation) {
    exists k :: IsPlace(places, owners, k, a)
  }

  ghost predicate IsPlace(places: seq<Place>, owners: seq<Allocation>, k: int, a: Allocation) {
    0 <= k < |places| && k < |owners| && places[k].size > 0 && owners[k] == a
  }

  /** Every handle names the place of its piece. */
  ghost predicate HandlesOk(bs: seq<Block>, places: seq<Place>, owners: seq<Allocation>, blockBits: nat,
                            alignBits: nat) {
    && |owners| == |places|
    && forall k :: 0 <= k < |places| && places[k].handle != INVALID_HANDLE ==>
         HandleOf(bs, owners[k], places[k].handle, blockBits, alignBits)
  }

  /** What is left of the ledger without the owner of a place. */
  ghost function Others(live: set<Allocation>, owner: Allocation): set<Allocation> {
    live - {owner}
  }

  lemma OwnedGrows(bs: seq<Block>, more: seq<Block>, live: set<Allocation>, places: seq<Place>, owners: seq<Allocation>,
                   blockBits: nat, alignBits: nat)
    requires bs <= more && Owned(bs, live, places, owners) && HandlesOk(bs, places, owners, blockBits, alignBits)
    ensures Owned(more, live, places, owners) && HandlesOk(more, places, owners, blockBits, alignBits)
  {
    hide HasPlace;
    forall k | 0 <= k < |places| ensures OwnedBy(more, live, places[k], owners[k]) {
      assert OwnedBy(bs, live, places[k], owners[k]);
    }
    forall k | 0 <= k < |places| && places[k].handle != INVALID_HANDLE
      ensures HandleOf(more, owners[k], places[k].handle, blockBits, alignBits)
    {
      assert HandleOf(bs, owners[k], places[k].handle, blockBits, alignBits);
    }
  }

  lemma OwnedIsOrderly(m: map<nat, bv8>, bs: seq<Block>, live: set<Allocation>, places: seq<Place>,
                       owners: seq<Allocation>, blockBits: nat, alignBits: nat)
    requires Owned(bs, live, places, owners) && Disjoint(live) && HandlesOk(bs, places, owners, blockBits, alignBits)
    ensures Orderly(Pieces(m, places))
  {
    hide HasPlace, HandleOf;
    var ps := Pieces(m, places);
    forall j, k | 0 <= j < k < |ps| && ps[j].bytes != [] && ps[k].bytes != []
      ensures Apart(ps[j].addr, ps[j].End(), ps[k].addr, ps[k].End())
      ensures ps[j].handle != INVALID_HANDLE ==> ps[j].handle != ps[k].handle
    {
      assert OwnedBy(bs, live, places[j], owners[j]) && OwnedBy(bs, live, places[k], owners[k]);
      assert Apart(owners[j].addr, owners[j].End(), owners[k].addr, owners[k].End());
      if ps[j].handle == ps[k].handle != INVALID_HANDLE {
        HandlesDiffer(bs, owners[j], owners[k], ps[j].handle, blockBits, alignBits);
      }
    }
  }

  lemma AddOwner(bs: seq<Block>, live: set<Allocation>, places: seq<Place>, owners: seq<Allocation>, at: Place,
                 a: Allocation)
    requires Owned(bs, live, places, owners) && a.addr == at.addr && a.size == at.size
    requires if at.size == 0 then Known(bs, live, a) else a !in live
    ensures Owned(bs, if at.size == 0 then live else live + {a}, places + [at], owners + [a])
  {
    hide HasPlace;
    var live1, places1, owners1 := if at.size == 0 then live else live + {a}, places + [at], owners + [a];
    forall b | b in live1 ensures HasPlace(places1, owners1, b) {
      StillHasPlace(places, owners, at, a, b);
    }
    forall k | 0 <= k < |places1| ensures OwnedBy(bs, live1, places1[k], owners1[k]) {
      assert k < |places| ==> OwnedBy(bs, live, places[k], owners[k]);
    }
  }

  lemma StillHasPlace(places: seq<Place>, owners: seq<Allocation>, at: Place, a: Allocation, b: Allocation)
    requires |owners| == |places| && (HasPlace(places, owners, b) || (b == a && at.size > 0))
    ensures HasPlace(places + [at], owners + [a], b)
  {
    if HasPlace(places, owners, b) {
      var k :| IsPlace(places, owners, k, b);
      assert IsPlace(places + [at], owners + [a], k, b);
    } else {
      assert IsPlace(places + [at], owners + [a], |places|, b);
    }
  }

  lemma OtherHasPlace(places: seq<Place>, owners: seq<Allocation>, k: nat, at: Place, a: Allocation, b: Allocation)
    requires k < |places| == |owners|
    requires (b != owners[k] && HasPlace(places, owners, b)) || (b == a && at.size > 0)
    ensures HasPlace(places[k := at], owners[k := a], b)
  {
    if b == a && at.size > 0 {
      assert IsPlace(places[k := at], owners[k := a], k, b);
    } else {
      var j :| IsPlace(places, owners, j, b);
      assert IsPlace(places[k := at], owners[k := a], j, b);
    }
  }

  lemma OthersOwn(bs: seq<Block>, live: set<Allocation>, places: seq<Place>, owners: seq<Allocation>, k: nat)
    requires Owned(bs, live, places, owners) && k < |places|
    ensures forall j :: 0 <= j < |places| && j != k ==> OwnedBy(bs, Others(live, owners[k]), places[j], owners[j])
  {
    hide HasPlace;
    forall j | 0 <= j < |places| && j != k ensures OwnedBy(bs, Others(live, owners[k]), places[j], owners[j]) {
      assert OwnedBy(bs, live, places[j], owners[j]) && OwnedBy(bs, live, places[k], owners[k]);
      assert places[j].size > 0 ==> owners[j] != owners[k];
    }
  }

  lemma ChangeOwner(bs: seq<Block>, live: set<Allocation>, places: seq<Place>, owners: seq<Allocation>, k: nat,
                    at: Place, a: Allocation)
    requires Owned(bs, live, places, owners) && k < |places| && a.addr == at.addr && a.size == at.size
    requires if at.size == 0 then Known(bs, live, a) else a !in Others(live, owners[k])
    ensures Owned(bs, Others(live, owners[k]) + (if at.size == 0 then {} else {a}), places[k := at], owners[k := a])
  {
    hide HasPlace, Others;
    var live1 := Others(live, owners[k]) + (if at.size == 0 then {} else {a});
    var places1, owners1 := places[k := at], owners[k := a];
    OthersOwn(bs, live, places, owners, k);
    assert forall b :: b in Others(live, owners[k]) <==> b in live && b != owners[k] by {
      OthersAre(live, owners[k]);
    }
    forall b | b in live1 ensures HasPlace(places1, owners1, b) {
      OtherHasPlace(places, owners, k, at, a, b);
    }
    forall j | 0 <= j < |places1| ensures OwnedBy(bs, live1, places1[j], owners1[j]) {
      assert j != k ==> OwnedBy(bs, Others(live, owners[k]), places[j], owners[j]);
    }
  }

  lemma OthersAre(live: set<Allocation>, owner: Allocation)
    ensures forall b :: b in Others(live, owner) <==> b in live && b != owner
  {
  }

  lemma HandleChanged(bs: seq<Block>, places: seq<Place>, owners: seq<Allocation>, k: nat, at: Place, a: Allocation,
                      blockBits: nat, alignBits: nat)
    requires HandlesOk(bs, places, owners, blockBits, alignBits) && k < |places|
    requires at.handle == INVALID_HANDLE || (at.handle == places[k].handle && a == owners[k].(size := a.size))
    ensures HandlesOk(bs, places[k := at], owners[k := a], blockBits, alignBits)
  {
    var places1, owners1 := places[k := at], owners[k := a];
    forall j | 0 <= j < |places1| && places1[j].handle != INVALID_HANDLE
      ensures HandleOf(bs, owners1[j], places1[j].handle, blockBits, alignBits)
    {
      assert HandleOf(bs, owners[j], places[j].handle, blockBits, alignBits);
    }
  }

  /** Only the k-th piece changed, and so did its place. */
  lemma PiecesChanged(m: map<nat, bv8>, m1: map<nat, bv8>, bs: seq<Block>, live: set<Allocation>, places: seq<Place>,
                      owners: seq<Allocation>, k: nat, at: Place)
    requires Owned(bs, live, places, owners) && k < |places|
    requires forall o :: o in Others(live, owners[k]) ==> Bytes(m1, o.addr, o.size) == Bytes(m, o.addr, o.size)
    ensures Pieces(m1, places[k := at]) == Pieces(m, places)[k := PieceAt(m1, at)]
  {
    OthersOwn(bs, live, places, owners, k);
    hide Owned;
    forall j | 0 <= j < |places| && j != k ensures PieceAt(m1, places[j]) == PieceAt(m, places[j]) {
      assert OwnedBy(bs, Others(live, owners[k]), places[j], owners[j]);
      if places[j].size == 0 {
        assert Bytes(m1, places[j].addr, 0) == [] == Bytes(m, places[j].addr, 0);
      }
    }
  }

  // ----- which requests break the order -----

  predicate Starts(at: Place, addr: nat) {
    at.size > 0 && at.addr == addr
  }

  /** The request resizes in place a piece of no bytes where another piece with bytes starts. */
  predicate Clash(arena: BaseArena, places: seq<Place>, r: Request)
    reads arena
  {
    && (r.Shrink? || r.Realloc?) && r.k < |places| && places[r.k].size == 0 && (r.Shrink? ==> r.size == 0)
    && arena.FitsInPlace(places[r.k].addr, r.size)
    && exists j :: 0 <= j < |places| && Starts(places[j], places[r.k].addr)
  }

  lemma ClashIsClash(arena: BaseArena, places: seq<Place>, owners: seq<Allocation>, r: Request)
    requires arena.Valid() && Owned(arena.blocks, arena.live, places, owners)
    requires (r.Shrink? || r.Realloc?) && r.k < |places| && (r.Shrink? ==> r.size <= places[r.k].size)
    ensures Clash(arena, places, r) <==> arena.Clashes(owners[r.k], r.size)
  {
    var a := owners[r.k];
    assert OwnedBy(arena.blocks, arena.live, places[r.k], a);
    if a.size > 0 {
      arena.LiveStandsAlone(a);
    } else {
      if b :| b in arena.live && b.addr == a.addr && b != a {
        assert HasPlace(places, owners, b);
        var j :| IsPlace(places, owners, j, b);
        assert OwnedBy(arena.blocks, arena.live, places[j], owners[j]);
        assert Starts(places[j], a.addr);
      }
      if j :| 0 <= j < |places| && Starts(places[j], a.addr) {
        assert OwnedBy(arena.blocks, arena.live, places[j], owners[j]);
      }
    }
  }

  /** The arena protects the piece: it lies in one block, and not among the bytes still to be given out. */
  ghost predicate Protects(bs: seq<Block>, c: Cursor, at: Place, i: int) {
    && 0 <= i < |bs| && bs[i].mem <= at.addr && at.addr + at.size <= bs[i].End()
    && (i == c.block ==>
          c.last != NULL && if at.addr == c.last then at.addr + at.size == c.free else at.addr + at.size <= c.last)
  }

  ghost predicate Protected(bs: seq<Block>, c: Cursor, at: Place) {
    exists i :: Protects(bs, c, at, i)
  }

  ghost predicate PlacesApart(places: seq<Place>) {
    forall j, k :: 0 <= j < k < |places| && places[j].size > 0 && places[k].size > 0 ==>
      Apart(places[j].addr, places[j].addr + places[j].size, places[k].addr, places[k].addr + places[k].size)
  }

  /** The pieces are apart, and the arena will give none of their bytes to anyone else. */
  ghost predicate Sound(arena: BaseArena, places: seq<Place>)
    reads arena
  {
    && PlacesApart(places)
    && forall k :: 0 <= k < |places| && places[k].size > 0 ==> Protected(arena.blocks, arena.At(), places[k])
  }

  lemma OwnedIsSound(arena: BaseArena, places: seq<Place>, owners: seq<Allocation>)
    requires arena.Valid() && Owned(arena.blocks, arena.live, places, owners)
    ensures Sound(arena, places)
  {
    hide HasPlace;
    forall k | 0 <= k < |places| && places[k].size > 0 ensures Protected(arena.blocks, arena.At(), places[k]) {
      assert OwnedBy(arena.blocks, arena.live, places[k], owners[k]) && Placed(arena.blocks, owners[k]);
      assert Protects(arena.blocks, arena.At(), places[k], owners[k].block);
    }
    forall j, k | 0 <= j < k < |places| && places[j].size > 0 && places[k].size > 0
      ensures Apart(places[j].addr, places[j].addr + places[j].size, places[k].addr, places[k].addr + places[k].size)
    {
      assert OwnedBy(arena.blocks, arena.live, places[j], owners[j]);
      assert OwnedBy(arena.blocks, arena.live, places[k], owners[k]);
      assert Apart(owners[j].addr, owners[j].End(), owners[k].addr, owners[k].End());
    }
  }

  /** After a clash two pieces overlap, or the bytes of one are among those to be given out next. */
  lemma ClashBreaksOrder(bs: seq<Block>, c: Cursor, places: seq<Place>, k: nat, j: nat, at: Place)
    requires BlocksOk(bs) && CursorOk(bs, c) && j < |places| && k < |places| && places[k].size == 0
    requires Starts(places[j], c.last) && c.last != NULL && at.addr == c.last && c.free == c.last + at.size
    ensures PlacesApart(places[k := at]) ==> !Protected(bs, c, places[k := at][j])
  {
    var places1 := places[k := at];
    assert places1[j] == places[j] && places1[k] == at;
    if at.size == 0 {
      forall i ensures !Protects(bs, c, places[j], i) {
        assert 0 <= i < |bs| && i < c.block ==> Apart(bs[i].mem, bs[i].End(), bs[c.block].mem, bs[c.block].End());
        assert 0 <= i < |bs| && c.block < i ==> Apart(bs[c.block].mem, bs[c.block].End(), bs[i].mem, bs[i].End());
      }
    } else {
      var lo, hi := if j < k then j else k, if j < k then k else j;
      var p, q := places1[lo], places1[hi];
      assert !Apart(p.addr, p.addr + p.size, q.addr, q.addr + q.size);
    }
  }
}
