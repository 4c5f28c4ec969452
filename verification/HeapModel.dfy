/** The allocator as a state machine over block lists and the tracking table, and what holds
    over all of its runs. KernelHeap proves that the code on memory words takes these steps. */
module HeapModel {
  import opened Words
  import opened HeapBlocks

  const MAX_TRACKED: nat := 256

  datatype Entry = Entry(ptr: nat, size: nat, inUse: bool)
  type Table = seq<Entry>

  datatype Heap = Heap(start: nat, end: nat, blocks: Blocks, table: Table)

  // ---- the tracking table ----

  /** Slot that track_add uses: the first one not in use. */
  function FreeSlot(t: Table): (k: nat)
    ensures k <= |t|
    ensures k < |t| ==> !t[k].inUse
    ensures forall j :: 0 <= j < k ==> t[j].inUse
  {
    if t == [] then 0
    else if !t[0].inUse then 0
    else
      var r := FreeSlot(t[1..]);
      assert forall j :: 0 < j < r + 1 ==> t[j] == t[1..][j - 1];
      r + 1
  }

  /** Slot that track_validate and track_remove find: the first one in use for p. */
  function SlotOf(t: Table, p: nat): (k: nat)
    ensures k <= |t|
    ensures k < |t| ==> t[k].inUse && t[k].ptr == p
    ensures forall j :: 0 <= j < k ==> !(t[j].inUse && t[j].ptr == p)
  {
    if t == [] then 0
    else if t[0].inUse && t[0].ptr == p then 0
    else
      var r := SlotOf(t[1..], p);
      assert forall j :: 0 < j < r + 1 ==> t[j] == t[1..][j - 1];
      r + 1
  }

  function TrackAdd(t: Table, p: nat, n: nat): Table {
    var k := FreeSlot(t);
    if k < |t| then t[k := Entry(p, n, true)] else t
  }

  function TrackRemove(t: Table, p: nat): Table {
    var k := SlotOf(t, p);
    if k < |t| then t[k := t[k].(inUse := false)] else t
  }

  /** The pointers the table holds. */
  ghost function Tracked(t: Table): set<nat> {
    set e | e in t && e.inUse :: e.ptr
  }

  // ---- operations ----

  function Init(start: u32, size: u32): Heap
    requires HDR <= size
  {
    var s := Align8(start);
    Heap(s, s + size, [Block(s, size - HDR, false)], seq(MAX_TRACKED, _ => Entry(0, 0, false)))
  }

  function Malloc(h: Heap, n: u32): (Heap, nat) {
    var i := FirstFit(h.blocks, Align8(n));
    if n == 0 || i == |h.blocks| then (h, 0)
    else
      var bs := Place(h.blocks, i, Align8(n));
      var p := bs[i].Payload();
      (h.(blocks := bs, table := TrackAdd(h.table, p, bs[i].size)), p)
  }

  function Free(h: Heap, p: nat): (Heap, bool) {
    var i := IndexAt(h.blocks, p - HDR);
    if p == 0 || SlotOf(h.table, p) == |h.table| || i == |h.blocks| then (h, false)
    else (h.(blocks := Release(h.blocks, i), table := TrackRemove(h.table, p)), true)
  }

  /** kfree_all from slot k on, with the number of blocks it freed. */
  function FreeAllFrom(h: Heap, k: nat): (Heap, nat)
    decreases MAX_TRACKED - k
  {
    if k >= MAX_TRACKED || k >= |h.table| then (h, 0)
    else if h.table[k].inUse then
      var (h1, ok) := Free(h, h.table[k].ptr);
      var (h2, freed) := FreeAllFrom(h1, k + 1);
      (h2, (if ok then 1 else 0) + freed)
    else FreeAllFrom(h, k + 1)
  }

  function FreeAll(h: Heap): (Heap, nat) {
    FreeAllFrom(h, 0)
  }

  function FreeEach(h: Heap, ps: seq<nat>): Heap
    decreases ps
  {
    if ps == [] then h else FreeEach(Free(h, ps[0]).0, ps[1..])
  }

  datatype Op = DoMalloc(n: u32) | DoFree(p: nat) | DoFreeAll

  function Step(h: Heap, op: Op): Heap {
    match op
    case DoMalloc(n) => Malloc(h, n).0
    case DoFree(p) => Free(h, p).0
    case DoFreeAll => FreeAll(h).0
  }

  function Run(h: Heap, ops: seq<Op>): Heap
    decreases ops
  {
    if ops == [] then h else Run(Step(h, ops[0]), ops[1..])
  }

  // ---- the invariant ----

  /** Every tracked pointer is the payload of a used block of the recorded size, and no pointer
      is tracked twice. */
  ghost predicate TableOk(t: Table, bs: Blocks) {
    && (forall i :: 0 <= i < |t| && t[i].inUse ==>
          t[i].ptr >= HDR && Block(t[i].ptr - HDR, t[i].size, true) in bs)
    && (forall i, j :: 0 <= i < j < |t| && t[i].inUse && t[j].inUse ==> t[i].ptr != t[j].ptr)
  }

  ghost predicate Inv(h: Heap) {
    && h.start + HDR <= h.end < TWO32
    && Tiles(h.blocks, h.start, h.end)
    && Compact(h.blocks)
    && |h.table| == MAX_TRACKED
    && TableOk(h.table, h.blocks)
  }

  lemma InitInv(start: u32, size: u32)
    requires HDR <= size && Align8(start) + size < TWO32
    ensures Inv(Init(start, size))
  {
    Align8Rounds(start);
    hide Align8;
    TilesOne(Init(start, size).blocks[0]);
  }

  /** The block that a successful kmalloc hands out. */
  function Granted(h: Heap, n: u32): Block
    requires FirstFit(h.blocks, Align8(n)) < |h.blocks|
  {
    Carve(h.blocks[FirstFit(h.blocks, Align8(n))], Align8(n))[0]
  }

  /** A pointer tracked by an intact table is not the payload of a free block. */
  lemma FreeBlockUntracked(h: Heap, i: nat)
    requires Inv(h) && i < |h.blocks| && !h.blocks[i].used
    ensures forall k :: 0 <= k < |h.table| && h.table[k].inUse ==> h.table[k].ptr != h.blocks[i].Payload()
  {
    forall k | 0 <= k < |h.table| && h.table[k].inUse
      ensures h.table[k].ptr != h.blocks[i].Payload()
    {
      var b := Block(h.table[k].ptr - HDR, h.table[k].size, true);
      assert b in h.blocks && h.blocks[i] in h.blocks;
      LiveAddressesDiffer(h.blocks, h.start, h.end, b, h.blocks[i]);
    }
  }

  lemma MallocEffect(h: Heap, n: u32)
    requires Inv(h) && Malloc(h, n).1 != 0
    ensures FirstFit(h.blocks, Align8(n)) < |h.blocks|
    ensures Inv(Malloc(h, n).0)
    ensures var (h1, p) := Malloc(h, n); var g := Granted(h, n);
      && g.used && p == g.Payload()
      && Live(h1.blocks) == Live(h.blocks) + {g}
      && g !in h.blocks
      && h1.table == TrackAdd(h.table, p, g.size)
      && h1.start == h.start && h1.end == h.end
  {
    var i, wanted := FirstFit(h.blocks, Align8(n)), Align8(n);
    var (h1, p) := Malloc(h, n);
    var g := Granted(h, n);
    Align8Rounds(n);
    assert h1.start == h.start && h1.end == h.end && h1.blocks == Place(h.blocks, i, wanted);
    assert h1.table == TrackAdd(h.table, p, h1.blocks[i].size) && p == h1.blocks[i].Payload();
    hide Malloc, Align8, FirstFit, Place, Carve, Tiles, Compact, TableOk, TrackAdd;
    PlaceTiles(h.blocks, i, wanted, h.start, h.end);
    PlaceCompact(h.blocks, i, wanted);
    PlaceLive(h.blocks, i, wanted);
    PlaceAt(h.blocks, i, wanted);
    CarveShape(h.blocks[i], wanted);
    FreeBlockUntracked(h, i);
    GrantedFresh(h, g, i);
    assert g in Live(h1.blocks);
    TableOkAfterAdd(h.table, h.blocks, h1.blocks, g);
  }

  /** A used block at the address of a free one is not in the list. */
  lemma GrantedFresh(h: Heap, g: Block, i: nat)
    requires Inv(h) && i < |h.blocks| && !h.blocks[i].used && g.used && g.addr == h.blocks[i].addr
    ensures g !in h.blocks
  {
    hide Tiles;
    if g in h.blocks {
      LiveAddressesDiffer(h.blocks, h.start, h.end, g, h.blocks[i]);
    }
  }

  lemma TableOkAfterAdd(t: Table, bs: Blocks, bs': Blocks, g: Block)
    requires TableOk(t, bs) && Live(bs) <= Live(bs') && g in Live(bs')
    requires forall k :: 0 <= k < |t| && t[k].inUse ==> t[k].ptr != g.Payload()
    ensures TableOk(TrackAdd(t, g.Payload(), g.size), bs')
  {
    assert g == Block(g.Payload() - HDR, g.size, true);
    forall k | 0 <= k < |t| && t[k].inUse
      ensures Block(t[k].ptr - HDR, t[k].size, true) in bs'
    {
      assert Block(t[k].ptr - HDR, t[k].size, true) in Live(bs);
    }
  }

  lemma FreeEffect(h: Heap, p: nat)
    requires Inv(h)
    ensures Inv(Free(h, p).0)
    ensures var (h1, ok) := Free(h, p); var k := SlotOf(h.table, p);
      && h1.start == h.start && h1.end == h.end
      && (ok <==> k < |h.table|)
      && (!ok ==> h1 == h)
      && (ok ==> p >= HDR && h1.table == h.table[k := h.table[k].(inUse := false)]
                 && Block(p - HDR, h.table[k].size, true) in h.blocks
                 && Live(h1.blocks) == Live(h.blocks) - {Block(p - HDR, h.table[k].size, true)})
  {
    hide Release, Compact, SlotOf, IndexAt, Tiles;
    var k := SlotOf(h.table, p);
    if k < |h.table| {
      var b := Block(p - HDR, h.table[k].size, true);
      var i := IndexAt(h.blocks, p - HDR);
      assert i < |h.blocks| && h.blocks[i] == b by {
        assert b in h.blocks;
        BlockAtIndex(h.blocks, h.start, h.end, b);
      }
      ReleaseKeepsLayout(h.blocks, i, h.start, h.end);
      var h1 := Free(h, p).0;
      forall m | 0 <= m < |h1.table| && h1.table[m].inUse
        ensures Block(h1.table[m].ptr - HDR, h1.table[m].size, true) in h1.blocks
      {
        assert Block(h.table[m].ptr - HDR, h.table[m].size, true) in Live(h.blocks) - {b};
        assert Block(h.table[m].ptr - HDR, h.table[m].size, true) in Live(h1.blocks);
      }
    }
  }

  // ---- what one call does ----

  /** The free block kmalloc settles on. */
  function Chosen(h: Heap, n: u32): Block
    requires FirstFit(h.blocks, Align8(n)) < |h.blocks|
  {
    h.blocks[FirstFit(h.blocks, Align8(n))]
  }

  /** kmalloc fails exactly when nothing fits. */
  lemma MallocFailsIff(h: Heap, n: u32)
    requires Inv(h)
    ensures Malloc(h, n).1 == 0 <==> n == 0 || forall b :: b in h.blocks ==> b.used || b.size < Align8(n)
    ensures Malloc(h, n).1 == 0 ==> Malloc(h, n).0 == h
  {
    var i := FirstFit(h.blocks, Align8(n));
    if i < |h.blocks| && n != 0 {
      assert h.blocks[i] in h.blocks;
      PlaceAt(h.blocks, i, Align8(n));
    }
  }

  /** Otherwise it hands out the start of the lowest free block that fits, cut to the rounded
      size unless at most 28 bytes would be left over. */
  lemma FirstFitOutcome(h: Heap, n: u32)
    requires Inv(h) && Malloc(h, n).1 != 0
    ensures FirstFit(h.blocks, Align8(n)) < |h.blocks|
    ensures var (h1, p) := Malloc(h, n); var wanted := Align8(n); var b := Chosen(h, n);
      && Inv(h1)
      && b in h.blocks && !b.used && wanted <= b.size && p == b.Payload()
      && (forall c :: c in h.blocks && !c.used && wanted <= c.size ==> b.addr <= c.addr)
      && Live(h1.blocks) == Live(h.blocks) +
           {Block(b.addr, if b.size <= wanted + 28 then b.size else wanted, true)}
  {
    MallocEffect(h, n);
    LowestFit(h, Align8(n));
    hide Inv, FirstFit, Malloc, Align8;
  }

  lemma LowestFit(h: Heap, wanted: nat)
    requires Inv(h) && FirstFit(h.blocks, wanted) < |h.blocks|
    ensures forall c :: c in h.blocks && Fits(c, wanted) ==> h.blocks[FirstFit(h.blocks, wanted)].addr <= c.addr
  {
    TilesOrder(h.blocks, h.start, h.end);
    hide Tiles;
    var i := FirstFit(h.blocks, wanted);
    forall c | c in h.blocks && Fits(c, wanted)
      ensures h.blocks[i].addr <= c.addr
    {
      var j :| 0 <= j < |h.blocks| && h.blocks[j] == c;
      assert i <= j;
    }
  }

  /** A granted block holds the request exactly when rounding the request up does not wrap. */
  lemma HoldsRequestIff(h: Heap, n: u32)
    requires Inv(h) && Malloc(h, n).1 != 0
    ensures Granted(h, n).size >= n <==> n <= 0xFFFF_FFF8
  {
    Align8Rounds(n);
    hide Align8;
    MallocEffect(h, n);
    TilesOrder(h.blocks, h.start, h.end);
  }

  /** A wrapped request is granted from a fresh heap, with no room at all. */
  lemma WrappedRequestExample(start: u32, size: u32)
    requires 64 <= size && Align8(start) + size < TWO32
    ensures Malloc(Init(start, size), 0xFFFF_FFFF).1 != 0
    ensures Granted(Init(start, size), 0xFFFF_FFFF).size == 0
  {
    Align8Rounds(start);
    Align8Rounds(0xFFFF_FFFF);
    hide Align8;
    assert Fits(Init(start, size).blocks[0], 0);
  }

  /** Payloads sit on word boundaries; they sit on 8-byte boundaries exactly when the block
      chosen starts 4 bytes off one, which the first block of a heap never does. */
  lemma PayloadAlignment(h: Heap, n: u32)
    requires Inv(h) && Malloc(h, n).1 != 0
    ensures var p := Malloc(h, n).1; var i := FirstFit(h.blocks, Align8(n));
      && p % 4 == 0
      && (p % 8 == 0 <==> h.blocks[i].addr % 8 == 4)
      && (h.start % 8 == 0 && i == 0 ==> p % 8 == 4)
  {
    FirstFitOutcome(h, n);
    hide Malloc, Align8, FirstFit;
    BlockAligned(h, FirstFit(h.blocks, Align8(n)));
    hide Inv;
    HeaderThenPayload(Chosen(h, n).addr);
  }

  lemma BlockAligned(h: Heap, i: nat)
    requires Inv(h) && i < |h.blocks|
    ensures h.blocks[i].addr % 4 == 0 && (i == 0 ==> h.blocks[i].addr == h.start)
  {
    TilesOrder(h.blocks, h.start, h.end);
  }

  lemma HeaderThenPayload(a: nat)
    requires a % 4 == 0
    ensures (a + HDR) % 4 == 0
    ensures (a + HDR) % 8 == 0 <==> a % 8 == 4
    ensures a % 8 == 0 ==> (a + HDR) % 8 == 4
  {}

  /** Payloads of different live blocks share no byte and lie inside the heap. */
  lemma LivePayloadsDisjoint(h: Heap, x: Block, y: Block)
    requires Inv(h) && x in Live(h.blocks) && y in Live(h.blocks) && x != y
    ensures h.start + HDR <= x.Payload() && x.End() <= h.end && x.Payload() % 4 == 0
    ensures x.End() <= y.addr || y.End() <= x.addr
  {
    TilesOrder(h.blocks, h.start, h.end);
    LiveAddressesDiffer(h.blocks, h.start, h.end, x, y);
  }

  lemma TrackedSlot(t: Table, p: nat)
    ensures p in Tracked(t) <==> SlotOf(t, p) < |t|
  {
    if p in Tracked(t) {
      var e :| e in t && e.inUse && e.ptr == p;
      var j :| 0 <= j < |t| && t[j] == e;
    }
  }

  /** kfree accepts exactly the tracked pointers, and takes just that block and that entry away. */
  lemma FreeOutcome(h: Heap, p: nat)
    requires Inv(h)
    ensures var (h1, ok) := Free(h, p);
      && Inv(h1) && h1.start == h.start && h1.end == h.end
      && (ok <==> p in Tracked(h.table))
      && (!ok ==> h1 == h)
      && Tracked(h1.table) == Tracked(h.table) - {p}
      && Live(h1.blocks) == (if ok then set b | b in Live(h.blocks) && b.Payload() != p else Live(h.blocks))
  {
    FreeEffect(h, p);
    TrackedSlot(h.table, p);
    var (h1, ok) := Free(h, p);
    if ok {
      var k := SlotOf(h.table, p);
      RemovedPointer(h.table, k);
      var b := Block(p - HDR, h.table[k].size, true);
      forall c | c in Live(h.blocks) && c.Payload() == p
        ensures c == b
      {
        if c != b {
          LiveAddressesDiffer(h.blocks, h.start, h.end, b, c);
        }
      }
    }
  }

  lemma RemovedPointer(t: Table, k: nat)
    requires k < |t| && t[k].inUse
    requires forall i, j :: 0 <= i < j < |t| && t[i].inUse && t[j].inUse ==> t[i].ptr != t[j].ptr
    ensures Tracked(t[k := t[k].(inUse := false)]) == Tracked(t) - {t[k].ptr}
  {
    var u := t[k := t[k].(inUse := false)];
    forall p | p in Tracked(u)
      ensures p in Tracked(t) && p != t[k].ptr
    {
      var e :| e in u && e.inUse && e.ptr == p;
      var j :| 0 <= j < |u| && u[j] == e;
      assert t[j] == e && j != k;
      assert t[j].ptr != t[k].ptr;
    }
    forall p | p in Tracked(t) && p != t[k].ptr
      ensures p in Tracked(u)
    {
      var e :| e in t && e.inUse && e.ptr == p;
      var j :| 0 <= j < |t| && t[j] == e;
      assert u[j] == e;
    }
  }

  lemma AddedPointer(t: Table, p: nat, n: nat)
    ensures FreeSlot(t) < |t| ==> Tracked(TrackAdd(t, p, n)) == Tracked(t) + {p}
    ensures FreeSlot(t) == |t| ==> TrackAdd(t, p, n) == t
  {
    var k := FreeSlot(t);
    if k < |t| {
      var u := TrackAdd(t, p, n);
      assert u[k] == Entry(p, n, true);
      forall q | q in Tracked(t)
        ensures q in Tracked(u)
      {
        var e :| e in t && e.inUse && e.ptr == q;
        var j :| 0 <= j < |t| && t[j] == e;
        assert u[j] == e;
      }
      forall q | q in Tracked(u) && q != p
        ensures q in Tracked(t)
      {
        var e :| e in u && e.inUse && e.ptr == q;
        var j :| 0 <= j < |u| && u[j] == e;
        assert t[j] == e;
      }
    }
  }

  // ---- round trips and order of frees ----

  /** Freeing what was just allocated undoes the allocation, provided a tracking slot was free;
      with no free slot the pointer cannot be freed at all. */
  lemma MallocFreeRoundTrip(h: Heap, n: u32)
    requires Inv(h) && Malloc(h, n).1 != 0
    ensures var (h1, p) := Malloc(h, n); var (h2, ok) := Free(h1, p);
      && (ok <==> FreeSlot(h.table) < |h.table|)
      && (ok ==> h2.blocks == h.blocks && Tracked(h2.table) == Tracked(h.table))
      && (!ok ==> h2 == h1)
  {
    hide Malloc, Free, Tiles, Compact, TableOk, Align8, FirstFit, Granted, TrackAdd;
    var (h1, p) := Malloc(h, n);
    MallocEffect(h, n);
    FreeOutcome(h1, p);
    AddedPointer(h.table, p, Granted(h, n).size);
    MallocPointers(h, n);
    var (h2, ok) := Free(h1, p);
    if ok {
      var g := Granted(h, n);
      forall b | b in Live(h.blocks)
        ensures b.Payload() != p
      {
        assert b in Live(h1.blocks) && g in Live(h1.blocks) && b != g;
        LiveAddressesDiffer(h1.blocks, h1.start, h1.end, b, g);
      }
      assert Live(h2.blocks) == Live(h.blocks);
      Canonical(h2.blocks, h.blocks, h.start, h.end);
    }
  }

  lemma {:induction false} FreeEachOutcome(h: Heap, ps: seq<nat>)
    requires Inv(h)
    ensures Inv(FreeEach(h, ps))
    ensures FreeEach(h, ps).start == h.start && FreeEach(h, ps).end == h.end
    ensures Live(FreeEach(h, ps).blocks) ==
      (set b | b in Live(h.blocks) && !(b.Payload() in ps && b.Payload() in Tracked(h.table)))
    ensures forall i :: 0 <= i < MAX_TRACKED ==>
      FreeEach(h, ps).table[i] == h.table[i].(inUse := h.table[i].inUse && h.table[i].ptr !in ps)
    decreases ps
  {
    hide Free, Tiles, Compact, TableOk, SlotOf;
    if ps != [] {
      var g := Free(h, ps[0]).0;
      FreeOutcome(h, ps[0]);
      FreeEffect(h, ps[0]);
      FreeEachOutcome(g, ps[1..]);
      assert forall q :: q in ps <==> q == ps[0] || q in ps[1..];
    }
  }

  /** Freeing the same pointers in any order, with any repetitions, ends in the same heap. */
  lemma FreeOrderIrrelevant(h: Heap, ps: seq<nat>, qs: seq<nat>)
    requires Inv(h)
    requires forall p :: p in ps <==> p in qs
    ensures FreeEach(h, ps) == FreeEach(h, qs)
  {
    FreeEachOutcome(h, ps);
    FreeEachOutcome(h, qs);
    var x, y := FreeEach(h, ps), FreeEach(h, qs);
    Canonical(x.blocks, y.blocks, h.start, h.end);
    assert x.table == y.table;
  }

  // ---- how far the table agrees with the heap ----

  ghost function LivePtrs(bs: Blocks): set<nat> {
    set b | b in Live(bs) :: b.Payload()
  }

  function InUseCount(t: Table): nat {
    if t == [] then 0 else (if t[0].inUse then 1 else 0) + InUseCount(t[1..])
  }

  lemma {:induction false} CountIsCardinality(t: Table)
    requires forall i, j :: 0 <= i < j < |t| && t[i].inUse && t[j].inUse ==> t[i].ptr != t[j].ptr
    ensures |Tracked(t)| == InUseCount(t)
    ensures InUseCount(t) <= |t|
    ensures FreeSlot(t) < |t| <==> InUseCount(t) < |t|
  {
    if t != [] {
      CountIsCardinality(t[1..]);
      assert t == [t[0]] + t[1..];
      if t[0].inUse {
        forall p | p in Tracked(t[1..])
          ensures p != t[0].ptr
        {
          var e :| e in t[1..] && e.inUse && e.ptr == p;
          var j :| 0 <= j < |t[1..]| && t[1..][j] == e;
          assert t[j + 1] == e;
        }
        assert Tracked(t) == Tracked(t[1..]) + {t[0].ptr};
      } else {
        assert Tracked(t) == Tracked(t[1..]);
      }
    } else {
      assert Tracked(t) == {};
    }
  }

  lemma HeadPtrFresh(bs: Blocks, s: nat, e: nat)
    requires Tiles(bs, s, e) && bs != []
    ensures bs[0].Payload() !in LivePtrs(bs[1..])
  {
    TilesOrder(bs[1..], bs[0].End(), e);
    forall c | c in Live(bs[1..])
      ensures c.Payload() != bs[0].Payload()
    {
      var i :| 0 <= i < |bs[1..]| && bs[1..][i] == c;
    }
  }

  lemma {:induction false} LivePtrsCardinality(bs: Blocks, s: nat, e: nat)
    requires Tiles(bs, s, e)
    ensures |LivePtrs(bs)| == |Live(bs)|
  {
    if bs != [] {
      var b, rest := bs[0], bs[1..];
      LiveTail(bs, s, e);
      LivePtrsCardinality(rest, b.End(), e);
      if b.used {
        LivePtrsUnion(rest, b, bs);
        HeadPtrFresh(bs, s, e);
      } else {
        assert LivePtrs(bs) == LivePtrs(rest);
      }
    } else {
      assert Live(bs) == {} && LivePtrs(bs) == {};
    }
  }

  /** The table holds exactly the payloads of the used blocks. */
  ghost predicate Exact(h: Heap) {
    Tracked(h.table) == LivePtrs(h.blocks)
  }

  lemma TrackedAreLive(h: Heap)
    requires Inv(h)
    ensures Tracked(h.table) <= LivePtrs(h.blocks)
  {
    forall p | p in Tracked(h.table)
      ensures p in LivePtrs(h.blocks)
    {
      var e :| e in h.table && e.inUse && e.ptr == p;
      assert Block(p - HDR, e.size, true) in Live(h.blocks);
    }
  }

  /** Agreement of table and heap survives an allocation exactly when at most 256 blocks are
      live after it. */
  lemma MallocExactIff(h: Heap, n: u32)
    requires Inv(h) && Exact(h) && Malloc(h, n).1 != 0
    ensures var h1 := Malloc(h, n).0;
      Exact(h1) <==> |Live(h1.blocks)| <= MAX_TRACKED
  {
    var (h1, p) := Malloc(h, n);
    MallocPointers(h, n);
    assert |Tracked(h.table)| < MAX_TRACKED <==> FreeSlot(h.table) < |h.table| by {
      CountIsCardinality(h.table);
    }
    LivePtrsCardinality(h1.blocks, h1.start, h1.end);
    assert |Tracked(h.table) + {p}| == |Tracked(h.table)| + 1;
  }

  lemma MallocPointers(h: Heap, n: u32)
    requires Inv(h) && Malloc(h, n).1 != 0
    ensures var (h1, p) := Malloc(h, n);
      && Inv(h1)
      && p !in Tracked(h.table)
      && LivePtrs(h1.blocks) == LivePtrs(h.blocks) + {p}
      && Tracked(h1.table) == Tracked(h.table) + (if FreeSlot(h.table) < |h.table| then {p} else {})
  {
    var (h1, p) := Malloc(h, n);
    var g := Granted(h, n);
    MallocEffect(h, n);
    AddedPointer(h.table, p, g.size);
    FreeBlockUntracked(h, FirstFit(h.blocks, Align8(n)));
    LivePtrsUnion(h.blocks, g, h1.blocks);
  }

  lemma LivePtrsUnion(bs: Blocks, g: Block, bs': Blocks)
    requires Live(bs') == Live(bs) + {g}
    ensures LivePtrs(bs') == LivePtrs(bs) + {g.Payload()}
  {}

  lemma FreeKeepsExact(h: Heap, p: nat)
    requires Inv(h) && Exact(h)
    ensures Exact(Free(h, p).0)
  {
    FreeOutcome(h, p);
    var h1 := Free(h, p).0;
    forall q | q in LivePtrs(h.blocks) && q != p
      ensures q in LivePtrs(h1.blocks)
    {
      var b :| b in Live(h.blocks) && b.Payload() == q;
      assert b in Live(h1.blocks);
    }
  }

  // ---- kfree_all ----

  /** One turn of kfree_all's loop. */
  lemma FreeAllStep(h: Heap, k: nat)
    requires Inv(h) && k <= MAX_TRACKED
    requires forall i :: 0 <= i < k ==> !h.table[i].inUse
    ensures k == MAX_TRACKED ==> FreeAllFrom(h, k) == (h, 0)
    ensures k < MAX_TRACKED && !h.table[k].inUse ==> FreeAllFrom(h, k) == FreeAllFrom(h, k + 1)
    ensures k < MAX_TRACKED && h.table[k].inUse ==>
      var g := Free(h, h.table[k].ptr).0;
      FreeAllFrom(h, k) == (FreeAllFrom(g, k + 1).0, 1 + FreeAllFrom(g, k + 1).1)
  {
    if k < MAX_TRACKED && h.table[k].inUse {
      FreeSlotEffect(h, k);
    }
  }

  lemma {:induction false} FreeAllFromOutcome(h: Heap, k: nat)
    requires Inv(h) && k <= MAX_TRACKED
    requires forall i :: 0 <= i < k ==> !h.table[i].inUse
    ensures var (h1, freed) := FreeAllFrom(h, k);
      && Inv(h1) && h1.start == h.start && h1.end == h.end
      && (forall i :: 0 <= i < |h1.table| ==> !h1.table[i].inUse)
      && freed == InUseCount(h.table[k..])
      && Live(h1.blocks) == (set b | b in Live(h.blocks) && b.Payload() !in Tracked(h.table))
    decreases MAX_TRACKED - k
  {
    hide FreeAllFrom, Free, Tiles, Compact, TableOk;
    FreeAllStep(h, k);
    if k < MAX_TRACKED {
      assert h.table[k..][1..] == h.table[k + 1..];
      if h.table[k].inUse {
        var g := Free(h, h.table[k].ptr).0;
        FreeSlotEffect(h, k);
        assert g.table[k + 1..] == h.table[k + 1..];
        FreeAllFromOutcome(g, k + 1);
      } else {
        FreeAllFromOutcome(h, k + 1);
      }
    } else {
      assert Tracked(h.table) == {};
    }
  }

  /** Freeing the pointer found in slot k clears exactly slot k. */
  lemma FreeSlotEffect(h: Heap, k: nat)
    requires Inv(h) && k < MAX_TRACKED && h.table[k].inUse
    requires forall i :: 0 <= i < k ==> !h.table[i].inUse
    ensures var p := h.table[k].ptr; var (g, ok) := Free(h, p);
      && ok && Inv(g) && g.start == h.start && g.end == h.end
      && g.table == h.table[k := h.table[k].(inUse := false)]
      && p in Tracked(h.table)
      && Tracked(g.table) == Tracked(h.table) - {p}
      && Live(g.blocks) == (set b | b in Live(h.blocks) && b.Payload() != p)
  {
    var p := h.table[k].ptr;
    FreeOutcome(h, p);
    FreeEffect(h, p);
    TrackedSlot(h.table, p);
    assert SlotOf(h.table, p) == k;
  }

  lemma TrackedPointerIs32Bit(h: Heap, k: nat)
    requires Inv(h) && k < MAX_TRACKED && h.table[k].inUse
    ensures h.table[k].ptr < TWO32
  {
    TilesOrder(h.blocks, h.start, h.end);
    assert Block(h.table[k].ptr - HDR, h.table[k].size, true) in h.blocks;
  }

  /** kfree_all empties the table, counts what it freed, and leaves live only what was never
      tracked; from an exact table it leaves the one free block of a fresh heap. */
  lemma FreeAllOutcome(h: Heap)
    requires Inv(h)
    ensures var (h1, freed) := FreeAll(h);
      && Inv(h1)
      && Tracked(h1.table) == {}
      && freed == |Tracked(h.table)|
      && Live(h1.blocks) == (set b | b in Live(h.blocks) && b.Payload() !in Tracked(h.table))
      && (Exact(h) <==> h1.blocks == [Block(h.start, h.end - h.start - HDR, false)])
  {
    FreeAllFromOutcome(h, 0);
    CountIsCardinality(h.table);
    assert h.table[0..] == h.table;
    var (h1, freed) := FreeAll(h);
    TrackedAreLive(h);
    if Exact(h) {
      assert Live(h1.blocks) == {};
      EmptyHeapIsOneBlock(h1.blocks, h.start, h.end);
    } else {
      var p :| p in LivePtrs(h.blocks) && p !in Tracked(h.table);
      var b :| b in Live(h.blocks) && b.Payload() == p;
      assert b in Live(h1.blocks);
    }
  }

  /** Freeing at least every tracked pointer of an exact heap, in any order, leaves the one free
      block of a fresh heap. */
  lemma FreeingEverything(h: Heap, ps: seq<nat>)
    requires Inv(h) && Exact(h) && forall p :: p in Tracked(h.table) ==> p in ps
    ensures FreeEach(h, ps).blocks == [Block(h.start, h.end - h.start - HDR, false)]
    ensures Tracked(FreeEach(h, ps).table) == {}
  {
    FreeEachOutcome(h, ps);
    var h1 := FreeEach(h, ps);
    forall b | b in Live(h.blocks)
      ensures b.Payload() in ps && b.Payload() in Tracked(h.table)
    {
      assert b.Payload() in LivePtrs(h.blocks);
    }
    assert Live(h1.blocks) == {};
    EmptyHeapIsOneBlock(h1.blocks, h.start, h.end);
    forall i | 0 <= i < MAX_TRACKED
      ensures !h1.table[i].inUse
    {
      if h.table[i].inUse {
        assert h.table[i] in h.table && h.table[i].ptr in Tracked(h.table);
      }
    }
  }

  // ---- whole runs ----

  lemma StepInv(h: Heap, op: Op)
    requires Inv(h)
    ensures Inv(Step(h, op))
    ensures Step(h, op).start == h.start && Step(h, op).end == h.end
  {
    match op
    case DoMalloc(n) =>
      MallocFailsIff(h, n);
      if Malloc(h, n).1 != 0 {
        MallocEffect(h, n);
      }
    case DoFree(p) => FreeEffect(h, p);
    case DoFreeAll => FreeAllFromOutcome(h, 0);
  }

  /** Whether an operation gives the live block b back. */
  ghost predicate Frees(h: Heap, op: Op, b: Block) {
    b.Payload() in Tracked(h.table) && (op == DoFree(b.Payload()) || op == DoFreeAll)
  }

  /** A live block stays live exactly if it is not freed. */
  lemma StaysLiveIff(h: Heap, op: Op, b: Block)
    requires Inv(h) && b in Live(h.blocks)
    ensures b in Live(Step(h, op).blocks) <==> !Frees(h, op, b)
  {
    hide Inv, Malloc, Free, Tracked;
    match op
    case DoMalloc(n) =>
      MallocFailsIff(h, n);
      if Malloc(h, n).1 != 0 {
        MallocEffect(h, n);
      }
    case DoFree(p) => FreeOutcome(h, p);
    case DoFreeAll => FreeAllOutcome(h);
  }

  /** Every reachable heap is exactly tiled, compact, and has an intact tracking table. */
  lemma {:induction false} RunInv(h: Heap, ops: seq<Op>)
    requires Inv(h)
    ensures Inv(Run(h, ops)) && Run(h, ops).start == h.start && Run(h, ops).end == h.end
    decreases ops
  {
    if ops != [] {
      StepInv(h, ops[0]);
      RunInv(Step(h, ops[0]), ops[1..]);
    }
  }

  /** Two runs that leave the same blocks live leave the same layout, however they got there. */
  lemma LayoutDependsOnLiveBlocksOnly(start: u32, size: u32, a: seq<Op>, b: seq<Op>)
    requires HDR <= size && Align8(start) + size < TWO32
    requires Live(Run(Init(start, size), a).blocks) == Live(Run(Init(start, size), b).blocks)
    ensures Run(Init(start, size), a).blocks == Run(Init(start, size), b).blocks
  {
    hide Tiles, Compact, TableOk, Run, Align8;
    InitInv(start, size);
    RunInv(Init(start, size), a);
    RunInv(Init(start, size), b);
    Canonical(Run(Init(start, size), a).blocks, Run(Init(start, size), b).blocks,
              Align8(start), Align8(start) + size);
  }

  /** No state along the run has more than 256 live blocks. */
  ghost predicate NeverOverfull(h: Heap, ops: seq<Op>)
    decreases ops
  {
    |Live(h.blocks)| <= MAX_TRACKED && (ops == [] || NeverOverfull(Step(h, ops[0]), ops[1..]))
  }

  lemma {:induction false} RunExact(h: Heap, ops: seq<Op>)
    requires Inv(h) && Exact(h) && NeverOverfull(h, ops)
    ensures Exact(Run(h, ops))
    decreases ops
  {
    if ops != [] {
      StepInv(h, ops[0]);
      match ops[0] {
        case DoMalloc(n) =>
          MallocFailsIff(h, n);
          if Malloc(h, n).1 != 0 {
            MallocExactIff(h, n);
          }
        case DoFree(p) => FreeKeepsExact(h, p);
        case DoFreeAll =>
          FreeAllOutcome(h);
          assert LivePtrs(Step(h, ops[0]).blocks) == {} by {
            assert Live(Step(h, ops[0]).blocks) == {};
          }
      }
      RunExact(Step(h, ops[0]), ops[1..]);
    }
  }

  /** A run from boot that never had more than 256 live blocks ends, after kfree_all, in the
      layout of boot. */
  lemma FreeAllRestoresBoot(start: u32, size: u32, ops: seq<Op>)
    requires HDR <= size && Align8(start) + size < TWO32
    requires NeverOverfull(Init(start, size), ops)
    ensures FreeAll(Run(Init(start, size), ops)).0.blocks == Init(start, size).blocks
  {
    hide Inv, Exact, Run, NeverOverfull, Align8;
    var h := Init(start, size);
    InitInv(start, size);
    InitExact(start, size);
    RunInv(h, ops);
    RunExact(h, ops);
    FreeAllOutcome(Run(h, ops));
  }

  lemma InitExact(start: u32, size: u32)
    requires HDR <= size
    ensures Exact(Init(start, size))
  {
    hide Align8;
    var h := Init(start, size);
    assert Live(h.blocks) == {};
    assert Tracked(h.table) == {} == LivePtrs(h.blocks);
  }

  /** A live block whose pointer the full table dropped stays live for ever. */
  lemma {:induction false} DroppedPointerNeverFreed(h: Heap, b: Block, ops: seq<Op>)
    requires Inv(h) && b in Live(h.blocks) && b.Payload() !in Tracked(h.table)
    ensures b in Live(Run(h, ops).blocks)
    ensures b.Payload() !in Tracked(Run(h, ops).table)
    decreases ops
  {
    if ops != [] {
      var h1 := Step(h, ops[0]);
      StepInv(h, ops[0]);
      match ops[0] {
        case DoMalloc(n) =>
          MallocFailsIff(h, n);
          if Malloc(h, n).1 != 0 {
            var g := Granted(h, n);
            MallocEffect(h, n);
            AddedPointer(h.table, Malloc(h, n).1, g.size);
            assert g in Live(h1.blocks) && b in Live(h1.blocks) && g != b;
            LiveAddressesDiffer(h1.blocks, h1.start, h1.end, g, b);
          }
        case DoFree(p) => FreeOutcome(h, p);
        case DoFreeAll => FreeAllOutcome(h);
      }
      DroppedPointerNeverFreed(h1, b, ops[1..]);
    }
  }

  // ---- filling the tracking table ----

  /** The heap from s to e after k requests of 8 bytes: blocks of 20 bytes, and the rest free. */
  function Filled(s: nat, e: nat, k: nat): Blocks
    requires s + 20 * k + HDR <= e
  {
    seq(k, (i: nat) => Block(s + 20 * i, 8, true)) + [Block(s + 20 * k, e - s - 20 * k - HDR, false)]
  }

  function Eights(k: nat): seq<Op> {
    seq(k, _ => DoMalloc(8))
  }

  lemma FirstFitFilled(s: nat, e: nat, k: nat)
    requires s + 20 * k + HDR + 8 <= e
    ensures FirstFit(Filled(s, e, k), 8) == k
  {
    var bs := Filled(s, e, k);
    assert Fits(bs[k], 8) && forall j :: 0 <= j < k ==> !Fits(bs[j], 8);
  }

  /** One more request of 8 bytes cuts 20 bytes off the free block. */
  lemma FillOne(h: Heap, k: nat)
    requires h.start + 20 * k + 49 <= h.end && h.blocks == Filled(h.start, h.end, k)
    ensures Malloc(h, 8).1 != 0 && Malloc(h, 8).0.blocks == Filled(h.start, h.end, k + 1)
    ensures Malloc(h, 8).0.start == h.start && Malloc(h, 8).0.end == h.end
  {
    hide FirstFit;
    FirstFitFilled(h.start, h.end, k);
    assert Align8(8) == 8;
    var bs, more := h.blocks, Filled(h.start, h.end, k + 1);
    assert bs[..k] == more[..k] && bs[k + 1..] == [];
    assert Place(bs, k, 8) == more;
  }

  lemma {:induction false} RunAppend(h: Heap, a: seq<Op>, b: seq<Op>)
    ensures Run(h, a + b) == Run(Run(h, a), b)
    decreases a
  {
    if a == [] {
      assert a + b == b;
    } else {
      assert (a + b)[0] == a[0] && (a + b)[1..] == a[1..] + b;
      RunAppend(Step(h, a[0]), a[1..], b);
    }
  }

  lemma {:induction false} FillRun(start: u32, k: nat)
    requires k <= 256 && Align8(start) + 0x10_0000 < TWO32
    ensures var h := Run(Init(start, 0x10_0000), Eights(k));
      && Inv(h) && Exact(h) && |Live(h.blocks)| == k
      && h.start == Align8(start) && h.end == h.start + 0x10_0000 && h.blocks == Filled(h.start, h.end, k)
  {
    hide Inv, Exact, Align8;
    var h0 := Init(start, 0x10_0000);
    if k == 0 {
      InitInv(start, 0x10_0000);
      InitExact(start, 0x10_0000);
      assert Live(h0.blocks) == {};
    } else {
      FillRun(start, k - 1);
      var h := Run(h0, Eights(k - 1));
      FillOne(h, k - 1);
      FillStep(h);
      assert Eights(k) == Eights(k - 1) + [DoMalloc(8)];
      RunAppend(h0, Eights(k - 1), [DoMalloc(8)]);
      assert Run(h, [DoMalloc(8)]) == Run(Malloc(h, 8).0, []);
    }
  }

  lemma FillStep(h: Heap)
    requires Inv(h) && Exact(h) && Malloc(h, 8).1 != 0
    ensures FirstFit(h.blocks, Align8(8)) < |h.blocks|
    ensures Inv(Malloc(h, 8).0) && |Live(Malloc(h, 8).0.blocks)| == |Live(h.blocks)| + 1
    ensures Exact(Malloc(h, 8).0) <==> |Live(h.blocks)| < MAX_TRACKED
    ensures Granted(h, 8) in Live(Malloc(h, 8).0.blocks) && Granted(h, 8).Payload() == Malloc(h, 8).1
  {
    hide Inv, Exact, Malloc, Granted;
    MallocEffect(h, 8);
    MallocExactIff(h, 8);
    assert Granted(h, 8) !in Live(h.blocks);
  }

  /** The table does get full: from boot, with the heap kernel.c asks for, the 257th request of 8
      bytes is granted but not tracked. kfree refuses its pointer, and over every later run the
      block stays live. */
  lemma FullTableExample(start: u32, ops: seq<Op>)
    requires Align8(start) + 0x10_0000 < TWO32
    ensures var h := Run(Init(start, 0x10_0000), Eights(256)); var (h1, p) := Malloc(h, 8);
      && Inv(h1) && |Live(h1.blocks)| == 257 && !Exact(h1)
      && p != 0 && Free(h1, p) == (h1, false)
      && Granted(h, 8).Payload() == p && Granted(h, 8) in Live(Run(h1, ops).blocks)
  {
    hide Inv, Exact, Malloc, Free, Run, Align8, Granted, Filled;
    FillRun(start, 256);
    var h := Run(Init(start, 0x10_0000), Eights(256));
    FillOne(h, 256);
    FillStep(h);
    MallocFreeRoundTrip(h, 8);
    TableFull(h);
    var (h1, p) := Malloc(h, 8);
    TrackedSlotOf(h1, p);
    DroppedPointerNeverFreed(h1, Granted(h, 8), ops);
  }

  lemma TableFull(h: Heap)
    requires Inv(h) && Exact(h) && |Live(h.blocks)| == MAX_TRACKED
    ensures FreeSlot(h.table) == |h.table|
  {
    CountIsCardinality(h.table);
    LivePtrsCardinality(h.blocks, h.start, h.end);
  }

  lemma TrackedSlotOf(h: Heap, p: nat)
    requires Inv(h) && !Free(h, p).1
    ensures p !in Tracked(h.table)
  {
    hide Inv, Free;
    FreeOutcome(h, p);
  }
}
