/** The allocator on memory words. Word w of mem is the 32-bit word at address 4 * w. */
module KernelHeap {
  import opened Words
  import opened HeapBlocks
  import opened HeapModel

  const BLOCK_MAGIC: u32 := 0xEA0BEEF
  const BLOCK_FREE := 0
  const BLOCK_USED := 1

  // A header is three words: size, magic, and a word whose low byte is the used flag.

  ghost predicate HeaderAt(m: seq<u32>, b: Block) {
    && b.addr % 4 == 0 && b.addr / 4 + 2 < |m|
    && m[b.addr / 4] == b.size
    && m[b.addr / 4 + 1] == BLOCK_MAGIC
    && m[b.addr / 4 + 2] % 256 == (if b.used then BLOCK_USED else BLOCK_FREE)
  }

  ghost predicate Headers(m: seq<u32>, bs: Blocks) {
    forall i :: 0 <= i < |bs| ==> HeaderAt(m, bs[i])
  }

  /** Word w shares a byte with the payload of b. */
  predicate PayloadWord(b: Block, w: nat) {
    b.Payload() < 4 * w + 4 && 4 * w < b.End()
  }

  /** Words outside [s, e) and words of the live blocks' payloads are the same in m and m'. */
  ghost predicate Untouched(m: seq<u32>, m': seq<u32>, live: set<Block>, s: nat, e: nat) {
    && |m| == |m'|
    && (forall w :: 0 <= w < |m| && (4 * w < s || e <= 4 * w) ==> m'[w] == m[w])
    && (forall b, w :: b in live && 0 <= w < |m| && PayloadWord(b, w) ==> m'[w] == m[w])
  }

  lemma SameHeader(m: seq<u32>, x: Block, y: Block)
    requires HeaderAt(m, x) && HeaderAt(m, y) && x.addr == y.addr
    ensures x == y
  {}

  /** Memory determines the blocks: two lists that fill the heap and agree with the headers are the
      same list. */
  lemma {:induction false} HeadersDetermineBlocks(m: seq<u32>, xs: Blocks, ys: Blocks, s: nat, e: nat)
    requires Tiles(xs, s, e) && Tiles(ys, s, e) && Headers(m, xs) && Headers(m, ys)
    ensures xs == ys
  {
    TilesOrder(xs, s, e);
    TilesOrder(ys, s, e);
    hide HeaderAt;
    if xs != [] && ys != [] {
      SameHeader(m, xs[0], ys[0]);
      assert forall i :: 0 <= i < |xs[1..]| ==> xs[1..][i] == xs[i + 1];
      assert forall i :: 0 <= i < |ys[1..]| ==> ys[1..][i] == ys[i + 1];
      HeadersDetermineBlocks(m, xs[1..], ys[1..], xs[0].End(), e);
      assert xs == [xs[0]] + xs[1..] && ys == [ys[0]] + ys[1..];
    }
  }

  /** A change confined to the block at k leaves the other headers alone. */
  lemma HeadersFrame(m: seq<u32>, m': seq<u32>, bs: Blocks, s: nat, e: nat, k: nat)
    requires Tiles(bs, s, e) && Headers(m, bs) && k < |bs| && |m'| == |m|
    requires forall w :: 0 <= w < |m| && m'[w] != m[w] ==> bs[k].addr <= 4 * w < bs[k].End()
    ensures forall i :: 0 <= i < |bs| && i != k ==> HeaderAt(m', bs[i])
  {
    TilesOrder(bs, s, e);
    forall i | 0 <= i < |bs| && i != k
      ensures HeaderAt(m', bs[i])
    {
      assert HeaderAt(m, bs[i]);
      assert i < k || k < i;
    }
  }

  /** A change confined to the block at k, and to its header if it is live, leaves the other
      headers and every live payload alone. */
  lemma LocalWrite(m: seq<u32>, m': seq<u32>, bs: Blocks, s: nat, e: nat, k: nat)
    requires Tiles(bs, s, e) && Headers(m, bs) && k < |bs| && |m'| == |m|
    requires forall w :: 0 <= w < |m| && m'[w] != m[w] ==>
      bs[k].addr <= 4 * w && 4 * w + 4 <= bs[k].End() && (bs[k].used ==> 4 * w < bs[k].Payload())
    ensures forall i :: 0 <= i < |bs| && i != k ==> HeaderAt(m', bs[i])
    ensures Untouched(m, m', Live(bs), s, e)
  {
    HeadersFrame(m, m', bs, s, e, k);
    hide HeaderAt, Headers, PayloadWord;
    forall b, w | b in Live(bs) && 0 <= w < |m| && PayloadWord(b, w)
      ensures m'[w] == m[w]
    {
      var j :| 0 <= j < |bs| && bs[j] == b;
      OutsidePayload(bs, s, e, j, k, w);
    }
    hide Live;
    assert bs[k].addr >= s && bs[k].End() <= e by { TilesOrder(bs, s, e); }
  }

  /** A word that belongs to block k, and to its header if it is live, is no live payload's. */
  lemma OutsidePayload(bs: Blocks, s: nat, e: nat, j: nat, k: nat, w: nat)
    requires Tiles(bs, s, e) && j < |bs| && k < |bs| && bs[j].used && PayloadWord(bs[j], w)
    ensures !(bs[k].addr <= 4 * w && 4 * w + 4 <= bs[k].End() && (bs[k].used ==> 4 * w < bs[k].Payload()))
  {
    TilesOrder(bs, s, e);
    hide Tiles;
    assert j < k || k < j || j == k;
  }

  /** The word w with its low byte replaced by the used flag. */
  function WithUsed(w: u32, used: bool): (r: u32)
    ensures r % 256 == if used then BLOCK_USED else BLOCK_FREE
    ensures r / 256 == w / 256
  {
    w / 256 * 256 + if used then BLOCK_USED else BLOCK_FREE
  }

  lemma MarkHeaders(m: seq<u32>, bs: Blocks, s: nat, e: nat, i: nat, v: bool)
    requires Tiles(bs, s, e) && Headers(m, bs) && i < |bs|
    ensures bs[i].addr / 4 + 2 < |m|
    ensures var w := bs[i].addr / 4 + 2; var m' := m[w := WithUsed(m[w], v)];
      && Headers(m', bs[i := bs[i].(used := v)])
      && Untouched(m, m', Live(bs), s, e)
  {
    hide HeaderAt, WithUsed, Untouched, Tiles, Live;
    MarkedHeader(m, bs[i], v);
    var w := bs[i].addr / 4 + 2;
    var m' := m[w := WithUsed(m[w], v)];
    LocalWrite(m, m', bs, s, e, i);
    var bs' := bs[i := bs[i].(used := v)];
    forall j | 0 <= j < |bs'|
      ensures HeaderAt(m', bs'[j])
    {
      assert j != i ==> bs'[j] == bs[j];
    }
  }

  lemma MarkedHeader(m: seq<u32>, b: Block, v: bool)
    requires HeaderAt(m, b)
    ensures var w := b.addr / 4 + 2;
      w < |m| && 4 * w == b.addr + 8 && HeaderAt(m[w := WithUsed(m[w], v)], b.(used := v))
  {}

  /** b lies in memory and is large enough to be split. */
  ghost predicate Splittable(m: seq<u32>, b: Block, wanted: nat) {
    && b.addr % 4 == 0 && wanted % 4 == 0 && b.End() <= 4 * |m| && b.End() < TWO32
    && wanted + HDR + MIN_SPLIT_PAYLOAD < b.size
  }

  /** The four stores of split_block, as they change memory. */
  ghost function SplitStores(m: seq<u32>, b: Block, wanted: nat): seq<u32>
    requires Splittable(m, b, wanted)
  {
    var n := (b.addr + HDR + wanted) / 4;
    m[n := b.size - wanted - HDR][n + 1 := BLOCK_MAGIC][n + 2 := WithUsed(m[n + 2], false)]
     [b.addr / 4 := wanted]
  }

  lemma SplitPieces(m: seq<u32>, b: Block, wanted: nat)
    requires HeaderAt(m, b) && Splittable(m, b, wanted)
    ensures var m' := SplitStores(m, b, wanted);
      && |m'| == |m|
      && HeaderAt(m', Split(b, wanted)[0]) && HeaderAt(m', Split(b, wanted)[1])
      && forall w :: 0 <= w < |m| && m'[w] != m[w] ==> b.addr <= 4 * w && 4 * w + 4 <= b.End()
  {
    var n := (b.addr + HDR + wanted) / 4;
    assert 4 * n == b.addr + HDR + wanted;
  }

  lemma SplitHeaders(m: seq<u32>, bs: Blocks, s: nat, e: nat, i: nat, wanted: nat)
    requires i < |bs| && !bs[i].used && Splittable(m, bs[i], wanted)
    requires Tiles(bs, s, e) && Headers(m, bs)
    ensures Headers(SplitStores(m, bs[i], wanted), bs[..i] + Split(bs[i], wanted) + bs[i + 1..])
    ensures Untouched(m, SplitStores(m, bs[i], wanted), Live(bs), s, e)
  {
    hide SplitStores;
    var m' := SplitStores(m, bs[i], wanted);
    var bs' := bs[..i] + Split(bs[i], wanted) + bs[i + 1..];
    assert HeaderAt(m, bs[i]);
    SplitPieces(m, bs[i], wanted);
    LocalWrite(m, m', bs, s, e, i);
    forall j | 0 <= j < |bs'|
      ensures HeaderAt(m', bs'[j])
    {
      if j > i + 1 {
        assert bs'[j] == bs[j - 1];
      }
    }
  }

  /** The stores of mm_init, as they change memory. */
  ghost function FreshStores(m: seq<u32>, s: nat, size: nat): seq<u32>
    requires s % 4 == 0 && HDR <= size && s + size <= 4 * |m| && s + size < TWO32
  {
    m[s / 4 := size - HDR][s / 4 + 1 := BLOCK_MAGIC][s / 4 + 2 := WithUsed(m[s / 4 + 2], false)]
  }

  lemma FreshHeader(m: seq<u32>, s: nat, size: nat)
    requires s % 4 == 0 && HDR <= size && s + size <= 4 * |m| && s + size < TWO32
    ensures Headers(FreshStores(m, s, size), [Block(s, size - HDR, false)])
    ensures Untouched(m, FreshStores(m, s, size), {}, s, s + size)
  {
    var a := s / 4;
    assert 4 * a == s;
  }

  lemma MergeHeaders(m: seq<u32>, bs: Blocks, s: nat, e: nat, i: nat)
    requires Tiles(bs, s, e) && Headers(m, bs) && i + 1 < |bs| && !bs[i].used && e < TWO32
    ensures bs[i].addr / 4 < |m| && bs[i].size + HDR + bs[i + 1].size < TWO32
    ensures var m' := m[bs[i].addr / 4 := bs[i].size + HDR + bs[i + 1].size];
      && Headers(m', MergeAt(bs, i))
      && Untouched(m, m', Live(bs), s, e)
  {
    TilesOrder(bs, s, e);
    assert HeaderAt(m, bs[i]);
    var m' := m[bs[i].addr / 4 := bs[i].size + HDR + bs[i + 1].size];
    LocalWrite(m, m', bs, s, e, i);
    var bs' := MergeAt(bs, i);
    forall j | 0 <= j < |bs'|
      ensures HeaderAt(m', bs'[j])
    {
      if j > i {
        assert bs'[j] == bs[j + 1];
      }
    }
  }

  lemma UntouchedSame(m: seq<u32>, live: set<Block>, s: nat, e: nat)
    ensures Untouched(m, m, live, s, e)
  {}

  lemma UntouchedTrans(m: seq<u32>, m': seq<u32>, m'': seq<u32>, l: set<Block>, l': set<Block>, s: nat, e: nat)
    requires Untouched(m, m', l, s, e) && Untouched(m', m'', l', s, e) && l' <= l
    ensures Untouched(m, m'', l', s, e)
  {}

  // ---- runs on memory words ----

  datatype Event = Call(op: Op) | Store(b: Block, w: nat, v: u32)

  predicate WordOf(b: Block, w: nat) {
    b.Payload() <= 4 * w && 4 * w + 4 <= b.End()
  }

  /** One step as memory sees it: a call of the allocator, or a client's store into a payload it
      holds. The methods of Heap32 take these steps. */
  ghost predicate MemNext(h: Heap, m: seq<u32>, ev: Event, h': Heap, m': seq<u32>) {
    match ev
    case Call(op) => h' == Step(h, op) && Untouched(m, m', Live(h.blocks) * Live(h'.blocks), h.start, h.end)
    case Store(b, w, v) => h' == h && b in Live(h.blocks) && w < |m| && WordOf(b, w) && m' == m[w := v]
  }

  /** A call that leaves what is live before it, or what is live after it, alone is a step. */
  lemma CallIsStep(h: Heap, m: seq<u32>, op: Op, h': Heap, m': seq<u32>, live: set<Block>)
    requires h' == Step(h, op) && Untouched(m, m', live, h.start, h.end)
    requires live == Live(h.blocks) || live == Live(h'.blocks)
    ensures MemNext(h, m, Call(op), h', m')
  {
    hide Live, Step;
  }

  ghost predicate MemRun(hs: seq<Heap>, ms: seq<seq<u32>>, evs: seq<Event>) {
    && |hs| == |ms| == |evs| + 1
    && Inv(hs[0])
    && forall i :: 0 <= i < |evs| ==> MemNext(hs[i], ms[i], evs[i], hs[i + 1], ms[i + 1])
  }

  /** Does not give b back and is not its holder's store to word w. */
  ghost predicate Leaves(h: Heap, ev: Event, b: Block, w: nat) {
    match ev
    case Call(op) => !Frees(h, op, b)
    case Store(c, x, _) => !(c == b && x == w)
  }

  lemma StepKeepsWord(h: Heap, m: seq<u32>, ev: Event, h': Heap, m': seq<u32>, b: Block, w: nat)
    requires Inv(h) && MemNext(h, m, ev, h', m') && b in Live(h.blocks) && w < |m| && WordOf(b, w)
    requires Leaves(h, ev, b, w)
    ensures Inv(h') && |m'| == |m| && b in Live(h'.blocks) && m'[w] == m[w]
  {
    hide Inv, Live, Step, Frees;
    match ev
    case Call(op) =>
      StepInv(h, op);
      StaysLiveIff(h, op, b);
      assert PayloadWord(b, w);
    case Store(c, x, v) =>
      if c != b {
        LivePayloadsDisjoint(h, b, c);
      }
  }

  lemma {:induction false} WordKept(hs: seq<Heap>, ms: seq<seq<u32>>, evs: seq<Event>, i: nat, j: nat, b: Block, w: nat)
    requires MemRun(hs, ms, evs) && i <= j <= |evs|
    requires Inv(hs[i]) && b in Live(hs[i].blocks) && w < |ms[i]| && WordOf(b, w)
    requires forall n :: i <= n < j ==> Leaves(hs[n], evs[n], b, w)
    ensures Inv(hs[j]) && b in Live(hs[j].blocks) && |ms[j]| == |ms[i]| && ms[j][w] == ms[i][w]
    decreases j
  {
    hide Inv, MemNext, Leaves, WordOf;
    if i < j {
      WordKept(hs, ms, evs, i, j - 1, b, w);
      StepKeepsWord(hs[j - 1], ms[j - 1], evs[j - 1], hs[j], ms[j], b, w);
    }
  }

  lemma {:induction false} MemRunInv(hs: seq<Heap>, ms: seq<seq<u32>>, evs: seq<Event>, i: nat)
    requires MemRun(hs, ms, evs) && i <= |evs|
    ensures Inv(hs[i])
  {
    hide Inv, Untouched, WordOf;
    if i > 0 {
      MemRunInv(hs, ms, evs, i - 1);
      if evs[i - 1].Call? {
        StepInv(hs[i - 1], evs[i - 1].op);
      }
    }
  }

  /** Over every run of allocator calls and stores of all clients: what a client stored in a payload
      it holds is there until it gives the block back or stores there again. */
  lemma StoredWordPersists(hs: seq<Heap>, ms: seq<seq<u32>>, evs: seq<Event>, i: nat, j: nat, b: Block, w: nat, v: u32)
    requires MemRun(hs, ms, evs) && i < j <= |evs| && evs[i] == Store(b, w, v)
    requires forall n :: i < n < j ==> Leaves(hs[n], evs[n], b, w)
    ensures b in Live(hs[j].blocks) && w < |ms[j]| && ms[j][w] == v
  {
    MemRunInv(hs, ms, evs, i);
    assert MemNext(hs[i], ms[i], evs[i], hs[i + 1], ms[i + 1]);
    hide Inv;
    WordKept(hs, ms, evs, i + 1, j, b, w);
  }

  class Heap32 {
    const mem: array<u32>
    const tracked: array<Entry>
    var heapStart: u32
    var heapEnd: u32
    ghost var blocks: Blocks

    ghost predicate Shape()
      reads this, mem, tracked
    {
      && tracked.Length == MAX_TRACKED
      && heapStart + HDR <= heapEnd <= 4 * mem.Length
      && Tiles(blocks, heapStart, heapEnd)
      && Headers(mem[..], blocks)
    }

    ghost function View(): Heap
      reads this, tracked
    {
      Heap(heapStart, heapEnd, blocks, tracked[..])
    }

    ghost predicate Valid()
      reads this, mem, tracked
    {
      Shape() && Inv(View())
    }

    constructor (memory: array<u32>)
      ensures mem == memory && fresh(tracked) && tracked.Length == MAX_TRACKED
    {
      mem := memory;
      tracked := new Entry[MAX_TRACKED](_ => Entry(0, 0, false));
    }

    // ---- header access ----

    predicate Addressable(hdr: u32)
      reads this
    {
      hdr % 4 == 0 && hdr / 4 + 2 < mem.Length
    }

    function SizeField(hdr: u32): u32
      requires Addressable(hdr)
      reads this, mem
    {
      mem[hdr / 4]
    }

    function UsedField(hdr: u32): u32
      requires Addressable(hdr)
      reads this, mem
    {
      mem[hdr / 4 + 2] % 256
    }

    function BlockTotalSize(hdr: u32): u32
      requires Addressable(hdr)
      reads this, mem
    {
      Add32(HDR, SizeField(hdr))
    }

    /** Address of the next header, or 0 past the end of the heap. */
    function NextBlock(hdr: u32): u32
      requires Addressable(hdr)
      reads this, mem
    {
      var addr := Add32(hdr, BlockTotalSize(hdr));
      if addr >= heapEnd then 0 else addr
    }

    predicate IsBlockValid(hdr: u32)
      requires Addressable(hdr)
      reads this, mem
    {
      && heapStart <= hdr && Add32(hdr, HDR) <= heapEnd
      && mem[hdr / 4 + 1] == BLOCK_MAGIC
      && Add32(hdr, BlockTotalSize(hdr)) <= heapEnd
    }

    /** What the header of block i says: it is valid, and leads to the header of block i + 1. */
    lemma AtBlock(i: nat)
      requires Shape() && i < |blocks|
      ensures blocks[i].addr < TWO32 && blocks[i].End() <= heapEnd
      ensures Addressable(blocks[i].addr) && IsBlockValid(blocks[i].addr)
      ensures heapStart <= blocks[i].addr < heapEnd
      ensures SizeField(blocks[i].addr) == blocks[i].size
      ensures UsedField(blocks[i].addr) == (if blocks[i].used then BLOCK_USED else BLOCK_FREE)
      ensures NextBlock(blocks[i].addr) == if i + 1 < |blocks| then blocks[i + 1].addr else 0
      ensures i + 1 < |blocks| ==> blocks[i].End() == blocks[i + 1].addr > 0
      ensures i + 1 == |blocks| ==> blocks[i].End() == heapEnd
    {
      TilesOrder(blocks, heapStart, heapEnd);
      TilesAt(blocks, heapStart, heapEnd, i);
      assert HeaderAt(mem[..], blocks[i]);
    }

    lemma ValidShape()
      requires Valid()
      ensures Shape()
    {}

    /** Where a walk stands that has passed i blocks: at the end exactly after the last one. */
    lemma WalkAt(i: nat)
      requires Shape() && i <= |blocks|
      ensures StartOf(blocks, i, heapEnd) >= heapEnd <==> i == |blocks|
      ensures StartOf(blocks, 0, heapEnd) == heapStart
      ensures blocks[0..] == blocks
    {
      WalkEnds(blocks, heapStart, heapEnd, i);
    }

    // ---- the tracking table ----

    method TrackAdd(p: u32, n: u32)
      requires tracked.Length == MAX_TRACKED
      modifies tracked
      ensures tracked[..] == HeapModel.TrackAdd(old(tracked[..]), p, n)
    {
      for i := 0 to MAX_TRACKED
        invariant tracked[..] == old(tracked[..])
        invariant i <= FreeSlot(tracked[..])
      {
        if !tracked[i].inUse {
          tracked[i] := Entry(p, n, true);
          return;
        }
      }
    }

    method TrackRemove(p: u32) returns (found: bool)
      requires tracked.Length == MAX_TRACKED
      modifies tracked
      ensures tracked[..] == HeapModel.TrackRemove(old(tracked[..]), p)
      ensures found <==> SlotOf(old(tracked[..]), p) < MAX_TRACKED
    {
      for i := 0 to MAX_TRACKED
        invariant tracked[..] == old(tracked[..])
        invariant i <= SlotOf(tracked[..], p)
      {
        if tracked[i].inUse && tracked[i].ptr == p {
          tracked[i] := tracked[i].(inUse := false);
          return true;
        }
      }
      return false;
    }

    method TrackValidate(p: u32) returns (found: bool)
      requires tracked.Length == MAX_TRACKED
      ensures found <==> SlotOf(tracked[..], p) < MAX_TRACKED
    {
      for i := 0 to MAX_TRACKED
        invariant i <= SlotOf(tracked[..], p)
      {
        if tracked[i].inUse && tracked[i].ptr == p {
          return true;
        }
      }
      return false;
    }

    // ---- splitting and coalescing ----

    /** Writes the used flag of block i: the low byte of its third header word. */
    method SetUsed(ghost i: nat, hdr: u32, v: bool)
      requires Shape() && i < |blocks| && hdr == blocks[i].addr
      modifies mem, `blocks
      ensures Shape() && blocks == old(blocks[i := blocks[i].(used := v)])
      ensures Untouched(old(mem[..]), mem[..], old(Live(blocks)), heapStart, heapEnd)
    {
      hide Untouched, Headers, Tiles, WithUsed, IsBlockValid, NextBlock;
      AtBlock(i);
      MarkHeaders(mem[..], blocks, heapStart, heapEnd, i, v);
      MarkTiles(blocks, i, v, heapStart, heapEnd);
      ghost var m := mem[..];
      var w := hdr / 4 + 2;
      mem[w] := WithUsed(mem[w], v);
      assert mem[..] == m[w := WithUsed(m[w], v)];
      blocks := blocks[i := blocks[i].(used := v)];
    }

    method SplitBlock(ghost i: nat, hdr: u32, wantedPayload: u32)
      requires Shape() && i < |blocks| && hdr == blocks[i].addr && !blocks[i].used
      requires wantedPayload <= blocks[i].size && wantedPayload % 4 == 0
      modifies mem, `blocks
      ensures Shape()
      ensures blocks == old(blocks[..i] + Split(blocks[i], wantedPayload) + blocks[i + 1..])
      ensures Untouched(old(mem[..]), mem[..], old(Live(blocks)), heapStart, heapEnd)
    {
      hide Untouched, Headers, Tiles, WithUsed, Split, SplitStores, IsBlockValid, NextBlock;
      AtBlock(i);
      UntouchedSame(mem[..], Live(blocks), heapStart, heapEnd);
      var remaining := Sub32(SizeField(hdr), wantedPayload);
      var minimum := HDR + MIN_SPLIT_PAYLOAD;
      if remaining <= minimum {
        SplitWhole(blocks, i, wantedPayload);
        return;
      }
      assert Splittable(mem[..], blocks[i], wantedPayload);
      SplitHeaders(mem[..], blocks, heapStart, heapEnd, i, wantedPayload);
      SplitTiles(blocks, i, wantedPayload, heapStart, heapEnd);
      WriteSplit(hdr, remaining, wantedPayload, blocks[i]);
      blocks := blocks[..i] + Split(blocks[i], wantedPayload) + blocks[i + 1..];
    }

    /** The stores of split_block. */
    method WriteSplit(hdr: u32, remaining: u32, wantedPayload: u32, ghost b: Block)
      requires Splittable(mem[..], b, wantedPayload) && hdr == b.addr && remaining == b.size - wantedPayload
      modifies mem
      ensures mem[..] == SplitStores(old(mem[..]), b, wantedPayload)
    {
      hide WithUsed;
      var newHdr := Add32(Add32(hdr, HDR), wantedPayload);
      var n := newHdr / 4;
      assert n == (b.addr + HDR + wantedPayload) / 4 && 4 * n == newHdr;
      mem[n] := Sub32(remaining, HDR);
      mem[n + 1] := BLOCK_MAGIC;
      mem[n + 2] := WithUsed(mem[n + 2], false);
      mem[hdr / 4] := wantedPayload;
    }

    method CoalesceFreeBlocks()
      requires Shape()
      modifies mem, `blocks
      ensures Shape() && blocks == old(Coalesce(blocks))
      ensures Untouched(old(mem[..]), mem[..], old(Live(blocks)), heapStart, heapEnd)
    {
      hide Shape, Untouched, Coalesce, IsBlockValid, NextBlock, Live, Merge, Addressable, SizeField, UsedField;
      ghost var m := mem[..];
      UntouchedSame(m, Live(blocks), heapStart, heapEnd);
      var hdr := heapStart;
      ghost var i := 0;
      WalkAt(0);
      while hdr < heapEnd
        invariant Shape() && i <= |blocks| && hdr == StartOf(blocks, i, heapEnd)
        invariant blocks[..i] + Coalesce(blocks[i..]) == old(Coalesce(blocks))
        invariant Live(blocks) == old(Live(blocks))
        invariant Untouched(old(mem[..]), mem[..], old(Live(blocks)), heapStart, heapEnd)
        decreases |blocks| - i
      {
        WalkAt(i);
        AtBlock(i);
        if !IsBlockValid(hdr) { return; }
        var nxt := NextBlock(hdr);
        CoalesceAdvance(blocks, i);
        if nxt == 0 { return; }
        AtBlock(i + 1);
        if !IsBlockValid(nxt) { return; }
        if UsedField(hdr) == BLOCK_FREE && UsedField(nxt) == BLOCK_FREE {
          ghost var m1 := mem[..];
          MergeNext(i, hdr, nxt);
          UntouchedTrans(m, m1, mem[..], Live(blocks), Live(blocks), heapStart, heapEnd);
          continue;
        }
        hdr := nxt;
        i := i + 1;
      }
      WalkAt(i);
      CoalesceAdvance(blocks, i);
    }

    /** hdr->size += sizeof(struct block_header) + nxt->size, for two free neighbours. */
    method MergeNext(ghost i: nat, hdr: u32, nxt: u32)
      requires Shape() && i + 1 < |blocks| && hdr == blocks[i].addr && nxt == blocks[i + 1].addr
      requires !blocks[i].used && !blocks[i + 1].used
      modifies mem, `blocks
      ensures Shape() && |blocks| == old(|blocks|) - 1 && blocks[i].addr == hdr
      ensures blocks[..i] == old(blocks[..i]) && Coalesce(blocks[i..]) == old(Coalesce(blocks[i..]))
      ensures Live(blocks) == old(Live(blocks))
      ensures Untouched(old(mem[..]), mem[..], old(Live(blocks)), heapStart, heapEnd)
    {
      hide Untouched, Headers, Tiles, Coalesce, MergeAt, Add32, IsBlockValid, NextBlock;
      AtBlock(i);
      AtBlock(i + 1);
      MergeHeaders(mem[..], blocks, heapStart, heapEnd, i);
      MergeShape(blocks, i);
      MergeLive(blocks, i);
      MergeTiles(blocks, i, heapStart, heapEnd);
      ghost var m := mem[..];
      var total := Add32(SizeField(hdr), Add32(HDR, SizeField(nxt)));
      mem[hdr / 4] := total;
      assert mem[..] == m[hdr / 4 := total];
      blocks := MergeAt(blocks, i);
    }

    // ---- the interface ----

    method MmInit(start: u32, size: u32)
      requires tracked.Length == MAX_TRACKED
      requires HDR <= size && Align8(start) + size < TWO32 && Align8(start) + size <= 4 * mem.Length
      modifies this, mem, tracked
      ensures Valid() && heapStart == Align8(start) && heapEnd == heapStart + size
      ensures blocks == Init(start, size).blocks
      ensures forall i :: 0 <= i < MAX_TRACKED ==> !tracked[i].inUse
      ensures Untouched(old(mem[..]), mem[..], {}, heapStart, heapEnd)
    {
      Align8Rounds(start);
      hide Untouched, Headers, Tiles, Compact, Align8, FreshStores;
      heapStart := Align8(start);
      heapEnd := Add32(heapStart, size);
      ClearTracked();
      FreshHeader(mem[..], heapStart, size);
      WriteFirstHeader(heapStart, size);
      blocks := Init(start, size).blocks;
      InitInv(start, size);
    }

    method ClearTracked()
      requires tracked.Length == MAX_TRACKED
      modifies tracked
      ensures forall i :: 0 <= i < MAX_TRACKED ==> !tracked[i].inUse
    {
      for i := 0 to MAX_TRACKED
        invariant forall j :: 0 <= j < i ==> !tracked[j].inUse
      {
        tracked[i] := tracked[i].(inUse := false);
      }
    }

    method WriteFirstHeader(hdr: u32, ghost size: nat)
      requires hdr == heapStart && hdr % 4 == 0 && HDR <= size && heapEnd == hdr + size <= 4 * mem.Length
      modifies mem
      ensures mem[..] == FreshStores(old(mem[..]), hdr, size)
    {
      hide WithUsed;
      ghost var m: seq<u32> := mem[..];
      assert 4 * (hdr / 4) == hdr;
      mem[hdr / 4] := Sub32(Sub32(heapEnd, heapStart), HDR);
      mem[hdr / 4 + 1] := BLOCK_MAGIC;
      mem[hdr / 4 + 2] := WithUsed(mem[hdr / 4 + 2], false);
    }

    lemma MallocNothing(h: Heap, m: seq<u32>, n: u32)
      ensures n == 0 || FirstFit(h.blocks, Align8(n)) == |h.blocks| ==>
        Malloc(h, n) == (h, 0) && MemNext(h, m, Call(DoMalloc(n)), h, m)
    {}

    method KMalloc(size: u32) returns (ptr: u32)
      requires Valid()
      modifies mem, tracked, `blocks
      ensures Valid()
      ensures (View(), ptr) == Malloc(old(View()), size)
      ensures Untouched(old(mem[..]), mem[..], old(Live(blocks)), heapStart, heapEnd)
      ensures MemNext(old(View()), old(mem[..]), Call(DoMalloc(size)), View(), mem[..])
    {
      hide MemNext, Untouched, Shape, Valid, Malloc, Align8, Live, Add32, IsBlockValid, NextBlock, Addressable,
           SizeField, UsedField;
      ValidShape();
      MallocNothing(View(), mem[..], size);
      UntouchedSame(mem[..], Live(blocks), heapStart, heapEnd);
      ptr := 0;
      if size == 0 { return; }
      var wanted := Align8(size);
      WalkAt(0);
      var hdr := heapStart;
      ghost var i := 0;
      while hdr < heapEnd
        invariant unchanged(this, mem, tracked) && mem[..] == old(mem[..])
        invariant i <= |blocks| && hdr == StartOf(blocks, i, heapEnd) && i <= FirstFit(blocks, wanted)
        decreases |blocks| - i
      {
        WalkAt(i);
        AtBlock(i);
        if !IsBlockValid(hdr) { return; }
        if UsedField(hdr) == BLOCK_FREE && SizeField(hdr) >= wanted {
          assert i == FirstFit(blocks, wanted) by { assert Fits(blocks[i], wanted); }
          ptr := Take(i, hdr, size);
          return;
        }
        assert !Fits(blocks[i], wanted);
        var nxt := NextBlock(hdr);
        i := i + 1;
        if nxt == 0 { break; }
        hdr := nxt;
      }
      WalkAt(i);
    }

    /** The body of kmalloc's branch for the block that fits. */
    method Take(ghost i: nat, hdr: u32, size: u32) returns (ptr: u32)
      requires Valid() && size != 0
      requires i < |blocks| && hdr == blocks[i].addr && i == FirstFit(blocks, Align8(size))
      modifies mem, tracked, `blocks
      ensures Valid()
      ensures (View(), ptr) == Malloc(old(View()), size)
      ensures Untouched(old(mem[..]), mem[..], old(Live(blocks)), heapStart, heapEnd)
      ensures MemNext(old(View()), old(mem[..]), Call(DoMalloc(size)), View(), mem[..])
    {
      hide Untouched, Headers, Tiles, Compact, TableOk, FirstFit, Split, Carve, MemNext, IsBlockValid, NextBlock,
           SizeField, UsedField;
      Align8Rounds(size);
      var wanted := Align8(size);
      hide Align8;
      ghost var h, bs, m := View(), blocks, mem[..];
      PlaceIsSplitAndMark(bs, i, wanted);
      PlaceAt(bs, i, wanted);
      SplitKeepsLive(bs, i, wanted);
      MallocEffect(h, size);
      SplitBlock(i, hdr, wanted);
      ghost var m1 := mem[..];
      assert blocks[i].addr == hdr;
      SetUsed(i, hdr, true);
      UntouchedTrans(m, m1, mem[..], Live(bs), Live(bs), heapStart, heapEnd);
      AtBlock(i);
      ptr := Add32(hdr, HDR);
      TrackAdd(ptr, SizeField(hdr));
      CallIsStep(h, m, DoMalloc(size), View(), mem[..], Live(bs));
    }

    lemma FreeNothing(h: Heap, m: seq<u32>, p: nat)
      ensures p == 0 || SlotOf(h.table, p) == |h.table| ==>
        Free(h, p) == (h, false) && MemNext(h, m, Call(DoFree(p)), h, m)
    {}

    method KFree(ptr: u32) returns (ok: bool)
      requires Valid()
      modifies mem, tracked, `blocks
      ensures Valid()
      ensures (View(), ok) == Free(old(View()), ptr)
      ensures Untouched(old(mem[..]), mem[..], Live(blocks), heapStart, heapEnd)
      ensures MemNext(old(View()), old(mem[..]), Call(DoFree(ptr)), View(), mem[..])
    {
      FreeNothing(View(), mem[..], ptr);
      hide Valid, Shape, MemNext, Untouched, SlotOf, Free, Live;
      ValidShape();
      UntouchedSame(mem[..], Live(blocks), heapStart, heapEnd);
      if ptr == 0 { return false; }
      var known := TrackValidate(ptr);
      if !known { return false; }
      KnownPointer(ptr);
      ok := Drop(ptr);
    }

    lemma KnownPointer(p: nat)
      requires Valid() && SlotOf(tracked[..], p) < MAX_TRACKED
      ensures p >= HDR && IndexAt(blocks, p - HDR) < |blocks|
    {
      hide SlotOf, Tiles, Headers, IndexAt;
      var b := Block(p - HDR, tracked[SlotOf(tracked[..], p)].size, true);
      assert b in blocks;
      BlockAtIndex(blocks, heapStart, heapEnd, b);
    }

    /** The rest of kfree, for a tracked pointer. */
    method Drop(ptr: u32) returns (ok: bool)
      requires Valid() && ptr != 0 && SlotOf(tracked[..], ptr) < MAX_TRACKED
      requires ptr >= HDR && IndexAt(blocks, ptr - HDR) < |blocks|
      modifies mem, tracked, `blocks
      ensures Valid()
      ensures (View(), ok) == Free(old(View()), ptr)
      ensures Untouched(old(mem[..]), mem[..], Live(blocks), heapStart, heapEnd)
      ensures MemNext(old(View()), old(mem[..]), Call(DoFree(ptr)), View(), mem[..])
    {
      hide MemNext, Untouched, Headers, Tiles, Compact, TableOk, SlotOf, Live, IsBlockValid, NextBlock;
      ghost var h, bs, m, i := View(), blocks, mem[..], IndexAt(blocks, ptr - HDR);
      FreeEffect(h, ptr);
      var hdr := Sub32(ptr, HDR);
      AtBlock(i);
      if !IsBlockValid(hdr) { return false; }
      var removed := TrackRemove(ptr);
      if !removed { return false; }
      MarkFreeLive(bs, i, heapStart, heapEnd);
      ReleaseKeepsLayout(bs, i, heapStart, heapEnd);
      SetUsed(i, hdr, false);
      ghost var m1 := mem[..];
      CoalesceFreeBlocks();
      UntouchedTrans(m, m1, mem[..], Live(bs), Live(blocks), heapStart, heapEnd);
      CallIsStep(h, m, DoFree(ptr), View(), mem[..], Live(blocks));
      return true;
    }

    method KFreeAll() returns (freed: nat)
      requires Valid()
      modifies mem, tracked, `blocks
      ensures Valid()
      ensures (View(), freed) == FreeAll(old(View()))
      ensures Untouched(old(mem[..]), mem[..], Live(blocks), heapStart, heapEnd)
      ensures MemNext(old(View()), old(mem[..]), Call(DoFreeAll), View(), mem[..])
    {
      hide MemNext, Untouched, Headers, Tiles, Compact, TableOk, FreeAllFrom, Free, SlotOf;
      ghost var m, h0 := mem[..], View();
      UntouchedSame(m, Live(blocks), heapStart, heapEnd);
      freed := 0;
      for i := 0 to MAX_TRACKED
        invariant Valid()
        invariant heapStart == old(heapStart) && heapEnd == old(heapEnd)
        invariant forall k :: 0 <= k < i ==> !tracked[k].inUse
        invariant FreeAll(h0) == (FreeAllFrom(View(), i).0, freed + FreeAllFrom(View(), i).1)
        invariant Live(blocks) <= old(Live(blocks))
        invariant Untouched(old(mem[..]), mem[..], Live(blocks), heapStart, heapEnd)
      {
        FreeAllStep(View(), i);
        if tracked[i].inUse {
          ghost var h, m1, live := View(), mem[..], Live(blocks);
          FreeSlotEffect(h, i);
          TrackedPointerIs32Bit(h, i);
          var ok := KFree(tracked[i].ptr);
          UntouchedTrans(m, m1, mem[..], live, Live(blocks), heapStart, heapEnd);
          if ok { freed := freed + 1; }
        }
      }
      FreeAllStep(View(), MAX_TRACKED);
      CallIsStep(h0, m, DoFreeAll, View(), mem[..], Live(blocks));
    }

    /** A client's store into a payload it holds. */
    method ClientStore(ghost b: Block, w: nat, v: u32)
      requires Valid() && b in Live(blocks) && w < mem.Length
      requires WordOf(b, w)
      modifies mem
      ensures Valid() && mem[..] == old(mem[..])[w := v]
      ensures MemNext(old(View()), old(mem[..]), Store(b, w, v), View(), mem[..])
    {
      ghost var k :| 0 <= k < |blocks| && blocks[k] == b;
      ghost var m := mem[..];
      mem[w] := v;
      HeadersFrame(m, mem[..], blocks, heapStart, heapEnd, k);
      assert HeaderAt(m, blocks[k]);
    }

    /** The sum over the blocks passed so far takes in block i without wrapping. */
    lemma SumStep(i: nat, sum: nat, used: bool)
      requires Shape() && i < |blocks| && sum + SumSizes(blocks[i..], used) == SumSizes(blocks, used)
      ensures var next := if blocks[i].used == used then sum + blocks[i].size else sum;
        next < TWO32 && next + SumSizes(blocks[i + 1..], used) == SumSizes(blocks, used)
    {
      hide Tiles, Headers, SumSizes;
      SumSizesAt(blocks, i, used);
      Conservation(blocks, heapStart, heapEnd);
    }

    method MmUsed() returns (used: u32)
      requires Valid()
      ensures used == SumSizes(blocks, true)
    {
      used := 0;
      hide Valid, Shape, Add32, SumSizes, IsBlockValid, NextBlock, Addressable, SizeField, UsedField;
      var hdr := heapStart;
      ghost var i := 0;
      WalkAt(0);
      while hdr < heapEnd
        invariant i <= |blocks| && hdr == StartOf(blocks, i, heapEnd)
        invariant used + SumSizes(blocks[i..], true) == SumSizes(blocks, true)
        decreases |blocks| - i
      {
        WalkAt(i);
        AtBlock(i);
        SumStep(i, used, true);
        if !IsBlockValid(hdr) { break; }
        if UsedField(hdr) == BLOCK_USED {
          used := Add32(used, SizeField(hdr));
        }
        var nxt := NextBlock(hdr);
        i := i + 1;
        if nxt == 0 { break; }
        hdr := nxt;
      }
      WalkAt(i);
    }

    method MmFree() returns (free: u32)
      requires Valid()
      ensures free == SumSizes(blocks, false)
    {
      free := 0;
      hide Valid, Shape, Add32, SumSizes, IsBlockValid, NextBlock, Addressable, SizeField, UsedField;
      var hdr := heapStart;
      ghost var i := 0;
      WalkAt(0);
      while hdr < heapEnd
        invariant i <= |blocks| && hdr == StartOf(blocks, i, heapEnd)
        invariant free + SumSizes(blocks[i..], false) == SumSizes(blocks, false)
        decreases |blocks| - i
      {
        WalkAt(i);
        AtBlock(i);
        SumStep(i, free, false);
        if !IsBlockValid(hdr) { break; }
        if UsedField(hdr) == BLOCK_FREE {
          free := Add32(free, SizeField(hdr));
        }
        var nxt := NextBlock(hdr);
        i := i + 1;
        if nxt == 0 { break; }
        hdr := nxt;
      }
      WalkAt(i);
    }

    method MmTotal() returns (total: u32)
      requires Valid()
      ensures total == SumSizes(blocks, true) + SumSizes(blocks, false) + HDR * (|blocks| - 1)
    {
      Conservation(blocks, heapStart, heapEnd);
      total := Sub32(Sub32(heapEnd, heapStart), HDR);
    }
  }
}
