/** Layouts of the kernel heap: the list of blocks a walk over the headers meets.
    Everything here is about the lists alone; KernelHeap ties them to the headers in memory. */
module HeapBlocks {

  const HDR: nat := 12                 // sizeof(struct block_header)
  const MIN_SPLIT_PAYLOAD: nat := 16

  datatype Block = Block(addr: nat, size: nat, used: bool) {
    function End(): nat { addr + HDR + size }
    function Payload(): nat { addr + HDR }
  }

  type Blocks = seq<Block>

  /** The blocks of bs fill the addresses from s to e exactly, each header on a word boundary. */
  ghost predicate Tiles(bs: Blocks, s: nat, e: nat) {
    if bs == [] then s == e
    else bs[0].addr == s && s % 4 == 0 && Tiles(bs[1..], bs[0].End(), e)
  }

  /** No two neighbouring blocks are both free. */
  ghost predicate Compact(bs: Blocks) {
    |bs| <= 1 || ((bs[0].used || bs[1].used) && Compact(bs[1..]))
  }

  ghost function Live(bs: Blocks): set<Block> {
    set b | b in bs && b.used
  }

  // ---- tilings ----

  lemma {:induction false} TilesOrder(bs: Blocks, s: nat, e: nat)
    requires Tiles(bs, s, e)
    ensures s <= e
    ensures forall i :: 0 <= i < |bs| ==> s <= bs[i].addr && bs[i].End() <= e && bs[i].addr % 4 == 0
    ensures forall i, j :: 0 <= i < j < |bs| ==> bs[i].End() <= bs[j].addr
  {
    if bs != [] {
      var rest := bs[1..];
      TilesOrder(rest, bs[0].End(), e);
      forall i | 0 < i < |bs|
        ensures bs[0].End() <= bs[i].addr && bs[i].End() <= e && bs[i].addr % 4 == 0
      {
        assert bs[i] == rest[i - 1];
      }
      forall i, j | 0 <= i < j < |bs|
        ensures bs[i].End() <= bs[j].addr
      {
        if i > 0 {
          assert bs[i] == rest[i - 1] && bs[j] == rest[j - 1];
        }
      }
    }
  }

  ghost function EndAfter(bs: Blocks, s: nat): nat {
    if bs == [] then s else bs[|bs| - 1].End()
  }

  lemma {:induction false} TilesAppend(a: Blocks, b: Blocks, s: nat, e: nat)
    ensures Tiles(a + b, s, e) <==> Tiles(a, s, EndAfter(a, s)) && Tiles(b, EndAfter(a, s), e)
  {
    if a == [] {
      assert a + b == b;
    } else {
      assert (a + b)[1..] == a[1..] + b;
      TilesAppend(a[1..], b, a[0].End(), e);
      assert EndAfter(a[1..], a[0].End()) == EndAfter(a, s);
    }
  }

  /** Where a walk stands that has passed i blocks. */
  ghost function StartOf(bs: Blocks, i: nat, e: nat): nat
    requires i <= |bs|
  {
    if i < |bs| then bs[i].addr else e
  }

  lemma WalkEnds(bs: Blocks, s: nat, e: nat, i: nat)
    requires Tiles(bs, s, e) && i <= |bs|
    ensures StartOf(bs, i, e) >= e <==> i == |bs|
    ensures bs != [] ==> StartOf(bs, 0, e) == s
  {
    TilesOrder(bs, s, e);
  }

  /** What a walk that stands at block i knows about its surroundings. */
  lemma TilesAt(bs: Blocks, s: nat, e: nat, i: nat)
    requires Tiles(bs, s, e) && i < |bs|
    ensures Tiles(bs[..i], s, bs[i].addr)
    ensures Tiles(bs[i..], bs[i].addr, e)
    ensures bs[i].End() == if i + 1 < |bs| then bs[i + 1].addr else e
  {
    assert bs == bs[..i] + bs[i..];
    TilesAppend(bs[..i], bs[i..], s, e);
    assert bs[i..][1..] == bs[i + 1..];
  }

  /** Swapping one stretch of blocks for another that fills the same addresses keeps a tiling. */
  lemma TilesReplace(a: Blocks, x: Blocks, y: Blocks, c: Blocks, s: nat, e: nat)
    requires Tiles(a + x + c, s, e)
    requires Tiles(y, EndAfter(a, s), EndAfter(x, EndAfter(a, s)))
    ensures Tiles(a + y + c, s, e)
  {
    assert a + x + c == a + (x + c) && a + y + c == a + (y + c);
    TilesAppend(a, x + c, s, e);
    TilesAppend(x, c, EndAfter(a, s), e);
    TilesEnd(y, EndAfter(a, s), EndAfter(x, EndAfter(a, s)));
    TilesAppend(y, c, EndAfter(a, s), e);
    TilesAppend(a, y + c, s, e);
  }

  lemma {:induction false} TilesEnd(bs: Blocks, s: nat, e: nat)
    requires Tiles(bs, s, e)
    ensures EndAfter(bs, s) == e
  {
    if bs != [] {
      TilesEnd(bs[1..], bs[0].End(), e);
    }
  }

  lemma {:induction false} CompactAppend(a: Blocks, b: Blocks)
    ensures Compact(a + b) <==>
      Compact(a) && Compact(b) && (a != [] && b != [] ==> a[|a| - 1].used || b[0].used)
  {
    if a == [] {
      assert a + b == b;
    } else {
      assert (a + b)[1..] == a[1..] + b;
      CompactAppend(a[1..], b);
    }
  }

  // ---- the canonical layout ----

  lemma LiveTail(bs: Blocks, s: nat, e: nat)
    requires bs != [] && Tiles(bs, s, e)
    ensures bs[0] !in Live(bs[1..])
    ensures Live(bs) == Live(bs[1..]) + (if bs[0].used then {bs[0]} else {})
  {
    TilesOrder(bs, s, e);
    forall k | 0 <= k < |bs[1..]|
      ensures bs[1..][k] != bs[0]
    {
      assert bs[1..][k] == bs[k + 1];
    }
    assert bs == [bs[0]] + bs[1..];
  }

  /** A live block that starts where the layout starts is the layout's first block. */
  lemma HeadIsLive(b: Block, ys: Blocks, s: nat, e: nat)
    requires Tiles(ys, s, e) && b in Live(ys) && b.addr == s
    ensures ys[0] == b
  {
    TilesOrder(ys, s, e);
    var k :| 0 <= k < |ys| && ys[k] == b;
    var head := ys[0];
    assert k == 0 || head.End() <= b.addr;
  }

  /** The first free block of a compact layout reaches as far as in any layout with the same
      live blocks. */
  lemma FreeHeadReaches(xs: Blocks, ys: Blocks, s: nat, e: nat)
    requires xs != [] && ys != [] && Tiles(xs, s, e) && Tiles(ys, s, e)
    requires Compact(xs) && Live(xs) <= Live(ys)
    requires !xs[0].used && !ys[0].used
    ensures xs[0].End() >= ys[0].End()
  {
    TilesOrder(ys, s, e);
    if |xs| == 1 {
      assert Tiles(xs[1..], xs[0].End(), e);
    } else {
      assert Tiles(xs[1..], xs[0].End(), e);
      assert xs[1].used && xs[1] in Live(xs);
      var k :| 0 <= k < |ys| && ys[k] == xs[1];
      assert ys[0].End() <= ys[k].addr;
    }
  }

  /** Two compact layouts of the same heap with the same live blocks are the same layout. */
  lemma {:induction false} Canonical(xs: Blocks, ys: Blocks, s: nat, e: nat)
    requires Tiles(xs, s, e) && Tiles(ys, s, e)
    requires Compact(xs) && Compact(ys)
    requires Live(xs) == Live(ys)
    ensures xs == ys
  {
    TilesOrder(xs, s, e);
    TilesOrder(ys, s, e);
    if xs != [] && ys != [] {
      if xs[0].used {
        HeadIsLive(xs[0], ys, s, e);
      } else if ys[0].used {
        HeadIsLive(ys[0], xs, s, e);
      } else {
        FreeHeadReaches(xs, ys, s, e);
        FreeHeadReaches(ys, xs, s, e);
      }
      assert xs[0] == ys[0];
      LiveTail(xs, s, e);
      LiveTail(ys, s, e);
      Canonical(xs[1..], ys[1..], xs[0].End(), e);
      assert xs == [xs[0]] + xs[1..] && ys == [ys[0]] + ys[1..];
    }
  }

  /** With nothing live, a compact heap is one free block. */
  lemma EmptyHeapIsOneBlock(bs: Blocks, s: nat, e: nat)
    requires Tiles(bs, s, e) && Compact(bs) && Live(bs) == {} && s + HDR <= e
    ensures bs == [Block(s, e - s - HDR, false)]
  {
    var one := [Block(s, e - s - HDR, false)];
    assert bs[0].addr == s;
    assert Tiles(one, s, e) by { assert one[1..] == []; }
    Canonical(bs, one, s, e);
  }

  // ---- first fit and placement ----

  predicate Fits(b: Block, wanted: nat) {
    !b.used && b.size >= wanted
  }

  /** Index of the first free block that holds wanted bytes, or the number of blocks. */
  function FirstFit(bs: Blocks, wanted: nat): (i: nat)
    ensures i <= |bs|
    ensures i < |bs| ==> Fits(bs[i], wanted)
    ensures forall j :: 0 <= j < i ==> !Fits(bs[j], wanted)
  {
    if bs == [] then 0
    else if Fits(bs[0], wanted) then 0
    else
      var r := FirstFit(bs[1..], wanted);
      assert forall j :: 0 < j < r + 1 ==> bs[j] == bs[1..][j - 1];
      r + 1
  }

  lemma Cut(bs: Blocks, i: nat)
    requires i < |bs|
    ensures bs == bs[..i] + [bs[i]] + bs[i + 1..] == bs[..i] + ([bs[i]] + bs[i + 1..])
  {}

  /** What split_block makes of a free block. */
  function Split(b: Block, wanted: nat): Blocks
    requires wanted <= b.size
  {
    if b.size - wanted <= HDR + MIN_SPLIT_PAYLOAD then [b]
    else [Block(b.addr, wanted, b.used),
          Block(b.addr + HDR + wanted, b.size - wanted - HDR, false)]
  }

  lemma TilesPair(x: Block, y: Block)
    requires x.addr % 4 == 0 && y.addr % 4 == 0 && x.End() == y.addr
    ensures Tiles([x, y], x.addr, y.End())
  {
    assert [x, y][1..] == [y] && [y][1..] == [];
    assert Tiles([y], y.addr, y.End());
  }

  lemma TilesOne(x: Block)
    requires x.addr % 4 == 0
    ensures Tiles([x], x.addr, x.End())
  {
    assert [x][1..] == [];
  }

  lemma SplitTiles(bs: Blocks, i: nat, wanted: nat, s: nat, e: nat)
    requires Tiles(bs, s, e) && i < |bs| && wanted <= bs[i].size && wanted % 4 == 0
    ensures Tiles(bs[..i] + Split(bs[i], wanted) + bs[i + 1..], s, e)
  {
    var y := Split(bs[i], wanted);
    TilesOrder(bs, s, e);
    hide Tiles;
    if |y| == 1 {
      TilesOne(y[0]);
    } else {
      WordSum(bs[i].addr, wanted);
      TilesPair(y[0], y[1]);
    }
    ReplaceOne(bs, i, y, s, e);
  }

  /** Putting blocks in place of one that fill exactly its addresses. */
  lemma ReplaceOne(bs: Blocks, i: nat, y: Blocks, s: nat, e: nat)
    requires Tiles(bs, s, e) && i < |bs| && Tiles(y, bs[i].addr, bs[i].End())
    ensures Tiles(bs[..i] + y + bs[i + 1..], s, e)
  {
    TilesAt(bs, s, e, i);
    TilesEnd(bs[..i], s, bs[i].addr);
    Cut(bs, i);
    TilesReplace(bs[..i], [bs[i]], y, bs[i + 1..], s, e);
  }

  lemma SplitWhole(bs: Blocks, i: nat, wanted: nat)
    requires i < |bs| && wanted <= bs[i].size <= wanted + HDR + MIN_SPLIT_PAYLOAD
    ensures bs[..i] + Split(bs[i], wanted) + bs[i + 1..] == bs
  {}

  /** Splitting and then marking the first part used is placing. */
  lemma PlaceIsSplitAndMark(bs: Blocks, i: nat, wanted: nat)
    requires i < |bs| && wanted <= bs[i].size && !bs[i].used
    ensures var x := bs[..i] + Split(bs[i], wanted) + bs[i + 1..];
      i < |x| && x[i].addr == bs[i].addr && x[i := x[i].(used := true)] == Place(bs, i, wanted)
  {}

  /** A free block handed out: whole, or cut when more than a header and 16 bytes remain. */
  function Carve(b: Block, wanted: nat): Blocks
    requires wanted <= b.size
  {
    if b.size - wanted <= HDR + MIN_SPLIT_PAYLOAD then [b.(used := true)]
    else [Block(b.addr, wanted, true),
          Block(b.addr + HDR + wanted, b.size - wanted - HDR, false)]
  }

  function Place(bs: Blocks, i: nat, wanted: nat): Blocks
    requires i < |bs| && wanted <= bs[i].size
  {
    bs[..i] + Carve(bs[i], wanted) + bs[i + 1..]
  }

  lemma PlaceAt(bs: Blocks, i: nat, wanted: nat)
    requires i < |bs| && wanted <= bs[i].size
    ensures |Place(bs, i, wanted)| > i && Place(bs, i, wanted)[i] == Carve(bs[i], wanted)[0]
  {}

  lemma LiveAppend(a: Blocks, b: Blocks)
    ensures Live(a + b) == Live(a) + Live(b)
  {}

  /** Blocks of one list: compact, with the first alone in use. */
  lemma UsedAlone(x: Block)
    requires x.used
    ensures Compact([x]) && Live([x]) == {x}
  {}

  lemma UsedThenFree(x: Block, y: Block)
    requires x.used && !y.used
    ensures Compact([x, y]) && Live([x, y]) == {x}
  {
    assert [x, y][1..] == [y];
  }

  lemma WordSum(a: nat, b: nat)
    requires a % 4 == 0 && b % 4 == 0
    ensures (a + HDR + b) % 4 == 0
  {}

  /** The blocks carved out of b fill exactly the addresses of b. */
  lemma CarveTiles(b: Block, wanted: nat)
    requires wanted <= b.size && wanted % 4 == 0 && b.addr % 4 == 0
    ensures Tiles(Carve(b, wanted), b.addr, b.End())
  {
    hide Tiles;
    var y := Carve(b, wanted);
    if |y| == 1 {
      TilesOne(y[0]);
    } else {
      WordSum(b.addr, wanted);
      TilesPair(y[0], y[1]);
    }
  }

  /** The first of them alone is in use. */
  lemma CarveShape(b: Block, wanted: nat)
    requires wanted <= b.size
    ensures Carve(b, wanted) != [] && Carve(b, wanted)[0].used && Carve(b, wanted)[0].addr == b.addr
    ensures Compact(Carve(b, wanted)) && Live(Carve(b, wanted)) == {Carve(b, wanted)[0]}
  {
    hide Compact, Live;
    var y := Carve(b, wanted);
    if |y| == 1 { UsedAlone(y[0]); } else { UsedThenFree(y[0], y[1]); }
  }

  lemma PlaceTiles(bs: Blocks, i: nat, wanted: nat, s: nat, e: nat)
    requires Tiles(bs, s, e)
    requires i < |bs| && Fits(bs[i], wanted) && wanted % 4 == 0
    ensures Tiles(Place(bs, i, wanted), s, e)
  {
    TilesOrder(bs, s, e);
    hide Tiles, Carve;
    CarveTiles(bs[i], wanted);
    ReplaceOne(bs, i, Carve(bs[i], wanted), s, e);
  }

  lemma PlaceCompact(bs: Blocks, i: nat, wanted: nat)
    requires Compact(bs) && i < |bs| && Fits(bs[i], wanted)
    ensures Compact(Place(bs, i, wanted))
  {
    CarveShape(bs[i], wanted);
    Cut(bs, i);
    hide Compact, Carve, Live;
    ReplaceCompact(bs[..i], bs[i], Carve(bs[i], wanted), bs[i + 1..]);
  }

  /** A free block of a compact list has used neighbours, so blocks that begin with a used one
      can take its place. */
  lemma ReplaceCompact(a: Blocks, b: Block, y: Blocks, c: Blocks)
    requires Compact(a + [b] + c) && !b.used && Compact(y) && y != [] && y[0].used
    ensures Compact(a + y + c)
  {
    hide Compact;
    CompactAppend(a + [b], c);
    CompactAppend(a, [b]);
    CompactAppend(a + y, c);
    CompactAppend(a, y);
    assert (a + y)[|a + y| - 1] == y[|y| - 1];
  }

  lemma PlaceLive(bs: Blocks, i: nat, wanted: nat)
    requires i < |bs| && Fits(bs[i], wanted)
    ensures Live(Place(bs, i, wanted)) == Live(bs) + {Carve(bs[i], wanted)[0]}
  {
    var a, b, c, y := bs[..i], bs[i], bs[i + 1..], Carve(bs[i], wanted);
    Cut(bs, i);
    LiveAppend(a + [b], c);
    LiveAppend(a, [b]);
    LiveAppend(a + y, c);
    LiveAppend(a, y);
    CarveShape(b, wanted);
    assert Live([b]) == {};
  }

  // ---- release and coalescing ----

  /** Index of the block whose header is at a, or the number of blocks. */
  function IndexAt(bs: Blocks, a: int): (i: nat)
    ensures i <= |bs|
    ensures i < |bs| ==> bs[i].addr == a
    ensures forall j :: 0 <= j < i ==> bs[j].addr != a
  {
    if bs == [] then 0
    else if bs[0].addr == a then 0
    else
      var r := IndexAt(bs[1..], a);
      assert forall j :: 0 < j < r + 1 ==> bs[j] == bs[1..][j - 1];
      r + 1
  }

  lemma BlockAtIndex(bs: Blocks, s: nat, e: nat, b: Block)
    requires Tiles(bs, s, e) && b in bs
    ensures IndexAt(bs, b.addr) < |bs| && bs[IndexAt(bs, b.addr)] == b
  {
    TilesOrder(bs, s, e);
    var j :| 0 <= j < |bs| && bs[j] == b;
    var i := IndexAt(bs, b.addr);
    assert i == j;
  }

  function Merge(x: Block, y: Block): Block {
    Block(x.addr, x.size + HDR + y.size, false)
  }

  /** One pass over the blocks that merges every run of free neighbours. */
  function Coalesce(bs: Blocks): Blocks
    decreases |bs|
  {
    if |bs| <= 1 then bs
    else if !bs[0].used && !bs[1].used then Coalesce([Merge(bs[0], bs[1])] + bs[2..])
    else [bs[0]] + Coalesce(bs[1..])
  }

  lemma {:induction false} CoalesceKeepsLayout(bs: Blocks, s: nat, e: nat)
    requires Tiles(bs, s, e)
    ensures Tiles(Coalesce(bs), s, e)
    ensures Compact(Coalesce(bs))
    ensures Live(Coalesce(bs)) == Live(bs)
    ensures bs != [] ==> Coalesce(bs) != [] && Coalesce(bs)[0].used == bs[0].used
    decreases |bs|
  {
    if |bs| > 1 {
      assert bs[1..][1..] == bs[2..];
      if !bs[0].used && !bs[1].used {
        var m := [Merge(bs[0], bs[1])] + bs[2..];
        assert m[1..] == bs[2..];
        CoalesceKeepsLayout(m, s, e);
        assert bs == [bs[0], bs[1]] + bs[2..];
        LiveAppend([bs[0], bs[1]], bs[2..]);
        LiveAppend([m[0]], bs[2..]);
        assert Live([bs[0], bs[1]]) == {} == Live([m[0]]);
      } else {
        var r := Coalesce(bs[1..]);
        CoalesceKeepsLayout(bs[1..], bs[0].End(), e);
        assert ([bs[0]] + r)[1..] == r;
        assert bs == [bs[0]] + bs[1..];
        LiveAppend([bs[0]], bs[1..]);
        LiveAppend([bs[0]], r);
      }
    }
  }

  function MergeAt(bs: Blocks, i: nat): Blocks
    requires i + 1 < |bs|
  {
    bs[..i] + [Merge(bs[i], bs[i + 1])] + bs[i + 2..]
  }

  lemma MergeShape(bs: Blocks, i: nat)
    requires i + 1 < |bs|
    ensures var m := MergeAt(bs, i);
      |m| == |bs| - 1 && m[i].addr == bs[i].addr && m[..i] == bs[..i]
    ensures !bs[i].used && !bs[i + 1].used ==> Coalesce(MergeAt(bs, i)[i..]) == Coalesce(bs[i..])
  {
    assert bs[i..][2..] == bs[i + 2..];
    assert MergeAt(bs, i)[i..] == [Merge(bs[i], bs[i + 1])] + bs[i + 2..];
  }

  lemma MergeLive(bs: Blocks, i: nat)
    requires i + 1 < |bs| && !bs[i].used && !bs[i + 1].used
    ensures Live(MergeAt(bs, i)) == Live(bs)
  {
    var a, x, y, c := bs[..i], [bs[i], bs[i + 1]], [Merge(bs[i], bs[i + 1])], bs[i + 2..];
    assert bs == a + x + c;
    LiveAppend(a + x, c);
    LiveAppend(a, x);
    LiveAppend(a + y, c);
    LiveAppend(a, y);
    assert Live(x) == {} == Live(y);
  }

  /** Merging two neighbours in place leaves the addresses filled as they were. */
  lemma MergeTiles(bs: Blocks, i: nat, s: nat, e: nat)
    requires Tiles(bs, s, e) && i + 1 < |bs|
    ensures Tiles(MergeAt(bs, i), s, e)
  {
    var a, x, y, c := bs[..i], [bs[i], bs[i + 1]], [Merge(bs[i], bs[i + 1])], bs[i + 2..];
    assert bs == a + x + c;
    assert bs[i].addr % 4 == 0 by { TilesOrder(bs, s, e); }
    TilesAt(bs, s, e, i);
    TilesEnd(a, s, bs[i].addr);
    TilesOne(y[0]);
    TilesReplace(a, x, y, c, s, e);
  }

  lemma SplitKeepsLive(bs: Blocks, i: nat, wanted: nat)
    requires i < |bs| && Fits(bs[i], wanted)
    ensures Live(bs[..i] + Split(bs[i], wanted) + bs[i + 1..]) == Live(bs)
  {
    var a, b, c, y := bs[..i], bs[i], bs[i + 1..], Split(bs[i], wanted);
    Cut(bs, i);
    LiveAppend(a + [b], c);
    LiveAppend(a, [b]);
    LiveAppend(a + y, c);
    LiveAppend(a, y);
    assert Live([b]) == {} == Live(y);
  }

  /** How the pass over the list advances, and where it stops. */
  lemma CoalesceAdvance(bs: Blocks, i: nat)
    requires i <= |bs|
    ensures |bs| <= i + 1 ==> bs[..i] + Coalesce(bs[i..]) == bs
    ensures i + 1 < |bs| && (bs[i].used || bs[i + 1].used) ==>
      bs[..i] + Coalesce(bs[i..]) == bs[..i + 1] + Coalesce(bs[i + 1..])
  {
    if |bs| <= i + 1 {
      assert bs[..i] + bs[i..] == bs;
    } else {
      assert bs[i..][1..] == bs[i + 1..];
      assert bs[..i + 1] == bs[..i] + [bs[i]];
    }
  }

  /** Freeing the block at index i: mark it and coalesce. */
  function Release(bs: Blocks, i: nat): Blocks
    requires i < |bs|
  {
    Coalesce(bs[i := bs[i].(used := false)])
  }

  lemma MarkTiles(bs: Blocks, i: nat, v: bool, s: nat, e: nat)
    requires Tiles(bs, s, e) && i < |bs|
    ensures Tiles(bs[i := bs[i].(used := v)], s, e)
  {
    var f := bs[i].(used := v);
    TilesOrder(bs, s, e);
    TilesOne(f);
    ReplaceOne(bs, i, [f], s, e);
    assert bs[i := f] == bs[..i] + [f] + bs[i + 1..];
  }

  lemma MarkFreeLive(bs: Blocks, i: nat, s: nat, e: nat)
    requires Tiles(bs, s, e) && i < |bs|
    ensures Live(bs[i := bs[i].(used := false)]) == Live(bs) - {bs[i]}
  {
    var b, f := bs[i], bs[i].(used := false);
    TilesOrder(bs, s, e);
    forall x | x in Live(bs) && x != b
      ensures x in Live(bs[i := f])
    {
      var k :| 0 <= k < |bs| && bs[k] == x;
      assert bs[i := f][k] == x;
    }
    forall x | x in Live(bs[i := f])
      ensures x in Live(bs) && x != b
    {
      var k :| 0 <= k < |bs| && bs[i := f][k] == x;
      assert k != i && bs[k] == x;
    }
  }

  lemma ReleaseKeepsLayout(bs: Blocks, i: nat, s: nat, e: nat)
    requires Tiles(bs, s, e) && i < |bs|
    ensures Tiles(Release(bs, i), s, e)
    ensures Compact(Release(bs, i))
    ensures Live(Release(bs, i)) == Live(bs) - {bs[i]}
  {
    MarkTiles(bs, i, false, s, e);
    MarkFreeLive(bs, i, s, e);
    CoalesceKeepsLayout(bs[i := bs[i].(used := false)], s, e);
  }

  /** Live blocks of one layout never share an address. */
  lemma LiveAddressesDiffer(bs: Blocks, s: nat, e: nat, x: Block, y: Block)
    requires Tiles(bs, s, e) && x in bs && y in bs && x != y
    ensures x.End() <= y.addr || y.End() <= x.addr
  {
    TilesOrder(bs, s, e);
    var i :| 0 <= i < |bs| && bs[i] == x;
    var j :| 0 <= j < |bs| && bs[j] == y;
    assert i < j || j < i;
  }

  // ---- accounting ----

  function SumSizes(bs: Blocks, used: bool): nat {
    if bs == [] then 0
    else (if bs[0].used == used then bs[0].size else 0) + SumSizes(bs[1..], used)
  }

  lemma {:induction false} SumSizesAppend(a: Blocks, b: Blocks, used: bool)
    ensures SumSizes(a + b, used) == SumSizes(a, used) + SumSizes(b, used)
  {
    if a == [] {
      assert a + b == b;
    } else {
      assert (a + b)[1..] == a[1..] + b;
      SumSizesAppend(a[1..], b, used);
    }
  }

  lemma SumSizesAt(bs: Blocks, i: nat, used: bool)
    requires i < |bs|
    ensures SumSizes(bs[i..], used) == (if bs[i].used == used then bs[i].size else 0) + SumSizes(bs[i + 1..], used)
    ensures SumSizes(bs, used) == SumSizes(bs[..i], used) + SumSizes(bs[i..], used)
  {
    assert bs == bs[..i] + bs[i..];
    SumSizesAppend(bs[..i], bs[i..], used);
    assert bs[i..][1..] == bs[i + 1..];
  }

  /** Payload bytes, used and free, plus one header a block, make up the whole heap. */
  lemma {:induction false} Conservation(bs: Blocks, s: nat, e: nat)
    requires Tiles(bs, s, e)
    ensures SumSizes(bs, true) + SumSizes(bs, false) + HDR * |bs| == e - s
  {
    if bs != [] {
      Conservation(bs[1..], bs[0].End(), e);
    }
  }
}
