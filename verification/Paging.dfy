/** Two-level page tables as a map from virtual pages to frames.
    Virtual pages are numbered by address / 4096; the map is about user space, below 0xC0000000. */
module Paging {
  import opened Words
  import HeapBlocks
  import HeapModel

  // Pages are 4096 bytes, 1024 words; a table entry maps one page.
  const POOL_SIZE: nat := 0x100_0000           // 16 MB of frames
  const USER_TABLES: nat := 768                // directory entries below 0xC0000000
  const USER_PAGES: nat := 768 * 1024
  const FLAGS: nat := 7                        // present, writable, user

  type UserAddr = v: u32 | v < 0xC000_0000

  // ---- the map ----

  /** pages: the translation; tables: the directory entries that have a page table. */
  datatype Space = Space(base: nat, next: u32, pages: map<nat, nat>, tables: set<nat>)

  function Limit(s: Space): nat { s.base + POOL_SIZE }

  /** Whether a call on page v comes to the point of taking a frame. */
  predicate TakesFrame(s: Space, v: nat, grant: bool) {
    (v / 1024 in s.tables || grant) && v !in s.pages
  }

  /** vmm_alloc_page on page v; grant says whether kmalloc would supply a page table. */
  function Allocated(s: Space, v: nat, grant: bool): (Space, int) {
    if v / 1024 !in s.tables && !grant then (s, -1)
    else
      var s1 := s.(tables := s.tables + {v / 1024});
      if v in s.pages then (s1, 0)
      else
        var s2 := s1.(next := Add32(s.next, 4096));
        if s.next == 0 || s2.next > Limit(s) then (s2, -1)
        else (s2.(pages := s.pages[v := s.next]), 0)
  }

  function Freed(s: Space, v: nat): Space {
    s.(pages := s.pages - {v})
  }

  /** Every mapped frame comes from the pool, was taken before next, and serves one page. */
  ghost predicate Inv(s: Space) {
    && s.base % 4096 == 0 && 0 < s.base && Limit(s) < TWO32
    && s.base <= s.next && s.next % 4096 == 0
    && (forall v :: v in s.pages ==> v / 1024 in s.tables && s.pages[v] % 4096 == 0
                                     && s.base <= s.pages[v] < s.next && s.pages[v] < Limit(s))
    && (forall v, w :: v in s.pages && w in s.pages && v != w ==> s.pages[v] != s.pages[w])
  }

  /** vmm_alloc_page succeeds exactly when a table is at hand and the page is mapped or a frame is
      left; it then maps the page, to a frame no page has, and moves no other translation. */
  lemma AllocOutcome(s: Space, v: nat, grant: bool)
    requires Inv(s) && s.next + 4096 < TWO32
    ensures var (s', r) := Allocated(s, v, grant);
      && Inv(s')
      && (r == 0 || r == -1)
      && (r == 0 <==> (v / 1024 in s.tables || grant) && (v in s.pages || s.next + 4096 <= Limit(s)))
      && (r == 0 ==> v in s'.pages)
      && (forall w :: w in s.pages ==> w in s'.pages && s'.pages[w] == s.pages[w])
      && (forall w :: w in s'.pages && w !in s.pages ==>
            w == v && r == 0 && s'.pages[v] == s.next && s'.next == s.next + 4096
            && forall u :: u in s.pages ==> s.pages[u] != s'.pages[v])
  {
    hide Inv;
    InvFacts(s);
    var s1 := s.(tables := s.tables + {v / 1024});
    InvGrows(s, s1);
    if TakesFrame(s, v, grant) {
      NextPage(s.next);
      InvGrows(s1, s1.(next := s.next + 4096));
      if s.next + 4096 <= Limit(s) { GrantKeepsInv(s1, v); }
    }
  }

  lemma InvFacts(s: Space)
    requires Inv(s)
    ensures s.next % 4096 == 0 && Limit(s) < TWO32 && s.next > 0
    ensures forall v :: v in s.pages ==> s.pages[v] < s.next
  {}

  lemma InvGrows(s: Space, s': Space)
    requires Inv(s) && s'.base == s.base && s'.pages == s.pages && s.tables <= s'.tables
    requires s.next <= s'.next && s'.next % 4096 == 0
    ensures Inv(s')
  {}

  lemma GrantKeepsInv(s: Space, v: nat)
    requires Inv(s) && v / 1024 in s.tables && s.next + 4096 <= Limit(s)
    ensures Inv(s.(next := s.next + 4096, pages := s.pages[v := s.next]))
  {
    NextPage(s.next);
  }

  lemma NextPage(next: u32)
    requires next % 4096 == 0
    ensures next <= 0xFFFF_F000 && (next + 4096) % 4096 == 0 && Add32(next, 4096) % 4096 == 0
  {}

  lemma FreeOutcome(s: Space, v: nat)
    requires Inv(s)
    ensures Inv(Freed(s, v)) && v !in Freed(s, v).pages
    ensures forall w :: w != v ==> (w in Freed(s, v).pages <==> w in s.pages)
    ensures forall w :: w in Freed(s, v).pages ==> Freed(s, v).pages[w] == s.pages[w]
  {}

  // ---- runs ----

  datatype Op = DoAlloc(v: nat, grant: bool) | DoFree(v: nat)

  function Step(s: Space, op: Op): Space {
    match op
    case DoAlloc(v, grant) => Allocated(s, v, grant).0
    case DoFree(v) => Freed(s, v)
  }

  function Run(s: Space, ops: seq<Op>): Space
    decreases ops
  {
    if ops == [] then s else Run(Step(s, ops[0]), ops[1..])
  }

  /** The frame a step newly maps, if any. */
  function Granted(s: Space, op: Op): seq<nat> {
    match op
    case DoAlloc(v, grant) =>
      var s' := Step(s, op);
      if v !in s.pages && v in s'.pages then [s'.pages[v]] else []
    case DoFree(_) => []
  }

  /** The frames newly mapped along a run, in order. */
  function Grants(s: Space, ops: seq<Op>): seq<nat>
    decreases ops
  {
    if ops == [] then [] else Granted(s, ops[0]) + Grants(Step(s, ops[0]), ops[1..])
  }

  predicate Attempt(s: Space, op: Op) {
    op.DoAlloc? && TakesFrame(s, op.v, op.grant)
  }

  /** Calls that reach the point of taking a frame, whether or not one is left. */
  function Attempts(s: Space, ops: seq<Op>): nat
    decreases ops
  {
    if ops == [] then 0
    else (if Attempt(s, ops[0]) then 1 else 0) + Attempts(Step(s, ops[0]), ops[1..])
  }

  lemma StepGrants(s: Space, op: Op)
    requires Inv(s) && (Attempt(s, op) ==> s.next + 4096 < TWO32)
    ensures Inv(Step(s, op)) && Step(s, op).base == s.base
    ensures Step(s, op).next == s.next + if Attempt(s, op) then 4096 else 0
    ensures Granted(s, op) == if Attempt(s, op) && s.next + 4096 <= Limit(s) then [s.next] else []
  {
    match op
    case DoAlloc(v, grant) => if TakesFrame(s, v, grant) { AllocOutcome(s, v, grant); }
    case DoFree(v) => FreeOutcome(s, v);
  }

  /** As long as next_free_page does not wrap, a run grants strictly increasing frames inside the
      pool: no frame is ever granted twice, even after frees, and at most 4096 are granted. */
  lemma {:induction false} RunGrantsFreshFrames(s: Space, ops: seq<Op>)
    requires Inv(s) && s.next + 4096 * Attempts(s, ops) < TWO32
    ensures Inv(Run(s, ops))
    ensures Run(s, ops).next == s.next + 4096 * Attempts(s, ops)
    ensures forall i :: 0 <= i < |Grants(s, ops)| ==>
      s.next <= Grants(s, ops)[i] < Limit(s) && Grants(s, ops)[i] % 4096 == 0
    ensures forall i, j :: 0 <= i < j < |Grants(s, ops)| ==> Grants(s, ops)[i] < Grants(s, ops)[j]
    ensures 4096 * |Grants(s, ops)| <= if s.next <= Limit(s) then Limit(s) - s.next else 0
    decreases ops
  {
    if ops != [] {
      hide Step, Granted, Attempt;
      var s' := Step(s, ops[0]);
      StepGrants(s, ops[0]);
      assert s.next % 4096 == 0;
      hide Inv;
      RunGrantsFreshFrames(s', ops[1..]);
    }
  }

  /** A run that starts at boot grants at most 4096 frames. */
  lemma AtMost4096Frames(s: Space, ops: seq<Op>)
    requires Inv(s) && s.next == s.base && s.next + 4096 * Attempts(s, ops) < TWO32
    ensures |Grants(s, ops)| <= 4096
  {
    RunGrantsFreshFrames(s, ops);
  }

  /** n rounds of allocating a page and freeing it. */
  function Rounds(v: nat, n: nat): seq<Op> {
    if n == 0 then [] else [DoAlloc(v, true), DoFree(v)] + Rounds(v, n - 1)
  }

  lemma {:induction false} RoundsAdvance(s: Space, v: nat, n: nat)
    requires s.pages == map[] && 0 < s.next && s.next + 4096 * n < TWO32
    ensures var s' := Run(s, Rounds(v, n)); s'.pages == map[] && s'.base == s.base && s'.next == s.next + 4096 * n
    decreases n
  {
    if n > 0 {
      var ops := Rounds(v, n);
      assert ops[0] == DoAlloc(v, true) && ops[1..][0] == DoFree(v) && ops[1..][1..] == Rounds(v, n - 1);
      var s2 := Step(Step(s, DoAlloc(v, true)), DoFree(v));
      assert s2.pages == map[] && s2.base == s.base && s2.next == s.next + 4096;
      RoundsAdvance(s2, v, n - 1);
      assert Run(s, ops) == Run(Step(s, ops[0]), ops[1..]) == Run(s2, Rounds(v, n - 1));
    }
  }

  lemma {:induction false} RunAppend(s: Space, a: seq<Op>, b: seq<Op>)
    ensures Run(s, a + b) == Run(Run(s, a), b)
    decreases a
  {
    if a == [] {
      assert a + b == b;
    } else {
      assert (a + b)[0] == a[0] && (a + b)[1..] == a[1..] + b;
      RunAppend(Step(s, a[0]), a[1..], b);
    }
  }

  /** The pool can be left: from boot, allocating and freeing one page until the counter stands at
      its last page maps that page to 0xFFFFF000, outside the pool, at the next call. */
  lemma PoolLeftExample(s: Space, v: nat)
    requires Inv(s) && s.next == s.base && s.pages == map[]
    ensures var ops := Rounds(v, (0xFFFF_F000 - s.base) / 4096) + [DoAlloc(v, true)];
      Run(s, ops).pages == map[v := 0xFFFF_F000] && 0xFFFF_F000 >= Limit(s) && !Inv(Run(s, ops))
  {
    var n := (0xFFFF_F000 - s.base) / 4096;
    var s1 := Run(s, Rounds(v, n));
    RoundsAdvance(s, v, n);
    RunAppend(s, Rounds(v, n), [DoAlloc(v, true)]);
    assert s1.next == 0xFFFF_F000;
    assert Run(s1, [DoAlloc(v, true)]) == Run(Step(s1, DoAlloc(v, true)), []);
    assert v in Step(s1, DoAlloc(v, true)).pages;
  }

  /** The counter also advances on failing calls. The call that brings it to 2^32 is exactly the
      one that breaks the invariant: it maps its page to a frame outside the pool. */
  lemma PoolRespectedIff(s: Space, v: nat, grant: bool)
    requires Inv(s) && TakesFrame(s, v, grant)
    ensures Inv(Allocated(s, v, grant).0) <==> s.next + 4096 < TWO32
    ensures s.next + 4096 >= TWO32 ==> Allocated(s, v, grant).0.pages == s.pages[v := 0xFFFF_F000]
  {
    if s.next + 4096 < TWO32 {
      AllocOutcome(s, v, grant);
    } else {
      assert s.next == TWO32 - 4096 && v in Allocated(s, v, grant).0.pages;
    }
  }

  // ---- tables in memory ----

  const WORDS: nat := 0x4000_0000

  /** The physical address space: word w is at address 4 * w. The words of the page at address
      4096 * p are those from 1024 * p on. */
  type PhysMem = m: seq<u32> | |m| == 0x4000_0000 ghost witness seq(0x4000_0000, _ => 0)

  /** Entry d of the directory, which is the 1024 words from dir on. */
  function Pde(m: PhysMem, dir: nat, d: nat): u32
    requires dir + 1024 <= WORDS && d < 1024
  {
    m[dir + d]
  }

  /** Word i of the table that a directory entry leads to. */
  function TableWord(pde: u32, i: nat): (w: nat)
    requires i < 1024
    ensures w < WORDS
  {
    1024 * (pde / 4096) + i
  }

  /** Word of memory that holds the table entry of page v, and that entry. */
  function PteWord(m: PhysMem, dir: nat, v: nat): (w: nat)
    requires dir + 1024 <= WORDS && v < 0x10_0000
    ensures w < WORDS
  {
    TableWord(Pde(m, dir, v / 1024), v % 1024)
  }

  function Entry(m: PhysMem, dir: nat, v: nat): u32
    requires dir + 1024 <= WORDS && v < 0x10_0000
  {
    m[PteWord(m, dir, v)]
  }

  // ---- what the code does to memory, for any directory and any result of kmalloc ----

  /** Memory, next_free_page, and what the kmalloc calls to come return. */
  datatype PageState = PageState(m: PhysMem, next: u32, supply: seq<u32>)

  /** Results of kmalloc(4096): 0, or a word-aligned address with 4096 bytes behind it. */
  ghost predicate SupplyIn(supply: seq<u32>) {
    forall i :: 0 <= i < |supply| ==> supply[i] % 4 == 0 && supply[i] <= 0xFFFF_F000
  }

  ghost predicate Ready(st: PageState) {
    st.next % 4096 == 0 && SupplyIn(st.supply)
  }

  predicate Supplied(supply: seq<u32>) {
    supply != [] && supply[0] != 0
  }

  /** Memory after the 1024 words at address p are zeroed and entered as table d. */
  function TableMade(m: PhysMem, dir: nat, d: nat, p: u32): (m': PhysMem)
    requires dir + 1024 <= WORDS && d < 1024 && p % 4 == 0 && p <= 0xFFFF_F000
    ensures forall w :: 0 <= w < WORDS ==>
      m'[w] == if w == dir + d then p / 8 * 8 + FLAGS else if p / 4 <= w < p / 4 + 1024 then 0 else m[w]
  {
    seq(WORDS, w requires 0 <= w < WORDS =>
      if w == dir + d then p / 8 * 8 + FLAGS else if p / 4 <= w < p / 4 + 1024 then 0 else m[w])
  }

  /** The first half of vmm_alloc_page: make sure there is a page table. */
  function WithTable(st: PageState, dir: nat, v: nat): (r: (PageState, bool))
    requires Ready(st) && dir + 1024 <= WORDS && v < 0x10_0000
    ensures Ready(r.0)
  {
    if Pde(st.m, dir, v / 1024) != 0 then (st, true)
    else if !Supplied(st.supply) then
      (st.(supply := if st.supply == [] then [] else st.supply[1..]), false)
    else (st.(m := TableMade(st.m, dir, v / 1024, st.supply[0]), supply := st.supply[1..]), true)
  }

  /** The second half: take a frame and fill the entry. */
  function Filled(st: PageState, dir: nat, base: u32, v: nat): (r: (PageState, int))
    requires Ready(st) && dir + 1024 <= WORDS && v < 0x10_0000
    ensures Ready(r.0)
  {
    if Entry(st.m, dir, v) % 2 == 1 then (st, 0)
    else
      var st1 := st.(next := Add32(st.next, 4096));
      if st.next == 0 || st1.next > Add32(base, POOL_SIZE) then (st1, -1)
      else (st1.(m := st.m[PteWord(st.m, dir, v) := st.next + FLAGS]), 0)
  }

  function AllocMem(st: PageState, dir: nat, base: u32, v: nat): (r: (PageState, int))
    requires Ready(st) && dir + 1024 <= WORDS && v < 0x10_0000
    ensures Ready(r.0)
  {
    var (st1, ok) := WithTable(st, dir, v);
    if ok then Filled(st1, dir, base, v) else (st1, -1)
  }

  function FreeMem(m: PhysMem, dir: nat, v: nat): PhysMem
    requires dir + 1024 <= WORDS && v < 0x10_0000
  {
    if Pde(m, dir, v / 1024) == 0 then m else m[PteWord(m, dir, v) := 0]
  }

  /** The number of the page that i pages after address virt, on 32 bits. */
  function PageAt(virt: u32, i: nat): (v: nat)
    ensures v < 0x10_0000
  {
    Add32(virt, i * 4096 % 0x1_0000_0000) / 4096
  }

  /** vmm_map_user_pages from page i on. */
  function MapMem(st: PageState, dir: nat, base: u32, virt: u32, i: nat, count: nat): (r: (PageState, int))
    requires Ready(st) && dir + 1024 <= WORDS
    ensures Ready(r.0)
    decreases count - i
  {
    if i >= count then (st, 0)
    else
      var (st1, r1) := AllocMem(st, dir, base, PageAt(virt, i));
      if r1 != 0 then (st1, -1) else MapMem(st1, dir, base, virt, i + 1, count)
  }

  // ---- tables that kmalloc placed off a page boundary ----

  /** The word that vmm_alloc_page stores the entry of page v in, when it has just entered a table
      at address p. */
  function StoreWord(p: u32, v: nat): nat {
    1024 * (p / 4096) + v % 1024
  }

  /** Whether a word belongs to the new table or is its directory entry. */
  predicate Own(dir: nat, v: nat, p: u32, w: nat) {
    w == dir + v / 1024 || p / 4 <= w < p / 4 + 1024
  }

  /** A call that makes a table changes, outside the table and its directory entry, at most one
      word; whether that word is outside depends on how far p is past a page boundary. */
  lemma StrayWord(st: PageState, dir: nat, base: u32, v: nat)
    requires Ready(st) && dir + 1024 <= WORDS && v < 0x10_0000
    requires Pde(st.m, dir, v / 1024) == 0 && Supplied(st.supply)
    ensures var p := st.supply[0]; var m' := AllocMem(st, dir, base, v).0.m;
      && (forall w :: 0 <= w < WORDS && !Own(dir, v, p, w) && m'[w] != st.m[w] ==> w == StoreWord(p, v))
      && (p / 4 <= StoreWord(p, v) < p / 4 + 1024 <==> v % 1024 >= p % 4096 / 4)
  {
    hide TableMade;
    var p := st.supply[0];
    MaskedEntry(p);
  }

  lemma MaskedEntry(p: u32)
    requires p % 4 == 0 && p <= 0xFFFF_F000
    ensures (p / 8 * 8 + FLAGS) / 4096 == p / 4096
    ensures p / 4 == 1024 * (p / 4096) + p % 4096 / 4 && p % 4096 / 4 < 1024
    ensures p % 4096 / 4 == 0 <==> p % 4096 == 0
  {
    var w := p / 4;
    assert p == 4 * w;
    var q, k := w / 1024, w % 1024;
    PageAndRest(p, q, 4 * k);
    FlagsInPage(p, q);
  }

  lemma PageAndRest(x: nat, q: nat, r: nat)
    requires x == 4096 * q + r && r < 4096
    ensures x / 4096 == q && x % 4096 == r
  {}

  lemma FlagsInPage(p: nat, q: nat)
    requires 4096 * q <= p < 4096 * (q + 1)
    ensures (p / 8 * 8 + FLAGS) / 4096 == q
  {
    var e := p / 8;
    assert e < 512 * (q + 1);
    PageAndRest(8 * e + 7, q, 8 * e + 7 - 4096 * q);
  }

  /** The words a call may change. */
  ghost predicate ChangesOwnOnly(m: PhysMem, dir: nat, base: u32, next: u32, p: u32, v: nat)
    requires next % 4096 == 0 && p % 4 == 0 && p <= 0xFFFF_F000 && dir + 1024 <= WORDS && v < 0x10_0000
  {
    var m' := AllocMem(PageState(m, next, [p]), dir, base, v).0.m;
    forall w :: 0 <= w < WORDS && !Own(dir, v, p, w) ==> m'[w] == m[w]
  }

  /** While frames are left, vmm_alloc_page stays within the memory kmalloc gave it, whatever memory
      holds and whatever page is asked for, exactly if that memory is page-aligned. */
  lemma OwnMemoryIff(dir: nat, base: u32, next: u32, p: u32)
    requires dir + 1024 <= WORDS && p % 4 == 0 && 0 < p <= 0xFFFF_F000
    requires next % 4096 == 0 && 0 < next && Add32(next, 4096) <= Add32(base, POOL_SIZE)
    ensures p % 4096 == 0 <==>
      forall m: PhysMem, v: nat :: v < USER_PAGES && Pde(m, dir, v / 1024) == 0 ==> ChangesOwnOnly(m, dir, base, next, p, v)
  {
    if p % 4096 == 0 {
      forall m: PhysMem, v: nat | v < USER_PAGES && Pde(m, dir, v / 1024) == 0
        ensures ChangesOwnOnly(m, dir, base, next, p, v)
      {
        StrayWord(PageState(m, next, [p]), dir, base, v);
      }
    } else {
      StrayExample(dir, base, next, p);
    }
  }

  /** On zeroed memory, page 0 or page 1024 hits the word at the page boundary below p. */
  lemma StrayExample(dir: nat, base: u32, next: u32, p: u32)
    requires dir + 1024 <= WORDS && p % 4 == 0 && p % 4096 != 0 && p <= 0xFFFF_F000
    requires next % 4096 == 0 && 0 < next && Add32(next, 4096) <= Add32(base, POOL_SIZE)
    ensures var m: PhysMem := seq(WORDS, _ => 0); var v := if 1024 * (p / 4096) == dir then 1024 else 0;
      Pde(m, dir, v / 1024) == 0 && !ChangesOwnOnly(m, dir, base, next, p, v)
  {
    hide TableMade;
    var m: PhysMem := seq(WORDS, _ => 0);
    var v := if 1024 * (p / 4096) == dir then 1024 else 0;
    var m1 := TableMade(m, dir, v / 1024, p);
    MaskedEntry(p);
    var w := StoreWord(p, v);
    assert PteWord(m1, dir, v) == w && m1[w] == 0;
    assert AllocMem(PageState(m, next, [p]), dir, base, v).0.m[w] == next + FLAGS;
  }

  /** The directory is the first block of the kernel's heap, and such a block never starts on a
      page boundary. */
  lemma DirectoryNeverAligned(start: u32, size: u32)
    requires HeapBlocks.HDR <= size && Align8(start) + size < TWO32
    requires HeapModel.Malloc(HeapModel.Init(start, size), 4096).1 != 0
    ensures HeapModel.Malloc(HeapModel.Init(start, size), 4096).1 % 4096 != 0
  {
    HeapModel.InitInv(start, size);
    Align8Rounds(start);
    HeapModel.MallocEffect(HeapModel.Init(start, size), 4096);
    HeapModel.PayloadAlignment(HeapModel.Init(start, size), 4096);
    assert HeapBlocks.FirstFit(HeapModel.Init(start, size).blocks, Align8(4096)) == 0;
  }

  // ---- memory that holds a map ----

  /** Page p may be a table: it lies below the pool of frames and apart from the directory. */
  predicate TableIn(dir: nat, base: nat, p: nat) {
    0 < p && 4096 * (p + 1) <= base && (1024 * (p + 1) <= dir || dir + 1024 <= 1024 * p)
  }

  predicate EntryOk(x: u32) {
    x == 0 || x % 4096 == FLAGS
  }

  /** The directory lies below the pool; its user entries are 0 or lead to distinct tables; table
      entries are 0 or carry the three flags. */
  ghost predicate TablesOk(m: PhysMem, dir: nat, base: nat) {
    && 4 * (dir + 1024) <= base < TWO32
    && (forall d :: 0 <= d < USER_TABLES && Pde(m, dir, d) != 0 ==>
          Pde(m, dir, d) % 4096 == FLAGS && TableIn(dir, base, Pde(m, dir, d) / 4096))
    && (forall d, e :: 0 <= d < e < USER_TABLES && Pde(m, dir, d) != 0 && Pde(m, dir, e) != 0 ==>
          Pde(m, dir, d) / 4096 != Pde(m, dir, e) / 4096)
    && (forall v :: 0 <= v < USER_PAGES && Pde(m, dir, v / 1024) != 0 ==> EntryOk(Entry(m, dir, v)))
  }

  predicate Mapped(m: PhysMem, dir: nat, v: nat)
    requires v < USER_PAGES && dir + 1024 <= WORDS
  {
    Pde(m, dir, v / 1024) != 0 && Entry(m, dir, v) % 2 == 1
  }

  /** Memory holds exactly the translation of s. */
  ghost predicate Holds(m: PhysMem, dir: nat, s: Space) {
    && TablesOk(m, dir, s.base)
    && (forall d :: d in s.tables ==> 0 <= d < USER_TABLES)
    && (forall d :: 0 <= d < USER_TABLES ==> (d in s.tables <==> Pde(m, dir, d) != 0))
    && (forall v :: v in s.pages ==> 0 <= v < USER_PAGES)
    && (forall v :: 0 <= v < USER_PAGES ==> (v in s.pages <==> Mapped(m, dir, v)))
    && (forall v :: v in s.pages ==> Entry(m, dir, v) / 4096 * 4096 == s.pages[v])
  }

  lemma VDiv(v: nat)
    requires v < USER_PAGES
    ensures v / 1024 < USER_TABLES && v % 1024 < 1024 && v == 1024 * (v / 1024) + v % 1024
  {}

  /** Entries of different pages are different words, none is a directory word, and all lie below
      the pool. */
  lemma PteWordsDiffer(m: PhysMem, dir: nat, base: nat, v: nat, w: nat)
    requires TablesOk(m, dir, base) && v < USER_PAGES && w < USER_PAGES
    requires Pde(m, dir, v / 1024) != 0
    ensures !(dir <= PteWord(m, dir, v) < dir + 1024) && 4 * PteWord(m, dir, v) < base
    ensures v != w && Pde(m, dir, w / 1024) != 0 ==> PteWord(m, dir, v) != PteWord(m, dir, w)
  {
    VDiv(v);
    VDiv(w);
    var d, e := v / 1024, w / 1024;
    assert TableIn(dir, base, Pde(m, dir, d) / 4096);
    if d != e && Pde(m, dir, e) != 0 {
      assert Pde(m, dir, d) / 4096 != Pde(m, dir, e) / 4096;
    }
  }

  /** A write that hits no directory word and no word of a table changes no translation. */
  lemma ElsewhereKeeps(m: PhysMem, m': PhysMem, dir: nat, s: Space)
    requires Holds(m, dir, s)
    requires forall d :: 0 <= d < USER_TABLES ==> Pde(m', dir, d) == Pde(m, dir, d)
    requires forall v :: 0 <= v < USER_PAGES && Pde(m, dir, v / 1024) != 0 ==> Entry(m', dir, v) == Entry(m, dir, v)
    ensures Holds(m', dir, s)
  {
    hide Pde, Entry, TableIn, EntryOk;
    forall v | 0 <= v < USER_PAGES
      ensures v / 1024 < USER_TABLES && Pde(m', dir, v / 1024) == Pde(m, dir, v / 1024)
    {
      VDiv(v);
    }
    assert TablesOk(m', dir, s.base);
    forall v | 0 <= v < USER_PAGES
      ensures v in s.pages <==> Mapped(m', dir, v)
    {
      assert v in s.pages <==> Mapped(m, dir, v);
    }
  }

  /** A frame that a page is mapped to is neither the directory nor a page table: no store of user
      code through its mappings can change what any address means. */
  lemma UserStoresKeepTheMap(m: PhysMem, dir: nat, s: Space, v: nat, w: nat, x: u32)
    requires Inv(s) && Holds(m, dir, s) && v in s.pages && s.pages[v] <= 4 * w < s.pages[v] + 4096
    ensures w < WORDS && Holds(m[w := x], dir, s)
  {
    hide Inv, Pde, Entry, Holds;
    FrameApart(m, dir, s, v, w);
    StoreApart(m, dir, w, x);
    ElsewhereKeeps(m, m[w := x], dir, s);
  }

  lemma StoreApart(m: PhysMem, dir: nat, w: nat, x: u32)
    requires dir + 1024 <= w < WORDS
    ensures forall d :: 0 <= d < 1024 ==> Pde(m[w := x], dir, d) == Pde(m, dir, d)
    ensures forall u :: 0 <= u < USER_PAGES && PteWord(m, dir, u) != w ==> Entry(m[w := x], dir, u) == Entry(m, dir, u)
  {}

  /** Frames lie above the directory and all tables. */
  lemma FrameApart(m: PhysMem, dir: nat, s: Space, v: nat, w: nat)
    requires Inv(s) && Holds(m, dir, s) && v in s.pages && s.pages[v] <= 4 * w < s.pages[v] + 4096
    ensures dir + 1024 <= w < WORDS
    ensures forall u :: 0 <= u < USER_PAGES && Pde(m, dir, u / 1024) != 0 ==> PteWord(m, dir, u) < w
  {
    assert s.base <= s.pages[v] < Limit(s);
    forall u | 0 <= u < USER_PAGES && Pde(m, dir, u / 1024) != 0
      ensures PteWord(m, dir, u) < w
    {
      PteWordsDiffer(m, dir, s.base, u, u);
    }
  }

  /** Writing one table entry changes one translation. */
  lemma WritePte(m: PhysMem, dir: nat, s: Space, v: nat, x: u32, s': Space)
    requires Holds(m, dir, s) && v < USER_PAGES && Pde(m, dir, v / 1024) != 0 && EntryOk(x)
    requires s'.tables == s.tables && s'.base == s.base
    requires s'.pages == if x == 0 then s.pages - {v} else s.pages[v := x / 4096 * 4096]
    ensures Holds(m[PteWord(m, dir, v) := x], dir, s')
  {
    hide Pde, Entry, TableIn, EntryOk, PteWord;
    var m': PhysMem := m[PteWord(m, dir, v) := x];
    EntryWritten(m, dir, s.base, v, x);
    forall w | 0 <= w < USER_PAGES
      ensures w / 1024 < USER_TABLES && Pde(m', dir, w / 1024) == Pde(m, dir, w / 1024)
    {
      VDiv(w);
    }
    assert TablesOk(m', dir, s.base);
    PresentBit(x);
    forall w | 0 <= w < USER_PAGES
      ensures w in s'.pages <==> Mapped(m', dir, w)
    {
      assert w in s.pages <==> Mapped(m, dir, w);
    }
  }

  lemma PresentBit(x: u32)
    requires EntryOk(x)
    ensures x % 2 == 1 <==> x != 0
  {}

  lemma EntryWritten(m: PhysMem, dir: nat, base: nat, v: nat, x: u32)
    requires TablesOk(m, dir, base) && v < USER_PAGES && Pde(m, dir, v / 1024) != 0
    ensures var m': PhysMem := m[PteWord(m, dir, v) := x];
      && (forall d :: 0 <= d < USER_TABLES ==> Pde(m', dir, d) == Pde(m, dir, d))
      && (forall w :: 0 <= w < USER_PAGES && Pde(m, dir, w / 1024) != 0 ==>
            Entry(m', dir, w) == if w == v then x else Entry(m, dir, w))
  {
    var m': PhysMem := m[PteWord(m, dir, v) := x];
    PteWordsDiffer(m, dir, base, v, v);
    forall w | 0 <= w < USER_PAGES && Pde(m, dir, w / 1024) != 0
      ensures Entry(m', dir, w) == if w == v then x else Entry(m, dir, w)
    {
      VDiv(w);
      PteWordsDiffer(m, dir, base, v, w);
      hide TablesOk;
    }
  }

  /** The page p is free to become a table. */
  ghost predicate FreshPage(m: PhysMem, dir: nat, base: nat, p: nat)
    requires dir + 1024 <= WORDS
  {
    TableIn(dir, base, p) && forall d :: 0 <= d < USER_TABLES && Pde(m, dir, d) != 0 ==> Pde(m, dir, d) / 4096 != p
  }

  lemma TableEntered(m: PhysMem, dir: nat, base: nat, d: nat, p: nat)
    requires TablesOk(m, dir, base) && d < USER_TABLES && Pde(m, dir, d) == 0 && FreshPage(m, dir, base, p)
    ensures 4096 * p <= 0xFFFF_F000
    ensures var m' := TableMade(m, dir, d, 4096 * p);
      && (forall e :: 0 <= e < USER_TABLES ==> Pde(m', dir, e) == if e == d then 4096 * p + FLAGS else Pde(m, dir, e))
      && (forall w :: 0 <= w < USER_PAGES && Pde(m', dir, w / 1024) != 0 ==>
            Entry(m', dir, w) == if w / 1024 == d then 0 else Entry(m, dir, w))
  {
    PageParts(p);
    hide TableMade;
    var m' := TableMade(m, dir, d, 4096 * p);
    forall e | 0 <= e < USER_TABLES
      ensures Pde(m', dir, e) == if e == d then 4096 * p + FLAGS else Pde(m, dir, e)
    {}
    forall w | 0 <= w < USER_PAGES && Pde(m', dir, w / 1024) != 0
      ensures Entry(m', dir, w) == if w / 1024 == d then 0 else Entry(m, dir, w)
    {
      VDiv(w);
      if w / 1024 != d {
        PteWordsDiffer(m, dir, base, w, w);
        assert Pde(m, dir, w / 1024) / 4096 != p;
      }
      hide TablesOk;
    }
  }

  lemma PageParts(p: nat)
    ensures 4096 * p % 4 == 0 && 4096 * p / 4 == 1024 * p && 4096 * p / 8 * 8 == 4096 * p
    ensures (4096 * p + FLAGS) / 4096 == p && (4096 * p + FLAGS) % 4096 == FLAGS
  {
    PageIsWords(p);
    PageIsEights(p);
    PageAndFlags(p);
  }

  lemma PageIsWords(p: nat)
    ensures 4096 * p % 4 == 0 && 4096 * p / 4 == 1024 * p
  {
    assert 4096 * p == 4 * (1024 * p);
  }

  lemma PageIsEights(p: nat)
    ensures 4096 * p / 8 * 8 == 4096 * p
  {
    assert 4096 * p == 8 * (512 * p);
  }

  lemma PageAndFlags(p: nat)
    ensures (4096 * p + FLAGS) / 4096 == p && (4096 * p + FLAGS) % 4096 == FLAGS
  {}

  lemma WholePage(p: nat)
    ensures 4096 * p % 4096 == 0
  {}

  /** Entering an empty table changes no translation. */
  lemma InstallTable(m: PhysMem, dir: nat, s: Space, d: nat, p: nat)
    requires Holds(m, dir, s) && d < USER_TABLES && d !in s.tables && FreshPage(m, dir, s.base, p)
    ensures 4096 * p <= 0xFFFF_F000 && 4096 * p % 4 == 0
    ensures Holds(TableMade(m, dir, d, 4096 * p), dir, s.(tables := s.tables + {d}))
  {
    TableEntered(m, dir, s.base, d, p);
    PageParts(p);
    var m' := TableMade(m, dir, d, 4096 * p);
    hide Pde, Entry, TableMade;
    assert TablesOk(m', dir, s.base);
    forall v | 0 <= v < USER_PAGES
      ensures (v in s.pages <==> Mapped(m', dir, v))
      ensures v in s.pages ==> Entry(m', dir, v) == Entry(m, dir, v)
    {
      VDiv(v);
      assert v in s.pages <==> Mapped(m, dir, v);
    }
  }

  /** Results of kmalloc that are good for tables: 0, or page-aligned memory below the pool that
      nothing uses yet. */
  ghost predicate SupplyOk(m: PhysMem, dir: nat, base: nat, supply: seq<u32>)
    requires dir + 1024 <= WORDS
  {
    && (forall i :: 0 <= i < |supply| && supply[i] != 0 ==>
          supply[i] % 4096 == 0 && FreshPage(m, dir, base, supply[i] / 4096))
    && (forall i, j :: 0 <= i < j < |supply| && supply[i] != 0 ==> supply[i] != supply[j])
  }

  /** The next result of kmalloc can become the table of page v, if one is needed. */
  ghost predicate HeadOk(st: PageState, dir: nat, base: nat, v: nat)
    requires dir + 1024 <= WORDS && v < USER_PAGES
  {
    VDiv(v);
    Pde(st.m, dir, v / 1024) == 0 && Supplied(st.supply) ==>
      st.supply[0] % 4096 == 0 && FreshPage(st.m, dir, base, st.supply[0] / 4096)
  }

  lemma FilledRefines(st: PageState, dir: nat, s: Space, v: nat)
    requires Ready(st) && Holds(st.m, dir, s) && Limit(s) < TWO32 && st.next == s.next
    requires v < USER_PAGES && v / 1024 in s.tables
    ensures var (st', r) := Filled(st, dir, s.base, v); var (s', r') := Allocated(s, v, true);
      r == r' && Holds(st'.m, dir, s') && st'.next == s'.next && st'.supply == st.supply
  {
    hide Holds, Pde, Entry, PteWord, EntryOk, Ready;
    EntryState(st.m, dir, s, v);
    assert s.tables + {v / 1024} == s.tables;
    if v !in s.pages {
      FrameEntry(st);
      var next := Add32(s.next, 4096);
      SameHolds(st.m, dir, s, s.(next := next));
      WritePte(st.m, dir, s.(next := next), v, s.next + FLAGS, s.(next := next, pages := s.pages[v := s.next]));
    }
  }

  lemma EntryState(m: PhysMem, dir: nat, s: Space, v: nat)
    requires Holds(m, dir, s) && v < USER_PAGES && v / 1024 in s.tables
    ensures Pde(m, dir, v / 1024) != 0 && (v in s.pages <==> Entry(m, dir, v) % 2 == 1)
  {
    VDiv(v);
    assert v in s.pages <==> Mapped(m, dir, v);
  }

  lemma FrameEntry(st: PageState)
    requires Ready(st)
    ensures var x := st.next + FLAGS;
      0 != x < TWO32 && EntryOk(x) && x / 4096 * 4096 == st.next
  {
    var q := st.next / 4096;
    assert st.next == 4096 * q;
    PageAndFlags(q);
  }

  lemma SameHolds(m: PhysMem, dir: nat, s: Space, s': Space)
    requires Holds(m, dir, s) && s'.base == s.base && s'.tables == s.tables && s'.pages == s.pages
    ensures Holds(m, dir, s')
  {}

  lemma TableRefines(st: PageState, dir: nat, s: Space, v: nat)
    requires Ready(st) && Holds(st.m, dir, s) && st.next == s.next && v < USER_PAGES && HeadOk(st, dir, s.base, v)
    ensures v / 1024 < USER_TABLES
    ensures var (st', ok) := WithTable(st, dir, v);
      && (ok <==> v / 1024 in s.tables || Supplied(st.supply))
      && Holds(st'.m, dir, if ok then s.(tables := s.tables + {v / 1024}) else s)
      && st'.next == st.next
      && st'.supply == (if v / 1024 in s.tables || st.supply == [] then st.supply else st.supply[1..])
  {
    VDiv(v);
    var d := v / 1024;
    assert d in s.tables <==> Pde(st.m, dir, d) != 0;
    assert d in s.tables ==> s.tables + {d} == s.tables;
    if d !in s.tables && Supplied(st.supply) {
      assert st.supply[0] % 4096 == 0 && FreshPage(st.m, dir, s.base, st.supply[0] / 4096);
      hide TableMade, FreshPage, Holds, Pde, HeadOk;
      InstallTable(st.m, dir, s, d, st.supply[0] / 4096);
      WholePages(st.supply[0]);
    }
  }

  lemma WholePages(p: nat)
    requires p % 4096 == 0
    ensures 4096 * (p / 4096) == p
  {}

  /** On memory that holds the map, vmm_alloc_page does the map's allocation, as long as the table
      it may have to make is page-aligned memory of its own. */
  lemma AllocRefines(st: PageState, dir: nat, s: Space, v: nat)
    requires Ready(st) && Holds(st.m, dir, s) && Limit(s) < TWO32 && st.next == s.next
    requires v < USER_PAGES && HeadOk(st, dir, s.base, v)
    ensures var (st', r) := AllocMem(st, dir, s.base, v); var (s', r') := Allocated(s, v, Supplied(st.supply));
      r == r' && Holds(st'.m, dir, s') && st'.next == s'.next
  {
    TableRefines(st, dir, s, v);
    var (st1, ok) := WithTable(st, dir, v);
    AllocatedByTable(s, v, Supplied(st.supply));
    hide Holds, WithTable, Filled, Allocated, HeadOk;
    if ok {
      FilledRefines(st1, dir, s.(tables := s.tables + {v / 1024}), v);
    }
  }

  lemma AllocatedByTable(s: Space, v: nat, grant: bool)
    ensures v / 1024 in s.tables || grant ==>
      Allocated(s, v, grant) == Allocated(s.(tables := s.tables + {v / 1024}), v, true)
    ensures !(v / 1024 in s.tables || grant) ==> Allocated(s, v, grant) == (s, -1)
  {
    assert s.tables + {v / 1024} + {v / 1024} == s.tables + {v / 1024};
  }

  /** vmm_free_page does the map's removal. */
  lemma FreeRefines(m: PhysMem, dir: nat, s: Space, v: nat)
    requires Holds(m, dir, s) && v < USER_PAGES
    ensures Holds(FreeMem(m, dir, v), dir, Freed(s, v))
  {
    VDiv(v);
    assert v in s.pages <==> Mapped(m, dir, v);
    if Pde(m, dir, v / 1024) == 0 {
      assert Freed(s, v).pages == s.pages;
      SameHolds(m, dir, s, Freed(s, v));
    } else {
      WritePte(m, dir, s, v, 0, Freed(s, v));
    }
  }

  // ---- runs on memory ----

  /** Good results of kmalloc stay good when the first of them becomes a table. */
  lemma SupplyAfterTable(m: PhysMem, dir: nat, base: nat, d: nat, supply: seq<u32>)
    requires TablesOk(m, dir, base) && d < USER_TABLES && Pde(m, dir, d) == 0
    requires SupplyOk(m, dir, base, supply) && Supplied(supply)
    ensures supply[0] % 4 == 0 && supply[0] <= 0xFFFF_F000
    ensures SupplyOk(TableMade(m, dir, d, supply[0]), dir, base, supply[1..])
  {
    var p := supply[0] / 4096;
    TableEntered(m, dir, base, d, p);
    PageParts(p);
    var m', rest := TableMade(m, dir, d, supply[0]), supply[1..];
    hide TableMade, Pde, TablesOk;
    forall i | 0 <= i < |rest| && rest[i] != 0
      ensures rest[i] % 4096 == 0 && FreshPage(m', dir, base, rest[i] / 4096)
    {
      assert rest[i] == supply[i + 1] && rest[i] != supply[0];
      assert FreshPage(m, dir, base, rest[i] / 4096);
    }
  }

  lemma SupplyTail(m: PhysMem, dir: nat, base: nat, supply: seq<u32>)
    requires dir + 1024 <= WORDS && SupplyOk(m, dir, base, supply) && supply != []
    ensures SupplyOk(m, dir, base, supply[1..])
    ensures supply[0] != 0 ==> supply[0] % 4096 == 0 && FreshPage(m, dir, base, supply[0] / 4096)
  {
    hide FreshPage;
    var rest := supply[1..];
    assert forall i :: 0 <= i < |rest| ==> rest[i] == supply[i + 1];
  }

  /** Writing a table entry uses up no free page. */
  lemma SupplyAfterWrite(m: PhysMem, dir: nat, base: nat, v: nat, x: u32, supply: seq<u32>)
    requires TablesOk(m, dir, base) && v < USER_PAGES && Pde(m, dir, v / 1024) != 0 && SupplyOk(m, dir, base, supply)
    ensures SupplyOk(m[PteWord(m, dir, v) := x], dir, base, supply)
  {
    var m': PhysMem := m[PteWord(m, dir, v) := x];
    EntryWritten(m, dir, base, v, x);
    hide Pde, PteWord, Entry, TablesOk;
    forall i | 0 <= i < |supply| && supply[i] != 0
      ensures FreshPage(m', dir, base, supply[i] / 4096)
    {
      assert FreshPage(m, dir, base, supply[i] / 4096);
    }
  }

  lemma AllocKeepsSupply(st: PageState, dir: nat, s: Space, v: nat)
    requires Ready(st) && Holds(st.m, dir, s) && st.next == s.next && v < USER_PAGES
    requires SupplyOk(st.m, dir, s.base, st.supply)
    ensures HeadOk(st, dir, s.base, v)
    ensures var st' := AllocMem(st, dir, s.base, v).0; SupplyOk(st'.m, dir, s.base, st'.supply)
  {
    hide TableMade, SupplyOk, WithTable, Entry, EntryOk, TableIn;
    VDiv(v);
    if st.supply != [] { SupplyTail(st.m, dir, s.base, st.supply); }
    TableRefines(st, dir, s, v);
    TableKeepsSupply(st, dir, s, v);
    var (st1, ok) := WithTable(st, dir, v);
    if ok {
      SupplyAfterWrite(st1.m, dir, s.base, v, if st1.next % 4096 == 0 then st1.next + FLAGS else 0, st1.supply);
    }
  }

  lemma TableKeepsSupply(st: PageState, dir: nat, s: Space, v: nat)
    requires Ready(st) && Holds(st.m, dir, s) && v < USER_PAGES && SupplyOk(st.m, dir, s.base, st.supply)
    ensures var (st1, ok) := WithTable(st, dir, v);
      SupplyOk(st1.m, dir, s.base, st1.supply) && (ok ==> Pde(st1.m, dir, v / 1024) != 0)
  {
    VDiv(v);
    hide FreshPage, TablesOk;
    if st.supply != [] { SupplyTail(st.m, dir, s.base, st.supply); }
    if Pde(st.m, dir, v / 1024) == 0 && Supplied(st.supply) {
      SupplyAfterTable(st.m, dir, s.base, v / 1024, st.supply);
    }
  }

  datatype Call = CallAlloc(v: nat) | CallFree(v: nat)

  /** Calls of the two functions on user pages, on memory. */
  function RunMem(st: PageState, dir: nat, base: u32, calls: seq<Call>): (r: PageState)
    requires Ready(st) && dir + 1024 <= WORDS && forall c :: c in calls ==> c.v < USER_PAGES
    ensures Ready(r)
    decreases calls
  {
    if calls == [] then st else RunMem(StepMem(st, dir, base, calls[0]), dir, base, calls[1..])
  }

  function StepMem(st: PageState, dir: nat, base: u32, c: Call): (r: PageState)
    requires Ready(st) && dir + 1024 <= WORDS && c.v < USER_PAGES
    ensures Ready(r)
  {
    match c
    case CallAlloc(v) => AllocMem(st, dir, base, v).0
    case CallFree(v) => st.(m := FreeMem(st.m, dir, v))
  }

  function OpOf(st: PageState, c: Call): Op {
    match c
    case CallAlloc(v) => DoAlloc(v, Supplied(st.supply))
    case CallFree(v) => DoFree(v)
  }

  /** The map's steps that go with a run on memory. */
  function OpsOf(st: PageState, dir: nat, base: u32, calls: seq<Call>): seq<Op>
    requires Ready(st) && dir + 1024 <= WORDS && forall c :: c in calls ==> c.v < USER_PAGES
    decreases calls
  {
    if calls == [] then [] else [OpOf(st, calls[0])] + OpsOf(StepMem(st, dir, base, calls[0]), dir, base, calls[1..])
  }

  lemma StepMemRefines(st: PageState, dir: nat, s: Space, c: Call)
    requires Ready(st) && Holds(st.m, dir, s) && Limit(s) < TWO32 && st.next == s.next && c.v < USER_PAGES
    requires SupplyOk(st.m, dir, s.base, st.supply)
    ensures var st', s' := StepMem(st, dir, s.base, c), Step(s, OpOf(st, c));
      Holds(st'.m, dir, s') && st'.next == s'.next && s'.base == s.base && SupplyOk(st'.m, dir, s.base, st'.supply)
  {
    hide AllocMem, FreeMem, Holds, SupplyOk, HeadOk, TablesOk;
    match c
    case CallAlloc(v) =>
      AllocKeepsSupply(st, dir, s, v);
      AllocRefines(st, dir, s, v);
    case CallFree(v) =>
      FreeRefines(st.m, dir, s, v);
      FreeKeepsSupply(st, dir, s, v);
  }

  lemma FreeKeepsSupply(st: PageState, dir: nat, s: Space, v: nat)
    requires Holds(st.m, dir, s) && v < USER_PAGES && SupplyOk(st.m, dir, s.base, st.supply)
    ensures SupplyOk(FreeMem(st.m, dir, v), dir, s.base, st.supply)
  {
    VDiv(v);
    hide SupplyOk;
    if Pde(st.m, dir, v / 1024) != 0 {
      SupplyAfterWrite(st.m, dir, s.base, v, 0, st.supply);
    }
  }

  /** Over every run of calls, as long as kmalloc's results are good for tables: memory holds the
      map that the map's own run arrives at. */
  lemma {:induction false} RunRefines(st: PageState, dir: nat, s: Space, calls: seq<Call>)
    requires Ready(st) && Holds(st.m, dir, s) && Limit(s) < TWO32 && st.next == s.next
    requires SupplyOk(st.m, dir, s.base, st.supply) && forall c :: c in calls ==> c.v < USER_PAGES
    ensures Holds(RunMem(st, dir, s.base, calls).m, dir, Run(s, OpsOf(st, dir, s.base, calls)))
    decreases calls
  {
    if calls != [] {
      StepMemRefines(st, dir, s, calls[0]);
      hide Holds, Step, StepMem, SupplyOk, OpOf;
      var st', s' := StepMem(st, dir, s.base, calls[0]), Step(s, OpOf(st, calls[0]));
      RunRefines(st', dir, s', calls[1..]);
      var ops := OpsOf(st, dir, s.base, calls);
      assert ops[0] == OpOf(st, calls[0]) && ops[1..] == OpsOf(st', dir, s.base, calls[1..]);
    }
  }

  // ---- mapping a range ----

  /** s' is s with pages of lo..hi newly mapped, to frames not given out before. */
  ghost predicate Extends(s: Space, s': Space, lo: nat, hi: nat) {
    && (forall w :: w in s.pages ==> w in s'.pages && s'.pages[w] == s.pages[w])
    && (forall w :: w in s'.pages && w !in s.pages ==> lo <= w < hi && s.next <= s'.pages[w])
    && (forall w :: lo <= w < hi ==> w in s'.pages)
  }

  lemma ExtendsStep(s: Space, s1: Space, lo: nat, hi: nat, grant: bool)
    requires Inv(s1) && s1.next + 4096 < TWO32 && s.next <= s1.next && lo <= hi && Extends(s, s1, lo, hi)
    ensures var (s2, r) := Allocated(s1, hi, grant);
      && Inv(s2) && (r == 0 || r == -1) && s1.next <= s2.next <= s1.next + 4096 && s2.base == s1.base
      && Extends(s, s2, lo, if r == 0 then hi + 1 else hi)
      && (r == -1 ==> hi !in s2.pages)
  {
    AllocOutcome(s1, hi, grant);
  }

  lemma PageSteps(virt: u32, i: nat)
    requires virt / 4096 + i < 0x10_0000
    ensures PageAt(virt, i) == virt / 4096 + i
  {
    assert virt + i * 4096 < TWO32;
    assert (virt + 4096 * i) / 4096 == virt / 4096 + i;
  }

  function PageOf(virt: u32): nat { virt / 4096 }

  lemma HoldsFits(m: PhysMem, dir: nat, s: Space)
    requires Holds(m, dir, s)
    ensures dir + 1024 <= WORDS && s.base < TWO32
  {}

  lemma MapStep(st: PageState, dir: nat, base: u32, virt: u32, i: nat, count: nat)
    requires Ready(st) && dir + 1024 <= WORDS && i <= count && PageOf(virt) + count <= USER_PAGES
    ensures i == count ==> MapMem(st, dir, base, virt, i, count) == (st, 0)
    ensures i < count ==>
      var (st1, r1) := AllocMem(st, dir, base, PageOf(virt) + i);
      MapMem(st, dir, base, virt, i, count) == if r1 != 0 then (st1, -1) else MapMem(st1, dir, base, virt, i + 1, count)
  {
    if i < count {
      PageSteps(virt, i);
      hide PageAt, AllocMem;
    }
  }

  lemma MapFirst(st: PageState, dir: nat, s0: Space, s: Space, virt: u32, i: nat) returns (s1: Space, ok: bool)
    requires Ready(st) && Holds(st.m, dir, s) && Inv(s) && st.next == s.next && SupplyOk(st.m, dir, s.base, st.supply)
    requires PageOf(virt) + i < USER_PAGES && s.next + 4096 < TWO32
    requires s0.next <= s.next && Extends(s0, s, PageOf(virt), PageOf(virt) + i)
    ensures var (st1, r1) := AllocMem(st, dir, s.base, PageOf(virt) + i);
      && Holds(st1.m, dir, s1) && Inv(s1) && st1.next == s1.next && SupplyOk(st1.m, dir, s1.base, st1.supply)
      && s1.base == s.base && s.next <= s1.next <= s.next + 4096 && r1 == (if ok then 0 else -1)
    ensures Extends(s0, s1, PageOf(virt), PageOf(virt) + if ok then i + 1 else i)
    ensures !ok ==> PageOf(virt) + i !in s1.pages
  {
    hide PageOf, Ready, AllocMem, Holds, Inv, SupplyOk, HeadOk, Extends, Allocated;
    InvFacts(s);
    var v := PageOf(virt) + i;
    AllocKeepsSupply(st, dir, s, v);
    AllocRefines(st, dir, s, v);
    ExtendsStep(s0, s, PageOf(virt), v, Supplied(st.supply));
    var (s', r) := Allocated(s, v, Supplied(st.supply));
    s1, ok := s', r == 0;
  }

  /** vmm_map_user_pages maps pages in order until one cannot be mapped: it returns 0 exactly if
      there is none, and otherwise just the pages before that one are mapped. Nothing that was
      mapped moves. */
  lemma {:induction false} MapOutcome(st: PageState, dir: nat, s0: Space, s: Space, virt: u32, i: nat, count: nat)
    returns (s': Space, done: nat)
    requires Ready(st) && Holds(st.m, dir, s) && Inv(s) && st.next == s.next && SupplyOk(st.m, dir, s.base, st.supply)
    requires i <= count && PageOf(virt) + count <= USER_PAGES && s.next + 4096 * (count - i) < TWO32
    requires s0.next <= s.next && Extends(s0, s, PageOf(virt), PageOf(virt) + i)
    ensures i <= done <= count && Inv(s')
    ensures MapMem(st, dir, s.base, virt, i, count).1 == if done == count then 0 else -1
    ensures Holds(MapMem(st, dir, s.base, virt, i, count).0.m, dir, s')
    ensures MapMem(st, dir, s.base, virt, i, count).0.next == s'.next
    ensures Extends(s0, s', PageOf(virt), PageOf(virt) + done)
    ensures done < count ==> PageOf(virt) + done !in s'.pages
    decreases count - i
  {
    hide PageOf, Ready, MapMem, AllocMem, Holds, Inv, SupplyOk, HeadOk, Extends, Allocated;
    HoldsFits(st.m, dir, s);
    MapStep(st, dir, s.base, virt, i, count);
    if i == count {
      s', done := s, i;
    } else {
      var s1, ok := MapFirst(st, dir, s0, s, virt, i);
      if ok {
        s', done := MapOutcome(AllocMem(st, dir, s.base, PageOf(virt) + i).0, dir, s0, s1, virt, i + 1, count);
      } else {
        s', done := s1, i;
      }
    }
  }

  // ---- what the processor makes of the tables ----

  /** The processor's walk of section 4.3 of the Intel SDM, volume 3A, for 4-KByte pages: bits
      31:12 of cr3 give the directory, both entries must be present, and address bits 31:12 come
      from the table entry. */
  function Walk(m: PhysMem, cr3: u32, virt: u32): (r: int) {
    var pde := m[1024 * (cr3 / 4096) + virt / 0x40_0000];
    var pte := m[TableWord(pde, virt / 4096 % 1024)];
    if pde % 2 == 0 || pte % 2 == 0 then -1 else pte / 4096 * 4096 + virt % 4096
  }

  /** What vmm_get_phys_from_virt computes. */
  function LookupMem(m: PhysMem, dir: nat, virt: u32): int
    requires dir + 1024 <= WORDS
  {
    var v := virt / 4096;
    if Pde(m, dir, v / 1024) == 0 || Entry(m, dir, v) % 2 == 0 then 0
    else Entry(m, dir, v) / 4096 * 4096 + virt % 4096
  }

  lemma VirtParts(virt: u32)
    ensures virt / 0x40_0000 == virt / 4096 / 1024 < 1024
    ensures virt < 0xC000_0000 <==> virt / 4096 < USER_PAGES
  {}

  /** The kernel's lookup gives the address of the map, and 0 for an unmapped page. */
  lemma LookupAgrees(m: PhysMem, dir: nat, s: Space, virt: UserAddr)
    requires Holds(m, dir, s)
    ensures LookupMem(m, dir, virt) == if virt / 4096 in s.pages then s.pages[virt / 4096] + virt % 4096 else 0
  {
    VirtParts(virt);
    VDiv(virt / 4096);
    assert virt / 4096 in s.pages <==> Mapped(m, dir, virt / 4096);
  }

  ghost predicate ProcessorAgrees(m: PhysMem, dir: nat, s: Space, virt: UserAddr)
    requires dir + 1024 <= WORDS
  {
    Walk(m, 4 * dir, virt) == if virt / 4096 in s.pages then s.pages[virt / 4096] + virt % 4096 else -1
  }

  /** With a page-aligned directory the processor translates every user address as the map says,
      and faults elsewhere. */
  lemma WalkAgrees(m: PhysMem, dir: nat, s: Space, virt: UserAddr)
    requires Holds(m, dir, s) && dir % 1024 == 0
    ensures ProcessorAgrees(m, dir, s, virt)
  {
    VirtParts(virt);
    var v := virt / 4096;
    VDiv(v);
    assert 1024 * (4 * dir / 4096) == dir;
    assert v in s.pages <==> Mapped(m, dir, v);
    PresentTable(m, dir, s.base, v / 1024);
    assert PteWord(m, dir, v) == TableWord(m[dir + v / 1024], v % 1024);
    hide TablesOk, TableWord;
  }

  lemma PresentTable(m: PhysMem, dir: nat, base: nat, d: nat)
    requires TablesOk(m, dir, base) && d < USER_TABLES
    ensures Pde(m, dir, d) % 2 == 0 <==> Pde(m, dir, d) == 0
  {
    var x := Pde(m, dir, d);
    if x != 0 {
      assert x % 4096 == FLAGS;
      assert x == 4096 * (x / 4096) + FLAGS;
    }
  }

  /** There is room for a pool of frames above the directory. */
  predicate BelowSomePool(dir: nat) {
    4 * (dir + 1024) <= 0xFEFF_F000
  }

  lemma HeldBelowPool(m: PhysMem, dir: nat, s: Space)
    requires Holds(m, dir, s) && Inv(s)
    ensures BelowSomePool(dir)
  {}

  /** Processor and kernel agree on every memory that holds a map exactly if the directory is
      page-aligned (or lies so high that none can); since DirectoryNeverAligned, the one vmm_init
      makes is not. */
  lemma ProcessorAgreesIff(dir: nat)
    requires dir + 1024 <= WORDS
    ensures dir % 1024 == 0 || !BelowSomePool(dir) <==>
      forall m: PhysMem, s: Space, virt: UserAddr :: Inv(s) && Holds(m, dir, s) ==> ProcessorAgrees(m, dir, s, virt)
  {
    if dir % 1024 == 0 || !BelowSomePool(dir) {
      forall m: PhysMem, s: Space, virt: UserAddr | Inv(s) && Holds(m, dir, s)
        ensures ProcessorAgrees(m, dir, s, virt)
      {
        HeldBelowPool(m, dir, s);
        WalkAgrees(m, dir, s, virt);
      }
    } else {
      MisreadDirectory(dir);
    }
  }

  /** An empty directory off a page boundary, below which a word happens to look like an entry. */
  lemma MisreadDirectory(dir: nat)
    requires BelowSomePool(dir) && dir % 1024 != 0
    ensures var q := dir / 1024;
      var m: PhysMem := seq(WORDS, w => if w == 1024 * q then 4096 * q + FLAGS else 0);
      var s := Space(0xFEFF_F000, 0xFEFF_F000, map[], {});
      Inv(s) && Holds(m, dir, s) && !ProcessorAgrees(m, dir, s, 0)
  {
    hide Walk, Holds, Inv;
    var q := dir / 1024;
    assert 1024 * q < dir < 1024 * (q + 1);
    var m: PhysMem := seq(WORDS, w => if w == 1024 * q then 4096 * q + FLAGS else 0);
    assert forall d :: 0 <= d < USER_TABLES ==> Pde(m, dir, d) == 0;
    EmptyHolds(m, dir, 0xFEFF_F000);
    SelfWalk(m, dir, q);
  }

  /** Memory with an empty user directory holds the empty map. */
  lemma EmptyHolds(m: PhysMem, dir: nat, base: u32)
    requires 4 * (dir + 1024) <= base && base % 4096 == 0 && base + POOL_SIZE < TWO32
    requires forall d :: 0 <= d < USER_TABLES ==> Pde(m, dir, d) == 0
    ensures Holds(m, dir, Space(base, base, map[], {})) && Inv(Space(base, base, map[], {}))
  {
    forall v | 0 <= v < USER_PAGES
      ensures v / 1024 < USER_TABLES && Pde(m, dir, v / 1024) == 0
    {
      VDiv(v);
    }
  }

  /** The processor takes the page below for the directory, and its first entry for a table that is
      that page again. */
  lemma SelfWalk(m: PhysMem, dir: nat, q: nat)
    requires 1024 * q < dir < 1024 * (q + 1) && dir < WORDS && m[1024 * q] == 4096 * q + FLAGS
    ensures Walk(m, 4 * dir, 0) == 4096 * q
  {
    PageAndRest(4 * dir, q, 4 * dir - 4096 * q);
    PageAndFlags(q);
    FlagsWord(q);
  }

  lemma FlagsWord(q: nat)
    ensures (4096 * q + FLAGS) % 2 == 1
  {
    assert 4096 * q == (512 * q) * 8;
    OddFlags(512 * q);
  }

  // ---- what the first call through a new table achieves ----

  /** Whether a frame is left. */
  predicate FrameLeft(next: u32, base: u32) {
    next != 0 && Add32(next, 4096) <= Add32(base, POOL_SIZE)
  }

  /** The word the entry goes to, for a new table at p, is not the table's directory entry, and is
      zeroed with the table or has no present bit. */
  predicate EntryClear(m: PhysMem, dir: nat, v: nat, p: u32)
    requires v < 0x10_0000
  {
    var w := StoreWord(p, v);
    w != dir + v / 1024 && (w >= p / 4 || m[w] % 2 == 0)
  }

  /** The call took a frame, and the kernel's lookup of virt leads into it. */
  predicate FreshlyMapped(st: PageState, st': PageState, r: int, dir: nat, virt: u32)
    requires dir + 1024 <= WORDS
  {
    r == 0 && st'.next == Add32(st.next, 4096) && LookupMem(st'.m, dir, virt) == st.next + virt % 4096
  }

  /** A call that makes a table, wherever kmalloc placed it, maps its page to the fresh frame exactly
      if a frame is left and the entry's word is clear. */
  lemma FirstMapIff(st: PageState, dir: nat, base: u32, virt: u32)
    requires Ready(st) && dir + 1024 <= WORDS && Supplied(st.supply)
    requires Pde(st.m, dir, virt / 4096 / 1024) == 0
    ensures var (st', r) := AllocMem(st, dir, base, virt / 4096);
      FreshlyMapped(st, st', r, dir, virt) == (FrameLeft(st.next, base) && EntryClear(st.m, dir, virt / 4096, st.supply[0]))
  {
    hide TableMade, Pde, Entry, PteWord, LookupMem, EntryClear, Ready, WithTable, Filled, FrameLeft;
    MadeTable(st, dir, virt / 4096);
    FilledMaps(WithTable(st, dir, virt / 4096).0, dir, base, virt, virt / 4096);
  }

  lemma FilledMaps(st: PageState, dir: nat, base: u32, virt: u32, v: nat)
    requires Ready(st) && dir + 1024 <= WORDS && v == virt / 4096 && v < 0x10_0000 && Pde(st.m, dir, v / 1024) != 0
    requires Entry(st.m, dir, v) % 2 == 0 ==> PteWord(st.m, dir, v) != dir + v / 1024
    ensures var (st', r) := Filled(st, dir, base, v);
      FreshlyMapped(st, st', r, dir, virt) == (FrameLeft(st.next, base) && Entry(st.m, dir, v) % 2 == 0)
  {
    hide Pde, Entry, PteWord, LookupMem, Ready, EntryOk;
    FrameEntry(st);
    if Entry(st.m, dir, v) % 2 == 0 && FrameLeft(st.next, base) {
      var m' := st.m[PteWord(st.m, dir, v) := st.next + FLAGS];
      StoreEntry(st.m, dir, v, st.next + FLAGS);
      FlagsOdd(st);
      LookupIs(m', dir, virt, v);
    }
  }

  /** The state after the first half of the call, as far as the entry of page v is concerned. */
  lemma MadeTable(st: PageState, dir: nat, v: nat)
    requires Ready(st) && dir + 1024 <= WORDS && v < 0x10_0000
    requires Supplied(st.supply) && Pde(st.m, dir, v / 1024) == 0
    ensures var (st1, ok) := WithTable(st, dir, v);
      && ok && st1.next == st.next && Pde(st1.m, dir, v / 1024) != 0
      && (Entry(st1.m, dir, v) % 2 == 0 <==> EntryClear(st.m, dir, v, st.supply[0]))
      && (Entry(st1.m, dir, v) % 2 == 0 ==> PteWord(st1.m, dir, v) != dir + v / 1024)
  {
    hide TableMade;
    MaskedEntry(st.supply[0]);
    OddFlags(st.supply[0] / 8);
  }

  lemma OddFlags(e: nat)
    ensures (e * 8 + FLAGS) % 2 == 1
  {
    assert e * 8 + FLAGS == 2 * (4 * e + 3) + 1;
    Odd(4 * e + 3);
  }

  lemma Odd(k: nat)
    ensures (2 * k + 1) % 2 == 1
  {}

  lemma FlagsOdd(st: PageState)
    requires Ready(st)
    ensures (st.next + FLAGS) % 2 == 1
  {
    var q := st.next / 4096;
    assert st.next == 4096 * q == (512 * q) * 8;
    OddFlags(512 * q);
  }

  lemma StoreEntry(m: PhysMem, dir: nat, v: nat, x: u32)
    requires dir + 1024 <= WORDS && v < 0x10_0000 && PteWord(m, dir, v) != dir + v / 1024
    ensures var m': PhysMem := m[PteWord(m, dir, v) := x];
      Pde(m', dir, v / 1024) == Pde(m, dir, v / 1024) && Entry(m', dir, v) == x
  {}

  lemma LookupIs(m: PhysMem, dir: nat, virt: u32, v: nat)
    requires dir + 1024 <= WORDS && v == virt / 4096 && v < 0x10_0000
    requires Pde(m, dir, v / 1024) != 0 && Entry(m, dir, v) % 2 == 1
    ensures LookupMem(m, dir, virt) == Entry(m, dir, v) / 4096 * 4096 + virt % 4096
  {}

  // ---- bits ----

  /** The masks and flags of virtual_mm.c, as the arithmetic used above. */
  lemma MaskIsArithmetic(x: bv32)
    ensures x & 0xFFFF_F000 == x / 4096 * 4096
    ensures x & 1 == x % 2
    ensures x | 7 == x / 8 * 8 + 7
    ensures (x >> 22) & 0x3FF == x / 0x40_0000
    ensures (x >> 12) & 0x3FF == x / 4096 % 1024
  {}

  /** The masked directory entry is the table itself exactly when that lies on a page boundary. */
  lemma TableReachedIff(pt: bv32)
    ensures (pt | 7) & 0xFFFF_F000 == pt <==> pt & 0xFFF == 0
  {}

  /** align_up(addr, 4096): the next page boundary, unless the sum wraps. */
  function AlignUpPage(addr: u32): (r: u32)
    ensures r <= 0xFFFF_F000
    ensures addr + 4095 < TWO32 ==> addr <= r < addr + 4096
  {
    Add32(addr, 4095) / 4096 * 4096
  }

  lemma AlignUpIsPage(addr: u32)
    ensures AlignUpPage(addr) % 4096 == 0 && AlignUpPage(addr) % 4 == 0
  {
    var q := Add32(addr, 4095) / 4096;
    WholePage(q);
    PageIsWords(q);
  }

  // ---- booting ----

  /** What vmm_init leaves in entry d of the directory: 0 for user space; for the kernel's part,
      the last address its inner loop goes through, present and writable. */
  function BootEntry(d: nat): u32
    requires d < 1024
  {
    if d < USER_TABLES then 0 else d * 0x40_0000 + 1023 * 4096 + 3
  }

  /** After vmm_init, memory holds the empty map, wherever the directory lies below the pool. */
  lemma BootHolds(m: PhysMem, dir: nat, base: u32)
    requires 4 * (dir + 1024) <= base && base % 4096 == 0 && base + POOL_SIZE < TWO32
    requires forall d :: 0 <= d < 1024 ==> m[dir + d] == BootEntry(d)
    ensures Holds(m, dir, Space(base, base, map[], {})) && Inv(Space(base, base, map[], {}))
  {
    hide Holds, Inv;
    assert forall d :: 0 <= d < USER_TABLES ==> Pde(m, dir, d) == BootEntry(d);
    EmptyHolds(m, dir, base);
  }

  /** Everything the kernel's heap hands out lies below the pool, as kernel.c calls mm_init and
      vmm_init. */
  lemma HeapBelowPool(h: HeapModel.Heap, b: HeapBlocks.Block, kernelEnd: u32)
    requires kernelEnd + 0x200_0000 < TWO32
    requires HeapModel.Inv(h) && h.start == Align8(kernelEnd) && h.end == h.start + 0x10_0000
    requires b in HeapBlocks.Live(h.blocks)
    ensures b.End() <= AlignUpPage(kernelEnd + 0x10_0000) + 0x100_0000
  {
    HeapBlocks.TilesOrder(h.blocks, h.start, h.end);
    Align8Rounds(kernelEnd);
  }

  // ---- the code ----

  class Vmm {
    /** The physical address space. */
    const mem: array<u32>
    var currentPdir: u32
    var physBase: u32
    var totalPages: u32
    var nextFreePage: u32
    /** What the kmalloc(4096) calls to come return. */
    var supply: seq<u32>

    ghost predicate Wf()
      reads this, mem
    {
      && mem.Length == WORDS && currentPdir % 4 == 0 && currentPdir <= 0xFFFF_F000
      && nextFreePage % 4096 == 0 && totalPages == 4096 && SupplyIn(supply)
    }

    ghost function View(): PageState
      reads this, mem
      requires Wf()
    {
      PageState(mem[..], nextFreePage, supply)
    }

    constructor (memory: array<u32>, supply: seq<u32>)
      ensures mem == memory && this.supply == supply
      ensures nextFreePage == currentPdir == 0 && totalPages == 4096
    {
      mem := memory;
      this.supply := supply;
      currentPdir, physBase, totalPages, nextFreePage := 0, 0, 4096, 0;
    }

    method Kmalloc() returns (p: u32)
      requires SupplyIn(supply)
      modifies `supply
      ensures supply == if old(supply) == [] then [] else old(supply)[1..]
      ensures p == if old(supply) == [] then 0 else old(supply)[0]
      ensures SupplyIn(supply)
    {
      if supply == [] { return 0; }
      p := supply[0];
      supply := supply[1..];
    }

    /** vmm_init; the pages of the kernel's tables, which it only computes, are left out. */
    method VmmInit(kernelEnd: u32)
      requires mem.Length == WORDS && SupplyIn(supply)
      modifies this, mem
      ensures Wf() && supply == if old(supply) == [] then [] else old(supply)[1..]
      ensures nextFreePage == physBase == Add32(AlignUpPage(kernelEnd), 0x100_0000)
      ensures currentPdir == if Supplied(old(supply)) then old(supply)[0] else AlignUpPage(kernelEnd)
      ensures forall w :: 0 <= w < WORDS ==>
        mem[w] == if currentPdir / 4 <= w < currentPdir / 4 + 1024 then BootEntry(w - currentPdir / 4) else old(mem[w])
    {
      var end := AlignUpPage(kernelEnd);
      AlignUpIsPage(kernelEnd);
      physBase := Add32(end, 0x100_0000);
      var pdir := Kmalloc();
      if pdir == 0 { pdir := end; }
      var d := pdir / 4;
      ghost var before, left := mem[..], supply;
      for i := 0 to 1024
        invariant supply == left && physBase == Add32(end, 0x100_0000)
        invariant forall w :: 0 <= w < WORDS ==> mem[w] == if d <= w < d + i then 0 else before[w]
      {
        mem[d + i] := 0;
      }
      FillKernelPart(d);
      currentPdir := pdir;
      nextFreePage := physBase;
      totalPages := 4096;
      PoolStart(kernelEnd);
    }

    /** The nested loops of vmm_init over the kernel's part of the directory. */
    method FillKernelPart(d: nat)
      requires mem.Length == WORDS && d + 1024 <= WORDS
      modifies mem
      ensures forall w :: 0 <= w < WORDS ==>
        mem[w] == if d + USER_TABLES <= w < d + 1024 then BootEntry(w - d) else old(mem[w])
    {
      for i := USER_TABLES to 1024
        invariant forall w :: 0 <= w < WORDS ==>
          mem[w] == if d + USER_TABLES <= w < d + i then BootEntry(w - d) else old(mem[w])
      {
        ghost var m := mem[..];
        for j := 0 to 1024
          invariant forall w :: 0 <= w < WORDS ==>
            mem[w] == if w == d + i && j > 0 then i * 0x40_0000 + (j - 1) * 4096 + 3 else m[w]
        {
          mem[d + i] := i * 0x40_0000 + j * 4096 + 3;
        }
      }
    }

    lemma PoolStart(kernelEnd: u32)
      ensures Add32(AlignUpPage(kernelEnd), 0x100_0000) % 4096 == 0
    {
      var q := Add32(kernelEnd, 4095) / 4096;
      WholePage(if q + 4096 < 0x10_0000 then q + 4096 else q - 0xF_F000);
    }

    /** Zeroes the table at p and enters it as table d. */
    method InstallPage(d: nat, p: u32)
      requires Wf() && d < 1024 && p % 4 == 0 && p <= 0xFFFF_F000
      modifies mem
      ensures mem[..] == TableMade(old(mem[..]), currentPdir / 4, d, p)
    {
      hide SupplyIn;
      for i := 0 to 1024
        invariant forall w :: 0 <= w < WORDS ==>
          mem[w] == if p / 4 <= w < p / 4 + i then 0 else old(mem[w])
      {
        mem[p / 4 + i] := 0;
      }
      mem[currentPdir / 4 + d] := p / 8 * 8 + FLAGS;
    }

    /** Makes sure the page table of virt exists. */
    method EnsureTable(virt: u32) returns (ok: bool)
      requires Wf()
      modifies `supply, mem
      ensures Wf() && (View(), ok) == WithTable(old(View()), currentPdir / 4, virt / 4096)
    {
      hide TableMade;
      VirtParts(virt);
      var pdeIdx := virt / 0x40_0000 % 1024;
      if mem[currentPdir / 4 + pdeIdx] == 0 {
        var pt := Kmalloc();
        if pt == 0 { return false; }
        InstallPage(pdeIdx, pt);
      }
      return true;
    }

    method AllocPage(virt: u32) returns (r: int)
      requires Wf()
      modifies `supply, `nextFreePage, mem
      ensures Wf()
      ensures currentPdir == 0 ==> r == -1 && View() == old(View())
      ensures currentPdir != 0 ==> (View(), r) == AllocMem(old(View()), currentPdir / 4, physBase, virt / 4096)
    {
      if currentPdir == 0 { return -1; }
      hide WithTable, Filled, SupplyIn;
      var ok := EnsureTable(virt);
      if !ok { return -1; }
      r := FillEntry(virt);
    }

    /** The part of vmm_alloc_page after the page table is known to exist. */
    method FillEntry(virt: u32) returns (r: int)
      requires Wf()
      modifies `nextFreePage, mem
      ensures Wf() && (View(), r) == Filled(old(View()), currentPdir / 4, physBase, virt / 4096)
    {
      hide SupplyIn;
      VirtParts(virt);
      NextPage(nextFreePage);
      var pdeIdx := virt / 0x40_0000 % 1024;
      var pteIdx := virt / 4096 % 1024;
      var pt := mem[currentPdir / 4 + pdeIdx] / 4096 * 4096;
      var w := pt / 4 + pteIdx;
      assert w == PteWord(mem[..], currentPdir / 4, virt / 4096);
      if mem[w] % 2 == 1 { return 0; }
      var physPage := nextFreePage;
      nextFreePage := Add32(nextFreePage, 4096);
      if physPage == 0 || nextFreePage > Add32(physBase, totalPages * 4096) { return -1; }
      mem[w] := physPage + FLAGS;
      return 0;
    }

    method FreePage(virt: u32)
      requires Wf()
      modifies mem
      ensures Wf() && nextFreePage == old(nextFreePage)
      ensures mem[..] == if currentPdir == 0 then old(mem[..]) else FreeMem(old(mem[..]), currentPdir / 4, virt / 4096)
    {
      if currentPdir == 0 { return; }
      VirtParts(virt);
      var pdeIdx := virt / 0x40_0000 % 1024;
      var pteIdx := virt / 4096 % 1024;
      if mem[currentPdir / 4 + pdeIdx] == 0 { return; }
      var pt := mem[currentPdir / 4 + pdeIdx] / 4096 * 4096;
      assert pt / 4 + pteIdx == PteWord(mem[..], currentPdir / 4, virt / 4096);
      mem[pt / 4 + pteIdx] := 0;
    }

    /** On memory that holds a map, the address of the map, and 0 for an unmapped page; where the
        directory is page-aligned this is the address the processor would use. */
    method GetPhysFromVirt(virt: u32) returns (phys: int)
      requires Wf()
      ensures phys == LookupMem(mem[..], currentPdir / 4, virt)
    {
      VirtParts(virt);
      var pdeIdx := virt / 0x40_0000 % 1024;
      var pteIdx := virt / 4096 % 1024;
      if mem[currentPdir / 4 + pdeIdx] == 0 { return 0; }
      var pt := mem[currentPdir / 4 + pdeIdx] / 4096 * 4096;
      assert pt / 4 + pteIdx == PteWord(mem[..], currentPdir / 4, virt / 4096);
      if mem[pt / 4 + pteIdx] % 2 == 0 { return 0; }
      return mem[pt / 4 + pteIdx] / 4096 * 4096 + virt % 4096;
    }

    method IsMapped(virt: UserAddr) returns (b: bool)
      requires Wf()
      ensures forall s :: Holds(mem[..], currentPdir / 4, s) ==> (b <==> virt / 4096 in s.pages)
    {
      VirtParts(virt);
      var pdeIdx := virt / 0x40_0000 % 1024;
      var pteIdx := virt / 4096 % 1024;
      var pt := mem[currentPdir / 4 + pdeIdx] / 4096 * 4096;
      assert pt / 4 + pteIdx == PteWord(mem[..], currentPdir / 4, virt / 4096);
      b := mem[currentPdir / 4 + pdeIdx] != 0 && mem[pt / 4 + pteIdx] % 2 == 1;
      forall s | Holds(mem[..], currentPdir / 4, s)
        ensures b <==> virt / 4096 in s.pages
      {
        assert virt / 4096 in s.pages <==> Mapped(mem[..], currentPdir / 4, virt / 4096);
      }
    }

    method MapUserPages(virt: u32, count: u32) returns (r: int)
      requires Wf()
      modifies `supply, `nextFreePage, mem
      ensures Wf()
      ensures currentPdir == 0 ==> r == (if count == 0 then 0 else -1) && View() == old(View())
      ensures currentPdir != 0 ==> (View(), r) == MapMem(old(View()), currentPdir / 4, physBase, virt, 0, count)
    {
      hide AllocMem, SupplyIn;
      ghost var st0 := View();
      var i := 0;
      while i < count
        invariant 0 <= i <= count && Wf()
        invariant currentPdir == 0 ==> i == 0 && View() == st0
        invariant MapMem(st0, currentPdir / 4, physBase, virt, 0, count) ==
                  MapMem(View(), currentPdir / 4, physBase, virt, i, count)
      {
        var addr := Add32(virt, i * 4096 % 0x1_0000_0000);
        assert addr / 4096 == PageAt(virt, i);
        var failed := AllocPage(addr);
        if failed != 0 { return -1; }
        i := i + 1;
      }
      return 0;
    }
  }
}
