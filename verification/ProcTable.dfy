/** The process table and its round-robin scheduler. */
module ProcTable {
  import opened Words

  const PROC_MAX: nat := 16
  const PROC_KSTACK_SZ: nat := 4096
  const USER_START: u32 := 0x0800_0000
  const USER_END: u32 := 0xC000_0000

  // Layout of struct process, 8240 bytes: 24 of pid, name and state, then two stacks aligned to 16.
  const KSTACK_OFF: nat := 32
  const USTACK_OFF: nat := 4128
  const CTX_OFF: nat := 8224

  datatype ProcState = Unused | Ready | Running | Zombie

  datatype Proc = Proc(pid: u32, state: ProcState, exitCode: int)

  /** procs starts at address base; parents is child_parent; esp0 is the field of the task state
      segment. */
  datatype Table = Table(base: nat, procs: seq<Proc>, parents: seq<u32>, cur: nat, nextPid: u32, esp0: nat)

  /** The end of the kernel stack in slot's 8240 bytes. */
  function KStackTop(base: nat, slot: nat): nat {
    base + 8240 * slot + KSTACK_OFF + PROC_KSTACK_SZ
  }

  ghost predicate Shape(t: Table) {
    |t.procs| == |t.parents| == PROC_MAX && t.cur < PROC_MAX
  }

  // ---- operations ----

  /** The slot i places ahead of cur, round the table. */
  function Ahead(cur: nat, i: nat): (k: nat)
    requires cur < PROC_MAX && i <= PROC_MAX
    ensures k < PROC_MAX && k == (cur + i) % PROC_MAX
  {
    if cur + i < PROC_MAX then cur + i else cur + i - PROC_MAX
  }

  /** How many places ahead of cur slot k is: the number of slots schedule looks at first. */
  function Rank(k: nat, cur: nat): (r: nat)
    requires k < PROC_MAX && cur < PROC_MAX
    ensures r < PROC_MAX && r == (k - cur) % PROC_MAX && Ahead(cur, r) == k
  {
    if k >= cur then k - cur else k + PROC_MAX - cur
  }

  /** How many slots ahead of cur, from d on, the next READY slot is; more than 16 if none. */
  function NextReady(ps: seq<Proc>, cur: nat, d: nat): (r: nat)
    requires |ps| == PROC_MAX && cur < PROC_MAX && 1 <= d <= PROC_MAX + 1
    ensures d <= r <= PROC_MAX + 1
    ensures r <= PROC_MAX ==> ps[Ahead(cur, r)].state == Ready
    ensures forall i :: d <= i < r ==> ps[Ahead(cur, i)].state != Ready
    decreases PROC_MAX + 1 - d
  {
    if d == PROC_MAX + 1 || ps[Ahead(cur, d)].state == Ready then d
    else NextReady(ps, cur, d + 1)
  }

  function FirstUnused(ps: seq<Proc>, k: nat): (r: nat)
    requires k <= |ps|
    ensures k <= r <= |ps|
    ensures r < |ps| ==> ps[r].state == Unused
    ensures forall i :: k <= i < r ==> ps[i].state != Unused
    decreases |ps| - k
  {
    if k == |ps| || ps[k].state == Unused then k else FirstUnused(ps, k + 1)
  }

  function SwitchTo(t: Table, k: nat): Table
    requires Shape(t) && k < PROC_MAX
  {
    var prev := t.procs[t.cur];
    var ps := t.procs[t.cur := if prev.state == Running then prev.(state := Ready) else prev];
    t.(procs := ps[k := ps[k].(state := Running)], cur := k,
       esp0 := if k != 0 then KStackTop(t.base, k) else t.esp0)
  }

  function Scheduled(t: Table): Table
    requires Shape(t)
  {
    var d := NextReady(t.procs, t.cur, 1);
    if d <= PROC_MAX then
      var k := Ahead(t.cur, d);
      if k == t.cur then t else SwitchTo(t, k)
    else if t.procs[t.cur].state != Running && t.cur != 0
         && (t.procs[0].state == Ready || t.procs[0].state == Running) then SwitchTo(t, 0)
    else t
  }

  function ToInt32(x: u32): int {
    if x < 0x8000_0000 then x else x - TWO32
  }

  function ValidEntry(entry: u32): bool {
    entry != 0 && USER_START <= entry < USER_END
  }

  /** The table after proc_create, and what it returns. */
  function Created(t: Table, entry: u32): (Table, int)
    requires Shape(t)
  {
    var k := FirstUnused(t.procs, 1);
    if !ValidEntry(entry) || k == PROC_MAX then (t, -1)
    else
      var ps := t.procs[k := Proc(t.nextPid, Ready, 0)];
      var creator := ps[t.cur].pid;
      (t.(procs := ps, nextPid := Add32(t.nextPid, 1),
          parents := if creator > 0 then t.parents[k := creator] else t.parents),
       ToInt32(t.nextPid))
  }

  function MarkZombie(t: Table, code: int): Table
    requires Shape(t)
  {
    t.(procs := t.procs[t.cur := t.procs[t.cur].(state := Zombie, exitCode := code)])
  }

  function Exited(t: Table, code: int): Table
    requires Shape(t)
  {
    if t.procs[t.cur].pid == 0 then t else Scheduled(MarkZombie(t, code))
  }

  function Reaped(p: Proc): Proc {
    if p.state == Zombie then p.(state := Unused) else p
  }

  /** The main loop's sweep over slots 1 to 15. */
  function Swept(t: Table): Table
    requires Shape(t)
  {
    t.(procs := seq(PROC_MAX, i requires 0 <= i < PROC_MAX =>
         if i == 0 then t.procs[i] else Reaped(t.procs[i])))
  }

  /** One turn of the shell's wait for the child in slot k. */
  function WaitFor(t: Table, k: nat): Table
    requires Shape(t) && k < PROC_MAX
  {
    if t.procs[k].state == Ready || t.procs[k].state == Running then Scheduled(t)
    else t.(procs := t.procs[k := t.procs[k].(state := Unused)])
  }

  datatype Op = DoCreate(entry: u32) | DoYield | DoExit(code: int) | DoReapAll | DoWait(slot: nat)

  /** The sweep and the shell run in the kernel's own slot; the shell waits for a child. */
  predicate Enabled(t: Table, op: Op) {
    match op
    case DoReapAll => t.cur == 0
    case DoWait(k) => t.cur == 0 && 1 <= k < PROC_MAX
    case _ => true
  }

  function Step(t: Table, op: Op): Table
    requires Shape(t) && Enabled(t, op)
  {
    match op
    case DoCreate(entry) => Created(t, entry).0
    case DoYield => Scheduled(t)
    case DoExit(code) => Exited(t, code)
    case DoReapAll => Swept(t)
    case DoWait(k) => WaitFor(t, k)
  }

  // ---- the invariants ----

  /** What holds of every reachable table: exactly the current slot is RUNNING, slot 0 is READY or
      RUNNING and has pid 0, and esp0 is the current kernel stack. */
  ghost predicate SchedInv(t: Table) {
    && Shape(t)
    && (forall i :: 0 <= i < PROC_MAX ==> (t.procs[i].state == Running <==> i == t.cur))
    && (t.procs[0].state == Ready || t.procs[0].state == Running)
    && t.procs[0].pid == 0
    && (t.cur != 0 ==> t.esp0 == KStackTop(t.base, t.cur))
  }

  /** No two slots in use have the same pid. */
  ghost predicate DistinctPids(t: Table)
    requires Shape(t)
  {
    forall i, j :: 0 <= i < j < PROC_MAX && t.procs[i].state != Unused && t.procs[j].state != Unused ==>
      t.procs[i].pid != t.procs[j].pid
  }

  /** The next pid belongs to no slot in use. */
  ghost predicate NextPidFree(t: Table)
    requires Shape(t)
  {
    forall i :: 0 <= i < PROC_MAX && t.procs[i].state != Unused ==> t.procs[i].pid != t.nextPid
  }

  /** What holds until next_pid wraps: pids in use are distinct and below the next one, and 0
      belongs to slot 0 alone. */
  ghost predicate PidsOk(t: Table)
    requires Shape(t)
  {
    && (forall i :: 0 <= i < PROC_MAX ==> t.procs[i].pid < t.nextPid)
    && (forall i :: 1 <= i < PROC_MAX && t.procs[i].state != Unused ==> t.procs[i].pid > 0)
    && DistinctPids(t)
  }

  /** schedule hands the processor to the nearest READY slot: a waiting slot k either gets it or
      stays READY with a strictly smaller rank. No invariant is needed. */
  lemma ScheduleRank(t: Table, k: nat)
    requires Shape(t) && k < PROC_MAX && k != t.cur && t.procs[k].state == Ready
    ensures var t' := Scheduled(t);
      && Shape(t') && t'.cur != t.cur
      && t.procs[t'.cur].state == Ready && t' == SwitchTo(t, t'.cur)
      && t'.procs[t'.cur].state == Running
      && Rank(t'.cur, t.cur) <= Rank(k, t.cur)
      && (t'.cur != k ==> t'.procs[k] == t.procs[k] && Rank(k, t'.cur) < Rank(k, t.cur))
  {
    hide Ahead, SwitchTo, NextReady;
    var n := NextReady(t.procs, t.cur, 1);
    assert n <= Rank(k, t.cur);
    NearerThan(t.cur, n, Rank(k, t.cur));
    SwitchToEffect(t, Ahead(t.cur, n));
  }

  /** Moving on to a slot n places ahead brings a slot r places ahead to r - n places. */
  lemma NearerThan(cur: nat, n: nat, r: nat)
    requires cur < PROC_MAX && 1 <= n <= r < PROC_MAX
    ensures Ahead(cur, n) != cur && Rank(Ahead(cur, n), cur) == n
    ensures Rank(Ahead(cur, r), Ahead(cur, n)) == r - n
  {}

  lemma SwitchToEffect(t: Table, k: nat)
    requires Shape(t) && k < PROC_MAX && k != t.cur
    ensures var t' := SwitchTo(t, k);
      && Shape(t') && t'.cur == k && t'.nextPid == t.nextPid && t'.base == t.base && t'.parents == t.parents
      && t'.procs[k] == t.procs[k].(state := Running)
      && t'.procs[t.cur] == (if t.procs[t.cur].state == Running then t.procs[t.cur].(state := Ready) else t.procs[t.cur])
      && (forall i :: 0 <= i < PROC_MAX && i != t.cur && i != k ==> t'.procs[i] == t.procs[i])
      && t'.esp0 == (if k != 0 then KStackTop(t.base, k) else t.esp0)
  {}

  /** The invariant, but for the current slot, which may just have become a zombie. */
  ghost predicate NearInv(t: Table) {
    && Shape(t)
    && (forall i :: 0 <= i < PROC_MAX && i != t.cur ==> t.procs[i].state != Running)
    && (t.procs[t.cur].state == Running || (t.procs[t.cur].state == Zombie && t.cur != 0))
    && (t.cur != 0 ==> t.procs[0].state == Ready)
    && t.procs[0].pid == 0
  }

  lemma SwitchToInv(t: Table, k: nat)
    requires NearInv(t) && k < PROC_MAX && t.procs[k].state == Ready
    ensures SchedInv(SwitchTo(t, k))
  {
    SwitchToEffect(t, k);
    hide SwitchTo;
  }

  lemma ScheduleKeepsInv(t: Table)
    requires SchedInv(t)
    ensures SchedInv(Scheduled(t)) && Scheduled(t).base == t.base
  {
    hide Ahead, SwitchTo, NextReady;
    var d := NextReady(t.procs, t.cur, 1);
    if d <= PROC_MAX {
      SwitchToInv(t, Ahead(t.cur, d));
      if Ahead(t.cur, d) != t.cur { SwitchToEffect(t, Ahead(t.cur, d)); }
    }
  }

  /** A yield changes nothing exactly when no other slot is READY; otherwise the caller becomes
      READY, the nearest READY slot runs, and every other slot stays as it is. */
  lemma YieldOutcome(t: Table)
    requires SchedInv(t)
    ensures var t' := Scheduled(t);
      && (t' == t <==> forall k :: 0 <= k < PROC_MAX ==> t.procs[k].state != Ready)
      && (t' != t ==>
            && Shape(t') && t'.cur != t.cur && t.procs[t'.cur].state == Ready
            && t'.procs[t.cur] == t.procs[t.cur].(state := Ready)
            && t'.procs[t'.cur] == t.procs[t'.cur].(state := Running)
            && (forall k :: 0 <= k < PROC_MAX && k != t.cur && k != t'.cur ==> t'.procs[k] == t.procs[k])
            && (forall k :: 0 <= k < PROC_MAX && t.procs[k].state == Ready ==> Rank(t'.cur, t.cur) <= Rank(k, t.cur))
            && t'.esp0 == (if t'.cur != 0 then KStackTop(t.base, t'.cur) else t.esp0)
            && t'.nextPid == t.nextPid && t'.parents == t.parents && t'.base == t.base)
  {
    hide Ahead, SwitchTo, NextReady, Rank;
    forall k | 0 <= k < PROC_MAX && t.procs[k].state == Ready
      ensures Shape(Scheduled(t))
      ensures Scheduled(t) == SwitchTo(t, Scheduled(t).cur) && Scheduled(t).cur != t.cur
      ensures t.procs[Scheduled(t).cur].state == Ready
      ensures Rank(Scheduled(t).cur, t.cur) <= Rank(k, t.cur)
    {
      ScheduleRank(t, k);
    }
    var t' := Scheduled(t);
    if k :| 0 <= k < PROC_MAX && t.procs[k].state == Ready {
      SwitchToEffect(t, t'.cur);
    } else {
      NoReadyNoSwitch(t);
    }
  }

  lemma NoReadyNoSwitch(t: Table)
    requires SchedInv(t) && forall k :: 0 <= k < PROC_MAX ==> t.procs[k].state != Ready
    ensures Scheduled(t) == t
  {}

  /** In a reachable table the kernel's slot 0 waits whenever another slot runs, so an exiting
      process always finds a successor: the no-READY branch of schedule is not reached. Exit does
      nothing for pid 0, which only slot 0 has until pids wrap. */
  lemma ExitFindsSuccessor(t: Table, code: int)
    requires SchedInv(t)
    ensures t.procs[t.cur].pid == 0 ==> Exited(t, code) == t
    ensures t.procs[t.cur].pid != 0 ==>
      var t' := Exited(t, code);
      && t.cur != 0
      && NextReady(MarkZombie(t, code).procs, t.cur, 1) < PROC_MAX
      && SchedInv(t') && t'.cur != t.cur && t'.base == t.base && t'.nextPid == t.nextPid
      && t.procs[t'.cur].state == Ready && t'.procs[t'.cur] == t.procs[t'.cur].(state := Running)
      && t'.procs[t.cur] == t.procs[t.cur].(state := Zombie, exitCode := code)
      && (forall k :: 0 <= k < PROC_MAX && k != t.cur && k != t'.cur ==> t'.procs[k] == t.procs[k])
  {
    if t.procs[t.cur].pid != 0 {
      hide Ahead, SwitchTo, NextReady;
      var z := MarkZombie(t, code);
      assert z.procs[0].state == Ready;
      ScheduleRank(z, 0);
      assert NearInv(z);
      var k := Scheduled(z).cur;
      SwitchToInv(z, k);
      SwitchToEffect(z, k);
    }
  }

  /** Whether proc_create finds what it needs. */
  predicate Creates(t: Table, op: Op)
    requires Shape(t)
  {
    op.DoCreate? && ValidEntry(op.entry) && FirstUnused(t.procs, 1) < PROC_MAX
  }

  /** proc_create fails exactly on a bad entry point or a full table, and then changes nothing;
      otherwise it fills the lowest unused slot with the next pid, and no other slot. The int it
      returns is negative on failure, and for pids from 2^31 on. */
  lemma CreateOutcome(t: Table, entry: u32)
    requires SchedInv(t)
    ensures var (t', r) := Created(t, entry); var k := FirstUnused(t.procs, 1);
      && SchedInv(t') && t'.cur == t.cur && t'.base == t.base
      && (!Creates(t, DoCreate(entry)) <==>
            !ValidEntry(entry) || forall i :: 1 <= i < PROC_MAX ==> t.procs[i].state != Unused)
      && (!Creates(t, DoCreate(entry)) ==> t' == t && r == -1)
      && (Creates(t, DoCreate(entry)) ==>
            && 1 <= k < PROC_MAX && t.procs[k].state == Unused
            && (forall i :: 1 <= i < k ==> t.procs[i].state != Unused)
            && t'.procs == t.procs[k := Proc(t.nextPid, Ready, 0)]
            && (r == t.nextPid <==> t.nextPid < 0x8000_0000)
            && (r < 0 <==> t.nextPid >= 0x8000_0000))
  {}

  /** A creation records its creator as parent exactly if the creator is not the kernel, or the
      slot's last entry was the kernel's 0: a slot reused by the kernel keeps its old parent. */
  lemma ParentRecordedIff(t: Table, entry: u32)
    requires SchedInv(t) && Creates(t, DoCreate(entry))
    ensures var t' := Created(t, entry).0; var k := FirstUnused(t.procs, 1); var creator := t.procs[t.cur].pid;
      && (t'.parents[k] == creator <==> creator > 0 || t.parents[k] == 0)
      && (forall i :: 0 <= i < PROC_MAX && i != k ==> t'.parents[i] == t.parents[i])
  {}

  lemma SweptKeepsInv(t: Table)
    requires SchedInv(t) && t.cur == 0
    ensures SchedInv(Swept(t))
  {}

  lemma WaitKeepsInv(t: Table, k: nat)
    requires SchedInv(t) && 1 <= k < PROC_MAX
    ensures SchedInv(WaitFor(t, k)) && WaitFor(t, k).base == t.base
  {
    hide Scheduled;
    if t.procs[k].state == Ready || t.procs[k].state == Running {
      ScheduleKeepsInv(t);
    }
  }

  /** Every operation keeps the scheduler's invariant, whatever happens to pids. */
  lemma StepKeepsInv(t: Table, op: Op)
    requires SchedInv(t) && Enabled(t, op)
    ensures SchedInv(Step(t, op)) && Step(t, op).base == t.base
  {
    hide NextReady, Ahead, FirstUnused, SwitchTo;
    match op
    case DoCreate(entry) => CreateOutcome(t, entry);
    case DoYield => ScheduleKeepsInv(t);
    case DoExit(code) => ExitFindsSuccessor(t, code);
    case DoReapAll => SweptKeepsInv(t);
    case DoWait(k) => WaitKeepsInv(t, k);
  }

  // ---- pids ----

  /** No slot changes its pid, and no unused slot comes into use. */
  ghost predicate SamePids(t: Table, t': Table)
    requires Shape(t)
  {
    && Shape(t') && t'.nextPid == t.nextPid
    && forall i :: 0 <= i < PROC_MAX ==>
         t'.procs[i].pid == t.procs[i].pid && (t.procs[i].state == Unused ==> t'.procs[i].state == Unused)
  }

  lemma ScheduleKeepsPids(t: Table)
    requires SchedInv(t)
    ensures SamePids(t, Scheduled(t))
  {
    hide Scheduled, Rank;
    YieldOutcome(t);
  }

  lemma ExitKeepsPids(t: Table, code: int)
    requires SchedInv(t)
    ensures SamePids(t, Exited(t, code))
  {
    hide Exited, MarkZombie, NextReady;
    ExitFindsSuccessor(t, code);
  }

  /** Operations other than a successful creation move no pid. */
  lemma PidsStay(t: Table, op: Op)
    requires SchedInv(t) && Enabled(t, op) && !Creates(t, op)
    ensures SamePids(t, Step(t, op))
  {
    hide Scheduled, Exited, FirstUnused;
    match op
    case DoCreate(entry) =>
    case DoYield => ScheduleKeepsPids(t);
    case DoExit(code) => ExitKeepsPids(t, code);
    case DoReapAll =>
    case DoWait(k) => ScheduleKeepsPids(t);
  }

  /** A creation keeps every pid below the counter exactly if the counter does not wrap. Either way
      the new pid is then one that no slot holds, so pids stay distinct. */
  lemma CreationKeepsPidsIff(t: Table, op: Op)
    requires SchedInv(t) && PidsOk(t) && Creates(t, op)
    ensures PidsOk(Step(t, op)) <==> t.nextPid < 0xFFFF_FFFF
    ensures forall i :: 0 <= i < PROC_MAX ==> t.procs[i].pid != t.nextPid
    ensures DistinctPids(Step(t, op))
    ensures t.nextPid < 0xFFFF_FFFF ==> Step(t, op).nextPid == t.nextPid + 1
  {
    CreateOutcome(t, op.entry);
    var t' := Step(t, op);
    hide FirstUnused, Step;
    assert t'.procs[0].pid == 0;
  }

  /** With any counter, a creation keeps pids distinct exactly if no slot in use holds the next one. */
  lemma CreationKeepsDistinctIff(t: Table, op: Op)
    requires SchedInv(t) && DistinctPids(t) && Creates(t, op)
    ensures DistinctPids(Step(t, op)) <==> NextPidFree(t)
  {
    CreateOutcome(t, op.entry);
    hide FirstUnused, Created;
    var k, t' := FirstUnused(t.procs, 1), Step(t, op);
    forall i | 0 <= i < PROC_MAX && t.procs[i].state != Unused
      ensures t'.procs[i] == t.procs[i] && (t.procs[i].pid == t.nextPid ==> !DistinctPids(t'))
    {
      assert t'.procs[k].pid == t.nextPid && t'.procs[k].state == Ready;
      assert i < k || k < i;
    }
  }

  // ---- runs ----

  ghost predicate CanRun(t: Table, ops: seq<Op>)
    decreases ops
  {
    Shape(t) && (ops == [] || (Enabled(t, ops[0]) && CanRun(Step(t, ops[0]), ops[1..])))
  }

  function Run(t: Table, ops: seq<Op>): (r: Table)
    requires CanRun(t, ops)
    ensures Shape(r)
    decreases ops
  {
    if ops == [] then t else Run(Step(t, ops[0]), ops[1..])
  }

  /** The table after proc_init, with the esp0 that booting has set. */
  function Init(base: nat, bootEsp0: nat): Table {
    Table(base, seq(PROC_MAX, i => Proc(0, if i == 0 then Running else Unused, 0)),
          seq(PROC_MAX, i => 0), 0, 1, bootEsp0)
  }

  /** Over every run, of any length: exactly one slot is RUNNING and it is the current one, slot 0
      is READY or RUNNING, and esp0 is the current stack. */
  lemma {:induction false} RunKeepsInv(t: Table, ops: seq<Op>)
    requires SchedInv(t) && CanRun(t, ops)
    ensures SchedInv(Run(t, ops))
    decreases ops
  {
    hide SchedInv, Step, Enabled;
    if ops != [] {
      StepKeepsInv(t, ops[0]);
      RunKeepsInv(Step(t, ops[0]), ops[1..]);
    }
  }

  /** Successful creations along a run. */
  function Creations(t: Table, ops: seq<Op>): nat
    requires CanRun(t, ops)
    decreases ops
  {
    if ops == [] then 0
    else (if Creates(t, ops[0]) then 1 else 0) + Creations(Step(t, ops[0]), ops[1..])
  }

  /** Over every run whose successful creations do not use up the pids, pids stay distinct. */
  lemma {:induction false} RunKeepsPids(t: Table, ops: seq<Op>)
    requires SchedInv(t) && PidsOk(t) && CanRun(t, ops) && t.nextPid + Creations(t, ops) <= 0xFFFF_FFFF
    ensures PidsOk(Run(t, ops)) && Run(t, ops).nextPid == t.nextPid + Creations(t, ops)
    decreases ops
  {
    if ops != [] {
      var t' := Step(t, ops[0]);
      StepKeepsInv(t, ops[0]);
      if Creates(t, ops[0]) { CreationKeepsPidsIff(t, ops[0]); } else { PidsStay(t, ops[0]); }
      hide Step, Enabled, SchedInv, Creates;
      RunKeepsPids(t', ops[1..]);
    }
  }

  /** Pids are distinct in every table of the run. */
  ghost predicate DistinctAlong(t: Table, ops: seq<Op>)
    requires CanRun(t, ops)
    decreases ops
  {
    DistinctPids(t) && (ops == [] || DistinctAlong(Step(t, ops[0]), ops[1..]))
  }

  /** Every creation of the run finds the next pid free. */
  ghost predicate FreshAlong(t: Table, ops: seq<Op>)
    requires CanRun(t, ops)
    decreases ops
  {
    ops == [] || ((Creates(t, ops[0]) ==> NextPidFree(t)) && FreshAlong(Step(t, ops[0]), ops[1..]))
  }

  /** Over every run, pids are distinct throughout exactly if no creation hands out a pid in use. */
  lemma {:induction false} DistinctAlongIff(t: Table, ops: seq<Op>)
    requires SchedInv(t) && DistinctPids(t) && CanRun(t, ops)
    ensures DistinctAlong(t, ops) <==> FreshAlong(t, ops)
    decreases ops
  {
    hide Step, Enabled, SchedInv, Creates, DistinctPids, NextPidFree;
    if ops != [] {
      var t' := Step(t, ops[0]);
      StepKeepsInv(t, ops[0]);
      DistinctStep(t, ops[0]);
      if DistinctPids(t') {
        DistinctAlongIff(t', ops[1..]);
      } else {
        assert !DistinctAlong(t', ops[1..]);
      }
    }
  }

  lemma DistinctStep(t: Table, op: Op)
    requires SchedInv(t) && DistinctPids(t) && Enabled(t, op)
    ensures Shape(Step(t, op))
    ensures DistinctPids(Step(t, op)) <==> (Creates(t, op) ==> NextPidFree(t))
  {
    hide Step, Creates, Enabled;
    StepKeepsInv(t, op);
    if Creates(t, op) { CreationKeepsDistinctIff(t, op); } else { PidsStay(t, op); }
  }

  /** Runs from boot. */
  lemma BootRuns(base: nat, bootEsp0: nat, ops: seq<Op>)
    requires CanRun(Init(base, bootEsp0), ops)
    ensures SchedInv(Run(Init(base, bootEsp0), ops))
    ensures Creations(Init(base, bootEsp0), ops) < 0xFFFF_FFFF ==> PidsOk(Run(Init(base, bootEsp0), ops))
  {
    var t := Init(base, bootEsp0);
    assert SchedInv(t) && PidsOk(t);
    hide Init, CanRun, Run, Creations, SchedInv, PidsOk;
    RunKeepsInv(t, ops);
    if Creations(t, ops) < 0xFFFF_FFFF {
      RunKeepsPids(t, ops);
    }
  }

  // ---- a run that repeats a pid ----

  /** Nothing but the kernel's slot is in use. */
  ghost predicate Idle(t: Table) {
    SchedInv(t) && t.cur == 0 && forall i :: 1 <= i < PROC_MAX ==> t.procs[i].state == Unused
  }

  /** The shell starts a program and waits, the program exits, the shell reaps it. */
  function Round(entry: u32): seq<Op> {
    [DoCreate(entry), DoWait(1), DoExit(0), DoWait(1)]
  }

  function Rounds(entry: u32, n: nat): seq<Op> {
    if n == 0 then [] else Round(entry) + Rounds(entry, n - 1)
  }

  lemma {:induction false} RunAppend(t: Table, a: seq<Op>, b: seq<Op>)
    requires CanRun(t, a) && CanRun(Run(t, a), b)
    ensures CanRun(t, a + b) && Run(t, a + b) == Run(Run(t, a), b)
    decreases a
  {
    hide Step, Enabled, Shape;
    if a == [] {
      assert a + b == b;
    } else {
      assert (a + b)[0] == a[0] && (a + b)[1..] == a[1..] + b;
      RunAppend(Step(t, a[0]), a[1..], b);
    }
  }

  lemma RunFour(t: Table, a: Op, b: Op, c: Op, d: Op, t1: Table, t2: Table, t3: Table, t4: Table)
    requires Shape(t) && Enabled(t, a) && t1 == Step(t, a)
    requires Shape(t1) && Enabled(t1, b) && t2 == Step(t1, b)
    requires Shape(t2) && Enabled(t2, c) && t3 == Step(t2, c)
    requires Shape(t3) && Enabled(t3, d) && t4 == Step(t3, d) && Shape(t4)
    ensures CanRun(t, [a, b, c, d]) && Run(t, [a, b, c, d]) == t4
  {
    hide Step, Enabled, Shape;
    assert [a, b, c, d][1..] == [b, c, d] && [b, c, d][1..] == [c, d] && [c, d][1..] == [d] && [d][1..] == [];
    assert CanRun(t4, []) && CanRun(t3, [d]) && CanRun(t2, [c, d]) && CanRun(t1, [b, c, d]);
    assert Run(t4, []) == t4 && Run(t3, [d]) == t4 && Run(t2, [c, d]) == t4 && Run(t1, [b, c, d]) == t4;
  }

  /** Starting the only program: schedule then goes from the kernel to it, and from it back. */
  lemma RoundOutcome(t: Table, entry: u32)
    requires Idle(t) && ValidEntry(entry) && t.nextPid != 0
    ensures CanRun(t, Round(entry)) && Idle(Run(t, Round(entry)))
    ensures Run(t, Round(entry)).nextPid == Add32(t.nextPid, 1)
  {
    hide Scheduled, Created, Exited, NextReady;
    var t1 := Step(t, DoCreate(entry));
    CreateOutcome(t, entry);
    CreatedNext(t, entry);
    assert t1.procs[1] == Proc(t.nextPid, Ready, 0);
    var t2 := Step(t1, DoWait(1));
    YieldOutcome(t1);
    OnlyReady(t1, 1);
    assert t2.cur == 1 && t2.procs[1] == Proc(t.nextPid, Running, 0);
    var t3 := Step(t2, DoExit(0));
    ExitFindsSuccessor(t2, 0);
    assert t3.cur == 0 && t3.procs[1].state == Zombie;
    var t4 := Step(t3, DoWait(1));
    RunFour(t, DoCreate(entry), DoWait(1), DoExit(0), DoWait(1), t1, t2, t3, t4);
  }

  lemma CreatedNext(t: Table, entry: u32)
    requires Shape(t) && Creates(t, DoCreate(entry))
    ensures Created(t, entry).0.nextPid == Add32(t.nextPid, 1)
  {}

  lemma OnlyReady(t: Table, k: nat)
    requires SchedInv(t) && k < PROC_MAX && t.procs[k].state == Ready
    requires forall i :: 0 <= i < PROC_MAX && i != k ==> t.procs[i].state != Ready
    ensures SchedInv(Scheduled(t)) && Scheduled(t).cur == k
  {
    hide Scheduled;
    ScheduleKeepsInv(t);
    ScheduleRank(t, k);
  }

  lemma {:induction false} RoundsOutcome(t: Table, entry: u32, n: nat)
    requires Idle(t) && ValidEntry(entry) && 0 < t.nextPid && t.nextPid + n <= TWO32
    ensures CanRun(t, Rounds(entry, n)) && Idle(Run(t, Rounds(entry, n)))
    ensures Run(t, Rounds(entry, n)).nextPid == if t.nextPid + n == TWO32 then 0 else t.nextPid + n
    decreases n
  {
    hide Idle, Round, CanRun, Run;
    if n > 0 {
      RoundOutcome(t, entry);
      var t' := Run(t, Round(entry));
      if n == 1 { NoRounds(t', entry); } else { RoundsOutcome(t', entry, n - 1); }
      RunAppend(t, Round(entry), Rounds(entry, n - 1));
    } else {
      NoRounds(t, entry);
    }
  }

  lemma NoRounds(t: Table, entry: u32)
    requires Idle(t)
    ensures CanRun(t, Rounds(entry, 0)) && Run(t, Rounds(entry, 0)) == t
  {}

  /** From boot, starting and reaping one program after another uses up the pids after 2^32 - 1
      rounds; pids are still distinct then. The next creation repeats the kernel's pid 0. */
  lemma RepeatedPidExample(base: nat, bootEsp0: nat, entry: u32)
    requires ValidEntry(entry)
    ensures var t, ops := Init(base, bootEsp0), Rounds(entry, 0xFFFF_FFFF);
      && CanRun(t, ops) && DistinctPids(Run(t, ops)) && Run(t, ops).nextPid == 0
      && CanRun(t, ops + [DoCreate(entry)]) && !DistinctPids(Run(t, ops + [DoCreate(entry)]))
      && Run(t, ops + [DoCreate(entry)]).procs[1] == Proc(0, Ready, 0)
  {
    hide Rounds, CanRun, Run, Init;
    var t, ops := Init(base, bootEsp0), Rounds(entry, 0xFFFF_FFFF);
    InitIdle(base, bootEsp0);
    RoundsOutcome(t, entry, 0xFFFF_FFFF);
    var u := Run(t, ops);
    CreateOutcome(u, entry);
    IdleDistinct(u);
    CreationKeepsDistinctIff(u, DoCreate(entry));
    assert u.procs[0].pid == u.nextPid;
    RunOne(u, DoCreate(entry));
    RunAppend(t, ops, [DoCreate(entry)]);
  }

  lemma InitIdle(base: nat, bootEsp0: nat)
    ensures Idle(Init(base, bootEsp0)) && Init(base, bootEsp0).nextPid == 1
  {}

  lemma IdleDistinct(t: Table)
    requires Idle(t)
    ensures DistinctPids(t)
  {}

  lemma RunOne(t: Table, op: Op)
    requires Shape(t) && Enabled(t, op) && Shape(Step(t, op))
    ensures CanRun(t, [op]) && Run(t, [op]) == Step(t, op)
  {
    assert CanRun(Step(t, op), []) && Run(Step(t, op), []) == Step(t, op);
  }

  // ---- parents ----

  /** Every creation of the run is made by the kernel's own slot, as the shell does it. */
  ghost predicate KernelCreates(t: Table, ops: seq<Op>)
    requires CanRun(t, ops)
    decreases ops
  {
    ops == [] || ((Creates(t, ops[0]) ==> t.cur == 0) && KernelCreates(Step(t, ops[0]), ops[1..]))
  }

  /** Then no parent is ever recorded. */
  lemma {:induction false} ParentsStayZero(t: Table, ops: seq<Op>)
    requires SchedInv(t) && CanRun(t, ops) && KernelCreates(t, ops)
    requires forall i :: 0 <= i < PROC_MAX ==> t.parents[i] == 0
    ensures forall i :: 0 <= i < PROC_MAX ==> Run(t, ops).parents[i] == 0
    decreases ops
  {
    hide Step, Enabled, SchedInv, Creates;
    if ops != [] {
      StepKeepsInv(t, ops[0]);
      ParentsStep(t, ops[0]);
      ParentsStayZero(Step(t, ops[0]), ops[1..]);
    }
  }

  /** Only a creation by a slot with a pid records a parent. */
  lemma ParentsStep(t: Table, op: Op)
    requires SchedInv(t) && Enabled(t, op) && (Creates(t, op) ==> t.cur == 0)
    ensures Step(t, op).parents == t.parents
  {
    hide NextReady, Ahead;
  }

  /** The steps in which schedule is called: yields, exits of a process, turns of a waiting shell. */
  predicate Dispatches(t: Table, op: Op)
    requires Shape(t) && Enabled(t, op)
  {
    match op
    case DoYield => true
    case DoExit(_) => t.procs[t.cur].pid != 0
    case DoWait(k) => t.procs[k].state == Ready || t.procs[k].state == Running
    case _ => false
  }

  function DispatchCount(t: Table, ops: seq<Op>): nat
    requires CanRun(t, ops)
    decreases ops
  {
    if ops == [] then 0
    else (if Dispatches(t, ops[0]) then 1 else 0) + DispatchCount(Step(t, ops[0]), ops[1..])
  }

  /** One step seen from a slot that waits. */
  lemma WaitingStep(t: Table, op: Op, k: nat)
    requires SchedInv(t) && Enabled(t, op) && k < PROC_MAX && t.procs[k].state == Ready
    ensures var t' := Step(t, op);
      && Shape(t')
      && (if Dispatches(t, op) then t'.cur == k || (t'.procs[k].state == Ready && Rank(k, t'.cur) < Rank(k, t.cur))
          else t'.procs[k].state == Ready && t'.cur == t.cur)
  {
    hide Ahead, Rank, SwitchTo, NextReady, Scheduled;
    match op
    case DoYield => ScheduleRank(t, k);
    case DoExit(code) => ScheduleRank(MarkZombie(t, code), k);
    case DoWait(j) => ScheduleRank(t, k);
    case _ =>
  }

  /** A READY slot runs after at most its rank, so at most 15, calls of schedule, whatever else
      happens in between: the lemma points out the moment. */
  lemma {:induction false} BoundedWaiting(t: Table, ops: seq<Op>, k: nat) returns (n: nat)
    requires SchedInv(t) && CanRun(t, ops) && k < PROC_MAX && t.procs[k].state == Ready
    requires DispatchCount(t, ops) >= Rank(k, t.cur)
    ensures n <= |ops| && CanRun(t, ops[..n])
    ensures Run(t, ops[..n]).cur == k && Run(t, ops[..n]).procs[k].state == Running
    ensures DispatchCount(t, ops[..n]) <= Rank(k, t.cur) <= 15
    decreases ops
  {
    assert k != t.cur && Rank(k, t.cur) >= 1;
    hide Step, Enabled, Dispatches, Rank, Ahead;
    var t' := Step(t, ops[0]);
    WaitingStep(t, ops[0], k);
    StepKeepsInv(t, ops[0]);
    if t'.cur == k {
      n := 1;
      assert ops[..1][1..] == [];
      assert CanRun(t', []);
    } else {
      var m := BoundedWaiting(t', ops[1..], k);
      n := m + 1;
      assert ops[..n][1..] == ops[1..][..m];
    }
  }

  // ---- the code ----

  class Procs {
    const base: nat
    const procs: array<Proc>
    const parents: array<u32>
    var current: nat
    var nextPid: u32
    var esp0: nat

    ghost function View(): Table
      reads this, procs, parents
    {
      Table(base, procs[..], parents[..], current, nextPid, esp0)
    }

    constructor (base: nat, bootEsp0: nat)
      ensures fresh(procs) && fresh(parents) && View() == Init(base, bootEsp0)
    {
      this.base := base;
      procs := new Proc[PROC_MAX](_ => Proc(0, Unused, 0));
      parents := new u32[PROC_MAX](_ => 0);
      current, nextPid, esp0 := 0, 1, bootEsp0;
      new;
      ProcInit();
    }

    method ProcInit()
      requires procs.Length == parents.Length == PROC_MAX
      modifies procs, parents, `current
      ensures current == 0 && nextPid == old(nextPid) && esp0 == old(esp0)
      ensures forall i :: 0 <= i < PROC_MAX ==>
        procs[i] == Proc(0, if i == 0 then Running else Unused, old(procs[i].exitCode)) && parents[i] == 0
    {
      for i := 0 to PROC_MAX
        invariant forall j :: 0 <= j < i ==> procs[j] == Proc(0, Unused, old(procs[j].exitCode)) && parents[j] == 0
        invariant forall j :: i <= j < PROC_MAX ==> procs[j] == old(procs[j])
      {
        procs[i] := procs[i].(state := Unused);
        procs[i] := procs[i].(pid := 0);
        parents[i] := 0;
      }
      procs[0] := procs[0].(pid := 0);
      procs[0] := procs[0].(state := Running);
      current := 0;
    }

    /** The table part of proc_create; KernelRuns.FabricateStack is the rest. */
    method ProcCreate(entry: u32) returns (pid: int)
      requires Shape(View())
      modifies procs, parents, `nextPid
      ensures (View(), pid) == Created(old(View()), entry)
    {
      if entry == 0 { return -1; }
      if entry < USER_START || entry >= USER_END { return -1; }
      var slot := 1;
      while slot < PROC_MAX && procs[slot].state != Unused
        invariant 1 <= slot <= FirstUnused(procs[..], 1)
      {
        slot := slot + 1;
      }
      if slot == PROC_MAX { return -1; }
      assert procs[..][slot].state == Unused;
      var mine := nextPid;
      procs[slot] := procs[slot].(pid := mine);
      nextPid := Add32(nextPid, 1);
      procs[slot] := procs[slot].(exitCode := 0);
      if procs[current].pid > 0 { parents[slot] := procs[current].pid; }
      procs[slot] := procs[slot].(state := Ready);
      pid := ToInt32(mine);
      assert procs[..] == old(procs[..])[slot := Proc(mine, Ready, 0)];
    }

    method Schedule()
      requires Shape(View())
      modifies procs, `current, `esp0
      ensures View() == Scheduled(old(View()))
    {
      hide Ahead, NextReady;
      var cur := current;
      var nextSlot := -1;
      var i := 1;
      while i <= PROC_MAX && nextSlot < 0
        invariant 1 <= i <= PROC_MAX + 1 && unchanged(procs, this)
        invariant nextSlot < 0 ==> nextSlot == -1 && i <= NextReady(procs[..], cur, 1)
        invariant nextSlot >= 0 ==> NextReady(procs[..], cur, 1) == i - 1 && nextSlot == Ahead(cur, i - 1)
      {
        var idx := (cur + i) % PROC_MAX;
        assert idx == Ahead(cur, i) && procs[..][Ahead(cur, i)] == procs[idx];
        if procs[idx].state == Ready { nextSlot := idx; }
        i := i + 1;
      }
      if nextSlot < 0 {
        if procs[cur].state != Running && cur != 0 {
          nextSlot := 0;
          if procs[0].state != Ready && procs[0].state != Running { return; }
        } else {
          return;
        }
      }
      if nextSlot == cur { return; }
      if procs[cur].state == Running { procs[cur] := procs[cur].(state := Ready); }
      procs[nextSlot] := procs[nextSlot].(state := Running);
      if nextSlot != 0 { esp0 := KStackTop(base, nextSlot); }
      current := nextSlot;
    }

    method ProcExit(code: int)
      requires Shape(View())
      modifies procs, `current, `esp0
      ensures View() == Exited(old(View()), code)
    {
      if procs[current].pid == 0 { return; }
      procs[current] := procs[current].(state := Zombie);
      procs[current] := procs[current].(exitCode := code);
      assert View() == MarkZombie(old(View()), code);
      Schedule();
    }

    method Sweep()
      requires Shape(View())
      modifies procs
      ensures View() == Swept(old(View()))
    {
      for i := 1 to PROC_MAX
        invariant forall j :: 0 <= j < PROC_MAX ==>
          procs[j] == if 1 <= j < i then Reaped(old(procs[j])) else old(procs[j])
      {
        if procs[i].state == Zombie { procs[i] := procs[i].(state := Unused); }
      }
    }
  }
}
