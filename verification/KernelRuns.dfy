/** Process table and machine together: what a process finds when it gets the processor back,
    over every run of dispatches, creations, exits, reaps and arbitrary code of the running process. */
module KernelRuns {
  import opened Words
  import opened Cpu
  import opened ProcTable

  /** Where things are, in words: the process table from table on, and the boot stack of slot 0.
      trapret is the address of that routine. */
  datatype Layout = Layout(table: nat, bootLo: nat, bootHi: nat, trapret: u32)

  ghost predicate LayoutOk(l: Layout, m: seq<u32>) {
    && l.table + 2060 * PROC_MAX <= |m| && 4 * |m| < TWO32
    && l.bootLo <= l.bootHi <= |m|
    && (l.bootHi <= l.table || l.table + 2060 * PROC_MAX <= l.bootLo)
  }

  /** First word of the 2060 words of the struct process of slot k. */
  function ProcW(l: Layout, k: nat): nat { l.table + 2060 * k }

  function StackLo(l: Layout, k: nat): nat { if k == 0 then l.bootLo else ProcW(l, k) + KSTACK_OFF / 4 }
  function StackHi(l: Layout, k: nat): nat {
    if k == 0 then l.bootHi else ProcW(l, k) + (KSTACK_OFF + PROC_KSTACK_SZ) / 4
  }
  function CtxW(l: Layout, k: nat): nat { ProcW(l, k) + CTX_OFF / 4 }
  function UserTop(l: Layout, k: nat): nat { 4 * ProcW(l, k) + USTACK_OFF + 4096 }

  /** The words slot k resumes from: its kernel stack and its saved context pointer. */
  predicate Owned(l: Layout, k: nat, w: nat) {
    StackLo(l, k) <= w < StackHi(l, k) || w == CtxW(l, k)
  }

  lemma OwnedDisjoint(l: Layout, m: seq<u32>, j: nat, k: nat, w: nat)
    requires LayoutOk(l, m) && j < PROC_MAX && k < PROC_MAX && j != k && Owned(l, k, w)
    ensures !Owned(l, j, w) && w < |m|
  {}

  /** The stack proc_create writes for slot k, with the two pointers into it. */
  function Fabricated(l: Layout, m: Memory, k: nat, entry: u32): Memory
    requires 1 <= k < PROC_MAX && CtxW(l, k) + 1 < |m| && UserTop(l, k) < TWO32
  {
    var top := StackHi(l, k);
    Spill(m, top, NewStack(entry, UserTop(l, k), l.trapret))[CtxW(l, k) + 1 := 4 * (top - 19)][CtxW(l, k) := 4 * (top - 24)]
  }

  method StoreFour(mem: array<u32>, w: nat, a: u32, b: u32, c: u32, d: u32)
    requires w + 4 <= mem.Length
    modifies mem
    ensures mem[..] == Spill(old(mem[..]), w + 4, [a, b, c, d])
  {
    mem[w] := a;
    mem[w + 1] := b;
    mem[w + 2] := c;
    mem[w + 3] := d;
  }

  /** The stores of proc_create, field by field: segments, general registers, interrupt words,
      what iret takes, and below them the context for swtch. */
  method FabricateStack(l: Layout, mem: array<u32>, k: nat, entry: u32)
    requires LayoutOk(l, mem[..]) && 1 <= k < PROC_MAX
    modifies mem
    ensures mem[..] == Fabricated(l, old(mem[..]), k, entry)
  {
    hide Spill;
    ghost var m := mem[..];
    ghost var top := StackHi(l, k);
    var f := NewFrame(entry, UserTop(l, k));
    var sp := StackHi(l, k) - 19;
    var tf := sp;
    StoreFour(mem, tf, f.gs, f.fs, f.es, f.ds);
    StoreFour(mem, tf + 4, f.edi, f.esi, f.ebp, f.pushedEsp);
    SpillAbove(m, tf + 8, [f.edi, f.esi, f.ebp, f.pushedEsp], [f.gs, f.fs, f.es, f.ds]);
    StoreFour(mem, tf + 8, f.ebx, f.edx, f.ecx, f.eax);
    ghost var ws := [f.gs, f.fs, f.es, f.ds] + [f.edi, f.esi, f.ebp, f.pushedEsp];
    SpillAbove(m, tf + 12, [f.ebx, f.edx, f.ecx, f.eax], ws);
    ws := ws + [f.ebx, f.edx, f.ecx, f.eax];
    StoreFour(mem, tf + 12, f.intNo, f.errCode, f.eip, f.cs);
    SpillAbove(m, tf + 16, [f.intNo, f.errCode, f.eip, f.cs], ws);
    ws := ws + [f.intNo, f.errCode, f.eip, f.cs];
    StoreThree(mem, tf + 16, f.eflags, f.userEsp, f.userSs);
    SpillAbove(m, tf + 19, [f.eflags, f.userEsp, f.userSs], ws);
    assert ws + [f.eflags, f.userEsp, f.userSs] == FrameWords(f);
    sp := sp - 5;
    StoreFour(mem, sp, 0, 0, 0, 0);
    ghost var m1 := mem[..];
    mem[sp + 4] := l.trapret;
    StackWords(m, top, f, l.trapret, m1, mem[..]);
    ghost var m2: seq<u32> := mem[..];
    mem[CtxW(l, k) + 1] := 4 * tf;
    assert mem[..] == m2[CtxW(l, k) + 1 := 4 * tf];
    ghost var m3: seq<u32> := mem[..];
    mem[CtxW(l, k)] := 4 * sp;
    assert mem[..] == m3[CtxW(l, k) := 4 * sp];
  }

  lemma StackWords(m: seq<u32>, top: nat, f: Trapframe, trapret: u32, m1: seq<u32>, m2: seq<u32>)
    requires 24 <= top <= |m|
    requires m1 == Spill(Spill(m, top, FrameWords(f)), top - 20, [0, 0, 0, 0])
    requires m2 == m1[top - 20 := trapret]
    ensures m2 == Spill(m, top, [0, 0, 0, 0, trapret] + FrameWords(f))
  {
    hide FrameWords;
    assert ([0, 0, 0, 0, trapret] + FrameWords(f))[4] == trapret;
  }

  method StoreThree(mem: array<u32>, w: nat, a: u32, b: u32, c: u32)
    requires w + 3 <= mem.Length
    modifies mem
    ensures mem[..] == Spill(old(mem[..]), w + 3, [a, b, c])
  {
    mem[w] := a;
    mem[w + 1] := b;
    mem[w + 2] := c;
  }

  // ---- the combined machine ----

  datatype Kernel = Kernel(t: Table, r: Regs, m: Memory)

  datatype Event = Compute | TableOp(op: Op)

  /** The saved context pointer of slot k points at five words of its own kernel stack. */
  ghost predicate Parked(l: Layout, m: seq<u32>, k: nat)
    requires CtxW(l, k) < |m|
  {
    var c := m[CtxW(l, k)];
    c % 4 == 0 && StackLo(l, k) <= c / 4 && c / 4 + 5 <= StackHi(l, k)
  }

  ghost predicate KInv(l: Layout, s: Kernel) {
    && SchedInv(s.t) && LayoutOk(l, s.m) && s.t.base == 4 * l.table
    && forall k :: 0 <= k < PROC_MAX && s.t.procs[k].state == Ready ==> Parked(l, s.m, k)
  }

  /** Boot satisfies the invariant, with anything on the stacks. */
  lemma BootKInv(l: Layout, bootEsp0: nat, r: Regs, m: Memory)
    requires LayoutOk(l, m)
    ensures KInv(l, Kernel(ProcTable.Init(4 * l.table, bootEsp0), r, m))
  {}

  /** While a created process runs, the task state segment names the end of its kernel stack. */
  lemma Esp0IsStackEnd(l: Layout, s: Kernel)
    requires KInv(l, s) && s.t.cur != 0
    ensures s.t.esp0 == 4 * StackHi(l, s.t.cur)
  {
    hide Parked, KStackTop, StackHi;
    StackEnd(l, s.t.cur);
  }

  lemma StackEnd(l: Layout, k: nat)
    requires k != 0
    ensures KStackTop(4 * l.table, k) == 4 * StackHi(l, k)
  {}

  /** The running process stands at the first instruction of swtch(&prev->ctx, next->ctx), on its
      own kernel stack with room for the four registers. */
  ghost predicate AtSwtch(l: Layout, s: Kernel, next: nat)
    requires LayoutOk(l, s.m) && Shape(s.t) && next < PROC_MAX
  {
    var w := s.r.esp / 4;
    && s.r.esp % 4 == 0 && Ring(s.r.cs) == 0
    && StackLo(l, s.t.cur) + 4 <= w && w + 3 <= StackHi(l, s.t.cur)
    && s.m[w + 1] == 4 * CtxW(l, s.t.cur)
    && s.m[w + 2] == s.m[CtxW(l, next)]
  }

  lemma AtSwtchCan(l: Layout, s: Kernel, next: nat)
    requires KInv(l, s) && next < PROC_MAX && s.t.procs[next].state == Ready && AtSwtch(l, s, next)
    ensures CanSwtch(s.r, s.m)
  {
    assert Parked(l, s.m, next);
  }

  /** Memory changes only outside what the waiting slots resume from. */
  ghost predicate SparesSleepers(l: Layout, s: Kernel, m': seq<u32>)
    requires LayoutOk(l, s.m) && Shape(s.t)
  {
    && |m'| == |s.m|
    && forall k: nat, w: nat :: k < PROC_MAX && k != s.t.cur && s.t.procs[k].state == Ready && Owned(l, k, w) && w < |m'|
         ==> m'[w] == s.m[w]
  }

  /** One step: any code of the running process, or a step of the table, which switches stacks
      when the current slot changes and builds a stack when a process is created. */
  ghost predicate Next(l: Layout, s: Kernel, ev: Event, s': Kernel)
    requires KInv(l, s)
  {
    match ev
    case Compute => s'.t == s.t && SparesSleepers(l, s, s'.m)
    case TableOp(op) =>
      && Enabled(s.t, op) && s'.t == Step(s.t, op)
      && if s'.t.cur != s.t.cur then
           s'.t.cur < PROC_MAX && AtSwtch(l, s, s'.t.cur)
           && (CanSwtch(s.r, s.m) ==> (s'.r, s'.m) == Swtched(s.r, s.m))
         else if Creates(s.t, op) then
           s'.r == s.r && s'.m == Fabricated(l, s.m, FirstUnused(s.t.procs, 1), op.entry)
         else s'.r == s.r && s'.m == s.m
  }

  lemma ScheduleSwitches(u: Table)
    requires Shape(u)
    ensures var t' := Scheduled(u);
      && Shape(t')
      && (t'.cur == u.cur ==> t' == u)
      && (t'.cur != u.cur ==> u.procs[t'.cur].state == Ready || (t'.cur == 0 && u.procs[0].state == Running))
      && forall k :: 0 <= k < PROC_MAX && k != u.cur && k != t'.cur ==> t'.procs[k] == u.procs[k]
  {
    hide Ahead, NextReady, KStackTop;
  }

  /** A step that changes the current slot hands it to a slot that was READY. */
  lemma SwitchesToReady(t: Table, op: Op)
    requires SchedInv(t) && Enabled(t, op) && Step(t, op).cur != t.cur
    ensures Shape(Step(t, op)) && t.procs[Step(t, op).cur].state == Ready
    ensures forall k :: 0 <= k < PROC_MAX && k != t.cur && k != Step(t, op).cur ==> Step(t, op).procs[k] == t.procs[k]
  {
    hide Scheduled, FirstUnused, KStackTop;
    ScheduleSwitches(match op case DoExit(code) => MarkZombie(t, code) case _ => t);
  }

  /** A step that keeps the current slot changes another slot's state only from UNUSED to READY
      by a creation, or from ZOMBIE to UNUSED. */
  lemma OtherSlots(t: Table, op: Op, k: nat)
    requires SchedInv(t) && Enabled(t, op) && Step(t, op).cur == t.cur && k < PROC_MAX
    ensures Shape(Step(t, op))
    ensures t.procs[k].state == Ready ==> Step(t, op).procs[k] == t.procs[k]
    ensures Step(t, op).procs[k].state == Ready && t.procs[k].state != Ready ==>
      Creates(t, op) && k == FirstUnused(t.procs, 1) && k >= 1
  {
    hide Scheduled, NextReady, KStackTop;
    match op
    case DoYield => ScheduleSwitches(t);
    case DoExit(code) => ExitFindsSuccessor(t, code);
    case DoWait(j) => ScheduleSwitches(t);
    case _ =>
  }

  /** swtch writes only the outgoing process's own stack and context pointer, and parks it. */
  lemma SwtchIsLocal(l: Layout, s: Kernel, next: nat, w: nat)
    requires KInv(l, s) && next < PROC_MAX && AtSwtch(l, s, next) && CanSwtch(s.r, s.m)
    requires w < |s.m| && !Owned(l, s.t.cur, w)
    ensures Swtched(s.r, s.m).1[w] == s.m[w]
  {}

  lemma SwtchParks(l: Layout, s: Kernel, next: nat)
    requires KInv(l, s) && next < PROC_MAX && AtSwtch(l, s, next) && CanSwtch(s.r, s.m)
    ensures var m' := Swtched(s.r, s.m).1; var k := s.t.cur;
      && Parked(l, m', k)
      && StackLo(l, k) <= (s.r.esp - 16) / 4 && (s.r.esp - 16) / 4 + 5 <= StackHi(l, k) <= |s.m|
      && m'[CtxW(l, k)] == s.r.esp - 16
      && CtxAt(m', s.r.esp / 4 - 4) == Context(s.r.edi, s.r.esi, s.r.ebx, s.r.ebp, s.m[s.r.esp / 4])
  {
    AtSwtchBounds(l, s, next);
    var w := s.r.esp / 4;
    assert s.r.esp - 16 == 4 * (w - 4);
    hide Swtched, CanSwtch, KInv, LayoutOk, AtSwtch, Parked, StackLo, StackHi, CtxW;
    SwtchSaves(s.r, s.m, w, CtxW(l, s.t.cur));
    ParkedAt(l, Swtched(s.r, s.m).1, s.t.cur, w - 4);
  }

  /** Where the stack pointer and the two arguments of swtch lie. */
  lemma AtSwtchBounds(l: Layout, s: Kernel, next: nat)
    requires KInv(l, s) && next < PROC_MAX && AtSwtch(l, s, next)
    ensures var w := s.r.esp / 4; var k := s.t.cur;
      && s.r.esp == 4 * w && StackLo(l, k) + 4 <= w && w + 3 <= StackHi(l, k) <= |s.m|
      && CtxW(l, k) < |s.m| && s.m[w + 1] == 4 * CtxW(l, k)
      && !(StackLo(l, k) <= CtxW(l, k) < StackHi(l, k))
  {
    hide Parked;
    CtxOffStack(l, s.m, s.t.cur);
  }

  /** swtch leaves a context under the return address, and its address where its first argument
      points, here word at. */
  lemma SwtchSaves(r: Regs, m: Memory, w: nat, at: nat)
    requires CanSwtch(r, m) && r.esp == 4 * w && m[w + 1] == 4 * at && !(w - 4 <= at <= w)
    ensures w >= 4 && at < |m| && Swtched(r, m).1[at] == r.esp - 16
    ensures CtxAt(Swtched(r, m).1, w - 4) == Context(r.edi, r.esi, r.ebx, r.ebp, m[w])
  {
    assert m[w + 1] / 4 == at;
  }

  lemma ParkedAt(l: Layout, m: seq<u32>, k: nat, c: nat)
    requires CtxW(l, k) < |m| && m[CtxW(l, k)] == 4 * c && StackLo(l, k) <= c && c + 5 <= StackHi(l, k)
    ensures Parked(l, m, k)
  {}

  lemma CtxOffStack(l: Layout, m: seq<u32>, k: nat)
    requires LayoutOk(l, m) && k < PROC_MAX
    ensures !(StackLo(l, k) <= CtxW(l, k) < StackHi(l, k)) && CtxW(l, k) < |m|
  {}

  /** Seen from a slot that waits: after one step it still waits with the same words to resume
      from, or it has just been switched to and those words have not changed. */
  lemma StepSparesSleeper(l: Layout, s: Kernel, ev: Event, s': Kernel, k: nat)
    requires KInv(l, s) && Next(l, s, ev, s')
    requires k < PROC_MAX && k != s.t.cur && s.t.procs[k].state == Ready
    ensures |s'.m| == |s.m| && Shape(s'.t)
    ensures s'.t.cur != k ==> s'.t.procs[k].state == Ready
    ensures forall w :: 0 <= w < |s.m| && Owned(l, k, w) ==> s'.m[w] == s.m[w]
  {
    hide Step, Swtched, CanSwtch, Fabricated, Parked, AtSwtch;
    match ev
    case Compute =>
    case TableOp(op) =>
      if s'.t.cur != s.t.cur {
        SwitchesToReady(s.t, op);
        AtSwtchCan(l, s, s'.t.cur);
        forall w | 0 <= w < |s.m| && Owned(l, k, w)
          ensures s'.m[w] == s.m[w]
        {
          OwnedDisjoint(l, s.m, s.t.cur, k, w);
          SwtchIsLocal(l, s, s'.t.cur, w);
        }
      } else {
        OtherSlots(s.t, op, k);
        if Creates(s.t, op) {
          CreationIsLocal(l, s, k, op.entry);
        }
      }
  }

  lemma CreationIsLocal(l: Layout, s: Kernel, k: nat, entry: u32)
    requires KInv(l, s) && k < PROC_MAX && s.t.procs[k].state != Unused
    requires FirstUnused(s.t.procs, 1) < PROC_MAX
    ensures var m' := Fabricated(l, s.m, FirstUnused(s.t.procs, 1), entry);
      |m'| == |s.m| && forall w :: 0 <= w < |m'| && Owned(l, k, w) ==> m'[w] == s.m[w]
  {
    hide Parked, NewStack;
    var j := FirstUnused(s.t.procs, 1);
    assert j != k;
    var m' := Fabricated(l, s.m, j, entry);
    forall w | 0 <= w < |m'| && Owned(l, k, w)
      ensures m'[w] == s.m[w]
    {
      OwnedDisjoint(l, s.m, j, k, w);
    }
  }

  lemma ComputeKeepsKInv(l: Layout, s: Kernel, s': Kernel)
    requires KInv(l, s) && Next(l, s, Compute, s')
    ensures KInv(l, s')
  {
    forall k | 0 <= k < PROC_MAX && s'.t.procs[k].state == Ready
      ensures Parked(l, s'.m, k)
    {
      StepSparesSleeper(l, s, Compute, s', k);
      assert Parked(l, s.m, k) && Owned(l, k, CtxW(l, k));
    }
  }

  /** Every step keeps the combined invariant. */
  lemma StepKeepsKInv(l: Layout, s: Kernel, ev: Event, s': Kernel)
    requires KInv(l, s) && Next(l, s, ev, s')
    ensures KInv(l, s')
  {
    match ev
    case Compute => ComputeKeepsKInv(l, s, s');
    case TableOp(op) =>
      StepKeepsInv(s.t, op);
      TableStepParks(l, s, op, s');
  }

  lemma TableStepParks(l: Layout, s: Kernel, op: Op, s': Kernel)
    requires KInv(l, s) && Next(l, s, TableOp(op), s') && SchedInv(s'.t)
    ensures LayoutOk(l, s'.m)
    ensures forall k :: 0 <= k < PROC_MAX && s'.t.procs[k].state == Ready ==> Parked(l, s'.m, k)
  {
    hide Step, Swtched, CanSwtch, Fabricated, AtSwtch;
    OtherSlotsSize(l, s, op, s');
    if s'.t.cur != s.t.cur {
      SwitchesToReady(s.t, op);
      AtSwtchCan(l, s, s'.t.cur);
      SwtchParks(l, s, s'.t.cur);
    }
    forall k | 0 <= k < PROC_MAX && s'.t.procs[k].state == Ready
      ensures |s'.m| == |s.m| && Parked(l, s'.m, k)
    {
      if k == s.t.cur {
        if s'.t.cur == s.t.cur { assert false; }
      } else if s.t.procs[k].state == Ready {
        StepSparesSleeper(l, s, TableOp(op), s', k);
        assert Parked(l, s.m, k) && Owned(l, k, CtxW(l, k));
      } else {
        if s'.t.cur == s.t.cur {
          OtherSlots(s.t, op, k);
          CreationParks(l, s, op.entry);
        }
      }
    }
  }

  lemma CreationParks(l: Layout, s: Kernel, entry: u32)
    requires KInv(l, s) && FirstUnused(s.t.procs, 1) < PROC_MAX
    ensures var k := FirstUnused(s.t.procs, 1);
      CtxW(l, k) < |s.m| && Parked(l, Fabricated(l, s.m, k, entry), k)
  {
    hide NewStack, SchedInv;
  }

  lemma OtherSlotsSize(l: Layout, s: Kernel, op: Op, s': Kernel)
    requires KInv(l, s) && Next(l, s, TableOp(op), s')
    ensures |s'.m| == |s.m|
  {
    if s'.t.cur != s.t.cur {
      SwitchesToReady(s.t, op);
      AtSwtchCan(l, s, s'.t.cur);
    }
  }

  /** Writing words of one's own stack is a step. */
  lemma OwnWrites(l: Layout, s: Kernel, s': Kernel, own: seq<nat>)
    requires KInv(l, s) && s'.t == s.t && |s'.m| == |s.m|
    requires forall w :: w in own ==> Owned(l, s.t.cur, w)
    requires forall w :: 0 <= w < |s.m| && w !in own ==> s'.m[w] == s.m[w]
    ensures Next(l, s, Compute, s')
  {
    hide Owned, Parked;
    forall k: nat, w: nat | k < PROC_MAX && k != s.t.cur && Owned(l, k, w) && w < |s.m|
      ensures s'.m[w] == s.m[w]
    {
      OwnedDisjoint(l, s.m, s.t.cur, k, w);
    }
  }

  /** Code that touches only its own stack of seven words or more can bring the running process to
      the call of swtch. */
  lemma CallsSwtch(l: Layout, s: Kernel, next: nat) returns (s1: Kernel)
    requires KInv(l, s) && next < PROC_MAX && next != s.t.cur && s.t.procs[next].state == Ready
    requires StackLo(l, s.t.cur) + 7 <= StackHi(l, s.t.cur)
    ensures Next(l, s, Compute, s1) && s1.t == s.t && KInv(l, s1) && AtSwtch(l, s1, next)
  {
    hide Parked;
    var cur := s.t.cur;
    var w := StackLo(l, cur) + 4;
    assert Owned(l, next, CtxW(l, next)) && CtxW(l, cur) < |s.m| && CtxW(l, next) < |s.m|;
    var m1: Memory := s.m[w + 1 := 4 * CtxW(l, cur)][w + 2 := s.m[CtxW(l, next)]];
    s1 := Kernel(s.t, s.r.(esp := 4 * w, cs := SEG_KCODE), m1);
    OwnWrites(l, s, s1, [w + 1, w + 2]);
    ComputeKeepsKInv(l, s, s1);
    OwnedDisjoint(l, s.m, cur, next, CtxW(l, next));
    hide KInv, Next;
  }

  /** A dispatch can always be carried out. */
  lemma DispatchCanHappen(l: Layout, s: Kernel, op: Op) returns (s1: Kernel, s2: Kernel)
    requires KInv(l, s) && Enabled(s.t, op) && Step(s.t, op).cur != s.t.cur
    requires StackLo(l, s.t.cur) + 7 <= StackHi(l, s.t.cur)
    ensures Next(l, s, Compute, s1)
    ensures KInv(l, s1) && Next(l, s1, TableOp(op), s2) && s2.t == Step(s.t, op)
  {
    hide Step, Swtched, CanSwtch, Parked, AtSwtch, LayoutOk, StackLo, StackHi;
    SwitchesToReady(s.t, op);
    s1 := CallsSwtch(l, s, Step(s.t, op).cur);
    AtSwtchCan(l, s1, Step(s.t, op).cur);
    var (r2, m2) := Swtched(s1.r, s1.m);
    s2 := Kernel(Step(s.t, op), r2, m2);
  }

  // ---- runs ----

  ghost predicate IsRun(l: Layout, ss: seq<Kernel>, evs: seq<Event>) {
    && |ss| == |evs| + 1
    && KInv(l, ss[0])
    && forall i :: 0 <= i < |evs| ==> KInv(l, ss[i]) ==> Next(l, ss[i], evs[i], ss[i + 1])
  }

  lemma {:induction false} RunKeepsKInv(l: Layout, ss: seq<Kernel>, evs: seq<Event>, i: nat)
    requires IsRun(l, ss, evs) && i <= |evs|
    ensures KInv(l, ss[i]) && LayoutOk(l, ss[i].m) && Shape(ss[i].t)
    ensures i < |evs| ==> Next(l, ss[i], evs[i], ss[i + 1])
  {
    hide Next, Parked;
    if i > 0 {
      RunKeepsKInv(l, ss, evs, i - 1);
      StepKeepsKInv(l, ss[i - 1], evs[i - 1], ss[i]);
    }
  }

  /** While a slot waits, the words it resumes from do not change. */
  lemma {:induction false} Asleep(l: Layout, ss: seq<Kernel>, evs: seq<Event>, a: nat, b: nat, k: nat)
    requires IsRun(l, ss, evs) && a <= b <= |evs| && k < PROC_MAX
    requires Shape(ss[a].t) && ss[a].t.procs[k].state == Ready
    requires forall i :: a <= i < b ==> ss[i].t.cur != k
    ensures |ss[b].m| == |ss[a].m| && Shape(ss[b].t)
    ensures ss[b].t.cur != k ==> ss[b].t.procs[k].state == Ready
    ensures forall w :: 0 <= w < |ss[a].m| && Owned(l, k, w) ==> ss[b].m[w] == ss[a].m[w]
    decreases b
  {
    hide KInv, Next, Owned;
    if a < b {
      Asleep(l, ss, evs, a, b - 1, k);
      RunKeepsKInv(l, ss, evs, b - 1);
      StepSparesSleeper(l, ss[b - 1], evs[b - 1], ss[b], k);
    }
  }

  /** The step that gives the processor back. */
  lemma SwitchIn(l: Layout, s: Kernel, ev: Event, s': Kernel, k: nat)
    requires KInv(l, s) && Next(l, s, ev, s') && s.t.cur != k && s'.t.cur == k
    requires k < PROC_MAX
    ensures s.t.procs[k].state == Ready && AtSwtch(l, s, k) && CanSwtch(s.r, s.m)
    ensures (s'.r, s'.m) == Swtched(s.r, s.m)
    ensures Ring(s.r.cs) == 0 && s.m[s.r.esp / 4 + 2] == s.m[CtxW(l, k)]
    ensures var c := s.m[CtxW(l, k)];
      && StackLo(l, k) <= c / 4 && c / 4 + 5 <= StackHi(l, k) <= |s.m|
      && s'.r.esp == c + 20 && Ring(s'.r.cs) == 0
      && CtxAt(s.m, c / 4) == Context(s'.r.edi, s'.r.esi, s'.r.ebx, s'.r.ebp, s'.r.eip)
  {
    hide Step, Swtched, CanSwtch, AtSwtch, Parked;
    match ev
    case Compute =>
    case TableOp(op) =>
      SwitchesToReady(s.t, op);
      AtSwtchCan(l, s, k);
      SwtchLoads(l, s, k);
  }

  /** What swtch loads is what the parked slot's context holds. */
  lemma SwtchLoads(l: Layout, s: Kernel, k: nat)
    requires KInv(l, s) && k < PROC_MAX && k != s.t.cur && s.t.procs[k].state == Ready
    requires AtSwtch(l, s, k) && CanSwtch(s.r, s.m)
    ensures Ring(s.r.cs) == 0 && s.m[s.r.esp / 4 + 2] == s.m[CtxW(l, k)] && Parked(l, s.m, k)
    ensures var c := s.m[CtxW(l, k)]; var r' := Swtched(s.r, s.m).0;
      && r'.esp == c + 20 && r'.cs == s.r.cs
      && StackLo(l, k) <= c / 4 && c / 4 + 5 <= StackHi(l, k) <= |s.m|
      && CtxAt(s.m, c / 4) == Context(r'.edi, r'.esi, r'.ebx, r'.ebp, r'.eip)
  {
    hide Spill;
    assert s.t.cur < PROC_MAX;
    hide SchedInv, StackLo, StackHi, CtxW;
    assert Parked(l, s.m, k);
    var c, m' := s.m[CtxW(l, k)] / 4, Swtched(s.r, s.m).1;
    forall w: nat | c <= w < c + 5
      ensures w < |s.m| && m'[w] == s.m[w]
    {
      assert Owned(l, k, w);
      OwnedDisjoint(l, s.m, s.t.cur, k, w);
      SwtchIsLocal(l, s, k, w);
    }
  }

  /** A process switched out at step i and back in at step j continues with the callee-saved
      registers it had, with the return address it had, and with its stack pointer just above it. */
  lemma Resume(l: Layout, ss: seq<Kernel>, evs: seq<Event>, i: nat, j: nat, k: nat)
    requires IsRun(l, ss, evs) && i < j <= |evs| && k < PROC_MAX
    requires ss[i].t.cur == k && ss[j].t.cur == k && (forall n :: i < n < j ==> ss[n].t.cur != k)
    requires i + 1 < j && Shape(ss[i + 1].t) && ss[i + 1].t.procs[k].state == Ready
    ensures ss[i].r.esp / 4 < |ss[i].m|
    ensures var before, after := ss[i].r, ss[j].r;
      && after.edi == before.edi && after.esi == before.esi
      && after.ebx == before.ebx && after.ebp == before.ebp
      && after.eip == ss[i].m[before.esp / 4]
      && after.esp == before.esp + 4
  {
    hide KInv, Next, AtSwtch, Parked, Swtched, CanSwtch;
    RunKeepsKInv(l, ss, evs, i);
    RunKeepsKInv(l, ss, evs, j - 1);
    SwitchOut(l, ss[i], evs[i], ss[i + 1]);
    Asleep(l, ss, evs, i + 1, j - 1, k);
    SwitchIn(l, ss[j - 1], evs[j - 1], ss[j], k);
    var c := ss[i].r.esp - 16;
    assert Owned(l, k, CtxW(l, k)) && CtxW(l, k) < |ss[i].m|;
    assert forall w: nat :: c / 4 <= w < c / 4 + 5 ==> Owned(l, k, w);
  }

  lemma SwitchOut(l: Layout, s: Kernel, ev: Event, s': Kernel)
    requires KInv(l, s) && Next(l, s, ev, s') && s'.t.cur != s.t.cur
    ensures var k := s.t.cur; var c := s.r.esp - 16;
      && |s'.m| == |s.m| && c >= 0 && c % 4 == 0 && s.r.esp / 4 < |s.m|
      && s'.m[CtxW(l, k)] == c
      && StackLo(l, k) <= c / 4 && c / 4 + 5 <= StackHi(l, k) <= |s.m|
      && CtxAt(s'.m, c / 4) == Context(s.r.edi, s.r.esi, s.r.ebx, s.r.ebp, s.m[s.r.esp / 4])
  {
    hide Step, Swtched, CanSwtch, Parked, StackLo, StackHi, CtxW;
    match ev
    case Compute =>
    case TableOp(op) =>
      SwitchesToReady(s.t, op);
      AtSwtchCan(l, s, s'.t.cur);
      SwtchParks(l, s, s'.t.cur);
  }

  /** A process created at step i and first dispatched at step j comes up in trapret, which enters
      ring 3 at its entry point with cleared registers, interrupts on, and its own user stack. */
  lemma FirstDispatch(l: Layout, ss: seq<Kernel>, evs: seq<Event>, i: nat, j: nat, entry: u32)
    requires IsRun(l, ss, evs) && i < j <= |evs|
    requires Shape(ss[i].t) && evs[i] == TableOp(DoCreate(entry)) && Creates(ss[i].t, DoCreate(entry))
    requires var k := FirstUnused(ss[i].t.procs, 1);
      ss[j].t.cur == k && forall n :: i <= n < j ==> ss[n].t.cur != k
    ensures var k := FirstUnused(ss[i].t.procs, 1); var s := ss[j];
      && s.r.eip == l.trapret
      && CanTrapRet(s.r, s.m)
      && UserTop(l, k) < TWO32
      && TrapReturned(s.r, s.m) ==
           Regs(0, 0, 0, 0, UserTop(l, k), 0, 0, 0, entry, 0x202, 0x1B, 0x23, 0x23, 0x23, 0x23, 0x23)
  {
    hide KInv, Next, AtSwtch, Parked, NewStack, Swtched, CanSwtch;
    var k := FirstUnused(ss[i].t.procs, 1);
    RunKeepsKInv(l, ss, evs, i);
    RunKeepsKInv(l, ss, evs, j - 1);
    var top := StackHi(l, k);
    CreationBuilds(l, ss[i], entry, ss[i + 1]);
    var ws := NewStack(entry, UserTop(l, k), l.trapret);
    Asleep(l, ss, evs, i + 1, j, k);
    Asleep(l, ss, evs, i + 1, j - 1, k);
    SwitchIn(l, ss[j - 1], evs[j - 1], ss[j], k);
    forall w | top - 24 <= w < top
      ensures ss[j].m[w] == ws[w - (top - 24)]
    {
      assert Owned(l, k, w);
    }
    assert Owned(l, k, CtxW(l, k));
    NewStackStartsProgram(ss[j - 1].r, ss[j - 1].m, top, entry, UserTop(l, k), l.trapret);
  }

  lemma CreationBuilds(l: Layout, s: Kernel, entry: u32, s': Kernel)
    requires KInv(l, s) && Next(l, s, TableOp(DoCreate(entry)), s') && Creates(s.t, DoCreate(entry))
    ensures var k := FirstUnused(s.t.procs, 1); var top := StackHi(l, k);
      && 1 <= k < PROC_MAX && k != s.t.cur && s'.t.cur == s.t.cur
      && Shape(s'.t) && s'.t.procs[k].state == Ready
      && 24 <= top <= CtxW(l, k) < |s'.m| == |s.m| && UserTop(l, k) < TWO32
      && s'.m[CtxW(l, k)] == 4 * (top - 24)
      && forall w :: top - 24 <= w < top ==> s'.m[w] == NewStack(entry, UserTop(l, k), l.trapret)[w - (top - 24)]
  {
    hide NewStack, Parked;
  }

  // ---- preemption ----

  /** An interrupt takes the running user process in: its trap frame stands at the end of the
      kernel stack the task state segment names. What Cpu.Machine.InterruptEntry does to memory,
      but for the argument of the call below the frame. */
  ghost predicate Interrupted(l: Layout, s: Kernel, intNo: u32, errCode: u32, s': Kernel)
    requires KInv(l, s) && s.t.cur != 0
  {
    Esp0IsStackEnd(l, s);
    UserMode(s.r) && s'.t == s.t
    && s'.m == Spill(s.m, s.t.esp0 / 4, FrameWords(FrameOf(s.r, s.t.esp0, intNo, errCode)))
  }

  predicate InFrame(l: Layout, k: nat, w: nat) {
    StackHi(l, k) - 19 <= w < StackHi(l, k)
  }

  /** Being interrupted is one of the things a running process may do. */
  lemma InterruptIsStep(l: Layout, s: Kernel, intNo: u32, errCode: u32, s': Kernel)
    requires KInv(l, s) && s.t.cur != 0 && Interrupted(l, s, intNo, errCode, s')
    ensures Next(l, s, Compute, s')
  {
    hide FrameWords, Spill, Parked;
    Esp0IsStackEnd(l, s);
    forall k: nat, w: nat | k < PROC_MAX && k != s.t.cur && Owned(l, k, w) && w < |s.m|
      ensures s'.m[w] == s.m[w]
    {
      OwnedDisjoint(l, s.m, s.t.cur, k, w);
    }
  }

  /** The kernel code that runs for slot k stays below the frame: it does not write it, and its
      stack pointer is no higher when it calls swtch. */
  ghost predicate BelowFrame(l: Layout, s: Kernel, ev: Event, s': Kernel, k: nat) {
    s.t.cur == k ==>
      match ev
      case Compute => forall w :: 0 <= w < |s.m| && w < |s'.m| && InFrame(l, k, w) ==> s'.m[w] == s.m[w]
      case TableOp(_) => s'.t.cur != k ==> s.r.esp <= 4 * (StackHi(l, k) - 19)
  }

  lemma FrameStep(l: Layout, s: Kernel, ev: Event, s': Kernel, k: nat)
    requires KInv(l, s) && Next(l, s, ev, s') && 1 <= k < PROC_MAX
    requires s.t.cur == k || s.t.procs[k].state == Ready
    requires BelowFrame(l, s, ev, s', k)
    ensures |s'.m| == |s.m|
    ensures forall w :: 0 <= w < |s.m| && InFrame(l, k, w) ==> s'.m[w] == s.m[w]
  {
    hide Step, Swtched, CanSwtch, Fabricated, Parked;
    assert forall w: nat :: InFrame(l, k, w) ==> Owned(l, k, w);
    if s.t.cur != k {
      StepSparesSleeper(l, s, ev, s', k);
    } else if ev.TableOp? {
      if s'.t.cur != k {
        FrameAboveSwtch(l, s, ev.op, s');
      } else if Creates(s.t, ev.op) {
        CreationIsLocal(l, s, k, ev.op.entry);
      }
    }
  }

  lemma FrameAboveSwtch(l: Layout, s: Kernel, op: Op, s': Kernel)
    requires KInv(l, s) && Next(l, s, TableOp(op), s') && s'.t.cur != s.t.cur
    requires s.r.esp <= 4 * (StackHi(l, s.t.cur) - 19)
    ensures |s'.m| == |s.m|
    ensures forall w :: 0 <= w < |s.m| && InFrame(l, s.t.cur, w) ==> s'.m[w] == s.m[w]
  {
    hide Step, Parked;
    SwitchesToReady(s.t, op);
    AtSwtchCan(l, s, s'.t.cur);
    CtxOffStack(l, s.m, s.t.cur);
    hide StackLo, StackHi, CtxW;
  }

  /** The frame of an interrupted process stays as it is through any number of switches away and
      back. */
  lemma {:induction false} FrameKept(l: Layout, ss: seq<Kernel>, evs: seq<Event>, a: nat, b: nat, k: nat)
    requires IsRun(l, ss, evs) && a <= b <= |evs| && 1 <= k < PROC_MAX
    requires forall n :: a <= n <= b ==> Shape(ss[n].t) && (ss[n].t.cur == k || ss[n].t.procs[k].state == Ready)
    requires forall n :: a <= n < b ==> BelowFrame(l, ss[n], evs[n], ss[n + 1], k)
    ensures |ss[b].m| == |ss[a].m|
    ensures forall w :: 0 <= w < |ss[a].m| && InFrame(l, k, w) ==> ss[b].m[w] == ss[a].m[w]
    decreases b
  {
    hide KInv, Next, BelowFrame, InFrame, Shape;
    if a < b {
      FrameKept(l, ss, evs, a, b - 1, k);
      RunKeepsKInv(l, ss, evs, b - 1);
      FrameStep(l, ss[b - 1], evs[b - 1], ss[b], k);
    }
  }

  /** A user process interrupted at step a, scheduled away and back any number of times, and
      standing at trapret at step b, returns to user mode with all the registers it had. */
  lemma Preempted(l: Layout, ss: seq<Kernel>, evs: seq<Event>, a: nat, b: nat, k: nat, intNo: u32, errCode: u32)
    requires IsRun(l, ss, evs) && a < b <= |evs| && 1 <= k < PROC_MAX
    requires KInv(l, ss[a]) && ss[a].t.cur == k && Interrupted(l, ss[a], intNo, errCode, ss[a + 1])
    requires forall n :: a < n <= b ==> Shape(ss[n].t) && (ss[n].t.cur == k || ss[n].t.procs[k].state == Ready)
    requires forall n :: a < n < b ==> BelowFrame(l, ss[n], evs[n], ss[n + 1], k)
    requires ss[b].t.cur == k && Ring(ss[b].r.cs) == 0 && ss[b].r.esp == ss[a].t.esp0 - 76
    ensures CanTrapRet(ss[b].r, ss[b].m) && TrapReturned(ss[b].r, ss[b].m) == ss[a].r
  {
    Esp0IsStackEnd(l, ss[a]);
    FrameKept(l, ss, evs, a + 1, b, k);
    hide KInv, Next, BelowFrame, Shape, FrameWords, Spill, CanTrapRet, TrapReturned, UserMode;
    InterruptRoundTrip(ss[a].r, ss[a].m, ss[a].t.esp0, intNo, errCode, ss[b].r, ss[b].m);
  }
}
