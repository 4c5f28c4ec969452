/** The instruction sequences of boot.S that move between stacks and privilege levels, on a
    machine of 32-bit registers and memory words. Word w of memory is at address 4 * w; eip is
    followed only through transfers of control. */
module Cpu {
  import opened Words

  const SEG_KCODE: u32 := 0x08
  const SEG_KDATA: u32 := 0x10
  const SEG_UCODE: u32 := 0x18
  const SEG_UDATA: u32 := 0x20

  datatype Regs = Regs(eax: u32, ecx: u32, edx: u32, ebx: u32, esp: u32, ebp: u32, esi: u32, edi: u32,
                       eip: u32, eflags: u32, cs: u32, ds: u32, es: u32, fs: u32, gs: u32, ss: u32)

  type Memory = m: seq<u32> | 4 * |m| < TWO32 witness []

  /** struct context: what swtch leaves on the stack, in memory order. */
  datatype Context = Context(edi: u32, esi: u32, ebx: u32, ebp: u32, eip: u32)

  function CtxAt(m: seq<u32>, w: nat): Context
    requires w + 5 <= |m|
  {
    Context(m[w], m[w + 1], m[w + 2], m[w + 3], m[w + 4])
  }

  /** struct trapframe, in memory order. */
  datatype Trapframe = Trapframe(
    gs: u32, fs: u32, es: u32, ds: u32,
    edi: u32, esi: u32, ebp: u32, pushedEsp: u32, ebx: u32, edx: u32, ecx: u32, eax: u32,
    intNo: u32, errCode: u32, eip: u32, cs: u32, eflags: u32, userEsp: u32, userSs: u32)

  function FrameWords(f: Trapframe): (ws: seq<u32>)
    ensures |ws| == 19
  {
    [f.gs, f.fs, f.es, f.ds]
    + [f.edi, f.esi, f.ebp, f.pushedEsp, f.ebx, f.edx, f.ecx, f.eax]
    + [f.intNo, f.errCode, f.eip, f.cs, f.eflags, f.userEsp, f.userSs]
  }

  /** Memory with the words ws stored just below word s. */
  function Spill(m: seq<u32>, s: nat, ws: seq<u32>): (m': seq<u32>)
    requires |ws| <= s <= |m|
    ensures |m'| == |m|
    ensures forall w :: 0 <= w < |m| ==>
      m'[w] == if s - |ws| <= w < s then ws[w - (s - |ws|)] else m[w]
  {
    m[..s - |ws|] + ws + m[s..]
  }

  /** Spilling below what was spilled is spilling both at once. */
  lemma SpillSpill(m: seq<u32>, s: nat, above: seq<u32>, below: seq<u32>)
    requires |above| + |below| <= s <= |m|
    ensures Spill(Spill(m, s, above), s - |above|, below) == Spill(m, s, below + above)
  {}

  lemma SpillAbove(m: seq<u32>, s: nat, above: seq<u32>, below: seq<u32>)
    requires |above| + |below| <= s <= |m|
    ensures Spill(Spill(m, s - |above|, below), s, above) == Spill(m, s, below + above)
  {}

  /** One more word pushed. */
  lemma Deeper(m: seq<u32>, s: nat, ws: seq<u32>, v: u32) returns (ws': seq<u32>)
    requires |ws| < s <= |m|
    ensures ws' == [v] + ws
    ensures Spill(Spill(m, s, ws), s - |ws|, [v]) == Spill(m, s, ws')
  {
    SpillSpill(m, s, ws, [v]);
    ws' := [v] + ws;
  }

  // ---- swtch ----

  /** swtch is called with a stack that has room, and arguments that point into memory. */
  predicate CanSwtch(r: Regs, m: Memory) {
    && r.esp % 4 == 0 && 16 <= r.esp && r.esp / 4 + 3 <= |m|
    && var old_ := m[r.esp / 4 + 1];
       var new_ := m[r.esp / 4 + 2];
       && old_ % 4 == 0 && old_ / 4 < |m|
       && new_ % 4 == 0 && new_ / 4 + 5 <= |m|
  }

  /** What a call of swtch comes to: four registers are saved under the return address, the old
      context pointer is recorded, and registers, stack and return address come from the new one. */
  function Swtched(r: Regs, m: Memory): (after: (Regs, Memory))
    requires CanSwtch(r, m)
    ensures |after.1| == |m|
  {
    var s := r.esp / 4;
    var m' := Spill(m, s, [r.edi, r.esi, r.ebx, r.ebp])[m[s + 1] / 4 := r.esp - 16];
    var c := CtxAt(m', m[s + 2] / 4);
    (r.(eax := m[s + 1], edx := m[s + 2], edi := c.edi, esi := c.esi, ebx := c.ebx, ebp := c.ebp,
        eip := c.eip, esp := m[s + 2] + 20),
     m')
  }

  // ---- trap return ----

  function Selector(x: u32): u32 { x % 0x1_0000 }

  /** The privilege level of a code selector. */
  function Ring(cs: u32): u32 { cs % 4 }

  function FrameAt(m: seq<u32>, w: nat): Trapframe
    requires w + 19 <= |m|
  {
    Trapframe(m[w], m[w + 1], m[w + 2], m[w + 3], m[w + 4], m[w + 5], m[w + 6], m[w + 7], m[w + 8],
              m[w + 9], m[w + 10], m[w + 11], m[w + 12], m[w + 13], m[w + 14], m[w + 15], m[w + 16],
              m[w + 17], m[w + 18])
  }

  /** The frame lies in memory and iret does not return to an inner ring. */
  predicate CanTrapRet(r: Regs, m: Memory) {
    && r.esp % 4 == 0 && r.esp / 4 + 19 <= |m|
    && Ring(FrameAt(m, r.esp / 4).cs) >= Ring(r.cs)
  }

  /** The registers a trap frame stands for. */
  function UserRegs(f: Trapframe): Regs {
    Regs(f.eax, f.ecx, f.edx, f.ebx, f.userEsp, f.ebp, f.esi, f.edi, f.eip, f.eflags,
         Selector(f.cs), Selector(f.ds), Selector(f.es), Selector(f.fs), Selector(f.gs), Selector(f.userSs))
  }

  /** trapret: registers from the frame; stack pointer and stack segment too when the ring changes. */
  function TrapReturned(r: Regs, m: Memory): Regs
    requires CanTrapRet(r, m)
  {
    var f := FrameAt(m, r.esp / 4);
    if Ring(f.cs) > Ring(r.cs) then UserRegs(f)
    else UserRegs(f).(esp := r.esp + 68, ss := r.ss)
  }

  /** Reading back the words of a frame gives the frame. */
  lemma FrameReadBack(m: seq<u32>, w: nat, f: Trapframe)
    requires w + 19 <= |m|
    requires forall i :: w <= i < w + 19 ==> m[i] == FrameWords(f)[i - w]
    ensures FrameAt(m, w) == f
  {}

  // ---- interrupt entry ----

  /** What an interrupt from user mode leaves at the top of the kernel stack esp0. */
  function FrameOf(r: Regs, esp0: u32, intNo: u32, errCode: u32): Trapframe
    requires esp0 >= 28
  {
    Trapframe(r.gs, r.fs, r.es, r.ds, r.edi, r.esi, r.ebp, esp0 - 28, r.ebx, r.edx, r.ecx, r.eax,
              intNo, errCode, r.eip, r.cs, r.eflags, r.esp, r.ss)
  }

  ghost predicate UserMode(r: Regs) {
    && Ring(r.cs) == 3
    && r.cs < 0x1_0000 && r.ds < 0x1_0000 && r.es < 0x1_0000
    && r.fs < 0x1_0000 && r.gs < 0x1_0000 && r.ss < 0x1_0000
  }

  /** Returning from an interrupt restores every register of the interrupted program, whatever the
      handler did elsewhere, as long as it left the frame alone. */
  lemma InterruptRoundTrip(r: Regs, m: Memory, esp0: u32, intNo: u32, errCode: u32, k: Regs, m': Memory)
    requires UserMode(r) && 76 <= esp0 && esp0 % 4 == 0 && esp0 / 4 <= |m| == |m'|
    requires k.esp == esp0 - 76 && Ring(k.cs) == 0
    requires var entered := Spill(m, esp0 / 4, FrameWords(FrameOf(r, esp0, intNo, errCode)));
      forall w :: esp0 / 4 - 19 <= w < esp0 / 4 ==> m'[w] == entered[w]
    ensures CanTrapRet(k, m') && TrapReturned(k, m') == r
  {
    hide FrameWords, Spill;
    FrameReadBack(m', esp0 / 4 - 19, FrameOf(r, esp0, intNo, errCode));
  }

  lemma FrameParts(f: Trapframe, saved: seq<u32>, hw: seq<u32>)
    requires saved == [f.gs, f.fs, f.es, f.ds] + [f.edi, f.esi, f.ebp, f.pushedEsp, f.ebx, f.edx, f.ecx, f.eax]
    requires hw == [f.intNo, f.errCode, f.eip, f.cs, f.eflags, f.userEsp, f.userSs]
    ensures FrameWords(f) == saved + hw
  {}

  // ---- a fabricated stack ----

  /** The trap frame proc_create writes. */
  function NewFrame(entry: u32, userTop: u32): Trapframe {
    Trapframe(SEG_UDATA + 3, SEG_UDATA + 3, SEG_UDATA + 3, SEG_UDATA + 3,
              0, 0, 0, 0, 0, 0, 0, 0, 0, 0, entry, SEG_UCODE + 3, 0x202, userTop, SEG_UDATA + 3)
  }

  /** A kernel stack ending at word s as proc_create leaves it: a context that returns to trapret,
      below a trap frame that enters user mode. */
  function NewStack(entry: u32, userTop: u32, trapret: u32): (ws: seq<u32>)
    ensures |ws| == 24
  {
    [0, 0, 0, 0, trapret] + FrameWords(NewFrame(entry, userTop))
  }

  /** Switching to a fabricated stack and running trapret consumes context and frame exactly and
      starts the program in ring 3 at its entry point with cleared registers. */
  lemma NewStackStartsProgram(r: Regs, m: Memory, top: nat, entry: u32, userTop: u32, trapret: u32)
    requires CanSwtch(r, m) && Ring(r.cs) == 0
    requires 24 <= top <= |m| && m[r.esp / 4 + 2] == 4 * (top - 24)
    requires forall i :: top - 24 <= i < top ==> Swtched(r, m).1[i] == NewStack(entry, userTop, trapret)[i - (top - 24)]
    ensures var (r1, m1) := Swtched(r, m);
      && r1.eip == trapret && r1.esp == 4 * (top - 19)
      && CanTrapRet(r1, m1)
      && TrapReturned(r1, m1) ==
           Regs(0, 0, 0, 0, userTop, 0, 0, 0, entry, 0x202, 0x1B, 0x23, 0x23, 0x23, 0x23, 0x23)
  {
    hide FrameWords, Spill;
    var (r1, m1) := Swtched(r, m);
    FrameReadBack(m1, top - 19, NewFrame(entry, userTop));
  }

  // ---- the code ----

  class Machine {
    var r: Regs
    const mem: array<u32>

    constructor (memory: array<u32>, regs: Regs)
      ensures mem == memory && r == regs
    {
      mem := memory;
      r := regs;
    }

    method Push(v: u32)
      requires 4 <= r.esp && r.esp % 4 == 0 && r.esp / 4 <= mem.Length
      modifies `r, mem
      ensures r == old(r).(esp := old(r.esp) - 4)
      ensures mem[..] == Spill(old(mem[..]), old(r.esp) / 4, [v])
    {
      r := r.(esp := r.esp - 4);
      mem[r.esp / 4] := v;
    }

    method Pop() returns (v: u32)
      requires r.esp % 4 == 0 && r.esp / 4 < mem.Length && r.esp + 4 < TWO32
      modifies `r
      ensures r == old(r).(esp := old(r.esp) + 4)
      ensures v == mem[old(r.esp) / 4]
    {
      v := mem[r.esp / 4];
      r := r.(esp := r.esp + 4);
    }

    method Swtch()
      requires 4 * mem.Length < TWO32 && CanSwtch(r, mem[..])
      modifies `r, mem
      ensures (r, mem[..]) == Swtched(old(r), old(mem[..]))
    {
      hide Spill;
      r := r.(eax := mem[r.esp / 4 + 1]);
      r := r.(edx := mem[r.esp / 4 + 2]);
      PushFour(r.ebp, r.ebx, r.esi, r.edi);
      ghost var m := mem[..];
      mem[r.eax / 4] := r.esp;
      assert mem[..] == m[r.eax / 4 := r.esp];
      r := r.(esp := r.edx);
      PopContext();
    }

    /** Four pushes in this order. */
    method PushFour(a: u32, b: u32, c: u32, d: u32)
      requires 16 <= r.esp && r.esp % 4 == 0 && r.esp / 4 <= mem.Length
      modifies `r, mem
      ensures r == old(r).(esp := old(r.esp) - 16)
      ensures mem[..] == Spill(old(mem[..]), old(r.esp) / 4, [d, c, b, a])
    {
      hide Spill;
      ghost var m, s := mem[..], r.esp / 4;
      Push(a);
      Push(b);
      ghost var ws := Deeper(m, s, [a], b);
      Push(c);
      ws := Deeper(m, s, ws, c);
      Push(d);
      ws := Deeper(m, s, ws, d);
      assert ws == [d, c, b, a];
    }

    /** Four pops in this order. */
    method PopFour() returns (a: u32, b: u32, c: u32, d: u32)
      requires r.esp % 4 == 0 && r.esp / 4 + 4 <= mem.Length && r.esp + 16 < TWO32
      modifies `r
      ensures r == old(r).(esp := old(r.esp) + 16)
      ensures var w := old(r.esp) / 4; [a, b, c, d] == [mem[w], mem[w + 1], mem[w + 2], mem[w + 3]]
    {
      a := Pop();
      b := Pop();
      c := Pop();
      d := Pop();
    }

    /** The four pops of swtch and its ret. */
    method PopContext()
      requires r.esp % 4 == 0 && r.esp / 4 + 5 <= mem.Length && r.esp + 20 < TWO32
      modifies `r
      ensures var c := CtxAt(mem[..], old(r.esp) / 4);
        r == old(r).(esp := old(r.esp) + 20, edi := c.edi, esi := c.esi, ebx := c.ebx, ebp := c.ebp, eip := c.eip)
    {
      var edi, esi, ebx, ebp := PopFour();
      r := r.(edi := edi, esi := esi, ebx := ebx, ebp := ebp);
      Ret();
    }

    method Ret()
      requires r.esp % 4 == 0 && r.esp / 4 < mem.Length && r.esp + 4 < TWO32
      modifies `r
      ensures r == old(r).(esp := old(r.esp) + 4, eip := mem[old(r.esp) / 4])
    {
      var eip := Pop();
      r := r.(eip := eip);
    }

    /** popa: the stored stack pointer is skipped. */
    method PopA()
      requires r.esp % 4 == 0 && r.esp / 4 + 8 <= mem.Length && r.esp + 32 < TWO32
      modifies `r
      ensures var w := old(r.esp) / 4;
        r == old(r).(esp := old(r.esp) + 32, edi := mem[w], esi := mem[w + 1], ebp := mem[w + 2],
                     ebx := mem[w + 4], edx := mem[w + 5], ecx := mem[w + 6], eax := mem[w + 7])
    {
      var edi, esi, ebp, skipped := PopFour();
      r := r.(edi := edi, esi := esi, ebp := ebp);
      var ebx, edx, ecx, eax := PopFour();
      r := r.(ebx := ebx, edx := edx, ecx := ecx, eax := eax);
    }

    /** iret: the stack is switched only when the ring changes. */
    method IRet()
      requires r.esp % 4 == 0 && r.esp / 4 + 5 <= mem.Length && r.esp + 20 < TWO32
      requires Ring(mem[r.esp / 4 + 1]) >= Ring(r.cs)
      modifies `r
      ensures var w := old(r.esp) / 4;
        var q := old(r).(eip := mem[w], cs := Selector(mem[w + 1]), eflags := mem[w + 2]);
        r == if Ring(mem[w + 1]) > Ring(old(r.cs)) then q.(esp := mem[w + 3], ss := Selector(mem[w + 4]))
             else q.(esp := old(r.esp) + 12)
    {
      var eip := Pop();
      var cs := Pop();
      var eflags := Pop();
      var outward := Ring(cs) > Ring(r.cs);
      r := r.(eip := eip, cs := Selector(cs), eflags := eflags);
      if outward {
        var esp := Pop();
        var ss := Pop();
        r := r.(esp := esp, ss := Selector(ss));
      }
    }

    /** trapret, and equally the end of int_common. */
    method TrapRet()
      requires 4 * mem.Length < TWO32 && CanTrapRet(r, mem[..])
      modifies `r
      ensures r == TrapReturned(old(r), mem[..])
    {
      var gs, fs, es, ds := PopFour();
      r := r.(gs := Selector(gs), fs := Selector(fs), es := Selector(es), ds := Selector(ds));
      PopA();
      r := r.(esp := r.esp + 8);
      IRet();
    }

    /** pusha: the stack pointer stored is the one before the instruction. */
    method PushA()
      requires 32 <= r.esp && r.esp % 4 == 0 && r.esp / 4 <= mem.Length
      modifies `r, mem
      ensures r == old(r).(esp := old(r.esp) - 32)
      ensures mem[..] == Spill(old(mem[..]), old(r.esp) / 4,
        old([r.edi, r.esi, r.ebp, r.esp, r.ebx, r.edx, r.ecx, r.eax]))
    {
      hide Spill;
      ghost var m, s := mem[..], r.esp / 4;
      ghost var high, low := [r.ebx, r.edx, r.ecx, r.eax], [r.edi, r.esi, r.ebp, r.esp];
      var esp := r.esp;
      PushFour(r.eax, r.ecx, r.edx, r.ebx);
      PushFour(esp, r.ebp, r.esi, r.edi);
      SpillSpill(m, s, high, low);
      assert low + high == [r.edi, r.esi, r.ebp, esp, r.ebx, r.edx, r.ecx, r.eax];
    }

    /** What int_common saves. */
    method SaveRegs()
      requires 48 <= r.esp && r.esp % 4 == 0 && r.esp / 4 <= mem.Length
      modifies `r, mem
      ensures r == old(r).(esp := old(r.esp) - 48)
      ensures mem[..] == Spill(old(mem[..]), old(r.esp) / 4,
        old([r.gs, r.fs, r.es, r.ds] + [r.edi, r.esi, r.ebp, r.esp, r.ebx, r.edx, r.ecx, r.eax]))
    {
      hide Spill;
      ghost var m, s := mem[..], r.esp / 4;
      PushA();
      PushFour(r.ds, r.es, r.fs, r.gs);
      SpillSpill(m, s, old([r.edi, r.esi, r.ebp, r.esp, r.ebx, r.edx, r.ecx, r.eax]), [r.gs, r.fs, r.es, r.ds]);
    }

    /** The processor's part of an interrupt from user mode (the stack of the task state segment,
        five words pushed, the gate's selector, address and flags), and a stub's two pushes. */
    method TakeInterrupt(esp0: u32, intNo: u32, errCode: u32, handler: u32, flags: u32)
      requires 28 <= esp0 && esp0 % 4 == 0 && esp0 / 4 <= mem.Length
      modifies `r, mem
      ensures r == old(r).(esp := esp0 - 28, ss := SEG_KDATA, cs := SEG_KCODE, eip := handler, eflags := flags)
      ensures mem[..] == Spill(old(mem[..]), esp0 / 4, old([intNo, errCode, r.eip, r.cs, r.eflags, r.esp, r.ss]))
    {
      hide Spill;
      ghost var m, s := mem[..], esp0 / 4;
      var user := r;
      r := r.(esp := esp0, ss := SEG_KDATA);
      PushFour(user.ss, user.esp, user.eflags, user.cs);
      Push(user.eip);
      ghost var ws := Deeper(m, s, [user.cs, user.eflags, user.esp, user.ss], user.eip);
      r := r.(cs := SEG_KCODE, eip := handler, eflags := flags);
      Push(errCode);
      ws := Deeper(m, s, ws, errCode);
      Push(intNo);
      ws := Deeper(m, s, ws, intNo);
      assert ws == [intNo, errCode, user.eip, user.cs, user.eflags, user.esp, user.ss];
    }

    /** An interrupt taken in user mode, up to int_common's call of the dispatcher, which gets the
        address of the frame. */
    method InterruptEntry(esp0: u32, intNo: u32, errCode: u32, handler: u32, flags: u32)
      requires UserMode(r) && 80 <= esp0 && esp0 % 4 == 0 && esp0 / 4 <= mem.Length
      modifies `r, mem
      ensures r == old(r).(esp := esp0 - 80, eax := old(r.eax) / 0x1_0000 * 0x1_0000 + SEG_KDATA,
                           eip := handler, eflags := flags, cs := SEG_KCODE, ss := SEG_KDATA,
                           ds := SEG_KDATA, es := SEG_KDATA, fs := SEG_KDATA, gs := SEG_KDATA)
      ensures mem[..] == Spill(old(mem[..]), esp0 / 4, [esp0 - 76] + FrameWords(FrameOf(old(r), esp0, intNo, errCode)))
    {
      hide Spill, FrameWords;
      ghost var m, s, f := mem[..], esp0 / 4, FrameOf(r, esp0, intNo, errCode);
      ghost var hw := [intNo, errCode, r.eip, r.cs, r.eflags, r.esp, r.ss];
      TakeInterrupt(esp0, intNo, errCode, handler, flags);
      ghost var saved := [r.gs, r.fs, r.es, r.ds] + [r.edi, r.esi, r.ebp, r.esp, r.ebx, r.edx, r.ecx, r.eax];
      SaveRegs();
      SpillSpill(m, s, hw, saved);
      FrameParts(f, saved, hw);
      r := r.(eax := r.eax / 0x1_0000 * 0x1_0000 + SEG_KDATA);
      r := r.(ds := SEG_KDATA, es := SEG_KDATA, fs := SEG_KDATA, gs := SEG_KDATA);
      ghost var ws := Deeper(m, s, FrameWords(f), r.esp);
      Push(r.esp);
    }
  }
}
