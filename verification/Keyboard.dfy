/** The keyboard driver: modifier keys, and a ring buffer that the interrupt handler fills and the
    main loop drains. The main loop's reads and writes can be separated by interrupts. */
module Keyboard {

  const KB_BUF_SZ: nat := 128
  const KB_STATE_SHIFT: bv8 := 0x01
  const KB_STATE_CTRL: bv8 := 0x02
  const KB_STATE_ALT: bv8 := 0x04
  const KB_STATE_CAPS: bv8 := 0x08

  type scancode = x: int | 0 <= x < 256

  // Scancode set 1; codes past the end of a table have no character.
  const KBDUS_LOWER: string := "\0\U{1B}1234567890-=\U{08}\tqwertyuiop[]\n\0asdfghjkl;'`\0\\zxcvbnm,./\0*\0 \0\0\0\0\0\0\0\0\0\0\0\0\0\0\0\0-\0\0\0+"
  const KBDUS_UPPER: string := "\0\U{1B}!@#$%^&*()_+\U{08}\tQWERTYUIOP{}\n\0ASDFGHJKL:\"~\0|ZXCVBNM<>?\0*\0 \0\0\0\0\0\0\0\0\0\0\0\0\0\0\0\0-\0\0\0+"

  function Lower(sc: nat): char { if sc < |KBDUS_LOWER| then KBDUS_LOWER[sc] else '\0' }
  function Upper(sc: nat): char { if sc < |KBDUS_UPPER| then KBDUS_UPPER[sc] else '\0' }

  datatype Kb = Kb(buf: seq<char>, head: nat, tail: nat, state: bv8,
                   shift: bool, caps: bool, ctrl: bool, alt: bool)

  ghost predicate KbOk(k: Kb) {
    |k.buf| == KB_BUF_SZ && k.head < KB_BUF_SZ && k.tail < KB_BUF_SZ
  }

  function Next(i: nat): (r: nat)
    requires i < KB_BUF_SZ
    ensures r < KB_BUF_SZ && r == if i == KB_BUF_SZ - 1 then 0 else i + 1
  {
    (i + 1) % KB_BUF_SZ
  }

  /** The characters waiting in the ring, oldest first. */
  function Pending(k: Kb): seq<char>
    requires KbOk(k)
  {
    if k.tail <= k.head then k.buf[k.tail..k.head] else k.buf[k.tail..] + k.buf[..k.head]
  }

  // ---- the interrupt handler ----

  /** The character of a key press under the current modifiers, or NUL. */
  function CharOf(k: Kb, sc: scancode): char {
    var useUpper := if 0x10 <= sc <= 0x32 && k.caps then !k.shift else k.shift;
    if useUpper then Upper(sc) else Lower(sc)
  }

  function Put(k: Kb, c: char): Kb
    requires KbOk(k)
  {
    if Next(k.head) != k.tail then k.(buf := k.buf[k.head := c], head := Next(k.head)) else k
  }

  predicate IsModifier(sc: scancode) {
    || sc == 0x2A || sc == 0x36 || sc == 0xAA || sc == 0xB6 || sc == 0x1D
    || sc == 0x9D || sc == 0x38 || sc == 0xB8 || sc == 0x3A || sc == 0xE0
  }

  function SetBit(w: bv8, b: bv8): bv8 { w | b }
  function ClearBit(w: bv8, b: bv8): bv8 { w & !b }

  function Modified(k: Kb, sc: scancode): Kb {
    if sc == 0x2A || sc == 0x36 then k.(shift := true, state := SetBit(k.state, KB_STATE_SHIFT))
    else if sc == 0xAA || sc == 0xB6 then k.(shift := false, state := ClearBit(k.state, KB_STATE_SHIFT))
    else if sc == 0x1D then k.(ctrl := true, state := SetBit(k.state, KB_STATE_CTRL))
    else if sc == 0x9D then k.(ctrl := false, state := ClearBit(k.state, KB_STATE_CTRL))
    else if sc == 0x38 then k.(alt := true, state := SetBit(k.state, KB_STATE_ALT))
    else if sc == 0xB8 then k.(alt := false, state := ClearBit(k.state, KB_STATE_ALT))
    else if sc == 0x3A then
      k.(caps := !k.caps, state := if !k.caps then SetBit(k.state, KB_STATE_CAPS) else ClearBit(k.state, KB_STATE_CAPS))
    else k
  }

  /** The character a scancode types, if it types one. */
  function Typed(k: Kb, sc: scancode): seq<char> {
    if !IsModifier(sc) && sc < 0x80 && CharOf(k, sc) != '\0' then [CharOf(k, sc)] else []
  }

  function Interrupted(k: Kb, sc: scancode): (k': Kb)
    requires KbOk(k)
    ensures KbOk(k')
  {
    if IsModifier(sc) then Modified(k, sc)
    else if Typed(k, sc) != [] then Put(k, Typed(k, sc)[0])
    else k
  }

  /** What the handler shows on the terminal. */
  function Echo(k: Kb, sc: scancode): seq<char> {
    if Typed(k, sc) != [] && Typed(k, sc)[0] != '\n' && Typed(k, sc)[0] != '\U{08}' then Typed(k, sc) else []
  }

  ghost predicate Mirror(k: Kb) {
    k.state == (if k.shift then KB_STATE_SHIFT else 0) | (if k.ctrl then KB_STATE_CTRL else 0)
             | (if k.alt then KB_STATE_ALT else 0) | (if k.caps then KB_STATE_CAPS else 0)
  }

  /** The ring holds at most 127 characters, and is full exactly when the head would meet the tail. */
  lemma PendingLength(k: Kb)
    requires KbOk(k)
    ensures |Pending(k)| <= 127
    ensures |Pending(k)| == 127 <==> Next(k.head) == k.tail
    ensures k.head == k.tail <==> Pending(k) == []
  {}

  lemma PutWithRoom(k: Kb, c: char)
    requires KbOk(k) && Next(k.head) != k.tail
    ensures Pending(Put(k, c)) == Pending(k) + [c]
  {
    var k' := Put(k, c);
    if k.tail > k.head {
      assert k'.buf[k.tail..] == k.buf[k.tail..];
      assert k'.buf[..k.head + 1] == k.buf[..k.head] + [c];
    } else if k.head < KB_BUF_SZ - 1 {
      assert k'.buf[k.tail..k.head + 1] == k.buf[k.tail..k.head] + [c];
    } else {
      assert k'.buf[k.tail..] == k.buf[k.tail..k.head] + [c];
    }
  }

  /** Appending succeeds exactly when fewer than 127 characters wait; nothing waiting is lost. */
  lemma PutAppends(k: Kb, c: char)
    requires KbOk(k)
    ensures KbOk(Put(k, c)) && Put(k, c).tail == k.tail && (Mirror(k) ==> Mirror(Put(k, c)))
    ensures Pending(Put(k, c)) == if |Pending(k)| < 127 then Pending(k) + [c] else Pending(k)
  {
    PendingLength(k);
    if Next(k.head) != k.tail { PutWithRoom(k, c); }
  }

  lemma ModifiedMirrors(k: Kb, sc: scancode)
    requires Mirror(k) && KbOk(k)
    ensures Mirror(Modified(k, sc)) && KbOk(Modified(k, sc))
    ensures Modified(k, sc).tail == k.tail && Pending(Modified(k, sc)) == Pending(k)
  {
    hide Mirror, Modified, Pending;
    ModifiedKeepsQueue(k, sc);
    ModifiedFlags(k, sc);
  }

  lemma ModifiedFlags(k: Kb, sc: scancode)
    requires Mirror(k)
    ensures Mirror(Modified(k, sc))
  {}

  lemma ModifiedKeepsQueue(k: Kb, sc: scancode)
    requires KbOk(k)
    ensures KbOk(Modified(k, sc)) && Modified(k, sc).tail == k.tail && Pending(Modified(k, sc)) == Pending(k)
  {
    hide SetBit, ClearBit, Pending;
    SameQueue(k, Modified(k, sc));
  }

  lemma SameQueue(k: Kb, k': Kb)
    requires KbOk(k) && KbOk(k') && k'.buf == k.buf && k'.head == k.head && k'.tail == k.tail
    ensures Pending(k') == Pending(k)
  {}

  /** One interrupt: the flag word follows the modifiers, and a typed character joins the queue
      unless 127 already wait. */
  lemma InterruptOutcome(k: Kb, sc: scancode)
    requires KbOk(k) && Mirror(k)
    ensures var k' := Interrupted(k, sc);
      && KbOk(k') && Mirror(k') && k'.tail == k.tail
      && Pending(k') == Pending(k) + (if |Pending(k)| < 127 then Typed(k, sc) else [])
      && (Pending(k) != [] ==> Pending(k') != [] && Pending(k')[0] == Pending(k)[0])
  {
    hide Typed, Next, Put, Pending, Mirror, Modified;
    TypedFacts(k, sc);
    if IsModifier(sc) {
      ModifiedMirrors(k, sc);
    } else if Typed(k, sc) != [] {
      PutAppends(k, Typed(k, sc)[0]);
    }
  }

  /** Pressing and releasing shift, control or alt, whose release code is 0x80 above the press code,
      leaves the driver as it was if the key was up; caps lock pressed twice always does. */
  lemma PressReleaseRoundTrip(k: Kb, sc: scancode)
    requires KbOk(k) && Mirror(k)
    requires sc == 0x2A || sc == 0x36 || sc == 0x1D || sc == 0x38 || sc == 0x3A
    ensures sc == 0x3A ==> Interrupted(Interrupted(k, sc), sc) == k
    ensures sc != 0x3A ==>
      (Interrupted(Interrupted(k, sc), sc + 0x80) == k <==> !(if sc == 0x1D then k.ctrl else if sc == 0x38 then k.alt else k.shift))
  {
    ClearAfterSet(k.state);
  }

  lemma ClearAfterSet(w: bv8)
    ensures forall b: bv8 :: w & b == 0 ==> ClearBit(SetBit(w, b), b) == w
    ensures forall b: bv8 :: w & b == b ==> SetBit(ClearBit(w, b), b) == w
  {}

  lemma TypedFacts(k: Kb, sc: scancode)
    ensures IsModifier(sc) ==> Typed(k, sc) == []
    ensures |Typed(k, sc)| <= 1
  {}

  // ---- the main loop, interrupted between any two of its accesses ----

  /** Where keyboard_getchar stands: before reading kb_head; holding the head it read, with a note
      whether the queue was empty then; past the comparison; holding the character it loaded. */
  datatype Pc = Start | HaveHead(head: nat, wasEmpty: bool) | NonEmpty | HaveChar(c: char)

  /** The driver, the reader, the characters accepted by interrupts and delivered to the reader,
      and for each time 0 was returned whether the queue was empty when its head was read. */
  datatype System = System(kb: Kb, pc: Pc, accepted: seq<char>, delivered: seq<char>, zeros: seq<bool>)

  datatype Event = Irq(sc: scancode) | Read

  /** The next access of keyboard_getchar. */
  function ReadStep(s: System): (s': System)
    requires KbOk(s.kb)
    ensures KbOk(s'.kb)
  {
    match s.pc
    case Start => s.(pc := HaveHead(s.kb.head, Pending(s.kb) == []))
    case HaveHead(h, e) => if h == s.kb.tail then s.(pc := Start, zeros := s.zeros + [e]) else s.(pc := NonEmpty)
    case NonEmpty => s.(pc := HaveChar(s.kb.buf[s.kb.tail]))
    case HaveChar(c) => s.(pc := Start, kb := s.kb.(tail := Next(s.kb.tail)), delivered := s.delivered + [c])
  }

  function IrqStep(s: System, sc: scancode): (s': System)
    requires KbOk(s.kb)
    ensures KbOk(s'.kb)
  {
    var taken := if |Pending(s.kb)| < 127 then Typed(s.kb, sc) else [];
    s.(kb := Interrupted(s.kb, sc), accepted := s.accepted + taken)
  }

  function Step(s: System, e: Event): (s': System)
    requires KbOk(s.kb)
    ensures KbOk(s'.kb)
  {
    match e
    case Irq(sc) => IrqStep(s, sc)
    case Read => ReadStep(s)
  }

  ghost predicate Inv(s: System) {
    && KbOk(s.kb) && Mirror(s.kb)
    && s.accepted == s.delivered + Pending(s.kb)
    && |Pending(s.kb)| <= 127
    && (forall i :: 0 <= i < |s.zeros| ==> s.zeros[i])
    && match s.pc
       case Start => true
       case HaveHead(h, e) => (h == s.kb.tail <==> e) && (h != s.kb.tail ==> Pending(s.kb) != [])
       case NonEmpty => Pending(s.kb) != []
       case HaveChar(c) => Pending(s.kb) != [] && c == Pending(s.kb)[0]
  }

  lemma StepKeepsInv(s: System, e: Event)
    requires Inv(s)
    ensures Inv(Step(s, e))
  {
    hide Pending, Interrupted, Mirror, Typed, Put, Next;
    PendingLength(s.kb);
    match e
    case Irq(sc) =>
      InterruptOutcome(s.kb, sc);
      PendingLength(Interrupted(s.kb, sc));
    case Read =>
      if s.pc.HaveChar? || s.pc.NonEmpty? { TakeOne(s.kb); }
  }

  /** Advancing the tail removes the oldest character. */
  lemma TakeOne(k: Kb)
    requires KbOk(k) && Pending(k) != []
    ensures Pending(k) == [Pending(k)[0]] + Pending(k.(tail := Next(k.tail)))
    ensures Pending(k)[0] == k.buf[k.tail]
    ensures Mirror(k) <==> Mirror(k.(tail := Next(k.tail)))
  {}

  function Run(s: System, es: seq<Event>): System
    requires KbOk(s.kb)
    decreases es
  {
    if es == [] then s else Run(Step(s, es[0]), es[1..])
  }

  /** Over every interleaving of interrupts with the reader's accesses: what was delivered followed
      by what waits is what was accepted, at most 127 characters wait, 0 was only ever returned for
      a queue that was empty when looked at, and the flag word mirrors the modifiers. */
  lemma {:induction false} RunKeepsInv(s: System, es: seq<Event>)
    requires Inv(s)
    ensures Inv(Run(s, es))
    decreases es
  {
    if es != [] {
      StepKeepsInv(s, es[0]);
      RunKeepsInv(Step(s, es[0]), es[1..]);
    }
  }

  // ---- the code ----

  class Driver {
    const buf: array<char>
    var head: nat
    var tail: nat
    var state: bv8
    var shift: bool
    var caps: bool
    var ctrl: bool
    var alt: bool

    ghost function View(): Kb
      reads this, buf
    {
      Kb(buf[..], head, tail, state, shift, caps, ctrl, alt)
    }

    constructor ()
      ensures fresh(buf) && KbOk(View()) && Mirror(View()) && Pending(View()) == []
    {
      buf := new char[KB_BUF_SZ](_ => '\0');
      head, tail, state := 0, 0, 0;
      shift, caps, ctrl, alt := false, false, false, false;
    }

    /** keyboard_irq for the scancode read from the controller; echo is what it prints. */
    method KeyboardIrq(sc: scancode) returns (echo: seq<char>)
      requires KbOk(View())
      modifies this, buf
      ensures View() == Interrupted(old(View()), sc)
      ensures echo == Echo(old(View()), sc)
    {
      hide Lower, Upper, Put, Next, Modified;
      echo := [];
      TypedFacts(View(), sc);
      var handled := ModifierKey(sc);
      if handled { return; }
      if sc < 0x80 {
        var useUpper := shift;
        if sc >= 0x10 && sc <= 0x32 {
          if caps { useUpper := !useUpper; }
        }
        var c: char;
        if useUpper { c := Upper(sc); } else { c := Lower(sc); }
        if c != '\0' {
          if c != '\n' && c != '\U{08}' { echo := [c]; }
          Enqueue(c);
        }
      }
    }

    /** The branches of keyboard_irq that return before a character is looked up. */
    method ModifierKey(sc: scancode) returns (handled: bool)
      modifies this
      ensures handled <==> IsModifier(sc)
      ensures View() == if handled then Modified(old(View()), sc) else old(View())
    {
      hide SetBit, ClearBit;
      if sc == 0x2A || sc == 0x36 { shift := true; state := SetBit(state, KB_STATE_SHIFT); return true; }
      if sc == 0xAA || sc == 0xB6 { shift := false; state := ClearBit(state, KB_STATE_SHIFT); return true; }
      if sc == 0x1D { ctrl := true; state := SetBit(state, KB_STATE_CTRL); return true; }
      if sc == 0x9D { ctrl := false; state := ClearBit(state, KB_STATE_CTRL); return true; }
      if sc == 0x38 { alt := true; state := SetBit(state, KB_STATE_ALT); return true; }
      if sc == 0xB8 { alt := false; state := ClearBit(state, KB_STATE_ALT); return true; }
      if sc == 0x3A {
        caps := !caps;
        if caps { state := SetBit(state, KB_STATE_CAPS); } else { state := ClearBit(state, KB_STATE_CAPS); }
        return true;
      }
      if sc == 0xE0 { return true; }
      return false;
    }

    method Enqueue(c: char)
      requires KbOk(View())
      modifies `head, buf
      ensures View() == Put(old(View()), c)
    {
      var next := (head + 1) % KB_BUF_SZ;
      if next != tail {
        buf[head] := c;
        head := next;
      }
    }

    /** keyboard_getchar when no interrupt falls into it: NUL for an empty queue, else the oldest
        character. It is the reader's accesses in a row. */
    method GetChar() returns (c: char)
      requires KbOk(View())
      modifies `tail
      ensures KbOk(View())
      ensures old(Pending(View())) == [] ==> c == '\0' && View() == old(View())
      ensures old(Pending(View())) != [] ==> [c] + Pending(View()) == old(Pending(View()))
      ensures View() == old(View()).(tail := tail)
    {
      hide Mirror, Pending;
      ghost var k := View();
      PendingLength(k);
      if head == tail { return '\0'; }
      TakeOne(k);
      c := buf[tail];
      tail := (tail + 1) % KB_BUF_SZ;
      assert View() == k.(tail := Next(k.tail));
    }
  }
}
