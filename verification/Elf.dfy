/** Loading an ELF32 executable: program headers, the overlap check, copying and zero filling. */
module Elf {
  import opened Words

  const USER_SPACE_START: u32 := 0x0800_0000
  const USER_SPACE_END: u32 := 0xC000_0000
  const KERNEL_SPACE_START: u32 := 0xC000_0000
  const ELF_MAGIC: u32 := 0x464C_457F
  const ET_EXEC := 2
  const EM_386 := 3
  const PT_LOAD := 1
  const EHDR_SIZE: nat := 52

  type byte = x: int | 0 <= x < 256

  /** The bytes handed to the loader, and whatever a read past them would find. */
  datatype File = File(bytes: seq<byte>, beyond: nat -> byte) {
    function At(k: nat): byte {
      if k < |bytes| then bytes[k] else beyond(k)
    }

    function U16(k: nat): nat {
      At(k) + 0x100 * At(k + 1)
    }

    function U32(k: nat): u32 {
      U16(k) + 0x1_0000 * U16(k + 2)
    }

    function Entry(): u32 { U32(24) }
    function PhOff(): u32 { U32(28) }
    function PhEntSize(): nat { U16(42) }
    function PhNum(): nat { U16(44) }
  }

  datatype Phdr = Phdr(ptype: u32, offset: u32, vaddr: u32, filesz: u32, memsz: u32)

  function Times(a: nat, b: nat): nat { a * b }

  function PhdrAt(f: File, i: nat): Phdr {
    var k := f.PhOff() + Times(i, f.PhEntSize());
    Phdr(f.U32(k), f.U32(k + 4), f.U32(k + 8), f.U32(k + 16), f.U32(k + 20))
  }

  // ---- what the loader decides ----

  predicate HeaderOk(f: File) {
    && |f.bytes| >= EHDR_SIZE
    && f.U32(0) == ELF_MAGIC && f.At(4) == 1 && f.At(5) == 1
    && f.U16(16) == ET_EXEC && f.U16(18) == EM_386
  }

  predicate AddrOk(addr: u32, size: u32) {
    addr != 0 && USER_SPACE_START <= addr && Add32(addr, size) <= USER_SPACE_END && addr < KERNEL_SPACE_START
  }

  /** The loader's overlap test of the current segment p against an earlier one q. */
  predicate Clash(p: Phdr, q: Phdr) {
    || (p.vaddr >= q.vaddr && p.vaddr < Add32(q.vaddr, q.memsz))
    || (q.vaddr >= p.vaddr && q.vaddr < Add32(p.vaddr, p.memsz))
  }

  datatype Verdict = Skip | Reject | Load

  function Judge(f: File, i: nat): Verdict {
    var p := PhdrAt(f, i);
    if p.ptype != PT_LOAD then Skip
    else if Add32(p.offset, p.filesz) > |f.bytes| then Reject
    else if p.vaddr == 0 || p.memsz == 0 then Skip
    else if !AddrOk(p.vaddr, p.memsz) then Reject
    else if exists j :: 0 <= j < i && PhdrAt(f, j).ptype == PT_LOAD && Clash(p, PhdrAt(f, j)) then Reject
    else Load
  }

  // ---- what it does to memory ----

  /** The byte at address a after segment p is copied and zero filled over a byte that was b.
      Addresses wrap as pointers do. */
  function StoredByte(f: File, p: Phdr, a: u32, b: byte): byte {
    var j := Sub32(a, p.vaddr);
    if j < p.filesz then f.At(p.offset + j)
    else if j < p.memsz then 0
    else b
  }

  ghost predicate Stored(m: seq<byte>, m': seq<byte>, f: File, p: Phdr) {
    && |m| == |m'| == TWO32
    && forall a :: 0 <= a < TWO32 ==> m'[a] == StoredByte(f, p, a, m[a])
  }

  function Store(m: seq<byte>, f: File, p: Phdr): (m': seq<byte>)
    requires |m| == TWO32
    ensures Stored(m, m', f, p)
  {
    seq(TWO32, a requires 0 <= a < TWO32 => StoredByte(f, p, a, m[a]))
  }

  /** Memory after the headers from i on, and whether none was rejected. */
  function LoadFrom(m: seq<byte>, f: File, i: nat): (r: (seq<byte>, bool))
    requires |m| == TWO32
    ensures |r.0| == TWO32
    decreases f.PhNum() - i
  {
    if i >= f.PhNum() then (m, true)
    else match Judge(f, i)
      case Skip => LoadFrom(m, f, i + 1)
      case Reject => (m, false)
      case Load => LoadFrom(Store(m, f, PhdrAt(f, i)), f, i + 1)
  }

  predicate CountOk(f: File) {
    f.PhOff() != 0 && f.PhNum() != 0 && f.PhNum() <= 16
  }

  /** Memory after elf_load, and whether the file was accepted. */
  function Loaded(m: seq<byte>, f: File): (r: (seq<byte>, bool))
    requires |m| == TWO32
    ensures |r.0| == TWO32
  {
    if HeaderOk(f) && CountOk(f) then LoadFrom(m, f, 0) else (m, false)
  }

  // ---- properties ----

  /** The segment neither wraps round the address space nor carries more file bytes than memory,
      and its bytes are in the file. */
  predicate Sane(p: Phdr) {
    p.filesz <= p.memsz && p.vaddr + p.memsz < TWO32 && p.offset + p.filesz < TWO32
  }

  ghost predicate SaneFrom(f: File, i: nat) {
    forall k :: i <= k < f.PhNum() && Judge(f, k) == Load ==> Sane(PhdrAt(f, k))
  }

  function Extent(p: Phdr): u32 { if p.filesz <= p.memsz then p.memsz else p.filesz }

  /** Whether loading p writes address a. */
  predicate Writes(p: Phdr, a: u32) {
    Sub32(a, p.vaddr) < Extent(p)
  }

  predicate InSegment(p: Phdr, a: int) {
    p.vaddr <= a < p.vaddr + p.memsz
  }

  /** A loaded segment is written inside user space exactly when its larger size fits below the
      end of user space; the loader's own check does not see this for p_filesz > p_memsz, nor when
      p_vaddr + p_memsz wraps. */
  lemma StaysInUserSpaceIff(f: File, i: nat)
    requires Judge(f, i) == Load
    ensures var p := PhdrAt(f, i);
      (forall a: u32 :: Writes(p, a) ==> USER_SPACE_START <= a < USER_SPACE_END)
        <==> p.vaddr + Extent(p) <= USER_SPACE_END
    ensures Sane(PhdrAt(f, i)) ==> PhdrAt(f, i).vaddr + Extent(PhdrAt(f, i)) <= USER_SPACE_END
  {
    var p := PhdrAt(f, i);
    if p.vaddr + Extent(p) > USER_SPACE_END {
      var a: u32 := USER_SPACE_END;
      assert Writes(p, a);
    }
  }

  lemma SegmentBounds(f: File, i: nat)
    requires Judge(f, i) == Load && Sane(PhdrAt(f, i))
    ensures var p := PhdrAt(f, i);
      && USER_SPACE_START <= p.vaddr && p.vaddr + p.memsz <= USER_SPACE_END
      && p.offset + p.filesz <= |f.bytes|
      && (forall a: u32 :: Writes(p, a) <==> InSegment(p, a))
  {}

  /** Accepted segments share no address. */
  lemma SegmentsDisjoint(f: File, i: nat, k: nat, a: int)
    requires i < k && Judge(f, i) == Load && Judge(f, k) == Load
    requires Sane(PhdrAt(f, i)) && Sane(PhdrAt(f, k))
    ensures !(InSegment(PhdrAt(f, i), a) && InSegment(PhdrAt(f, k), a))
  {
    assert PhdrAt(f, i).ptype == PT_LOAD && !Clash(PhdrAt(f, k), PhdrAt(f, i));
  }

  /** Without wrap-around the overlap test fails exactly for segments that share an address, and for
      an earlier empty one that lies inside the current one. */
  lemma ClashIff(p: Phdr, q: Phdr)
    requires p.memsz > 0 && p.vaddr + p.memsz < TWO32 && q.vaddr + q.memsz < TWO32
    ensures Clash(p, q) <==>
      (exists a :: InSegment(p, a) && InSegment(q, a)) || (q.memsz == 0 && InSegment(p, q.vaddr))
  {
    if Clash(p, q) && q.memsz > 0 {
      var a := if p.vaddr >= q.vaddr then p.vaddr else q.vaddr;
      assert InSegment(p, a) && InSegment(q, a);
    }
  }

  /** Headers from i on write only inside the segments they load. */
  lemma {:induction false} LoadFromFrame(m: seq<byte>, f: File, i: nat, a: u32)
    requires |m| == TWO32 && SaneFrom(f, i)
    requires forall k :: i <= k < f.PhNum() && Judge(f, k) == Load ==> !InSegment(PhdrAt(f, k), a)
    ensures LoadFrom(m, f, i).0[a] == m[a]
    decreases f.PhNum() - i
  {
    hide Judge, PhdrAt;
    if i < f.PhNum() {
      match Judge(f, i) {
        case Skip => LoadFromFrame(m, f, i + 1, a);
        case Reject =>
        case Load =>
          SegmentBounds(f, i);
          assert !Writes(PhdrAt(f, i), a);
          LoadFromFrame(Store(m, f, PhdrAt(f, i)), f, i + 1, a);
      }
    }
  }

  /** Whatever the file, accepted or rejected halfway, only user space changes. */
  lemma OnlyUserSpaceChanges(m: seq<byte>, f: File, a: u32)
    requires |m| == TWO32 && SaneFrom(f, 0)
    requires a < USER_SPACE_START || USER_SPACE_END <= a
    ensures Loaded(m, f).0[a] == m[a]
  {
    forall k | 0 <= k < f.PhNum() && Judge(f, k) == Load
      ensures !InSegment(PhdrAt(f, k), a)
    {
      SegmentBounds(f, k);
    }
    LoadFromFrame(m, f, 0, a);
  }

  // Exactly which files write outside user space, without asking that segments be well-formed.

  /** From header i on, header k is loaded before any is rejected. */
  ghost predicate Reached(f: File, i: nat, k: nat) {
    i <= k < f.PhNum() && Judge(f, k) == Load && forall j :: i <= j < k ==> Judge(f, j) != Reject
  }

  lemma {:induction false} UnwrittenByteStays(m: seq<byte>, f: File, i: nat, a: u32)
    requires |m| == TWO32 && forall k :: Reached(f, i, k) ==> !Writes(PhdrAt(f, k), a)
    ensures LoadFrom(m, f, i).0[a] == m[a]
    decreases f.PhNum() - i
  {
    hide Judge, PhdrAt;
    if i < f.PhNum() && Judge(f, i) != Reject {
      forall k | Reached(f, i + 1, k)
        ensures !Writes(PhdrAt(f, k), a)
      {
        assert Reached(f, i, k);
      }
      if Judge(f, i) == Load {
        assert Reached(f, i, i);
        UnwrittenByteStays(Store(m, f, PhdrAt(f, i)), f, i + 1, a);
      } else {
        UnwrittenByteStays(m, f, i + 1, a);
      }
    }
  }

  lemma {:induction false} EqualByteStaysEqual(m: seq<byte>, n: seq<byte>, f: File, i: nat, a: u32)
    requires |m| == |n| == TWO32 && m[a] == n[a]
    ensures LoadFrom(m, f, i).0[a] == LoadFrom(n, f, i).0[a]
    decreases f.PhNum() - i
  {
    hide Judge, PhdrAt;
    if i < f.PhNum() && Judge(f, i) != Reject {
      if Judge(f, i) == Load {
        EqualByteStaysEqual(Store(m, f, PhdrAt(f, i)), Store(n, f, PhdrAt(f, i)), f, i + 1, a);
      } else {
        EqualByteStaysEqual(m, n, f, i + 1, a);
      }
    }
  }

  /** What a reached segment writes does not depend on what was there. */
  lemma {:induction false} WrittenByteFixed(m: seq<byte>, n: seq<byte>, f: File, i: nat, k: nat, a: u32)
    requires |m| == |n| == TWO32 && Reached(f, i, k) && Writes(PhdrAt(f, k), a)
    ensures LoadFrom(m, f, i).0[a] == LoadFrom(n, f, i).0[a]
    decreases f.PhNum() - i
  {
    hide Judge, PhdrAt;
    if i == k {
      EqualByteStaysEqual(Store(m, f, PhdrAt(f, i)), Store(n, f, PhdrAt(f, i)), f, i + 1, a);
    } else if Judge(f, i) == Load {
      WrittenByteFixed(Store(m, f, PhdrAt(f, i)), Store(n, f, PhdrAt(f, i)), f, i + 1, k, a);
    } else {
      WrittenByteFixed(m, n, f, i + 1, k, a);
    }
  }

  /** Accepted or rejected, a file leaves everything outside user space alone, on every memory, if
      and only if each segment it gets to load ends, by the larger of its two sizes, inside. */
  lemma UserSpaceOnlyIff(f: File)
    requires HeaderOk(f) && CountOk(f)
    ensures (forall m: seq<byte>, a: u32 :: |m| == TWO32 && !(USER_SPACE_START <= a < USER_SPACE_END) ==>
               Loaded(m, f).0[a] == m[a])
      <==> (forall k :: Reached(f, 0, k) ==> PhdrAt(f, k).vaddr + Extent(PhdrAt(f, k)) <= USER_SPACE_END)
  {
    hide Judge, PhdrAt;
    if forall k :: Reached(f, 0, k) ==> PhdrAt(f, k).vaddr + Extent(PhdrAt(f, k)) <= USER_SPACE_END {
      forall m: seq<byte>, a: u32 | |m| == TWO32 && !(USER_SPACE_START <= a < USER_SPACE_END)
        ensures Loaded(m, f).0[a] == m[a]
      {
        forall k | Reached(f, 0, k)
          ensures !Writes(PhdrAt(f, k), a)
        {
          StaysInUserSpaceIff(f, k);
        }
        UnwrittenByteStays(m, f, 0, a);
      }
    } else {
      var k :| Reached(f, 0, k) && PhdrAt(f, k).vaddr + Extent(PhdrAt(f, k)) > USER_SPACE_END;
      StaysInUserSpaceIff(f, k);
      var a: u32 :| Writes(PhdrAt(f, k), a) && !(USER_SPACE_START <= a < USER_SPACE_END);
      var m: seq<byte> := seq(TWO32, _ => 0);
      var n: seq<byte> := seq(TWO32, _ => 1);
      WrittenByteFixed(m, n, f, 0, k, a);
      assert m[a] == 0 && n[a] == 1;
      assert Loaded(m, f).0[a] != m[a] || Loaded(n, f).0[a] != n[a];
    }
  }

  /** A segment the load-address check passes, with more file bytes than memory. */
  const OVERSIZED := Phdr(PT_LOAD, 0, 0xBFFF_FC00, 0x800, 0x400)

  /** A file with that one segment is accepted, and its second 1024 bytes land above user space. */
  lemma OversizedSegmentExample(m: seq<byte>, f: File, j: nat)
    requires HeaderOk(f) && CountOk(f) && f.PhNum() == 1 && |f.bytes| >= 0x800 && PhdrAt(f, 0) == OVERSIZED
    requires |m| == TWO32 && j < 0x400
    ensures Reached(f, 0, 0) && Loaded(m, f).1
    ensures Loaded(m, f).0[USER_SPACE_END + j] == f.bytes[0x400 + j]
  {
    assert Judge(f, 0) == Load;
    assert LoadFrom(m, f, 0) == LoadFrom(Store(m, f, OVERSIZED), f, 1) == (Store(m, f, OVERSIZED), true);
  }

  /** Such a file, byte by byte, small enough for the shell to load: an ELF header, its program header
      at 52, and zeros. */
  function OversizedByte(k: nat): byte {
    match k
    case 0 => 0x7F
    case 1 => 0x45
    case 2 => 0x4C
    case 3 => 0x46
    case 4 => 1         // 32 bits
    case 5 => 1         // little endian
    case 16 => 2        // e_type
    case 18 => 3        // e_machine
    case 28 => 52       // e_phoff
    case 42 => 32       // e_phentsize
    case 44 => 1        // e_phnum
    case 52 => 1        // p_type
    case 61 => 0xFC     // p_vaddr
    case 62 => 0xFF
    case 63 => 0xBF
    case 69 => 0x08     // p_filesz
    case 73 => 0x04     // p_memsz
    case _ => 0
  }

  function OversizedFile(): (f: File)
    ensures |f.bytes| == 0x800 && forall k :: 0 <= k < 0x800 ==> f.At(k) == OversizedByte(k)
  {
    File(seq(0x800, k requires 0 <= k => OversizedByte(k)), _ => 0)
  }

  lemma OversizedFields()
    ensures var f := OversizedFile();
      HeaderOk(f) && CountOk(f) && f.PhNum() == 1 && PhdrAt(f, 0) == OVERSIZED
  {
    hide OversizedFile, HeaderOk, CountOk, PhdrAt;
    OversizedHeader();
    OversizedPhdr();
  }

  lemma OversizedHeader()
    ensures HeaderOk(OversizedFile()) && CountOk(OversizedFile()) && OversizedFile().PhNum() == 1
  {
    hide OversizedFile;
  }

  lemma OversizedPhdr()
    ensures PhdrAt(OversizedFile(), 0) == OVERSIZED
  {
    hide OversizedFile, OversizedByte, File.U32, File.U16, File.At;
    OversizedFieldsAre();
    PhdrFields(OversizedFile(), 52);
  }

  lemma OversizedFieldsAre()
    ensures var f := OversizedFile();
      && f.U32(28) == 52 && f.U32(52) == 1 && f.U32(56) == 0
      && f.U32(60) == 0xBFFF_FC00 && f.U32(68) == 0x800 && f.U32(72) == 0x400
  {
    hide OversizedFile, File.U32, File.U16, File.At;
    OversizedWord(28, 52, 0, 0, 0);
    OversizedWord(52, 1, 0, 0, 0);
    OversizedWord(56, 0, 0, 0, 0);
    OversizedWord(60, 0, 0xFC, 0xFF, 0xBF);
    OversizedWord(68, 0, 0x08, 0, 0);
    OversizedWord(72, 0, 0x04, 0, 0);
  }

  lemma OversizedWord(k: nat, a: byte, b: byte, c: byte, d: byte)
    requires k + 3 < 0x800 && OversizedByte(k) == a && OversizedByte(k + 1) == b
    requires OversizedByte(k + 2) == c && OversizedByte(k + 3) == d
    ensures OversizedFile().U32(k) == a + 0x100 * b + 0x1_0000 * c + 0x100_0000 * d
  {
    hide OversizedFile, OversizedByte;
  }

  lemma PhdrFields(f: File, k: nat)
    requires f.PhOff() == k
    ensures PhdrAt(f, 0) == Phdr(f.U32(k), f.U32(k + 4), f.U32(k + 8), f.U32(k + 16), f.U32(k + 20))
  {
    assert Times(0, f.PhEntSize()) == 0;
  }

  /** So the right side of UserSpaceOnlyIff does fail: this accepted file changes, on some memory, a
      byte outside user space. */
  lemma AcceptedFileEscapes()
    ensures var f := OversizedFile();
      && HeaderOk(f) && CountOk(f) && f.PhNum() == 1 && PhdrAt(f, 0) == OVERSIZED
      && !(forall m: seq<byte>, a: u32 :: |m| == TWO32 && !(USER_SPACE_START <= a < USER_SPACE_END) ==>
             Loaded(m, f).0[a] == m[a])
  {
    hide OversizedFile, HeaderOk, CountOk, PhdrAt, Judge, LoadFrom;
    var f := OversizedFile();
    var m: seq<byte> := seq(TWO32, _ => 1);
    OversizedFields();
    OversizedSegmentExample(m, f, 0);
    assert f.At(0x400) == 0;
  }

  // What memory holds in the end, without asking that segments be well-formed.

  /** The byte segment p puts at an address it writes. */
  function ImageByte(f: File, p: Phdr, a: u32): byte {
    StoredByte(f, p, a, 0)
  }

  /** Header k is the last reached from header i on that writes address a. */
  ghost predicate LastWriter(f: File, i: nat, k: nat, a: u32) {
    Reached(f, i, k) && Writes(PhdrAt(f, k), a) && forall n :: Reached(f, i, n) && k < n ==> !Writes(PhdrAt(f, n), a)
  }

  /** The last segment to write an address decides the byte there, in accepted files and in files
      rejected halfway; by UnwrittenByteStays all other bytes stay. */
  lemma {:induction false} LastWriterDecides(m: seq<byte>, f: File, i: nat, k: nat, a: u32)
    requires |m| == TWO32 && LastWriter(f, i, k, a)
    ensures LoadFrom(m, f, i).0[a] == ImageByte(f, PhdrAt(f, k), a)
    decreases f.PhNum() - i
  {
    hide Judge, PhdrAt;
    assert forall n :: Reached(f, i + 1, n) ==> Reached(f, i, n);
    if i == k {
      UnwrittenByteStays(Store(m, f, PhdrAt(f, i)), f, i + 1, a);
    } else if Judge(f, i) == Load {
      LastWriterDecides(Store(m, f, PhdrAt(f, i)), f, i + 1, k, a);
    } else {
      LastWriterDecides(m, f, i + 1, k, a);
    }
  }

  lemma {:induction false} LastWriterExists(f: File, k: nat, a: u32) returns (n: nat)
    requires Reached(f, 0, k) && Writes(PhdrAt(f, k), a)
    ensures LastWriter(f, 0, n, a)
    decreases f.PhNum() - k
  {
    hide Judge, PhdrAt, Writes;
    if j :| Reached(f, 0, j) && k < j && Writes(PhdrAt(f, j), a) {
      n := LastWriterExists(f, j, a);
    } else {
      n := k;
    }
  }

  /** A reached segment's image, file bytes and zeros, is in memory in the end exactly if at each of
      its addresses the last segment to write there puts the same byte. */
  lemma ImageKeptIff(f: File, k: nat)
    requires HeaderOk(f) && CountOk(f) && Reached(f, 0, k)
    ensures (forall m: seq<byte>, a: u32 :: |m| == TWO32 && Writes(PhdrAt(f, k), a) ==>
               Loaded(m, f).0[a] == ImageByte(f, PhdrAt(f, k), a))
      <==> (forall n, a: u32 :: LastWriter(f, 0, n, a) && Writes(PhdrAt(f, k), a) ==>
              ImageByte(f, PhdrAt(f, n), a) == ImageByte(f, PhdrAt(f, k), a))
  {
    hide PhdrAt, Writes, ImageByte, Reached, LastWriter;
    forall m: seq<byte>, n, a: u32 | |m| == TWO32 && LastWriter(f, 0, n, a)
      ensures Loaded(m, f).0[a] == ImageByte(f, PhdrAt(f, n), a)
    {
      LastWriterDecides(m, f, 0, n, a);
    }
    forall a: u32 | Writes(PhdrAt(f, k), a)
      ensures exists n :: LastWriter(f, 0, n, a)
    {
      var n := LastWriterExists(f, k, a);
    }
    var zeros: seq<byte> := seq(TWO32, _ => 0);
    assert |zeros| == TWO32;
  }

  /** More file bytes than memory escape the overlap test: a file with these two segments is
      accepted, and the second half of the first one's bytes is zeros in the end. */
  lemma LostImageExample(m: seq<byte>, f: File, j: nat)
    requires HeaderOk(f) && CountOk(f) && f.PhNum() == 2 && |f.bytes| >= 0x20
    requires PhdrAt(f, 0) == Phdr(PT_LOAD, 0, 0x0800_0000, 0x20, 0x10)
    requires PhdrAt(f, 1) == Phdr(PT_LOAD, 0, 0x0800_0010, 0, 0x10)
    requires |m| == TWO32 && j < 0x10
    ensures Loaded(m, f).1 && Loaded(m, f).0[0x0800_0010 + j] == 0
    ensures ImageByte(f, PhdrAt(f, 0), 0x0800_0010 + j) == f.bytes[0x10 + j]
  {
    var p, q := PhdrAt(f, 0), PhdrAt(f, 1);
    assert Judge(f, 0) == Load && Judge(f, 1) == Load;
    var m1 := Store(m, f, p);
    assert LoadFrom(m1, f, 1) == LoadFrom(Store(m1, f, q), f, 2) == (Store(m1, f, q), true);
    assert LoadFrom(m, f, 0) == LoadFrom(m1, f, 1);
  }

  /** The byte an accepted file puts at offset j of segment p. */
  function SegmentByte(f: File, p: Phdr, j: nat): byte
    requires p.offset + p.filesz <= |f.bytes|
  {
    if j < p.filesz then f.bytes[p.offset + j] else 0
  }

  lemma {:induction false} LoadFromImage(m: seq<byte>, f: File, i: nat, k: nat, a: u32)
    requires |m| == TWO32 && SaneFrom(f, i) && i <= k < f.PhNum() && Judge(f, k) == Load
    requires LoadFrom(m, f, i).1 && InSegment(PhdrAt(f, k), a)
    ensures PhdrAt(f, k).offset + PhdrAt(f, k).filesz <= |f.bytes|
    ensures LoadFrom(m, f, i).0[a] == SegmentByte(f, PhdrAt(f, k), a - PhdrAt(f, k).vaddr)
    decreases f.PhNum() - i
  {
    hide Judge, PhdrAt;
    SegmentBounds(f, k);
    if i == k {
      forall n | k + 1 <= n < f.PhNum() && Judge(f, n) == Load
        ensures !InSegment(PhdrAt(f, n), a)
      {
        SegmentsDisjoint(f, k, n, a);
      }
      LoadFromFrame(Store(m, f, PhdrAt(f, k)), f, k + 1, a);
    } else {
      match Judge(f, i) {
        case Skip => LoadFromImage(m, f, i + 1, k, a);
        case Reject =>
        case Load => LoadFromImage(Store(m, f, PhdrAt(f, i)), f, i + 1, k, a);
      }
    }
  }

  /** An accepted file leaves every loaded segment equal to its file bytes followed by zeros, and
      every address outside the segments as it was. */
  lemma AcceptedImage(m: seq<byte>, f: File)
    requires |m| == TWO32 && SaneFrom(f, 0) && Loaded(m, f).1
    ensures forall k :: 0 <= k < f.PhNum() && Judge(f, k) == Load ==>
      PhdrAt(f, k).offset + PhdrAt(f, k).filesz <= |f.bytes|
    ensures forall k, a: u32 :: 0 <= k < f.PhNum() && Judge(f, k) == Load && InSegment(PhdrAt(f, k), a) ==>
      Loaded(m, f).0[a] == SegmentByte(f, PhdrAt(f, k), a - PhdrAt(f, k).vaddr)
    ensures forall a: u32 :: (forall k :: 0 <= k < f.PhNum() && Judge(f, k) == Load ==> !InSegment(PhdrAt(f, k), a)) ==>
      Loaded(m, f).0[a] == m[a]
  {
    hide Judge, PhdrAt;
    forall k | 0 <= k < f.PhNum() && Judge(f, k) == Load
      ensures PhdrAt(f, k).offset + PhdrAt(f, k).filesz <= |f.bytes|
    {
      SegmentBounds(f, k);
    }
    forall k, a: u32 | 0 <= k < f.PhNum() && Judge(f, k) == Load && InSegment(PhdrAt(f, k), a)
      ensures Loaded(m, f).0[a] == SegmentByte(f, PhdrAt(f, k), a - PhdrAt(f, k).vaddr)
    {
      LoadFromImage(m, f, 0, k, a);
    }
    forall a: u32 | forall k :: 0 <= k < f.PhNum() && Judge(f, k) == Load ==> !InSegment(PhdrAt(f, k), a)
      ensures Loaded(m, f).0[a] == m[a]
    {
      LoadFromFrame(m, f, 0, a);
    }
  }

  /** A file is accepted exactly when its headers pass and no program header is rejected. */
  lemma AcceptedIff(m: seq<byte>, f: File)
    requires |m| == TWO32
    ensures Loaded(m, f).1 <==> HeaderOk(f) && CountOk(f) && forall k :: 0 <= k < f.PhNum() ==> Judge(f, k) != Reject
  {
    LoadFromAccepts(m, f, 0);
  }

  lemma {:induction false} LoadFromAccepts(m: seq<byte>, f: File, i: nat)
    requires |m| == TWO32
    ensures LoadFrom(m, f, i).1 <==> forall k :: i <= k < f.PhNum() ==> Judge(f, k) != Reject
    decreases f.PhNum() - i
  {
    hide Judge, PhdrAt;
    if i < f.PhNum() {
      match Judge(f, i) {
        case Skip => LoadFromAccepts(m, f, i + 1);
        case Reject =>
        case Load => LoadFromAccepts(Store(m, f, PhdrAt(f, i)), f, i + 1);
      }
    }
  }

  // ---- the code ----

  /** elf_validate: 0 for an ELF32 little-endian i386 executable, else -1. */
  method ElfValidate(f: File) returns (r: int)
    ensures r == if HeaderOk(f) then 0 else -1
  {
    if |f.bytes| < EHDR_SIZE { return -1; }
    if f.U32(0) != ELF_MAGIC { return -1; }
    if f.At(4) != 1 { return -1; }
    if f.At(5) != 1 { return -1; }
    if f.U16(16) != ET_EXEC { return -1; }
    if f.U16(18) != EM_386 { return -1; }
    return 0;
  }

  method ValidateLoadAddr(addr: u32, size: u32) returns (ok: bool)
    ensures ok <==> AddrOk(addr, size)
  {
    if addr == 0 { return false; }
    if addr < USER_SPACE_START { return false; }
    if Add32(addr, size) > USER_SPACE_END { return false; }
    if addr >= KERNEL_SPACE_START { return false; }
    return true;
  }

  /** elf_load over the whole 32-bit address space. */
  method ElfLoad(f: File, mem: array<byte>) returns (entry: u32)
    requires mem.Length == TWO32 && |f.bytes| < TWO32
    modifies mem
    ensures mem[..] == Loaded(old(mem[..]), f).0
    ensures entry == if Loaded(old(mem[..]), f).1 then f.Entry() else 0
  {
    hide Judge, PhdrAt, Stored;
    var v := ElfValidate(f);
    if v != 0 { return 0; }
    if f.PhOff() == 0 || f.PhNum() == 0 { return 0; }
    if f.PhNum() > 16 { return 0; }
    for i := 0 to f.PhNum()
      invariant LoadFrom(old(mem[..]), f, 0) == LoadFrom(mem[..], f, i)
    {
      var verdict := JudgeHeader(f, i);
      if verdict == Skip { continue; }
      if verdict == Reject { return 0; }
      CopySegment(f, PhdrAt(f, i), mem);
    }
    return f.Entry();
  }

  /** The checks of one turn of elf_load's loop, with the inner loop over earlier headers. */
  method JudgeHeader(f: File, i: nat) returns (v: Verdict)
    requires |f.bytes| < TWO32
    ensures v == Judge(f, i)
  {
    var ph := PhdrAt(f, i);
    if ph.ptype != PT_LOAD { return Skip; }
    if Add32(ph.offset, ph.filesz) > |f.bytes| { return Reject; }
    if ph.vaddr == 0 || ph.memsz == 0 { return Skip; }
    var ok := ValidateLoadAddr(ph.vaddr, ph.memsz);
    if !ok { return Reject; }
    for j := 0 to i
      invariant forall k :: 0 <= k < j ==> !(PhdrAt(f, k).ptype == PT_LOAD && Clash(ph, PhdrAt(f, k)))
    {
      var prev := PhdrAt(f, j);
      if prev.ptype != PT_LOAD { continue; }
      var prevEnd := Add32(prev.vaddr, prev.memsz);
      var curEnd := Add32(ph.vaddr, ph.memsz);
      if (ph.vaddr >= prev.vaddr && ph.vaddr < prevEnd) || (prev.vaddr >= ph.vaddr && prev.vaddr < curEnd) {
        assert Clash(ph, PhdrAt(f, j));
        return Reject;
      }
    }
    return Load;
  }

  method CopySegment(f: File, ph: Phdr, mem: array<byte>)
    requires mem.Length == TWO32
    modifies mem
    ensures mem[..] == Store(old(mem[..]), f, ph)
  {
    hide Sub32, Add32;
    var j := 0;
    while j < ph.filesz
      invariant 0 <= j <= ph.filesz
      invariant forall a :: 0 <= a < TWO32 ==>
        mem[a] == if Sub32(a, ph.vaddr) < j then f.At(ph.offset + Sub32(a, ph.vaddr)) else old(mem[a])
    {
      mem[Add32(ph.vaddr, j)] := f.At(ph.offset + j);
      j := j + 1;
    }
    j := ph.filesz;
    while j < ph.memsz
      invariant ph.filesz <= j && (ph.filesz <= ph.memsz ==> j <= ph.memsz) && (ph.filesz > ph.memsz ==> j == ph.filesz)
      invariant forall a :: 0 <= a < TWO32 ==>
        mem[a] == if Sub32(a, ph.vaddr) < ph.filesz then f.At(ph.offset + Sub32(a, ph.vaddr))
                  else if Sub32(a, ph.vaddr) < j then 0 else old(mem[a])
    {
      mem[Add32(ph.vaddr, j)] := 0;
      j := j + 1;
    }
    assert mem[..] == Store(old(mem[..]), f, ph);
  }
}
