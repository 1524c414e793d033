/**
 The page tables that the kernel builds (kernel/src/memory), judged by the processor's walk through
 them: section 4.3 of volume 3A of the Intel Software Developer's Manual, 4-KByte pages only.
 Physical memory is an array of 32-bit words, 1024 to a frame; tables are named by their frames.
 */
module PageTables {
  import opened Words
  import opened Wrappers

  const NR: nat := 1024
  const PAGE_SIZE: nat := 0x1000
  const PT_SIZE: nat := 0x40_0000
  const PHY_MEM: nat := 0x800_0000
  const KOFFSET: nat := 0xC000_0000
  /** The 16 pages of the screen. */
  const VMEM: nat := 0xA_0000
  const VMEM_END: nat := 0xB_0000

  /** Entry i of the table in this frame; there is nothing outside memory. */
  function Entry(mem: seq<uint32>, frame: nat, i: nat): uint32 {
    if frame * NR + i < |mem| then mem[frame * NR + i] else 0
  }

  /** Where the entry of a page table leads, if it is present. */
  function Leaf(pte: uint32, va: uint32): Option<nat> {
    if pte % 2 == 0 then None else Some(pte / PAGE_SIZE * PAGE_SIZE + va % PAGE_SIZE)
  }

  /** The physical address of va under the directory in this frame. */
  function Walk(mem: seq<uint32>, dir: nat, va: uint32): Option<nat> {
    var pde := Entry(mem, dir, va / PT_SIZE);
    if pde % 2 == 0 then None
    else Leaf(Entry(mem, pde / PAGE_SIZE, va / PAGE_SIZE % NR), va)
  }

  /** make_pde and make_pte: the frame of an address, present, writable, for the user. */
  function MakeEntry(addr: uint32): uint32 {
    addr / PAGE_SIZE * PAGE_SIZE + 7
  }

  /** All of memory where it is, and again from KOFFSET on; nothing else. */
  function KernelMap(va: uint32): Option<nat> {
    if va < PHY_MEM then Some(va)
    else if KOFFSET <= va < KOFFSET + PHY_MEM then Some(va - KOFFSET)
    else None
  }

  /* ---- tables ---- */

  /** The first n page tables are entered in the directory, once from 0 and once from KOFFSET on. */
  ghost predicate Directory(mem: seq<uint32>, dir: nat, tables: nat, n: nat) {
    && dir * NR + NR <= |mem|
    && forall a: nat :: dir * NR <= a < dir * NR + NR ==> mem[a] == DirectoryEntry(a - dir * NR, tables, n)
  }

  function DirectoryEntry(k: nat, tables: nat, n: nat): int {
    if k < n then (tables + k) * PAGE_SIZE + 7
    else if 768 <= k < 768 + n then (tables + k - 768) * PAGE_SIZE + 7
    else 0
  }

  /** The first n page tables, one after the other, map the frames in order. */
  ghost predicate Tables(mem: seq<uint32>, tables: nat, n: nat) {
    && (tables + n) * NR <= |mem|
    && forall a: nat :: tables * NR <= a < (tables + n) * NR ==> mem[a] == (a - tables * NR) * PAGE_SIZE + 7
  }

  /** Outside the words from lo to hi nothing has changed. */
  ghost predicate Framed(mem: seq<uint32>, mem': seq<uint32>, lo: nat, hi: nat) {
    && |mem'| == |mem|
    && forall a: nat :: a < |mem| && !(lo <= a < hi) ==> mem'[a] == mem[a]
  }

  /** Nothing has changed outside the kernel's directory and tables. */
  ghost predicate KernelFramed(mem: seq<uint32>, mem': seq<uint32>, dir: nat, tables: nat) {
    && |mem'| == |mem|
    && forall a: nat :: a < |mem| && !(dir * NR <= a < dir * NR + NR) && !(tables * NR <= a < (tables + 32) * NR) ==>
                          mem'[a] == mem[a]
  }

  /** The walk through a finished kernel directory. */
  lemma KernelWalk(mem: seq<uint32>, dir: nat, tables: nat, va: uint32)
    requires Directory(mem, dir, tables, 32) && Tables(mem, tables, 32) && |mem| <= PHY_MEM / 4
    ensures Walk(mem, dir, va) == KernelMap(va)
  {
    var i, j := va / PT_SIZE, va / PAGE_SIZE % NR;
    assert i < NR && va == (NR * i + j) * PAGE_SIZE + va % PAGE_SIZE;
    var t := if i < 32 then i else i - 768;
    assert Entry(mem, dir, i) == DirectoryEntry(i, tables, 32);
    if i < 32 || 768 <= i < 800 {
      assert Entry(mem, dir, i) / PAGE_SIZE == tables + t;
      assert Entry(mem, tables + t, j) == (NR * t + j) * PAGE_SIZE + 7;
    }
  }

  /** memset(&table, 0, n * 4) */
  method Clear(mem: array<uint32>, lo: nat, n: nat)
    requires lo + n <= mem.Length
    modifies mem
    ensures Framed(old(mem[..]), mem[..], lo, lo + n)
    ensures forall a: nat :: lo <= a < lo + n ==> mem[a] == 0
  {
    forall a | lo <= a < lo + n {
      mem[a] := 0;
    }
  }

  /** What the user finds: the kernel above, the screen, and below 4 MByte what frame 0 held before. */
  ghost function UserMap(before: seq<uint32>, va: uint32): Option<nat> {
    if va >= KOFFSET then KernelMap(va)
    else if VMEM <= va < VMEM_END then Some(va)
    else if va < PT_SIZE then Leaf(Entry(before, 0, va / PAGE_SIZE), va)
    else None
  }

  /** The kernel's directory names its own tables only. */
  lemma KernelTablesApart(mem: seq<uint32>, dir: nat, tables: nat, updir: nat, va: uint32)
    requires Directory(mem, dir, tables, 32) && tables > 0 && !(tables <= updir < tables + 32)
    ensures var pde := Entry(mem, dir, va / PT_SIZE); pde % 2 == 1 ==> pde / PAGE_SIZE != 0 && pde / PAGE_SIZE != updir
  {
    var i := va / PT_SIZE;
    assert Entry(mem, dir, i) == DirectoryEntry(i, tables, 32);
    var t := if i < 32 then i else i - 768;
    if i < 32 || 768 <= i < 800 {
      assert Entry(mem, dir, i) / PAGE_SIZE == tables + t;
    }
  }

  /** An upper user entry is the kernel's; the others are absent. */
  lemma UpperEntry(mem: seq<uint32>, kpdir: nat, updir: nat, va: uint32)
    requires CopiedAbove(mem, updir, kpdir)
    ensures Entry(mem, updir, va / PT_SIZE) == if va < KOFFSET then 0 else Entry(mem, kpdir, va / PT_SIZE)
  {
    var i := va / PT_SIZE;
    assert i < NR && (i < 768 <==> va < KOFFSET);
  }

  lemma SetUpWalk(before: seq<uint32>, user: seq<uint32>, final: seq<uint32>,
                  kpdir: nat, tables: nat, updir: nat, va: uint32)
    requires VideoMapped(user, final, updir) && CopiedAbove(user, updir, kpdir) && |before| == |user| > NR
    requires Directory(user, kpdir, tables, 32) && kpdir > 0 && tables > 0 && updir != kpdir
    requires !(tables <= updir < tables + 32) && Walk(user, kpdir, va) == KernelMap(va)
    requires forall a: nat :: a < NR ==> user[a] == before[a]
    ensures Walk(final, kpdir, va) == KernelMap(va) && Walk(final, updir, va) == UserMap(before, va)
  {
    KernelTablesApart(user, kpdir, tables, updir, va);
    OtherWalk(user, final, updir, kpdir, va);
    if va < PT_SIZE {
      LowWalk(user, final, updir, va);
      assert user[va / PAGE_SIZE] == Entry(before, 0, va / PAGE_SIZE);
    } else {
      UpperEntry(user, kpdir, updir, va);
      UpperWalk(user, updir, kpdir, va);
      OtherWalk(user, final, updir, updir, va);
    }
  }

  /** The first user entry names frame 0 as its page table; there the entries from 160 to n are identities. */
  ghost predicate Video(mem: seq<uint32>, mem': seq<uint32>, dir: nat, n: nat) {
    && |mem'| == |mem| && NR <= dir < |mem| && mem'[dir] == 7
    && forall a: nat :: a < |mem| && a != dir ==> mem'[a] == if 160 <= a < n then a * PAGE_SIZE + 7 else mem[a]
  }

  ghost predicate VideoMapped(mem: seq<uint32>, mem': seq<uint32>, updir: nat) {
    Video(mem, mem', updir * NR, 176)
  }

  lemma LowWalk(mem: seq<uint32>, mem': seq<uint32>, updir: nat, va: uint32)
    requires VideoMapped(mem, mem', updir) && va < PT_SIZE
    ensures Walk(mem', updir, va) == if VMEM <= va < VMEM_END then Some(va) else Leaf(mem[va / PAGE_SIZE], va)
  {
    assert va / PT_SIZE == 0 && va / PAGE_SIZE % NR == va / PAGE_SIZE < NR;
    assert Entry(mem', updir, 0) == 7 && Entry(mem', 0, va / PAGE_SIZE) == mem'[va / PAGE_SIZE];
  }

  /** The video mapping moves no other page, as long as no other page table lies in frame 0. */
  lemma OtherWalk(mem: seq<uint32>, mem': seq<uint32>, updir: nat, dir: nat, va: uint32)
    requires VideoMapped(mem, mem', updir) && dir > 0 && (dir == updir ==> va >= PT_SIZE)
    requires var pde := Entry(mem, dir, va / PT_SIZE); pde % 2 == 1 ==> pde / PAGE_SIZE != 0 && pde / PAGE_SIZE != updir
    ensures Walk(mem', dir, va) == Walk(mem, dir, va)
  {
    var i, j := va / PT_SIZE, va / PAGE_SIZE % NR;
    assert Entry(mem', dir, i) == Entry(mem, dir, i);
    var pde := Entry(mem, dir, i);
    assert pde % 2 == 1 ==> Entry(mem', pde / PAGE_SIZE, j) == Entry(mem, pde / PAGE_SIZE, j);
  }

  /** The directory has the upper entries of another one, and no lower ones. */
  ghost predicate CopiedAbove(mem: seq<uint32>, dir: nat, dir': nat) {
    forall k: nat :: k < NR ==> Entry(mem, dir, k) == if k < 768 then 0 else Entry(mem, dir', k)
  }

  lemma MappedKept(mem: seq<uint32>, mem': seq<uint32>, kpdir: nat, tables: nat, updir: nat)
    requires Directory(mem, kpdir, tables, 32) && Tables(mem, tables, 32)
    requires Framed(mem, mem', updir * NR, updir * NR + NR) && kpdir != updir && !(tables <= updir < tables + 32)
    ensures Directory(mem', kpdir, tables, 32) && Tables(mem', tables, 32)
  {
  }

  lemma UpperWalk(mem: seq<uint32>, dir: nat, dir': nat, va: uint32)
    requires CopiedAbove(mem, dir, dir')
    ensures Walk(mem, dir, va) == if va < KOFFSET then None else Walk(mem, dir', va)
  {
    UpperEntry(mem, dir', dir, va);
  }

  class Kernel {
    const mem: array<uint32>
    /** The frames of the kernel's page directory, of its 32 page tables, and of the user's directory. */
    const kpdir: nat
    const kptable: nat
    const updir: nat
    var cr3: uint32
    var paging: bool
    var ucr3: uint32

    constructor (mem: array<uint32>, kpdir: nat, kptable: nat, updir: nat)
      ensures this.mem == mem && this.kpdir == kpdir && this.kptable == kptable && this.updir == updir && !paging
    {
      this.mem, this.kpdir, this.kptable, this.updir := mem, kpdir, kptable, updir;
      cr3, paging, ucr3 := 0, false, 0;
    }

    /** The static tables lie in memory, apart from each other and not in frame 0. */
    ghost predicate Placed() {
      && mem.Length == PHY_MEM / 4
      && 1 <= kpdir < PHY_MEM / PAGE_SIZE && 1 <= updir < PHY_MEM / PAGE_SIZE
      && 1 <= kptable <= PHY_MEM / PAGE_SIZE - 32
      && kpdir != updir && !(kptable <= kpdir < kptable + 32) && !(kptable <= updir < kptable + 32)
    }

    /** The kernel's tables as init_page leaves them. */
    ghost predicate Mapped()
      reads mem
    {
      Placed() && Directory(mem[..], kpdir, kptable, 32) && Tables(mem[..], kptable, 32)
    }

    /** The inner loop of init_page: page table t, from the word ptable on. */
    method FillTable(t: nat, ptable: nat) returns (next: nat)
      requires Placed() && t < 32 && ptable == (kptable + t) * NR && Tables(mem[..], kptable, t)
      modifies mem
      ensures next == ptable + NR && Framed(old(mem[..]), mem[..], ptable, next) && Tables(mem[..], kptable, t + 1)
    {
      var i := 0;
      next := ptable;
      while i < NR
        invariant i <= NR && next == ptable + i && Framed(old(mem[..]), mem[..], ptable, next)
        invariant forall a: nat :: kptable * NR <= a < next ==> mem[a] == (a - kptable * NR) * PAGE_SIZE + 7
      {
        mem[next] := MakeEntry((NR * t + i) * PAGE_SIZE);
        next := next + 1;
        i := i + 1;
      }
    }

    /** One round of the outer loop of init_page. */
    method EnterTable(t: nat, ptable: nat) returns (next: nat)
      requires Placed() && t < 32 && ptable == (kptable + t) * NR
      requires Directory(mem[..], kpdir, kptable, t) && Tables(mem[..], kptable, t)
      modifies mem
      ensures next == ptable + NR && KernelFramed(old(mem[..]), mem[..], kpdir, kptable)
      ensures Directory(mem[..], kpdir, kptable, t + 1) && Tables(mem[..], kptable, t + 1)
    {
      var pdir := kpdir * NR;
      mem[pdir + t] := MakeEntry(4 * ptable);
      mem[pdir + t + KOFFSET / PT_SIZE] := MakeEntry(4 * ptable);
      assert Directory(mem[..], kpdir, kptable, t + 1);
      next := FillTable(t, ptable);
    }

    /** init_page: afterwards the kernel's directory maps memory twice, and paging is on. */
    method InitPage()
      requires Placed()
      modifies mem, this`cr3, this`paging
      ensures Mapped() && KernelFramed(old(mem[..]), mem[..], kpdir, kptable)
      ensures forall va: uint32 :: Walk(mem[..], kpdir, va) == KernelMap(va)
      ensures cr3 == kpdir * PAGE_SIZE && paging
    {
      Clear(mem, kpdir * NR, NR);
      var ptable, t := kptable * NR, 0;
      while t < 32
        invariant t <= 32 && ptable == (kptable + t) * NR && KernelFramed(old(mem[..]), mem[..], kpdir, kptable)
        invariant Directory(mem[..], kpdir, kptable, t) && Tables(mem[..], kptable, t)
      {
        ptable := EnterTable(t, ptable);
        t := t + 1;
      }
      cr3 := kpdir * NR * 4 / PAGE_SIZE * PAGE_SIZE;
      paging := true;
      forall va: uint32
        ensures Walk(mem[..], kpdir, va) == KernelMap(va)
      {
        KernelWalk(mem[..], kpdir, kptable, va);
      }
    }

    /** The memset and memcpy of init_mm. */
    method CopyDirectory()
      requires Mapped()
      modifies mem
      ensures Framed(old(mem[..]), mem[..], updir * NR, updir * NR + NR) && CopiedAbove(mem[..], updir, kpdir)
    {
      Clear(mem, updir * NR, NR);
      ghost var cleared := mem[..];
      var from, to, n := kpdir * NR + KOFFSET / PT_SIZE, updir * NR + KOFFSET / PT_SIZE, PHY_MEM / PT_SIZE;
      assert forall a: nat :: from + n <= a < kpdir * NR + NR ==> cleared[a] == 0;
      forall k | to <= k < to + n {
        mem[k] := mem[k - to + from];
      }
      forall k: nat | k < NR
        ensures Entry(mem[..], updir, k) == if k < 768 then 0 else Entry(mem[..], kpdir, k)
      {
        assert cleared[updir * NR + k] == 0;
      }
    }

    /** init_mm: the user's directory has the kernel's upper entries, and nothing below them. */
    method InitMm()
      requires Mapped()
      modifies mem, this`ucr3
      ensures Mapped() && Framed(old(mem[..]), mem[..], updir * NR, updir * NR + NR)
      ensures CopiedAbove(mem[..], updir, kpdir)
      ensures forall va: uint32 :: Walk(mem[..], updir, va) == if va < KOFFSET then None else Walk(mem[..], kpdir, va)
      ensures forall va: uint32 :: Walk(mem[..], kpdir, va) == KernelMap(va)
      ensures ucr3 == updir * PAGE_SIZE
    {
      ghost var before := mem[..];
      CopyDirectory();
      MappedKept(before, mem[..], kpdir, kptable, updir);
      ucr3 := updir * PAGE_SIZE / 0x400 * 0x400;
      forall va: uint32
        ensures Walk(mem[..], kpdir, va) == KernelMap(va)
        ensures Walk(mem[..], updir, va) == if va < KOFFSET then None else Walk(mem[..], kpdir, va)
      {
        KernelWalk(mem[..], kpdir, kptable, va);
        UpperWalk(mem[..], updir, kpdir, va);
      }
    }

    /**
     create_video_mapping.  The page table is frame 0, of which 16 entries are written; what the
     others say is left to whatever the frame holds.
     */
    method CreateVideoMapping()
      requires Placed()
      modifies mem
      ensures VideoMapped(old(mem[..]), mem[..], updir)
      ensures forall va: uint32 :: va < PT_SIZE ==>
                Walk(mem[..], updir, va)
                == if VMEM <= va < VMEM_END then Some(va) else Leaf(old(mem[..])[va / PAGE_SIZE], va)
    {
      var dir := updir * NR;
      mem[dir] := 0;
      mem[dir] := MakeEntry(mem[dir] / PAGE_SIZE);
      var frame, i := 160, 0;
      var uptable := mem[dir] / PAGE_SIZE * NR + frame;
      while i < 320 * 200 / 4096 + 1
        invariant i <= 16 && frame == 160 + i && uptable == frame
        invariant Video(old(mem[..]), mem[..], dir, uptable)
      {
        mem[uptable] := MakeEntry(frame * PAGE_SIZE);
        frame, uptable, i := frame + 1, uptable + 1, i + 1;
      }
      forall va: uint32 | va < PT_SIZE
        ensures Walk(mem[..], updir, va)
                == if VMEM <= va < VMEM_END then Some(va) else Leaf(old(mem[..])[va / PAGE_SIZE], va)
      {
        LowWalk(old(mem[..]), mem[..], updir, va);
      }
    }

    /** The three of them in the order of the boot, without user pages in between. */
    method SetUp()
      requires Placed()
      modifies mem, this
      ensures forall va: uint32 :: Walk(mem[..], kpdir, va) == KernelMap(va)
      ensures forall va: uint32 :: Walk(mem[..], updir, va) == UserMap(old(mem[..]), va)
    {
      InitPage();
      InitMm();
      ghost var user := mem[..];
      CreateVideoMapping();
      forall va: uint32
        ensures Walk(mem[..], kpdir, va) == KernelMap(va)
        ensures Walk(mem[..], updir, va) == UserMap(old(mem[..]), va)
      {
        KernelWalk(user, kpdir, kptable, va);
        SetUpWalk(old(mem[..]), user, mem[..], kpdir, kptable, updir, va);
      }
    }
  }
}
