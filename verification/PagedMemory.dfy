/** The linear-address accesses of nemu/src/memory/memory.c over a flat physical memory. */
module PagedMemory {
  import opened PowersOfTwo
  import opened Words

  const PAGE := 0x1000

  /** 256^n, for the at most four bytes of a word. */
  function Unit(n: nat): nat
    requires n <= 4
  {
    if n == 0 then 1
    else if n == 1 then 0x100
    else if n == 2 then 0x1_0000
    else if n == 3 then 0x100_0000
    else 0x1_0000_0000
  }

  /** data >> (8 * n). */
  function ShiftRight(data: nat, n: nat): nat
    requires n <= 4
  {
    if n == 0 then data
    else if n == 1 then data / 0x100
    else if n == 2 then data / 0x1_0000
    else if n == 3 then data / 0x100_0000
    else data / 0x1_0000_0000
  }

  /** data << (8 * n), in 32 bits. */
  function ShiftLeft(data: nat, n: nat): uint32
    requires n <= 4
  {
    data * Unit(n) % WRAP
  }

  /** The low n bytes of a word: data & 0xff, data & 0xffff, and so on. */
  function LowBytes(data: nat, n: nat): nat
    requires n <= 4
  {
    if n == 0 then 0
    else if n == 1 then data % 0x100
    else if n == 2 then data % 0x1_0000
    else if n == 3 then data % 0x100_0000
    else data % 0x1_0000_0000
  }

  /** Byte i of a word, least significant first. */
  function ByteOf(data: nat, i: nat): byte
    requires i < 4
  {
    ShiftRight(data, i) % 0x100
  }

  /** Where linear addresses lead: page by page through an arbitrary frame map, or nowhere else. */
  datatype Mapping = Mapping(paging: bool, frame: nat -> nat) {
    function Translate(laddr: uint32): nat {
      frame(laddr / PAGE) * PAGE + laddr % PAGE
    }

    /** The physical address of byte i of an access. */
    function Phys(laddr: uint32, i: nat): nat {
      if paging then Translate((laddr + i) % WRAP) else laddr + i
    }
  }

  predicate IsLength(len: nat) {
    len == 1 || len == 2 || len == 4
  }

  predicate CrossesPage(laddr: uint32, len: nat) {
    laddr / PAGE != (laddr + len - 1) % WRAP / PAGE
  }

  /* ---- the byte-by-byte memory ---- */

  /** The n bytes of an access, each fetched at its own translated address. */
  function ReadBytes(mem: seq<byte>, m: Mapping, laddr: uint32, n: nat): nat
    requires n <= 4 && forall i :: 0 <= i < n ==> m.Phys(laddr, i) < |mem|
  {
    if n == 0 then 0
    else ReadBytes(mem, m, laddr, n - 1) + mem[m.Phys(laddr, n - 1)] * Unit(n - 1)
  }

  lemma {:induction false} ReadBytesBound(mem: seq<byte>, m: Mapping, laddr: uint32, n: nat)
    requires n <= 4 && forall i :: 0 <= i < n ==> m.Phys(laddr, i) < |mem|
    ensures ReadBytes(mem, m, laddr, n) < Unit(n)
  {
    if n > 0 {
      ReadBytesBound(mem, m, laddr, n - 1);
    }
  }

  function WriteBytes(mem: seq<byte>, m: Mapping, laddr: uint32, data: nat, n: nat): (mem': seq<byte>)
    requires n <= 4 && forall i :: 0 <= i < n ==> m.Phys(laddr, i) < |mem|
    ensures |mem'| == |mem|
  {
    if n == 0 then mem
    else WriteBytes(mem, m, laddr, data, n - 1)[m.Phys(laddr, n - 1) := ByteOf(data, n - 1)]
  }

  /** The bytes of one access lie at different physical addresses, whatever the frame map. */
  lemma PhysInjective(m: Mapping, laddr: uint32, i: nat, j: nat)
    requires i < j < PAGE
    ensures m.Phys(laddr, i) != m.Phys(laddr, j)
  {
    if m.paging {
      PageOffset(m, laddr, i);
      PageOffset(m, laddr, j);
    }
  }

  /** Translation and wrap-around leave the offset in the page alone. */
  lemma PageOffset(m: Mapping, laddr: uint32, i: nat)
    requires m.paging
    ensures m.Phys(laddr, i) % PAGE == (laddr + i) % PAGE
  {
    var x := (laddr + i) % WRAP;
    AddMultiple(x, (laddr + i) / WRAP * 0x10_0000, PAGE);
    AddMultiple(x % PAGE, m.frame(x / PAGE), PAGE);
  }

  lemma {:induction false} WrittenByte(mem: seq<byte>, m: Mapping, laddr: uint32, data: nat, n: nat, i: nat)
    requires n <= 4 && forall i :: 0 <= i < n ==> m.Phys(laddr, i) < |mem|
    requires i < n
    ensures WriteBytes(mem, m, laddr, data, n)[m.Phys(laddr, i)] == ByteOf(data, i)
  {
    if i < n - 1 {
      WrittenByte(mem, m, laddr, data, n - 1, i);
      PhysInjective(m, laddr, i, n - 1);
    }
  }

  lemma {:induction false} UntouchedByte(mem: seq<byte>, m: Mapping, laddr: uint32, data: nat, n: nat, a: nat)
    requires n <= 4 && forall i :: 0 <= i < n ==> m.Phys(laddr, i) < |mem|
    requires a < |mem| && forall i :: 0 <= i < n ==> m.Phys(laddr, i) != a
    ensures WriteBytes(mem, m, laddr, data, n)[a] == mem[a]
  {
    if n > 0 {
      UntouchedByte(mem, m, laddr, data, n - 1, a);
    }
  }

  lemma BytesCompose(data: nat, n: nat)
    requires n <= 3
    ensures LowBytes(data, n + 1) == LowBytes(data, n) + ByteOf(data, n) * Unit(n)
  {
    var q, low := ShiftRight(data, n), LowBytes(data, n);
    assert data == q * Unit(n) + low && low < Unit(n);
    DivModUnique(data, q / 0x100, Unit(n + 1), q % 0x100 * Unit(n) + low);
  }

  /** Reading through one linear address what was written through another that leads to the same bytes. */
  lemma {:induction false} ReadBack(mem: seq<byte>, m: Mapping, laddr: uint32, data: nat, n: nat,
                                    laddr': uint32, k: nat)
    requires k <= n <= 4 && forall i :: 0 <= i < n ==> m.Phys(laddr, i) < |mem|
    requires forall i :: 0 <= i < n ==> m.Phys(laddr', i) == m.Phys(laddr, i)
    ensures ReadBytes(WriteBytes(mem, m, laddr, data, n), m, laddr', k) == LowBytes(data, k)
  {
    if k > 0 {
      ReadBack(mem, m, laddr, data, n, laddr', k - 1);
      WrittenByte(mem, m, laddr, data, n, k - 1);
      BytesCompose(data, k - 1);
    }
  }

  /* ---- runs of writes ---- */

  datatype Write = Write(laddr: uint32, len: nat, data: uint32)

  ghost predicate InMemory(size: nat, m: Mapping, laddr: uint32, len: nat) {
    len <= 4 && forall i :: 0 <= i < len ==> m.Phys(laddr, i) < size
  }

  ghost predicate AllInMemory(size: nat, m: Mapping, writes: seq<Write>) {
    forall w :: w in writes ==> InMemory(size, m, w.laddr, w.len)
  }

  function After(mem: seq<byte>, m: Mapping, writes: seq<Write>): (mem': seq<byte>)
    requires AllInMemory(|mem|, m, writes)
    ensures |mem'| == |mem|
  {
    if writes == [] then mem
    else
      var last := |writes| - 1;
      var before := After(mem, m, writes[..last]);
      assert writes[last] in writes;
      WriteBytes(before, m, writes[last].laddr, writes[last].data, writes[last].len)
  }

  /** w stores its byte i at physical address a. */
  predicate Stores(m: Mapping, w: Write, i: nat, a: nat) {
    i < w.len <= 4 && m.Phys(w.laddr, i) == a
  }

  ghost predicate Misses(m: Mapping, w: Write, a: nat) {
    forall i: nat :: !Stores(m, w, i, a)
  }

  /** No write from index k on reaches physical address a. */
  ghost predicate Quiet(m: Mapping, writes: seq<Write>, k: nat, a: nat) {
    forall j, i :: k <= j < |writes| && 0 <= i ==> !Stores(m, writes[j], i, a)
  }

  /** Every byte of memory is the one last stored there, or else the initial one. */
  lemma {:induction false} LastWriteWins(mem: seq<byte>, m: Mapping, writes: seq<Write>, a: nat)
    requires AllInMemory(|mem|, m, writes) && a < |mem|
    ensures Quiet(m, writes, 0, a) ==> After(mem, m, writes)[a] == mem[a]
    ensures forall k: nat, i: nat :: k < |writes| && Stores(m, writes[k], i, a) && Quiet(m, writes, k + 1, a) ==>
                                        After(mem, m, writes)[a] == ByteOf(writes[k].data, i)
  {
    if writes != [] {
      var last := |writes| - 1;
      var w := writes[last];
      assert w in writes;
      var before := After(mem, m, writes[..last]);
      LastWriteWins(mem, m, writes[..last], a);
      ByteAfter(before, m, w, a);
      forall k: nat, i: nat | k < |writes| && Stores(m, writes[k], i, a) && Quiet(m, writes, k + 1, a)
        ensures After(mem, m, writes)[a] == ByteOf(writes[k].data, i)
      {
        if k < last {
          QuietPrefix(m, writes, k + 1, a);
        }
      }
      if Quiet(m, writes, 0, a) {
        QuietPrefix(m, writes, 0, a);
      }
    }
  }

  lemma QuietPrefix(m: Mapping, writes: seq<Write>, k: nat, a: nat)
    requires k < |writes| && Quiet(m, writes, k, a)
    ensures Quiet(m, writes[..|writes| - 1], k, a)
    ensures Misses(m, writes[|writes| - 1], a)
  {
  }

  lemma ByteAfter(mem: seq<byte>, m: Mapping, w: Write, a: nat)
    requires InMemory(|mem|, m, w.laddr, w.len) && a < |mem|
    ensures forall i: nat :: Stores(m, w, i, a) ==>
                               WriteBytes(mem, m, w.laddr, w.data, w.len)[a] == ByteOf(w.data, i)
    ensures Misses(m, w, a) ==> WriteBytes(mem, m, w.laddr, w.data, w.len)[a] == mem[a]
  {
    forall i: nat | Stores(m, w, i, a)
      ensures WriteBytes(mem, m, w.laddr, w.data, w.len)[a] == ByteOf(w.data, i)
    {
      WrittenByte(mem, m, w.laddr, w.data, w.len, i);
    }
    if Misses(m, w, a) {
      forall i | 0 <= i < w.len
        ensures m.Phys(w.laddr, i) != a
      {
        assert !Stores(m, w, i, a);
      }
      UntouchedByte(mem, m, w.laddr, w.data, w.len, a);
    }
  }

  /* ---- accesses to consecutive physical bytes ---- */

  function FlatRead(mem: seq<byte>, paddr: nat, n: nat): nat
    requires n <= 4 && paddr + n <= |mem|
  {
    if n == 0 then 0 else FlatRead(mem, paddr, n - 1) + mem[paddr + n - 1] * Unit(n - 1)
  }

  function FlatWrite(mem: seq<byte>, paddr: nat, data: nat, n: nat): (mem': seq<byte>)
    requires n <= 4 && paddr + n <= |mem|
    ensures |mem'| == |mem|
  {
    if n == 0 then mem else FlatWrite(mem, paddr, data, n - 1)[paddr + n - 1 := ByteOf(data, n - 1)]
  }

  /** A word read past the bytes wanted, masked down to them. */
  lemma {:induction false} MaskedRead(mem: seq<byte>, paddr: nat, n: nat, k: nat)
    requires k <= n <= 4 && paddr + n <= |mem|
    ensures LowBytes(FlatRead(mem, paddr, n), k) == FlatRead(mem, paddr, k) < Unit(k)
  {
    FlatReadBound(mem, paddr, k);
    if k < n {
      MaskedRead(mem, paddr, n - 1, k);
      DropTopByte(FlatRead(mem, paddr, n - 1), mem[paddr + n - 1], n - 1, k);
    }
  }

  lemma DropTopByte(low: nat, b: byte, n: nat, k: nat)
    requires k <= n <= 3
    ensures LowBytes(low + b * Unit(n), k) == LowBytes(low, k)
  {
    AddMultiple(low, b * Unit(n - k), Unit(k));
    assert b * Unit(n - k) * Unit(k) == b * Unit(n);
  }

  lemma {:induction false} FlatReadBound(mem: seq<byte>, paddr: nat, n: nat)
    requires n <= 4 && paddr + n <= |mem|
    ensures FlatRead(mem, paddr, n) < Unit(n)
  {
    if n > 0 {
      FlatReadBound(mem, paddr, n - 1);
    }
  }

  lemma {:induction false} FlatIsBytes(mem: seq<byte>, m: Mapping, laddr: uint32, paddr: nat, n: nat)
    requires n <= 4 && paddr + n <= |mem| && forall i :: 0 <= i < n ==> m.Phys(laddr, i) == paddr + i
    ensures ReadBytes(mem, m, laddr, n) == FlatRead(mem, paddr, n)
  {
    if n > 0 {
      FlatIsBytes(mem, m, laddr, paddr, n - 1);
    }
  }

  lemma {:induction false} FlatWriteIsBytes(mem: seq<byte>, m: Mapping, laddr: uint32, paddr: nat,
                                            data: nat, data': nat, n: nat)
    requires n <= 4 && paddr + n <= |mem| && forall i :: 0 <= i < n ==> m.Phys(laddr, i) == paddr + i
    requires forall i :: 0 <= i < n ==> ByteOf(data', i) == ByteOf(data, i)
    ensures WriteBytes(mem, m, laddr, data, n) == FlatWrite(mem, paddr, data', n)
  {
    if n > 0 {
      FlatWriteIsBytes(mem, m, laddr, paddr, data, data', n - 1);
    }
  }

  lemma PhysShift(m: Mapping, laddr: uint32, n: nat, laddr': uint32, i: nat)
    requires m.paging && laddr' == (laddr + n) % WRAP
    ensures m.Phys(laddr', i) == m.Phys(laddr, n + i)
  {
    AddMultiple(laddr' + i, (laddr + n) / WRAP, WRAP);
  }

  /** A read of n + k bytes from two adjacent reads. */
  lemma {:induction false} SplitRead(mem: seq<byte>, m: Mapping, laddr: uint32, n: nat, laddr': uint32, k: nat)
    requires m.paging && laddr' == (laddr + n) % WRAP && n + k <= 4
    requires forall i :: 0 <= i < n + k ==> m.Phys(laddr, i) < |mem|
    requires forall i :: 0 <= i < k ==> m.Phys(laddr', i) < |mem|
    ensures ReadBytes(mem, m, laddr, n + k) ==
            ReadBytes(mem, m, laddr, n) + ReadBytes(mem, m, laddr', k) * Unit(n)
    decreases k
  {
    if k > 0 {
      SplitRead(mem, m, laddr, n, laddr', k - 1);
      PhysShift(m, laddr, n, laddr', k - 1);
      var b := mem[m.Phys(laddr, n + k - 1)];
      AddTopByte(ReadBytes(mem, m, laddr', k - 1), b, n, k - 1);
    }
  }

  lemma AddTopByte(low: nat, b: byte, n: nat, k: nat)
    requires n + k <= 3
    ensures (low + b * Unit(k)) * Unit(n) == low * Unit(n) + b * Unit(n + k)
  {
  }

  lemma ByteOfHigh(data: nat, n: nat, i: nat)
    requires n + i <= 3
    ensures ByteOf(ShiftRight(data, n), i) == ByteOf(data, n + i)
  {
  }

  lemma ByteOfLow(data: nat, n: nat, i: nat)
    requires i < n <= 4
    ensures ByteOf(LowBytes(data, n), i) == ByteOf(data, i)
  {
    var k := n - i - 1;
    assert Unit(n) == Unit(k) * 0x100 * Unit(i);
    ByteBelow(data, Unit(i), Unit(k));
    ShiftIsDivision(data, i);
    ShiftIsDivision(LowBytes(data, n), i);
    LowIsRemainder(data, n);
  }

  lemma ShiftIsDivision(data: nat, n: nat)
    requires n <= 4
    ensures ShiftRight(data, n) == data / Unit(n)
  {
  }

  lemma LowIsRemainder(data: nat, n: nat)
    requires n <= 4
    ensures LowBytes(data, n) == data % Unit(n)
  {
  }

  /** Reducing above the byte of weight u does not change it. */
  lemma ByteBelow(data: nat, u: nat, v: nat)
    requires u > 0 && v > 0
    ensures v * 0x100 * u > 0
    ensures data % (v * 0x100 * u) / u % 0x100 == data / u % 0x100
  {
    var t := v * 0x100;
    MulPositive(t, u);
    var m := t * u;
    var low, high := data % m, data / m;
    assert data == high * m + low;
    MulAssoc(high, t, u);
    AddMultiple(low, high * t, u);
    MulAssoc(high, v, 0x100);
    AddMultiple(low / u, high * v, 0x100);
  }

  /** A write of n + k bytes as two adjacent writes. */
  lemma {:induction false} SplitWrite(mem: seq<byte>, m: Mapping, laddr: uint32, data: nat, n: nat,
                                      laddr': uint32, k: nat)
    requires m.paging && laddr' == (laddr + n) % WRAP && 1 <= n && n + k <= 4
    requires forall i :: 0 <= i < n + k ==> m.Phys(laddr, i) < |mem|
    requires forall i :: 0 <= i < k ==> m.Phys(laddr', i) < |mem|
    ensures WriteBytes(mem, m, laddr, data, n + k) ==
            WriteBytes(WriteBytes(mem, m, laddr, data, n), m, laddr', ShiftRight(data, n), k)
    decreases k
  {
    if k > 0 {
      SplitWrite(mem, m, laddr, data, n, laddr', k - 1);
      PhysShift(m, laddr, n, laddr', k - 1);
      ByteOfHigh(data, n, k - 1);
    }
  }

  /** An access that crosses a page puts 4096 - offset bytes in the first page and the rest in the next. */
  lemma CrossingSplit(laddr: uint32, len: nat)
    requires 1 <= len <= 4
    ensures CrossesPage(laddr, len) <==> laddr % PAGE + len > PAGE
    ensures CrossesPage(laddr, len) ==>
              && (laddr + len) % WRAP % PAGE == laddr % PAGE + len - PAGE
              && 1 <= (laddr + len) % WRAP % PAGE < len
  {
    assert laddr == laddr / PAGE * PAGE + laddr % PAGE;
  }

  /** Within one page, the bytes of an access are consecutive in memory. */
  lemma SamePage(m: Mapping, laddr: uint32, i: nat)
    requires laddr % PAGE + i < PAGE
    ensures m.paging ==> m.Phys(laddr, i) == m.Translate(laddr) + i
    ensures !m.paging ==> m.Phys(laddr, i) == laddr + i
  {
    assert laddr == laddr / PAGE * PAGE + laddr % PAGE;
    assert laddr + i < WRAP;
    assert (laddr + i) / PAGE == laddr / PAGE && (laddr + i) % PAGE == laddr % PAGE + i;
  }

  /** mask_byte; any other number of bytes is the failure it asserts against. */
  method MaskByte(data: uint32, n: nat) returns (r: uint32)
    requires 1 <= n <= 3
    ensures r == data % Unit(n) == LowBytes(data, n)
  {
    match n
    case 1 => r := data % 0x100;
    case 2 => r := data % 0x1_0000;
    case _ => r := data % 0x100_0000;
  }

  /** The physical memory holds what an access fetches, including the bytes it fetches to mask off. */
  predicate HasRoom(size: nat, m: Mapping, laddr: uint32, len: nat)
    requires 1 <= len <= 4
  {
    if !m.paging then laddr + len <= size
    else
      && m.Translate(laddr) + len <= size
      && (CrossesPage(laddr, len) ==>
            m.Translate((laddr + (len - (laddr + len) % WRAP % PAGE)) % WRAP) + len <= size)
  }

  lemma RoomForBytes(size: nat, m: Mapping, laddr: uint32, len: nat)
    requires 1 <= len <= 4 && HasRoom(size, m, laddr, len)
    ensures InMemory(size, m, laddr, len)
  {
    CrossingSplit(laddr, len);
    forall i | 0 <= i < len
      ensures m.Phys(laddr, i) < size
    {
      if m.paging {
        if laddr % PAGE + i < PAGE {
          SamePage(m, laddr, i);
        } else {
          var n := len - (laddr + len) % WRAP % PAGE;
          PhysShift(m, laddr, n, (laddr + n) % WRAP, i - n);
          NextPage(laddr, n);
          SamePage(m, (laddr + n) % WRAP, i - n);
        }
      }
    }
  }

  /** If the bytes of an access are in memory, so are the pieces that lie in one page. */
  lemma LastByteInMemory(size: nat, m: Mapping, laddr: uint32, len: nat)
    requires 1 <= len <= 4 && InMemory(size, m, laddr, len)
    ensures !m.paging ==> laddr + len <= size
    ensures m.paging && !CrossesPage(laddr, len) ==> m.Translate(laddr) + len <= size
    ensures m.paging && CrossesPage(laddr, len) ==>
              var k := (laddr + len) % WRAP % PAGE;
              && m.Translate(laddr) + (len - k) <= size
              && m.Translate((laddr + (len - k)) % WRAP) + k <= size
  {
    CrossingSplit(laddr, len);
    assert m.Phys(laddr, len - 1) < size;
    if m.paging {
      if CrossesPage(laddr, len) {
        var k := (laddr + len) % WRAP % PAGE;
        var next := (laddr + (len - k)) % WRAP;
        SamePage(m, laddr, len - k - 1);
        assert m.Phys(laddr, len - k - 1) < size;
        PhysShift(m, laddr, len - k, next, k - 1);
        NextPage(laddr, len - k);
        SamePage(m, next, k - 1);
      } else {
        SamePage(m, laddr, len - 1);
      }
    }
  }

  lemma NextPage(laddr: uint32, n: nat)
    requires laddr % PAGE + n == PAGE
    ensures (laddr + n) % WRAP % PAGE == 0
  {
    assert laddr == laddr / PAGE * PAGE + laddr % PAGE;
  }

  lemma WithinRead(mem: seq<byte>, m: Mapping, laddr: uint32, paddr: nat, n: nat)
    requires m.paging && n <= 4 && laddr % PAGE + n <= PAGE && paddr == m.Translate(laddr) && paddr + n <= |mem|
    ensures InMemory(|mem|, m, laddr, n)
    ensures ReadBytes(mem, m, laddr, n) == FlatRead(mem, paddr, n)
  {
    forall i | 0 <= i < n
      ensures m.Phys(laddr, i) == paddr + i
    {
      SamePage(m, laddr, i);
    }
    FlatIsBytes(mem, m, laddr, paddr, n);
  }

  lemma WithinWrite(mem: seq<byte>, m: Mapping, laddr: uint32, paddr: nat, data: nat, n: nat)
    requires m.paging && n <= 4 && laddr % PAGE + n <= PAGE && paddr == m.Translate(laddr) && paddr + n <= |mem|
    ensures InMemory(|mem|, m, laddr, n)
    ensures WriteBytes(mem, m, laddr, data, n) == FlatWrite(mem, paddr, data, n)
    ensures WriteBytes(mem, m, laddr, data, n) == FlatWrite(mem, paddr, LowBytes(data, n), n)
  {
    forall i | 0 <= i < n
      ensures m.Phys(laddr, i) == paddr + i && ByteOf(LowBytes(data, n), i) == ByteOf(data, i)
    {
      SamePage(m, laddr, i);
      ByteOfLow(data, n, i);
    }
    FlatWriteIsBytes(mem, m, laddr, paddr, data, data, n);
    FlatWriteIsBytes(mem, m, laddr, paddr, data, LowBytes(data, n), n);
  }

  lemma CrossingRead(mem: seq<byte>, m: Mapping, laddr: uint32, n: nat, next: uint32, k: nat)
    requires m.paging && 1 <= n && 1 <= k && n + k <= 4
    requires laddr % PAGE + n == PAGE && next == (laddr + n) % WRAP
    requires InMemory(|mem|, m, laddr, n + k)
    requires m.Translate(laddr) + n + k <= |mem| && m.Translate(next) + n + k <= |mem|
    ensures var low := LowBytes(FlatRead(mem, m.Translate(laddr), n + k), n);
            var high := LowBytes(FlatRead(mem, m.Translate(next), n + k), k);
            ReadBytes(mem, m, laddr, n + k) == ShiftLeft(high, n) + low < WRAP
  {
    NextPage(laddr, n);
    MaskedWithin(mem, m, laddr, n, n + k);
    MaskedWithin(mem, m, next, k, n + k);
    SplitRead(mem, m, laddr, n, next, k);
    JoinedRange(ReadBytes(mem, m, laddr, n), ReadBytes(mem, m, next, k), n, k);
  }

  /** What is fetched at a page's end and masked is what the page holds of the access. */
  lemma MaskedWithin(mem: seq<byte>, m: Mapping, laddr: uint32, n: nat, len: nat)
    requires m.paging && n <= len <= 4 && laddr % PAGE + n <= PAGE && m.Translate(laddr) + len <= |mem|
    ensures InMemory(|mem|, m, laddr, n)
    ensures LowBytes(FlatRead(mem, m.Translate(laddr), len), n) == ReadBytes(mem, m, laddr, n) < Unit(n)
  {
    MaskedRead(mem, m.Translate(laddr), len, n);
    WithinRead(mem, m, laddr, m.Translate(laddr), n);
  }

  lemma JoinedRange(low: nat, high: nat, n: nat, k: nat)
    requires n + k <= 4 && low < Unit(n) && high < Unit(k)
    ensures low + high * Unit(n) == ShiftLeft(high, n) + low < WRAP
  {
    if n == 0 || n == 1 || n == 2 || n == 3 {
      DivModUnique(high * Unit(n), 0, WRAP, high * Unit(n));
    }
  }

  lemma CrossingWrite(mem: seq<byte>, m: Mapping, laddr: uint32, data: nat, n: nat, next: uint32, k: nat)
    requires m.paging && 1 <= n && 1 <= k && n + k <= 4
    requires laddr % PAGE + n == PAGE && next == (laddr + n) % WRAP
    requires InMemory(|mem|, m, laddr, n + k)
    requires m.Translate(laddr) + n <= |mem| && m.Translate(next) + k <= |mem|
    ensures WriteBytes(mem, m, laddr, data, n + k) ==
            FlatWrite(FlatWrite(mem, m.Translate(laddr), LowBytes(data, n), n),
                      m.Translate(next), ShiftRight(data, n), k)
  {
    NextPage(laddr, n);
    WithinWrite(mem, m, laddr, m.Translate(laddr), data, n);
    var first := FlatWrite(mem, m.Translate(laddr), LowBytes(data, n), n);
    WithinWrite(first, m, next, m.Translate(next), ShiftRight(data, n), k);
    SplitWrite(mem, m, laddr, data, n, next, k);
  }

  /* ---- single bytes, at addresses written out ---- */

  /** Byte i of an access lies at physical address p: in the page's frame, at the same offset. */
  ghost predicate Lies(paging: bool, frame: nat -> nat, laddr: uint32, i: nat, p: nat) {
    var linear := (laddr + i) % 0x1_0000_0000;
    if paging then p / 4096 == frame(linear / 4096) && p % 4096 == linear % 4096 else p == laddr + i
  }

  /** No byte of an access lies at p. */
  ghost predicate Elsewhere(paging: bool, frame: nat -> nat, laddr: uint32, len: nat, p: nat) {
    forall i: nat :: i < len ==> !Lies(paging, frame, laddr, i, p)
  }

  /** data has the bytes of an access, and no others. */
  ghost predicate Fetched(mem: seq<byte>, paging: bool, frame: nat -> nat, laddr: uint32, len: nat, data: nat) {
    && data < Pow2(8 * len)
    && forall i: nat, p: nat :: i < len && Lies(paging, frame, laddr, i, p) ==>
                                  p < |mem| && data / Pow2(8 * i) % 0x100 == mem[p]
  }

  /** mem' has the bytes of data where an access stores them, and those of mem everywhere else. */
  ghost predicate Stored(mem: seq<byte>, mem': seq<byte>, paging: bool, frame: nat -> nat, laddr: uint32, len: nat,
                         data: nat)
  {
    && |mem'| == |mem|
    && (forall i: nat, p: nat :: i < len && Lies(paging, frame, laddr, i, p) ==>
                                   p < |mem| && mem'[p] == data / Pow2(8 * i) % 0x100)
    && forall p: nat :: p < |mem| && Elsewhere(paging, frame, laddr, len, p) ==> mem'[p] == mem[p]
  }

  /** There is exactly one such address. */
  lemma LiesAt(m: Mapping, laddr: uint32, i: nat, p: nat)
    ensures Lies(m.paging, m.frame, laddr, i, p) <==> p == m.Phys(laddr, i)
  {
    var linear := (laddr + i) % WRAP;
    if m.paging {
      DivModUnique(m.Phys(laddr, i), m.frame(linear / PAGE), PAGE, linear % PAGE);
    }
  }

  lemma UnitIsPower(n: nat)
    requires n <= 4
    ensures Unit(n) == Pow2(8 * n)
  {
    assert Pow2(8) == 0x100;
    Pow2Sum(16, 8, 8);
    Pow2Sum(24, 16, 8);
    Pow2Sum(32, 16, 16);
  }

  lemma ByteIs(data: nat, i: nat)
    requires i < 4
    ensures ByteOf(data, i) == data / Pow2(8 * i) % 0x100
  {
    UnitIsPower(i);
    ShiftIsDivision(data, i);
  }

  /** Each byte of what is read is the one at its own address. */
  lemma {:induction false} ReadByte(mem: seq<byte>, m: Mapping, laddr: uint32, n: nat, i: nat)
    requires i < n <= 4 && forall i :: 0 <= i < n ==> m.Phys(laddr, i) < |mem|
    ensures ByteOf(ReadBytes(mem, m, laddr, n), i) == mem[m.Phys(laddr, i)]
    decreases n
  {
    var low, b := ReadBytes(mem, m, laddr, n - 1), mem[m.Phys(laddr, n - 1)];
    ReadBytesBound(mem, m, laddr, n - 1);
    if i == n - 1 {
      ShiftIsDivision(low + b * Unit(i), i);
      DivModUnique(low + b * Unit(i), b, Unit(i), low);
    } else {
      ReadByte(mem, m, laddr, n - 1, i);
      DropTopByte(low, b, n - 1, i + 1);
      ByteOfLow(low, i + 1, i);
      ByteOfLow(low + b * Unit(n - 1), i + 1, i);
    }
  }

  /** The bytes of an access that has been read, one by one. */
  lemma ReadAt(mem: seq<byte>, m: Mapping, laddr: uint32, n: nat)
    requires n <= 4 && InMemory(|mem|, m, laddr, n)
    ensures Fetched(mem, m.paging, m.frame, laddr, n, ReadBytes(mem, m, laddr, n))
  {
    var data := ReadBytes(mem, m, laddr, n);
    UnitIsPower(n);
    ReadBytesBound(mem, m, laddr, n);
    forall i: nat, p: nat | i < n && Lies(m.paging, m.frame, laddr, i, p)
      ensures p < |mem| && data / Pow2(8 * i) % 0x100 == mem[p]
    {
      LiesAt(m, laddr, i, p);
      ReadByte(mem, m, laddr, n, i);
      ByteIs(data, i);
    }
  }

  /** What a write has stored, byte by byte, and what it has left alone. */
  lemma WrittenAt(mem: seq<byte>, m: Mapping, laddr: uint32, data: nat, n: nat)
    requires n <= 4 && InMemory(|mem|, m, laddr, n)
    ensures Stored(mem, WriteBytes(mem, m, laddr, data, n), m.paging, m.frame, laddr, n, data)
  {
    var mem' := WriteBytes(mem, m, laddr, data, n);
    forall i: nat, p: nat | i < n && Lies(m.paging, m.frame, laddr, i, p)
      ensures p < |mem| && mem'[p] == data / Pow2(8 * i) % 0x100
    {
      LiesAt(m, laddr, i, p);
      WrittenByte(mem, m, laddr, data, n, i);
      ByteIs(data, i);
    }
    forall p: nat | p < |mem| && Elsewhere(m.paging, m.frame, laddr, n, p)
      ensures mem'[p] == mem[p]
    {
      forall i | 0 <= i < n
        ensures m.Phys(laddr, i) != p
      {
        LiesAt(m, laddr, i, p);
        assert !Lies(m.paging, m.frame, laddr, i, p);
      }
      UntouchedByte(mem, m, laddr, data, n, p);
    }
  }

  /** The memory of nemu, its paging switches, and the frames of its pages. */
  class Machine {
    const hwMem: array<byte>
    var pe: bool
    var pg: bool
    /** The frame that page_translate finds in the page tables for a page. */
    var frame: nat -> nat

    function Map(): Mapping
      reads this
    {
      Mapping(pe && pg, frame)
    }

    constructor (size: nat, frame: nat -> nat)
      ensures fresh(hwMem) && hwMem.Length == size && forall a :: 0 <= a < size ==> hwMem[a] == 0
      ensures Map() == Mapping(false, frame)
    {
      hwMem := new byte[size](_ => 0);
      pe, pg, this.frame := false, false, frame;
    }

    /** page_translate. */
    function PageTranslate(laddr: uint32): nat
      reads this
    {
      Map().Translate(laddr)
    }

    /** hw_mem_read: memcpy of len bytes into a zero word. */
    method HwMemRead(paddr: nat, len: nat) returns (ret: uint32)
      requires len <= 4 && paddr + len <= hwMem.Length
      ensures ret == FlatRead(hwMem[..], paddr, len)
    {
      ret := 0;
      var i := 0;
      while i < len
        invariant i <= len && ret == FlatRead(hwMem[..], paddr, i)
        invariant ret < Unit(i)
      {
        ret := ret + hwMem[paddr + i] * Unit(i);
        i := i + 1;
      }
    }

    /** hw_mem_write: memcpy of the first len bytes of a word. */
    method HwMemWrite(paddr: nat, len: nat, data: uint32)
      requires len <= 4 && paddr + len <= hwMem.Length
      modifies hwMem
      ensures hwMem[..] == FlatWrite(old(hwMem[..]), paddr, data, len)
    {
      var i := 0;
      while i < len
        invariant i <= len && hwMem[..] == FlatWrite(old(hwMem[..]), paddr, data, i)
      {
        hwMem[paddr + i] := ByteOf(data, i);
        i := i + 1;
      }
    }

    /** The cross-page branch of laddr_read. */
    method ReadAcross(laddr: uint32, len: nat) returns (data: uint32)
      requires pe && pg && IsLength(len) && HasRoom(hwMem.Length, Map(), laddr, len) && CrossesPage(laddr, len)
      requires InMemory(hwMem.Length, Map(), laddr, len)
      ensures data == ReadBytes(hwMem[..], Map(), laddr, len)
    {
      CrossingSplit(laddr, len);
      var nextPageLen := (laddr + len) % WRAP % PAGE;
      var inPageLen := len - nextPageLen;
      var inPageData := HwMemRead(PageTranslate(laddr), len);
      inPageData := MaskByte(inPageData, inPageLen);
      var next: uint32 := (laddr + inPageLen) % WRAP;
      var nextPageData := HwMemRead(PageTranslate(next), len);
      nextPageData := MaskByte(nextPageData, nextPageLen);
      CrossingRead(hwMem[..], Map(), laddr, inPageLen, next, nextPageLen);
      data := ShiftLeft(nextPageData, inPageLen) + inPageData;
    }

    /** laddr_read: a read that crosses a page fetches len bytes from both frames and masks them. */
    method LaddrRead(laddr: uint32, len: nat) returns (data: uint32)
      requires IsLength(len) && HasRoom(hwMem.Length, Map(), laddr, len)
      ensures InMemory(hwMem.Length, Map(), laddr, len)
      ensures data == ReadBytes(hwMem[..], Map(), laddr, len)
      ensures Fetched(hwMem[..], pe && pg, frame, laddr, len, data)
    {
      ghost var mem, m := hwMem[..], Map();
      RoomForBytes(|mem|, m, laddr, len);
      ReadAt(mem, m, laddr, len);
      CrossingSplit(laddr, len);
      if pe && pg {
        if laddr / PAGE != (laddr + len - 1) % WRAP / PAGE {
          data := ReadAcross(laddr, len);
        } else {
          WithinRead(mem, m, laddr, m.Translate(laddr), len);
          data := HwMemRead(PageTranslate(laddr), len);
        }
      } else {
        FlatIsBytes(mem, m, laddr, laddr, len);
        data := HwMemRead(laddr, len);
      }
    }

    /** The cross-page branch of laddr_write. */
    method WriteAcross(laddr: uint32, len: nat, data: uint32)
      requires pe && pg && IsLength(len) && InMemory(hwMem.Length, Map(), laddr, len) && CrossesPage(laddr, len)
      modifies hwMem
      ensures hwMem[..] == WriteBytes(old(hwMem[..]), Map(), laddr, data, len)
    {
      ghost var mem, m := hwMem[..], Map();
      CrossingSplit(laddr, len);
      LastByteInMemory(|mem|, m, laddr, len);
      var nextPageLen := (laddr + len) % WRAP % PAGE;
      var inPageLen := len - nextPageLen;
      var inPageData := MaskByte(data, inPageLen);
      var nextPageData: uint32 := ShiftRight(data, inPageLen);
      HwMemWrite(PageTranslate(laddr), inPageLen, inPageData);
      var next: uint32 := (laddr + inPageLen) % WRAP;
      HwMemWrite(PageTranslate(next), nextPageLen, nextPageData);
      CrossingWrite(mem, m, laddr, data, inPageLen, next, nextPageLen);
    }

    /** laddr_write: a write that crosses a page is two writes of the bytes of each page. */
    method LaddrWrite(laddr: uint32, len: nat, data: uint32)
      requires IsLength(len) && InMemory(hwMem.Length, Map(), laddr, len)
      modifies hwMem
      ensures hwMem[..] == WriteBytes(old(hwMem[..]), Map(), laddr, data, len)
      ensures Stored(old(hwMem[..]), hwMem[..], pe && pg, frame, laddr, len, data)
    {
      ghost var mem, m := hwMem[..], Map();
      WrittenAt(mem, m, laddr, data, len);
      CrossingSplit(laddr, len);
      LastByteInMemory(|mem|, m, laddr, len);
      if pe && pg {
        if laddr / PAGE != (laddr + len - 1) % WRAP / PAGE {
          WriteAcross(laddr, len, data);
        } else {
          WithinWrite(mem, m, laddr, m.Translate(laddr), data, len);
          HwMemWrite(PageTranslate(laddr), len, data);
        }
      } else {
        FlatWriteIsBytes(mem, m, laddr, laddr, data, data, len);
        HwMemWrite(laddr, len, data);
      }
    }

    /** After any run of writes, a read returns byte by byte what was last stored at its addresses. */
    method WriteAllThenRead(writes: seq<Write>, laddr: uint32, len: nat) returns (data: uint32)
      requires AllInMemory(hwMem.Length, Map(), writes) && forall w :: w in writes ==> IsLength(w.len)
      requires IsLength(len) && HasRoom(hwMem.Length, Map(), laddr, len)
      modifies hwMem
      ensures InMemory(hwMem.Length, Map(), laddr, len)
      ensures hwMem[..] == After(old(hwMem[..]), Map(), writes)
      ensures data == ReadBytes(After(old(hwMem[..]), Map(), writes), Map(), laddr, len)
      ensures Fetched(After(old(hwMem[..]), Map(), writes), pe && pg, frame, laddr, len, data)
    {
      ghost var m := Map();
      var i := 0;
      while i < |writes|
        invariant i <= |writes| && Map() == m
        invariant hwMem[..] == After(old(hwMem[..]), m, writes[..i])
      {
        assert writes[..i + 1][..i] == writes[..i];
        LaddrWrite(writes[i].laddr, writes[i].len, writes[i].data);
        i := i + 1;
      }
      assert writes[..i] == writes;
      data := LaddrRead(laddr, len);
    }
  }
}
