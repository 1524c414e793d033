/**
 The arithmetic unit of nemu/src/cpu/alu.c with its flags, and the conditions that
 nemu/include/cpu/instr_helper.h reads off them.  Operands are 32-bit words of which the low
 8, 16 or 32 bits count.
 */
module Alu {
  import opened Bits
  import opened PowersOfTwo
  import opened Words

  datatype Flags = Flags(cf: bool, pf: bool, zf: bool, sf: bool, of: bool)

  /* ---- what the unit is meant to compute ---- */

  predicate IsWidth(w: nat) {
    w == 8 || w == 16 || w == 32
  }

  function Modulus(w: nat): int {
    if w == 8 then 0x100 else if w == 16 then 0x1_0000 else 0x1_0000_0000
  }

  function Half(w: nat): int {
    if w == 8 then 0x80 else if w == 16 then 0x8000 else 0x8000_0000
  }

  /** The low w bits of x, as an unsigned and as a two's-complement number. */
  function Unsigned(x: int, w: nat): (u: int)
    ensures 0 <= u < Modulus(w)
  {
    x % Modulus(w)
  }

  function Signed(x: int, w: nat): (s: int)
    ensures 0 - Half(w) <= s < Half(w)
  {
    if Unsigned(x, w) < Half(w) then Unsigned(x, w) else Unsigned(x, w) - Modulus(w)
  }

  predicate Fits(s: int, w: nat) {
    0 - Half(w) <= s < Half(w)
  }

  function Bit(b: bool): int {
    if b then 1 else 0
  }

  /** The flags that every result r sets, and its carry and overflow. */
  function ResultFlags(r: nat, w: nat, cf: bool, of: bool): Flags {
    Flags(cf, |OnesBelow(r, 8)| % 2 == 0, r == 0, r >= Half(w), of)
  }

  /** dest + src + carry: CF is the carry out of w bits, OF says that the signed sum does not fit. */
  function Sum(dest: uint32, src: uint32, carry: bool, w: nat): uint32 {
    (Unsigned(dest, w) + Unsigned(src, w) + Bit(carry)) % Modulus(w)
  }

  function SumFlags(dest: uint32, src: uint32, carry: bool, w: nat): Flags {
    ResultFlags(Sum(dest, src, carry, w), w,
                Unsigned(dest, w) + Unsigned(src, w) + Bit(carry) >= Modulus(w),
                !Fits(Signed(dest, w) + Signed(src, w) + Bit(carry), w))
  }

  /** dest - src - borrow: CF is the borrow, OF says that the signed difference does not fit. */
  function Difference(dest: uint32, src: uint32, borrow: bool, w: nat): uint32 {
    (Unsigned(dest, w) - Unsigned(src, w) - Bit(borrow)) % Modulus(w)
  }

  function DifferenceFlags(dest: uint32, src: uint32, borrow: bool, w: nat): Flags {
    ResultFlags(Difference(dest, src, borrow, w), w,
                Unsigned(dest, w) < Unsigned(src, w) + Bit(borrow),
                !Fits(Signed(dest, w) - Signed(src, w) - Bit(borrow), w))
  }

  /* ---- the C code's own notions ---- */

  /** Arithmetic on uint32_t. */
  function Wrap(x: int): uint32 {
    x % WRAP
  }

  function Sign(x: uint32): int {
    x / 0x8000_0000
  }

  /** x & (0xFFFFFFFF >> (32 - w)) */
  function Mask(x: uint32, w: nat): uint32 {
    x % Modulus(w)
  }

  /** (int32_t)((int8_t)(x & 0xff)) and so on. */
  function SignExt(x: uint32, w: nat): uint32 {
    if w == 8 then SignExt8(x) else if w == 16 then SignExt16(x) else x
  }

  function SignExt8(x: uint32): uint32 {
    var b := x % 0x100;
    Wrap(if b >= 0x80 then b - 0x100 else b)
  }

  function SignExt16(x: uint32): uint32 {
    var h := x % 0x1_0000;
    Wrap(if h >= 0x8000 then h - 0x1_0000 else h)
  }

  function UnsignExt(x: uint32, w: nat): uint32 {
    if w == 8 then x % 0x100 else if w == 16 then x % 0x1_0000 else x
  }

  lemma SignExtIs(x: uint32, w: nat)
    requires IsWidth(w)
    ensures SignExt(x, w) == if Unsigned(x, w) < Half(w) then Unsigned(x, w) else Unsigned(x, w) + WRAP - Modulus(w)
  {
  }

  lemma Idempotent(x: uint32, w: nat)
    requires IsWidth(w)
    ensures Unsigned(Mask(x, w), w) == Unsigned(x, w) && SignExt(Mask(x, w), w) == SignExt(x, w)
  {
    SignExtIs(Mask(x, w), w);
    SignExtIs(x, w);
  }

  /** The sign bit of a sign-extended number is its sign. */
  lemma SignOf(x: uint32, w: nat)
    requires IsWidth(w)
    ensures Sign(SignExt(x, w)) == Bit(Unsigned(x, w) >= Half(w)) == Bit(Signed(x, w) < 0)
  {
    SignExtIs(x, w);
  }

  /** As unsigned words, sign-extended numbers compare like the numbers themselves. */
  lemma SignExtMonotone(x: uint32, y: uint32, w: nat)
    requires IsWidth(w)
    ensures SignExt(x, w) < SignExt(y, w) <==> Unsigned(x, w) < Unsigned(y, w)
    ensures SignExt(x, w) <= SignExt(y, w) <==> Unsigned(x, w) <= Unsigned(y, w)
  {
    SignExtIs(x, w);
    SignExtIs(y, w);
    Ordered(Unsigned(x, w), Unsigned(y, w), SignExt(x, w), SignExt(y, w), Half(w), Modulus(w));
  }

  lemma MaskedOrder(x: uint32, y: uint32, w: nat)
    requires IsWidth(w)
    ensures SignExt(Mask(x, w), w) < SignExt(Mask(y, w), w) <==> Unsigned(x, w) < Unsigned(y, w)
    ensures SignExt(Mask(x, w), w) <= SignExt(Mask(y, w), w) <==> Unsigned(x, w) <= Unsigned(y, w)
  {
    Idempotent(x, w);
    Idempotent(y, w);
    SignExtMonotone(x, y, w);
  }

  lemma LowByte(x: uint32, w: nat)
    requires IsWidth(w)
    ensures Unsigned(x, w) % 0x100 == x % 0x100
  {
    NestedMod(x, if w == 8 then 1 else if w == 16 then 0x100 else 0x100_0000, 0x100);
  }

  /** The loop of set_PF after k rounds: r is left of low, and count ones have gone. */
  ghost predicate Counting(low: nat, k: nat, r: int, count: int) {
    r == low / Pow2(k) && count == |OnesBelow(low, k)|
  }

  lemma NoOnes(low: nat)
    ensures Counting(low, 0, low, 0)
  {
    assert OnesBelow(low, 0) == {};
  }

  lemma CountNext(low: nat, k: nat, r: nat, count: int)
    requires Counting(low, k, r, count)
    ensures Counting(low, k + 1, r / 2, count + r % 2)
  {
    OnesNext(low, k);
    HalfAgain(low, k);
  }

  /** Once nothing is left of the low byte, all its ones have been counted. */
  lemma AllCounted(low: nat, k: nat, count: int)
    requires low < 0x100 && Counting(low, k, 0, count)
    ensures count == |OnesBelow(low, 8)|
  {
    assert Pow2(8) == 0x100;
    assert low == low / Pow2(k) * Pow2(k) + low % Pow2(k);
    AllOnes(low, k, 8);
  }

  lemma LowByteOnes(x: nat)
    ensures OnesBelow(x % 0x100, 8) == OnesBelow(x, 8)
  {
    assert Pow2(8) == 0x100;
    LowOnes(x, 8);
  }

  /** The loop of set_PF. */
  method CountOnes(low: nat) returns (count: nat)
    requires low < 0x100
    ensures count == |OnesBelow(low, 8)|
  {
    var r := low;
    ghost var k := 0;
    count := 0;
    NoOnes(low);
    while r != 0
      invariant Counting(low, k, r, count)
      decreases r
    {
      CountNext(low, k, r, count);
      count := count + r % 2;
      r := r / 2;
      k := k + 1;
    }
    AllCounted(low, k, count);
  }

  lemma SameParityBits(x: uint32, y: uint32, w: nat)
    requires IsWidth(w) && y == Unsigned(x, w)
    ensures OnesBelow(y, 8) == OnesBelow(x, 8)
  {
    LowByte(x, w);
    LowByteOnes(x);
    LowByteOnes(y);
  }

  lemma Ordered(x: int, y: int, x': int, y': int, h: int, m: int)
    requires 0 <= x < m && 0 <= y < m && m == 2 * h <= WRAP
    requires x' == (if x < h then x else x + WRAP - m) && y' == (if y < h then y else y + WRAP - m)
    ensures x' < y' <==> x < y
    ensures x' <= y' <==> x <= y
  {
  }

  /** Wrapping at 32 bits does not disturb the low bits. */
  lemma WrapLow(x: int, w: nat)
    requires IsWidth(w)
    ensures Unsigned(Wrap(x), w) == Unsigned(x, w)
  {
    NestedMod(x, if w == 8 then 0x100_0000 else if w == 16 then 0x1_0000 else 1, Modulus(w));
  }

  lemma SumLow(dest: uint32, src: uint32, carry: bool, w: nat)
    requires IsWidth(w)
    ensures Unsigned(Wrap(dest + src + Bit(carry)), w) == Sum(dest, src, carry, w)
  {
    WrapLow(dest + src + Bit(carry), w);
    ModSum(dest, src, Bit(carry), Modulus(w));
  }

  lemma DifferenceLow(dest: uint32, src: uint32, borrow: bool, w: nat)
    requires IsWidth(w)
    ensures Unsigned(Wrap(dest - src - Bit(borrow)), w) == Difference(dest, src, borrow, w)
  {
    WrapLow(dest - src - Bit(borrow), w);
    ModDifference(dest, src, Bit(borrow), Modulus(w));
  }

  /** The word that set_OF_sub and set_OF_sbb work on. */
  function Extended(x: uint32, w: nat): uint32 {
    if w == 8 || w == 16 then SignExt(Mask(x, w), w) else x
  }

  lemma MaskedZero(x: uint32, w: nat)
    requires IsWidth(w)
    ensures Extended(x, w) == 0 <==> Signed(x, w) == 0
  {
    Idempotent(x, w);
    SignExtIs(x, w);
  }

  /** After sign extension only a 32-bit operand can equal its least number. */
  lemma InvalidComplement(src: uint32, w: nat)
    requires IsWidth(w)
    ensures Extended(src, w) == Half(w) <==> w == 32 && Signed(src, w) == 0 - 0x8000_0000
  {
    Idempotent(src, w);
    SignExtIs(src, w);
  }

  /** ~src + 1 - cf is -src - cf, wherever that fits into 32 bits. */
  lemma Complement(src: uint32, cf: bool, w: nat)
    requires IsWidth(w) && !(w == 32 && Signed(src, w) == 0 - 0x8000_0000)
    ensures Sign(Wrap(0xFFFF_FFFF - Extended(src, w) + 1 - Bit(cf))) == Bit(0 - Signed(src, w) - Bit(cf) < 0)
  {
    Idempotent(src, w);
    SignExtIs(src, w);
    var x, n := Extended(src, w), 0 - Signed(src, w) - Bit(cf);
    assert 0xFFFF_FFFF - x + 1 - Bit(cf) == if Signed(src, w) >= 0 then n + WRAP else n;
  }

  lemma DifferenceOverflow(dest: uint32, src: uint32, borrow: bool, w: nat)
    requires IsWidth(w)
    ensures var r := Difference(dest, src, borrow, w);
            && (Unsigned(dest, w) < Unsigned(src, w) + Bit(borrow)
                <==> if borrow then r >= Unsigned(dest, w) else r > Unsigned(dest, w))
            && (!Fits(Signed(dest, w) - Signed(src, w) - Bit(borrow), w)
                <==> if w == 32 && Signed(src, w) == 0 - 0x8000_0000
                     then (if borrow then Signed(dest, w) > 0 else Signed(dest, w) >= 0)
                     else (0 - Signed(src, w) - Bit(borrow) < 0) == (Signed(dest, w) < 0) != (r >= Half(w)))
  {
    var d, s, m := Unsigned(dest, w), Unsigned(src, w), Modulus(w);
    var t := d - s - Bit(borrow);
    if t >= 0 {
      DivModUnique(t, 0, m, t);
    } else {
      DivModUnique(t, 0 - 1, m, t + m);
    }
  }

  lemma MaskedSign(x: uint32, w: nat)
    requires IsWidth(w)
    ensures Sign(Extended(x, w)) == Bit(Signed(x, w) < 0)
  {
    Idempotent(x, w);
    SignOf(x, w);
  }

  /** What the comparisons of the unit say about a sum: the carry and the overflow. */
  lemma SumOverflow(dest: uint32, src: uint32, carry: bool, w: nat)
    requires IsWidth(w)
    ensures var r := Sum(dest, src, carry, w);
            && (Unsigned(dest, w) + Unsigned(src, w) + Bit(carry) >= Modulus(w)
                <==> if carry then r <= Unsigned(dest, w) else r < Unsigned(dest, w))
            && (!Fits(Signed(dest, w) + Signed(src, w) + Bit(carry), w)
                <==> (Signed(src, w) < 0) == (Signed(dest, w) < 0) != (r >= Half(w)))
  {
    var d, s, m := Unsigned(dest, w), Unsigned(src, w), Modulus(w);
    var t := d + s + Bit(carry);
    if t < m {
      DivModUnique(t, 0, m, t);
    } else {
      DivModUnique(t, 1, m, t - m);
    }
  }

  /* ---- shifts ---- */

  function LeftShift(dest: uint32, n: nat, w: nat): uint32 {
    Unsigned(dest, w) * Pow2(n) % Modulus(w)
  }

  /** The last of n bits shifted out at the left. */
  predicate LeftShiftOut(dest: uint32, n: nat, w: nat) {
    Unsigned(dest, w) * Pow2(n) / Modulus(w) % 2 == 1
  }

  function LeftShiftFlags(before: Flags, dest: uint32, n: nat, w: nat): Flags {
    var r, cf := LeftShift(dest, n, w), if n == 0 then before.cf else LeftShiftOut(dest, n, w);
    ResultFlags(r, w, cf, if n == 1 then cf != (r >= Half(w)) else before.of)
  }

  lemma SignExtLow(x: uint32, w: nat)
    requires IsWidth(w)
    ensures Unsigned(SignExt(x, w), w) == Unsigned(x, w) && SignExt(SignExt(x, w), w) == SignExt(x, w)
  {
    SignExtIs(x, w);
    SignExtIs(SignExt(x, w), w);
    var u, k, m := Unsigned(x, w), if w == 8 then 0xFF_FFFF else if w == 16 then 0xFFFF else 0, Modulus(w);
    AddMultiple(u, k, m);
  }

  lemma NoShift(x: uint32, w: nat)
    requires IsWidth(w)
    ensures LeftShift(x, 0, w) == Unsigned(x, w)
  {
    DivModUnique(Unsigned(x, w), 0, Modulus(w), Unsigned(x, w));
  }

  /** One more bit of the shifted number goes out, and the rest doubles. */
  lemma LeftShiftNext(dest: uint32, n: nat, w: nat, res: uint32)
    requires IsWidth(w) && res == SignExt(res, w) && Unsigned(res, w) == LeftShift(dest, n, w)
    ensures var res' := SignExt(Mask(Wrap(2 * res), w), w);
            res' == SignExt(res', w) && Unsigned(res', w) == LeftShift(dest, n + 1, w)
    ensures LeftShiftOut(dest, n + 1, w) <==> Unsigned(res, w) >= Half(w)
  {
    var doubled := Wrap(2 * res);
    Idempotent(doubled, w);
    SignExtLow(doubled, w);
    WrapLow(2 * res, w);
    var m, v, u := Modulus(w), Unsigned(dest, w) * Pow2(n), Unsigned(res, w);
    TwiceProduct(Unsigned(dest, w), Pow2(n));
    Doubled(v, u, m, Half(w));
    Doubled(res, u, m, Half(w));
  }

  lemma Doubled(v: int, u: int, m: int, h: int)
    requires m == 2 * h > 0 && u == v % m
    ensures 2 * v % m == 2 * u % m
    ensures 2 * v / m % 2 == 1 <==> u >= h
  {
    var q := v / m;
    assert 2 * v == 2 * u + (2 * q) * m;
    AddMultiple(2 * u, 2 * q, m);
    if u >= h {
      DivModUnique(2 * u, 1, m, 2 * u - m);
    } else {
      DivModUnique(2 * u, 0, m, 2 * u);
    }
  }

  lemma UnsignExtIs(x: uint32, w: nat)
    requires IsWidth(w)
    ensures UnsignExt(Mask(x, w), w) == Unsigned(x, w)
    ensures Sign(Unsigned(x, w)) == Bit(w == 32 && Unsigned(x, w) >= Half(w))
  {
  }

  lemma HalfAgain(x: int, n: nat)
    ensures x / Pow2(n) / 2 == x / Pow2(n + 1)
  {
    var p := Pow2(n);
    var q, r := x / p, x % p;
    TwiceProduct(q / 2, p);
    assert q == 2 * (q / 2) + q % 2;
    Distribute(2 * (q / 2), q % 2, p);
    assert x == q * p + r;
    MulAssoc(2, q / 2, p);
    DivModUnique(x, q / 2, 2 * p, q % 2 * p + r);
  }

  lemma HalfFits(res: uint32, w: nat)
    requires IsWidth(w) && res < Modulus(w)
    ensures SignExt(Mask(res / 2, w), w) == res / 2
  {
    Idempotent(res / 2, w);
    SignExtIs(res / 2, w);
    DivModUnique(res / 2, 0, Modulus(w), res / 2);
  }

  lemma SignExtSigned(x: uint32, w: nat)
    requires IsWidth(w)
    ensures Signed(SignExt(x, w), 32) == Signed(x, w)
  {
    SignExtIs(x, w);
  }

  lemma SameParity(res: uint32)
    ensures res % 2 == Signed(res, 32) % 2
  {
  }

  /** A number that fits is its own sign extension. */
  lemma SignedHalf(res: uint32, w: nat)
    requires IsWidth(w) && Fits(Signed(res, 32), w)
    ensures Signed(SignExt(Mask(res, w), w), 32) == Signed(res, 32)
  {
    Idempotent(res, w);
    SignExtSigned(res, w);
    SignedLow(res, w);
  }

  /** An arithmetic shift by one, on the extended word. */
  lemma SarNext(dest: uint32, w: nat, n: nat, res: uint32)
    requires IsWidth(w) && Signed(res, 32) == Signed(dest, w) / Pow2(n) && Fits(Signed(res, 32), w)
    ensures var res' := SignExt(Mask(Wrap(Signed(res, 32) / 2), w), w);
            Signed(res', 32) == Signed(dest, w) / Pow2(n + 1) && Fits(Signed(res', 32), w)
    ensures res % 2 == Signed(dest, w) / Pow2(n) % 2
  {
    HalfAgain(Signed(dest, w), n);
    SameParity(res);
    var x := Signed(res, 32);
    SignedWrap(x / 2);
    SignedHalf(Wrap(x / 2), w);
  }

  lemma SignedWrap(x: int)
    requires Fits(x, 32)
    ensures Signed(Wrap(x), 32) == x
  {
  }

  lemma SignedLow(res: uint32, w: nat)
    requires IsWidth(w) && Fits(Signed(res, 32), w)
    ensures Unsigned(res, w) == Signed(res, 32) % Modulus(w) && Signed(res, w) == Signed(res, 32)
    ensures Sign(res) == Bit(Unsigned(res, w) >= Half(w))
  {
    var x, m := Signed(res, 32), Modulus(w);
    WrapLow(x, w);
    DivModUnique(x, if x < 0 then 0 - 1 else 0, m, if x < 0 then x + m else x);
  }

  class Cpu {
    var eflags: Flags

    method SetZF(result: uint32, w: nat)
      requires IsWidth(w)
      modifies this
      ensures eflags == old(eflags).(zf := Unsigned(result, w) == 0)
    {
      Idempotent(result, w);
      SignExtIs(result, w);
      eflags := eflags.(zf := SignExt(Mask(result, w), w) == 0);
    }

    method SetSF(result: uint32, w: nat)
      requires IsWidth(w)
      modifies this
      ensures eflags == old(eflags).(sf := Unsigned(result, w) >= Half(w))
    {
      Idempotent(result, w);
      SignOf(result, w);
      eflags := eflags.(sf := Sign(SignExt(Mask(result, w), w)) == 1);
    }

    /** set_PF: the parity of the number of ones in the low byte. */
    method SetPF(result: uint32)
      modifies this
      ensures eflags == old(eflags).(pf := |OnesBelow(result, 8)| % 2 == 0)
    {
      var count := CountOnes(result % 0x100);
      LowByteOnes(result);
      eflags := eflags.(pf := count % 2 == 0);
    }

    /** The three flags that every operation sets in this order. */
    method SetResult(result: uint32, w: nat)
      requires IsWidth(w)
      modifies this
      ensures eflags == ResultFlags(Unsigned(result, w), w, old(eflags).cf, old(eflags).of)
    {
      SetPF(result);
      SetZF(result, w);
      SetSF(result, w);
      SameParityBits(result, Unsigned(result, w), w);
    }

    method SetCFAdc(result: uint32, src: uint32, cf: bool, w: nat)
      requires IsWidth(w)
      modifies this
      ensures eflags == old(eflags).(cf := if cf then Unsigned(result, w) <= Unsigned(src, w)
                                           else Unsigned(result, w) < Unsigned(src, w))
    {
      MaskedOrder(result, src, w);
      var r, s := SignExt(Mask(result, w), w), SignExt(Mask(src, w), w);
      eflags := eflags.(cf := if cf then r <= s else r < s);
    }

    method SetCFAdd(result: uint32, src: uint32, w: nat)
      requires IsWidth(w)
      modifies this
      ensures eflags == old(eflags).(cf := Unsigned(result, w) < Unsigned(src, w))
    {
      MaskedOrder(result, src, w);
      eflags := eflags.(cf := SignExt(Mask(result, w), w) < SignExt(Mask(src, w), w));
    }

    method SetCFSbb(result: uint32, dest: uint32, cf: bool, w: nat)
      requires IsWidth(w)
      modifies this
      ensures eflags == old(eflags).(cf := if cf then Unsigned(result, w) >= Unsigned(dest, w)
                                           else Unsigned(result, w) > Unsigned(dest, w))
    {
      MaskedOrder(dest, result, w);
      var r, d := SignExt(Mask(result, w), w), SignExt(Mask(dest, w), w);
      eflags := eflags.(cf := if cf then r >= d else r > d);
    }

    method SetCFSub(result: uint32, dest: uint32, w: nat)
      requires IsWidth(w)
      modifies this
      ensures eflags == old(eflags).(cf := Unsigned(result, w) > Unsigned(dest, w))
    {
      MaskedOrder(dest, result, w);
      eflags := eflags.(cf := SignExt(Mask(result, w), w) > SignExt(Mask(dest, w), w));
    }

    /** set_OF_add: overflow if both operands have one sign and the result has the other. */
    method SetOFAdd(result: uint32, src: uint32, dest: uint32, w: nat)
      requires IsWidth(w)
      modifies this
      ensures eflags == old(eflags).(of := (Signed(src, w) < 0) == (Signed(dest, w) < 0) != (Signed(result, w) < 0))
    {
      var r, s, d := result, src, dest;
      if w == 8 || w == 16 {
        r, s, d := SignExt(Mask(result, w), w), SignExt(Mask(src, w), w), SignExt(Mask(dest, w), w);
      }
      MaskedSign(result, w);
      MaskedSign(src, w);
      MaskedSign(dest, w);
      if Sign(s) == Sign(d) {
        eflags := eflags.(of := Sign(s) != Sign(r));
      } else {
        eflags := eflags.(of := false);
      }
    }

    method Add(src: uint32, dest: uint32, w: nat) returns (r: uint32)
      requires IsWidth(w)
      modifies this
      ensures r == Sum(dest, src, false, w) && eflags == SumFlags(dest, src, false, w)
    {
      var res := Wrap(dest + src);
      SumLow(dest, src, false, w);
      SumOverflow(dest, src, false, w);
      SetCFAdd(res, dest, w);
      SetResult(res, w);
      SetOFAdd(res, src, dest, w);
      return Mask(res, w);
    }

    method Adc(src: uint32, dest: uint32, w: nat) returns (r: uint32)
      requires IsWidth(w)
      modifies this
      ensures r == Sum(dest, src, old(eflags.cf), w) && eflags == SumFlags(dest, src, old(eflags.cf), w)
    {
      var res := Wrap(dest + src + Bit(eflags.cf));
      SumLow(dest, src, eflags.cf, w);
      SumOverflow(dest, src, eflags.cf, w);
      SetCFAdc(res, dest, eflags.cf, w);
      SetResult(res, w);
      SetOFAdd(res, src, dest, w);
      return Mask(res, w);
    }

    /** set_OF_sub is this without a borrow.  The test for the least number is only met at 32 bits. */
    method SetOFSbb(result: uint32, src: uint32, dest: uint32, cf: bool, w: nat)
      requires IsWidth(w)
      modifies this
      ensures eflags == old(eflags).(of := eflags.of)
      ensures Unsigned(result, w) == Difference(dest, src, cf, w) ==>
                eflags.of == !Fits(Signed(dest, w) - Signed(src, w) - Bit(cf), w)
    {
      var r, s, d := result, src, dest;
      var invalid := s == 0x8000_0000;
      if w == 8 || w == 16 {
        r, s, d := SignExt(Mask(result, w), w), SignExt(Mask(src, w), w), SignExt(Mask(dest, w), w);
        invalid := s == Half(w);
      }
      InvalidComplement(src, w);
      MaskedSign(result, w);
      MaskedSign(src, w);
      MaskedSign(dest, w);
      MaskedZero(dest, w);
      DifferenceOverflow(dest, src, cf, w);
      if invalid {
        eflags := eflags.(of := if cf then Sign(d) == 0 && d != 0 else Sign(d) == 0);
        return;
      }
      Complement(src, cf, w);
      s := Wrap(0xFFFF_FFFF - s + 1 - Bit(cf));
      if Sign(s) == Sign(d) {
        eflags := eflags.(of := Sign(d) != Sign(r));
      } else {
        eflags := eflags.(of := false);
      }
    }

    method Sub(src: uint32, dest: uint32, w: nat) returns (r: uint32)
      requires IsWidth(w)
      modifies this
      ensures r == Difference(dest, src, false, w) && eflags == DifferenceFlags(dest, src, false, w)
    {
      var res := Wrap(dest - src);
      DifferenceLow(dest, src, false, w);
      DifferenceOverflow(dest, src, false, w);
      SetCFSub(res, dest, w);
      SetResult(res, w);
      SetOFSbb(res, src, dest, false, w);
      return Mask(res, w);
    }

    method Sbb(src: uint32, dest: uint32, w: nat) returns (r: uint32)
      requires IsWidth(w)
      modifies this
      ensures r == Difference(dest, src, old(eflags.cf), w) && eflags == DifferenceFlags(dest, src, old(eflags.cf), w)
    {
      var res := Wrap(dest - src - Bit(eflags.cf));
      DifferenceLow(dest, src, eflags.cf, w);
      DifferenceOverflow(dest, src, eflags.cf, w);
      SetOFSbb(res, src, dest, eflags.cf, w);
      SetCFSbb(res, dest, eflags.cf, w);
      SetResult(res, w);
      return Mask(res, w);
    }

    method Shl(src: uint32, dest: uint32, w: nat) returns (r: uint32)
      requires IsWidth(w)
      modifies this
      ensures r == LeftShift(dest, src, w) && eflags == LeftShiftFlags(old(eflags), dest, src, w)
    {
      var temp: int, res: uint32 := src, SignExt(Mask(dest, w), w);
      Idempotent(dest, w);
      SignExtLow(dest, w);
      NoShift(dest, w);
      ghost var n := 0;
      while temp != 0
        invariant temp >= 0 && n == src - temp
        invariant res == SignExt(res, w) && Unsigned(res, w) == LeftShift(dest, n, w)
        invariant eflags == old(eflags).(cf := if n == 0 then old(eflags).cf else LeftShiftOut(dest, n, w))
        decreases temp
      {
        SignOf(res, w);
        LeftShiftNext(dest, n, w, res);
        eflags := eflags.(cf := Sign(res) == 1);
        res := Wrap(2 * res);
        res := SignExt(Mask(res, w), w);
        temp, n := temp - 1, n + 1;
      }
      SignOf(res, w);
      if src == 1 {
        eflags := eflags.(of := eflags.cf != (Sign(res) == 1));
      }
      SetResult(res, w);
      return Mask(res, w);
    }

    method Shr(src: uint32, dest: uint32, w: nat) returns (r: uint32)
      requires IsWidth(w)
      modifies this
      ensures r == Unsigned(dest, w) / Pow2(src)
      ensures eflags == ResultFlags(r, w,
                                    if src == 0 then old(eflags).cf else Unsigned(dest, w) / Pow2(src - 1) % 2 == 1,
                                    if src == 1 then w == 32 && Unsigned(dest, w) >= Half(w) else old(eflags).of)
    {
      var temp: int, res: uint32 := src, UnsignExt(Mask(dest, w), w);
      UnsignExtIs(dest, w);
      if src == 1 {
        eflags := eflags.(of := Sign(res) == 1);
      }
      ghost var n, of := 0, eflags.of;
      while temp != 0
        invariant temp >= 0 && n == src - temp
        invariant res == Unsigned(dest, w) / Pow2(n) < Modulus(w)
        invariant eflags == old(eflags).(of := of, cf := if n == 0 then old(eflags).cf
                                                         else Unsigned(dest, w) / Pow2(n - 1) % 2 == 1)
        decreases temp
      {
        HalfAgain(Unsigned(dest, w), n);
        HalfFits(res, w);
        eflags := eflags.(cf := res % 2 == 1);
        res := res / 2;
        res := SignExt(Mask(res, w), w);
        temp, n := temp - 1, n + 1;
      }
      SetResult(res, w);
      DivModUnique(res, 0, Modulus(w), res);
      return Mask(res, w);
    }

    method Sar(src: uint32, dest: uint32, w: nat) returns (r: uint32)
      requires IsWidth(w)
      modifies this
      ensures r == Signed(dest, w) / Pow2(src) % Modulus(w)
      ensures eflags == ResultFlags(r, w, if src == 0 then old(eflags).cf else Signed(dest, w) / Pow2(src - 1) % 2 == 1,
                                    if src == 1 then eflags.cf != (r >= Half(w)) else old(eflags).of)
    {
      var temp: int, res: uint32 := src, SignExt(Mask(dest, w), w);
      Idempotent(dest, w);
      SignExtSigned(dest, w);
      ghost var n := 0;
      while temp != 0
        invariant temp >= 0 && n == src - temp
        invariant Signed(res, 32) == Signed(dest, w) / Pow2(n) && Fits(Signed(res, 32), w)
        invariant eflags == old(eflags).(cf := if n == 0 then old(eflags).cf
                                               else Signed(dest, w) / Pow2(n - 1) % 2 == 1)
        decreases temp
      {
        SarNext(dest, w, n, res);
        eflags := eflags.(cf := res % 2 == 1);
        res := Wrap(Signed(res, 32) / 2);
        res := SignExt(Mask(res, w), w);
        temp, n := temp - 1, n + 1;
      }
      SignedLow(res, w);
      if src == 1 {
        eflags := eflags.(of := eflags.cf != (Sign(res) == 1));
      }
      SetResult(res, w);
      return Mask(res, w);
    }

    method Sal(src: uint32, dest: uint32, w: nat) returns (r: uint32)
      requires IsWidth(w)
      modifies this
      ensures r == LeftShift(dest, src, w) && eflags == LeftShiftFlags(old(eflags), dest, src, w)
    {
      var temp: int, res: uint32 := src, SignExt(Mask(dest, w), w);
      Idempotent(dest, w);
      SignExtLow(dest, w);
      NoShift(dest, w);
      ghost var n := 0;
      while temp != 0
        invariant temp >= 0 && n == src - temp
        invariant res == SignExt(res, w) && Unsigned(res, w) == LeftShift(dest, n, w)
        invariant eflags == old(eflags).(cf := if n == 0 then old(eflags).cf else LeftShiftOut(dest, n, w))
        decreases temp
      {
        SignOf(res, w);
        LeftShiftNext(dest, n, w, res);
        eflags := eflags.(cf := Sign(res) == 1);
        res := Wrap(2 * res);
        res := SignExt(Mask(res, w), w);
        temp, n := temp - 1, n + 1;
      }
      SignOf(res, w);
      if src == 1 {
        eflags := eflags.(of := eflags.cf != (Sign(res) == 1));
      }
      SetResult(res, w);
      return Mask(res, w);
    }
  }

  /** alu_sal and alu_shl are one operation. */
  method ShiftLeftTwice(shl: Cpu, sal: Cpu, src: uint32, dest: uint32, w: nat) returns (r: uint32, r': uint32)
    requires IsWidth(w) && shl != sal && shl.eflags == sal.eflags
    modifies shl, sal
    ensures r == r' && shl.eflags == sal.eflags
  {
    r := shl.Shl(src, dest, w);
    r' := sal.Sal(src, dest, w);
  }

  /* ---- conditions ---- */

  predicate ConditionE(f: Flags) { f.zf }

  predicate ConditionNe(f: Flags) { !f.zf }

  predicate ConditionA(f: Flags) { !f.cf && !f.zf }

  predicate ConditionAe(f: Flags) { !f.cf }

  predicate ConditionB(f: Flags) { f.cf }

  predicate ConditionBe(f: Flags) { f.cf || f.zf }

  predicate ConditionG(f: Flags) { !f.zf && f.sf == f.of }

  predicate ConditionGe(f: Flags) { f.sf == f.of }

  predicate ConditionL(f: Flags) { f.sf != f.of }

  predicate ConditionLe(f: Flags) { f.zf || f.sf != f.of }

  /** After dest - src every condition is the comparison it is named for. */
  lemma Comparisons(src: uint32, dest: uint32, w: nat)
    requires IsWidth(w)
    ensures var f, u, v := DifferenceFlags(dest, src, false, w), Unsigned(dest, w), Unsigned(src, w);
            && (ConditionE(f) <==> u == v) && (ConditionNe(f) <==> u != v)
            && (ConditionA(f) <==> u > v) && (ConditionAe(f) <==> u >= v)
            && (ConditionB(f) <==> u < v) && (ConditionBe(f) <==> u <= v)
    ensures var f, x, y := DifferenceFlags(dest, src, false, w), Signed(dest, w), Signed(src, w);
            && (ConditionE(f) <==> x == y) && (ConditionNe(f) <==> x != y)
            && (ConditionG(f) <==> x > y) && (ConditionGe(f) <==> x >= y)
            && (ConditionL(f) <==> x < y) && (ConditionLe(f) <==> x <= y)
  {
    var t, m := Unsigned(dest, w) - Unsigned(src, w), Modulus(w);
    var r := Difference(dest, src, false, w);
    if t >= 0 {
      DivModUnique(t, 0, m, t);
    } else {
      DivModUnique(t, 0 - 1, m, t + m);
    }
    assert r == if t >= 0 then t else t + m;
    SignedOrder(Unsigned(dest, w), Unsigned(src, w), r, Half(w), m);
  }

  /** A two's-complement difference has the sign of the exact one unless it does not fit. */
  lemma SignedOrder(u: int, v: int, r: int, h: int, m: int)
    requires 0 <= u < m && 0 <= v < m && m == 2 * h && r == if u >= v then u - v else u - v + m
    ensures var x, y := if u < h then u else u - m, if v < h then v else v - m;
            && (x < y <==> (r >= h) == (-h <= x - y < h))
            && (r == 0 <==> x == y) && (r == 0 <==> u == v)
  {
  }

  /* ---- numbers of many limbs ---- */

  /** The number whose limbs of w bits are given, the lowest first. */
  function Number(limbs: seq<uint32>, w: nat): nat {
    if limbs == [] then 0
    else
      MulNatural(Modulus(w), Number(limbs[1..], w));
      Unsigned(limbs[0], w) + Modulus(w) * Number(limbs[1..], w)
  }

  /** The weight of the limb after the first n. */
  function Weight(n: nat, w: nat): (p: nat)
    ensures p > 0
  {
    if n == 0 then 1
    else
      MulPositive(Modulus(w), Weight(n - 1, w));
      Modulus(w) * Weight(n - 1, w)
  }

  lemma {:induction false} NumberBound(limbs: seq<uint32>, w: nat)
    ensures Number(limbs, w) < Weight(|limbs|, w)
  {
    if limbs != [] {
      var m, x, p := Modulus(w), Number(limbs[1..], w), Weight(|limbs| - 1, w);
      NumberBound(limbs[1..], w);
      MulMonotoneInt(x + 1, p, m);
      Distribute(x, 1, m);
    }
  }

  /** Adding the limb above: x and y are the old numbers, and so on. */
  lemma {:induction false} NumberNext(limbs: seq<uint32>, limb: uint32, w: nat)
    ensures Number(limbs + [limb], w) == Number(limbs, w) + Unsigned(limb, w) * Weight(|limbs|, w)
  {
    var all := limbs + [limb];
    if limbs == [] {
      assert all == [limb] && all[1..] == [];
    } else {
      assert all[1..] == limbs[1..] + [limb];
      NumberNext(limbs[1..], limb, w);
      var m, x, u, p := Modulus(w), Number(limbs[1..], w), Unsigned(limb, w), Weight(|limbs| - 1, w);
      Distribute(x, u * p, m);
      MulSwap(u, p, m);
      MulAssoc(u, m, p);
    }
  }

  /** Sum and difference with the carry that they set, as equations on numbers. */
  lemma SumCarry(dest: uint32, src: uint32, carry: bool, w: nat)
    requires IsWidth(w)
    ensures var s := Sum(dest, src, carry, w);
            && s + Bit(SumFlags(dest, src, carry, w).cf) * Modulus(w)
               == Unsigned(dest, w) + Unsigned(src, w) + Bit(carry)
            && Unsigned(s, w) == s
  {
    var t, m := Unsigned(dest, w) + Unsigned(src, w) + Bit(carry), Modulus(w);
    DivModUnique(t, if t < m then 0 else 1, m, if t < m then t else t - m);
    DivModUnique(t % m, 0, m, t % m);
  }

  lemma DifferenceBorrow(dest: uint32, src: uint32, borrow: bool, w: nat)
    requires IsWidth(w)
    ensures var s := Difference(dest, src, borrow, w);
            && s + Unsigned(src, w) + Bit(borrow)
               == Unsigned(dest, w) + Bit(DifferenceFlags(dest, src, borrow, w).cf) * Modulus(w)
            && Unsigned(s, w) == s
  {
    var t, m := Unsigned(dest, w) - Unsigned(src, w) - Bit(borrow), Modulus(w);
    DivModUnique(t, if t >= 0 then 0 else 0 - 1, m, if t >= 0 then t else t + m);
    DivModUnique(t % m, 0, m, t % m);
  }

  /** A carry c into a limb of weight p, and c' out of it. */
  lemma CarryOn(r: int, c: int, p: int, a: int, b: int, x: int, y: int, s: int, c': int, m: int)
    requires r + c * p == a + b && s + c' * m == x + y + c
    ensures (r + s * p) + c' * (m * p) == (a + x * p) + (b + y * p)
  {
    MulAssoc(c', m, p);
    Distribute(s, c' * m, p);
    Distribute(x + y, c, p);
    Distribute(x, y, p);
  }

  /** r and the carry are the sum of the lowest limbs of a and b. */
  ghost predicate Summed(a: seq<uint32>, b: seq<uint32>, r: seq<uint32>, cf: bool, w: nat) {
    var n := |r|;
    && n <= |a| && n <= |b|
    && Number(r, w) + Bit(cf) * Weight(n, w) == Number(a[..n], w) + Number(b[..n], w)
  }

  /** r and the borrow are the difference of the lowest limbs of a and b. */
  ghost predicate Subtracted(a: seq<uint32>, b: seq<uint32>, r: seq<uint32>, cf: bool, w: nat) {
    var n := |r|;
    && n <= |a| && n <= |b|
    && Number(r, w) + Number(b[..n], w) == Number(a[..n], w) + Bit(cf) * Weight(n, w)
  }

  lemma SumLimb(a: seq<uint32>, b: seq<uint32>, r: seq<uint32>, cf: bool, w: nat)
    requires IsWidth(w) && |r| < |a| && |r| < |b| && Summed(a, b, r, cf, w)
    ensures var n := |r|;
            Summed(a, b, r + [Sum(a[n], b[n], cf, w)], SumFlags(a[n], b[n], cf, w).cf, w)
  {
    var n := |r|;
    var s, x, y, p := Sum(a[n], b[n], cf, w), Unsigned(a[n], w), Unsigned(b[n], w), Weight(n, w);
    assert a[..n + 1] == a[..n] + [a[n]] && b[..n + 1] == b[..n] + [b[n]];
    NumberNext(a[..n], a[n], w);
    NumberNext(b[..n], b[n], w);
    NumberNext(r, s, w);
    SumCarry(a[n], b[n], cf, w);
    CarryOn(Number(r, w), Bit(cf), p, Number(a[..n], w), Number(b[..n], w), x, y, s,
            Bit(SumFlags(a[n], b[n], cf, w).cf), Modulus(w));
  }

  /** A borrow c from a limb of weight p, and c' from the limb above it. */
  lemma BorrowOn(r: int, c: int, p: int, a: int, b: int, x: int, y: int, s: int, c': int, m: int)
    requires r + b == a + c * p && s + y + c == x + c' * m
    ensures (r + s * p) + (b + y * p) == (a + x * p) + c' * (m * p)
  {
    MulAssoc(c', m, p);
    Distribute(x, c' * m, p);
    Distribute(s + y, c, p);
    Distribute(s, y, p);
  }

  lemma DifferenceLimb(a: seq<uint32>, b: seq<uint32>, r: seq<uint32>, cf: bool, w: nat)
    requires IsWidth(w) && |r| < |a| && |r| < |b| && Subtracted(a, b, r, cf, w)
    ensures var n := |r|;
            Subtracted(a, b, r + [Difference(a[n], b[n], cf, w)], DifferenceFlags(a[n], b[n], cf, w).cf, w)
  {
    var n := |r|;
    var s, x, y, p := Difference(a[n], b[n], cf, w), Unsigned(a[n], w), Unsigned(b[n], w), Weight(n, w);
    assert a[..n + 1] == a[..n] + [a[n]] && b[..n + 1] == b[..n] + [b[n]];
    NumberNext(a[..n], a[n], w);
    NumberNext(b[..n], b[n], w);
    NumberNext(r, s, w);
    DifferenceBorrow(a[n], b[n], cf, w);
    BorrowOn(Number(r, w), Bit(cf), p, Number(a[..n], w), Number(b[..n], w), x, y, s,
             Bit(DifferenceFlags(a[n], b[n], cf, w).cf), Modulus(w));
  }

  lemma FinalCarry(total: nat, r: nat, cf: bool, p: nat)
    requires r + Bit(cf) * p == total && r < p
    ensures cf <==> total >= p
  {
  }

  lemma FinalBorrow(a: nat, b: nat, r: nat, cf: bool, p: nat)
    requires r + b == a + Bit(cf) * p && r < p && b < p
    ensures cf <==> a < b
  {
  }

  /** The sum of all limbs, with the carry out of it. */
  lemma SumDone(a: seq<uint32>, b: seq<uint32>, r: seq<uint32>, cf: bool, w: nat)
    requires Summed(a, b, r, cf, w) && |r| == |a| == |b|
    ensures Number(r, w) + Bit(cf) * Weight(|a|, w) == Number(a, w) + Number(b, w)
    ensures Number(r, w) < Weight(|a|, w)
    ensures cf <==> Number(a, w) + Number(b, w) >= Weight(|a|, w)
  {
    assert a[..|r|] == a && b[..|r|] == b;
    NumberBound(r, w);
    FinalCarry(Number(a, w) + Number(b, w), Number(r, w), cf, Weight(|a|, w));
  }

  lemma DifferenceDone(a: seq<uint32>, b: seq<uint32>, r: seq<uint32>, cf: bool, w: nat)
    requires Subtracted(a, b, r, cf, w) && |r| == |a| == |b|
    ensures Number(r, w) + Number(b, w) == Number(a, w) + Bit(cf) * Weight(|a|, w)
    ensures Number(r, w) < Weight(|a|, w)
    ensures cf <==> Number(a, w) < Number(b, w)
  {
    assert a[..|r|] == a && b[..|r|] == b;
    NumberBound(r, w);
    NumberBound(b, w);
    FinalBorrow(Number(a, w), Number(b, w), Number(r, w), cf, Weight(|a|, w));
  }

  /** An add and then one adc for each further limb. */
  method AddLimbs(cpu: Cpu, src: seq<uint32>, dest: seq<uint32>, w: nat) returns (r: seq<uint32>)
    requires IsWidth(w) && 0 < |src| == |dest|
    modifies cpu
    ensures |r| == |dest|
    ensures Number(r, w) + Bit(cpu.eflags.cf) * Weight(|dest|, w) == Number(dest, w) + Number(src, w)
    ensures Number(r, w) < Weight(|dest|, w)
    ensures cpu.eflags.cf <==> Number(dest, w) + Number(src, w) >= Weight(|dest|, w)
  {
    SumLimb(dest, src, [], false, w);
    var limb := cpu.Add(src[0], dest[0], w);
    r := [] + [limb];
    while |r| < |dest|
      invariant 1 <= |r| <= |dest| && Summed(dest, src, r, cpu.eflags.cf, w)
    {
      SumLimb(dest, src, r, cpu.eflags.cf, w);
      limb := cpu.Adc(src[|r|], dest[|r|], w);
      r := r + [limb];
    }
    SumDone(dest, src, r, cpu.eflags.cf, w);
  }

  /** A sub and then one sbb for each further limb. */
  method SubLimbs(cpu: Cpu, src: seq<uint32>, dest: seq<uint32>, w: nat) returns (r: seq<uint32>)
    requires IsWidth(w) && 0 < |src| == |dest|
    modifies cpu
    ensures |r| == |dest|
    ensures Number(r, w) + Number(src, w) == Number(dest, w) + Bit(cpu.eflags.cf) * Weight(|dest|, w)
    ensures Number(r, w) < Weight(|dest|, w)
    ensures cpu.eflags.cf <==> Number(dest, w) < Number(src, w)
  {
    DifferenceLimb(dest, src, [], false, w);
    var limb := cpu.Sub(src[0], dest[0], w);
    r := [] + [limb];
    while |r| < |dest|
      invariant 1 <= |r| <= |dest| && Subtracted(dest, src, r, cpu.eflags.cf, w)
    {
      DifferenceLimb(dest, src, r, cpu.eflags.cf, w);
      limb := cpu.Sbb(src[|r|], dest[|r|], w);
      r := r + [limb];
    }
    DifferenceDone(dest, src, r, cpu.eflags.cf, w);
  }
}
