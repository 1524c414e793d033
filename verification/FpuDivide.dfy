/** internal_float_div of nemu/src/cpu/fpu.c, and exactly when it rounds correctly. */
module FpuDivide {
  import opened PowersOfTwo
  import opened Words
  import opened Binary32
  import opened Ieee754
  import opened FpuNormalize
  import opened Fpu

  const TOP_BIT := 0x8000_0000_0000_0000

  /** The dividend shifted left until bit 63 is set, and by how many places. */
  function Widened(s: nat): (r: nat)
    requires 0 < s < 2 * TOP_BIT
    ensures TOP_BIT <= r < 2 * TOP_BIT
    decreases TOP_BIT - s
  {
    if s < TOP_BIT then Widened(2 * s) else s
  }

  function WideningShift(s: nat): nat
    requires 0 < s < 2 * TOP_BIT
    decreases TOP_BIT - s
  {
    if s < TOP_BIT then 1 + WideningShift(2 * s) else 0
  }

  /** The divisor without its trailing zeros, and their number. */
  function OddPart(s: nat): (r: nat)
    requires s > 0
    ensures 0 < r <= s && r % 2 == 1
  {
    if s % 2 == 0 then OddPart(s / 2) else s
  }

  function TrailingZeros(s: nat): nat
    requires s > 0
  {
    if s % 2 == 0 then 1 + TrailingZeros(s / 2) else 0
  }

  lemma {:induction false} WidenedValue(s: nat)
    requires 0 < s < 2 * TOP_BIT
    ensures Widened(s) == s * Pow2(WideningShift(s))
    decreases TOP_BIT - s
  {
    if s < TOP_BIT {
      WidenedValue(2 * s);
      MulAssoc(s, 2, Pow2(WideningShift(2 * s)));
    }
  }

  lemma {:induction false} OddPartValue(s: nat)
    requires s > 0
    ensures s == OddPart(s) * Pow2(TrailingZeros(s))
  {
    if s % 2 == 0 {
      OddPartValue(s / 2);
    }
  }

  lemma {:induction false} WideningShiftBound(s: nat, n: nat)
    requires 0 < s < 2 * TOP_BIT
    requires s * Pow2(n) >= TOP_BIT
    ensures WideningShift(s) <= n
    decreases n
  {
    if s < TOP_BIT {
      assert n > 0;
      MulAssoc(s, 2, Pow2(n - 1));
      WideningShiftBound(2 * s, n - 1);
    }
  }

  lemma {:induction false} TrailingZerosBound(s: nat, n: nat)
    requires 0 < s < Pow2(n)
    ensures TrailingZeros(s) < n
    decreases n
  {
    if s % 2 == 0 {
      assert n > 0;
      TrailingZerosBound(s / 2, n - 1);
    }
  }

  /** sig_a / sig_b, as the division in the middle of internal_float_div computes it. */
  function TruncatedQuotient(a: uint32, b: uint32): nat
    requires Significand(a) > 0 && Significand(b) > 0
    requires Significand(a) < 0x100_0000
  {
    Widened(Significand(a)) / OddPart(Significand(b))
  }

  /** Nothing was cut off. */
  predicate DividesExactly(a: uint32, b: uint32)
    requires Significand(a) > 0 && Significand(b) > 0
    requires Significand(a) < 0x100_0000
  {
    Widened(Significand(a)) % OddPart(Significand(b)) == 0
  }

  /** The scale of the truncated quotient: it counts units of 2^-149 times 2^QuotientExponent. */
  function QuotientExponent(a: uint32, b: uint32): int
    requires Significand(a) > 0 && Significand(b) > 0
    requires Significand(a) < 0x100_0000
  {
    ScaleExponent(a) - ScaleExponent(b) + UNIT
    - WideningShift(Significand(a)) - TrailingZeros(Significand(b))
  }

  /** q * 2^e is halfway between two magnitudes, the lower of which is even. */
  ghost predicate HalfwayAboveEven(q: nat, e: int) {
    exists m: nat :: m < INFINITY && m % 2 == 0 && 2 * q * Up(e) == Up(-e) * Midpoint2(m)
  }

  function BitLength(q: nat): nat {
    if q == 0 then 0 else 1 + BitLength(q / 2)
  }

  /** How many bits of q fall below the last place of the result: all but 24, or all below one unit. */
  function DroppedBits(q: nat, e: int): int {
    if BitLength(q) - 24 + e >= 0 then BitLength(q) - 24 else -e
  }

  /** The dropped bits are 100...0, the last kept bit is 0, and the result is finite. */
  predicate TieBits(q: nat, e: int) {
    var t := DroppedBits(q, e);
    t > 0 && t + e <= 253 && q % Pow2(t) == Pow2(t - 1) && q / Pow2(t) % 2 == 0
  }

  /**
   The operands that division gets wrong: a remainder is dropped, and without it the quotient looks
   like a tie that goes down.  MisroundedTest decides this by the bits of the quotient.
   */
  ghost predicate Misrounded(a: uint32, b: uint32) {
    && IsFinite(a) && IsFinite(b) && Significand(a) > 0 && Significand(b) > 0
    && Significand(a) < 0x100_0000
    && !DividesExactly(a, b)
    && HalfwayAboveEven(TruncatedQuotient(a, b), QuotientExponent(a, b))
  }

  const CORNER_DIV: seq<CornerRule> := [
    CornerRule(P_ZERO, P_ZERO, N_NAN),
    CornerRule(N_ZERO, P_ZERO, N_NAN),
    CornerRule(P_ZERO, N_ZERO, N_NAN),
    CornerRule(N_ZERO, N_ZERO, N_NAN),
    CornerRule(P_INF, P_ZERO, P_INF),
    CornerRule(N_INF, P_ZERO, N_INF),
    CornerRule(P_INF, N_ZERO, N_INF),
    CornerRule(N_INF, N_ZERO, P_INF),
    CornerRule(P_INF, P_INF, N_NAN),
    CornerRule(N_INF, P_INF, N_NAN),
    CornerRule(P_INF, N_INF, N_NAN),
    CornerRule(N_INF, N_INF, N_NAN)
  ]

  /** The two shift loops that widen the operands. */
  method Widen(a0: uint64, b0: uint64) returns (sigA: uint64, sigB: uint64, shift: nat)
    requires 0 < a0 && 0 < b0
    ensures sigA == Widened(a0) >= TOP_BIT && sigB == OddPart(b0) && sigB % 2 == 1
    ensures shift == WideningShift(a0) + TrailingZeros(b0)
  {
    sigA, sigB, shift := a0, b0, 0;
    while sigA / TOP_BIT == 0
      invariant sigA > 0 && Widened(sigA) == Widened(a0)
      invariant shift + WideningShift(sigA) == WideningShift(a0)
      decreases TOP_BIT - sigA
    {
      sigA := sigA * 2;
      shift := shift + 1;
    }
    while sigB % 2 == 0
      invariant sigB > 0 && OddPart(sigB) == OddPart(b0)
      invariant shift + TrailingZeros(sigB) == WideningShift(a0) + TrailingZeros(b0)
      decreases sigB
    {
      sigB := sigB / 2;
      shift := shift + 1;
    }
  }

  /** internal_float_div past its special cases. */
  method DivSignificands(b: uint32, a: uint32) returns (r: uint32)
    requires !IsZero(a) && !IsZero(b)
    ensures Significand(a) > 0 && Significand(b) > 0 && Significand(a) < 0x100_0000
    ensures r == Encode(ProductSign(a, b), RoundScaled(TruncatedQuotient(a, b), QuotientExponent(a, b)))
  {
    UlpsOfOperand(a);
    UlpsOfOperand(b);
    var sigA, sigB, shift := Widen(Significand(a), Significand(b));
    QuotientRange(a, b);
    var sigRes: uint64 := sigA / sigB;
    var expA := if ExponentField(a) == 0 then ExponentField(a) + 1 else ExponentField(a);
    var expB := if ExponentField(b) == 0 then ExponentField(b) + 1 else ExponentField(b);
    var expRes: int32 := expA - expB + 127 - (shift as int - 23 - 3);
    ghost var rounds;
    r, rounds := Normalize(ProductSign(a, b), expRes, sigRes);
  }

  lemma QuotientRange(a: uint32, b: uint32)
    requires Significand(a) > 0 && Significand(b) > 0
    requires Significand(a) < 0x100_0000 && Significand(b) < 0x100_0000
    ensures 0x80_0000_0000 <= TruncatedQuotient(a, b) < 2 * TOP_BIT
    ensures 0 <= WideningShift(Significand(a)) <= 63 && 0 <= TrailingZeros(Significand(b)) < 24
  {
    QuotientBits(Widened(Significand(a)), OddPart(Significand(b)));
    PowerLiterals();
    var bits: nat := 63;
    MulMonotone(1, Significand(a), Pow2(bits));
    WideningShiftBound(Significand(a), bits);
    TrailingZerosBound(Significand(b), 24);
  }

  /** A 64-bit dividend over a divisor of at most 24 bits leaves a quotient of at least 40 bits. */
  lemma QuotientBits(x: nat, y: nat)
    requires TOP_BIT <= x < 2 * TOP_BIT && 0 < y < 0x100_0000
    ensures 0x80_0000_0000 <= x / y <= x
  {
    var q := x / y;
    assert x == q * y + x % y;
    if q < 0x80_0000_0000 {
      MulMonotone(q + 1, 0x80_0000_0000, y);
    }
    MulMonotone(1, y, q);
  }

  lemma PowerLiterals()
    ensures Pow2(63) == TOP_BIT && Pow2(24) == 0x100_0000
  {
    Eight();
    PowerSum(3, 3, 8, 8);
    PowerSum(6, 6, 64, 64);
    PowerSum(12, 12, 0x1000, 0x1000);
    PowerSum(24, 24, 0x100_0000, 0x100_0000);
    PowerSum(48, 12, 0x1_0000_0000_0000, 0x1000);
    PowerSum(60, 3, 0x1000_0000_0000_0000, 8);
  }

  lemma PowerSum(a: nat, b: nat, pa: nat, pb: nat)
    requires Pow2(a) == pa && Pow2(b) == pb
    ensures Pow2(a + b) == pa * pb
  {
    Pow2Add(a, b);
  }

  /* ---- when the truncated quotient rounds like the exact one ---- */

  lemma {:induction false} RoundPowers(x: nat, y: nat, p: nat, q: nat, p': nat, q': nat)
    requires y > 0 && p + q' == p' + q && p <= p'
    ensures y * Pow2(q) > 0 && y * Pow2(q') > 0
    ensures Round(x * Pow2(p), y * Pow2(q)) == Round(x * Pow2(p'), y * Pow2(q'))
    decreases p' - p
  {
    MulPositive(y, Pow2(q'));
    if p < p' {
      RoundPowers(x, y, p, q, p' - 1, q' - 1);
      TwiceProduct(x, Pow2(p' - 1));
      TwiceProduct(y, Pow2(q' - 1));
      RoundCancel(x * Pow2(p' - 1), y * Pow2(q' - 1), 2);
    }
  }

  /** The exact quotient, over the odd part of the divisor. */
  lemma ExactQuotient(a: uint32, b: uint32, k: nat, h: nat)
    requires IsFinite(a) && IsFinite(b) && !IsZero(a) && !IsZero(b)
    requires Significand(a) > 0 && Significand(b) > 0 && Significand(a) < 0x100_0000
    requires h == k + QuotientExponent(a, b)
    ensures Ulps(Magnitude(b)) > 0 && OddPart(Significand(b)) * Pow2(k) > 0
    ensures RoundedQuotient(Ulps(Magnitude(a)), Ulps(Magnitude(b))) ==
            Round(Widened(Significand(a)) * Pow2(h), OddPart(Significand(b)) * Pow2(k))
  {
    var p, p' := DividendPowers(a, h);
    var q := DivisorPowers(b);
    MulNatural(Ulps(Magnitude(a)), Pow2(UNIT));
    MulNatural(Widened(Significand(a)), Pow2(h));
    MulPositive(OddPart(Significand(b)), Pow2(k));
    SameQuotient(Ulps(Magnitude(a)) * Pow2(UNIT), Ulps(Magnitude(b)), Widened(Significand(a)) * Pow2(h),
                 Significand(a), OddPart(Significand(b)), p, q, p', k);
  }

  lemma SameQuotient(n: nat, d: nat, w: nat, x: nat, y: nat, p: nat, q: nat, p': nat, q': nat)
    requires n == x * Pow2(p) && d == y * Pow2(q) && w == x * Pow2(p')
    requires y > 0 && p + q' == p' + q
    ensures d > 0 && y * Pow2(q') > 0
    ensures Round(n, d) == Round(w, y * Pow2(q'))
  {
    SameRatio(x, y, p, q, p', q');
  }

  lemma SameRatio(x: nat, y: nat, p: nat, q: nat, p': nat, q': nat)
    requires y > 0 && p + q' == p' + q
    ensures y * Pow2(q) > 0 && y * Pow2(q') > 0
    ensures Round(x * Pow2(p), y * Pow2(q)) == Round(x * Pow2(p'), y * Pow2(q'))
  {
    if p <= p' {
      RoundPowers(x, y, p, q, p', q');
    } else {
      RoundPowers(x, y, p', q', p, q);
    }
  }

  lemma DividendPowers(a: uint32, h: nat) returns (p: nat, p': nat)
    requires 0 < Significand(a) < 0x100_0000
    ensures p == ScaleExponent(a) - 1 + UNIT && p' == WideningShift(Significand(a)) + h
    ensures Ulps(Magnitude(a)) * Pow2(UNIT) == Significand(a) * Pow2(p)
    ensures Widened(Significand(a)) * Pow2(h) == Significand(a) * Pow2(p')
  {
    var s, i, l := Significand(a), ScaleExponent(a) - 1, WideningShift(Significand(a));
    p, p' := i + UNIT, l + h;
    UlpsOfOperand(a);
    WidenedValue(s);
    ProductOfPowers(s, i, UNIT, p);
    ProductOfPowers(s, l, h, p');
  }

  lemma ProductOfPowers(x: nat, i: nat, j: nat, k: nat)
    requires k == i + j
    ensures (x * Pow2(i)) * Pow2(j) == x * Pow2(k)
  {
    Pow2Sum(k, i, j);
    MulAssoc(x, Pow2(i), Pow2(j));
  }

  lemma DivisorPowers(b: uint32) returns (q: nat)
    requires Significand(b) > 0
    ensures q == TrailingZeros(Significand(b)) + (ScaleExponent(b) - 1)
    ensures Ulps(Magnitude(b)) > 0
    ensures Ulps(Magnitude(b)) == OddPart(Significand(b)) * Pow2(q)
  {
    var z, j := TrailingZeros(Significand(b)), ScaleExponent(b) - 1;
    q := z + j;
    UlpsOfOperand(b);
    MulPositive(Significand(b), Pow2(j));
    OddPartValue(Significand(b));
    ProductOfPowers(OddPart(Significand(b)), z, j, q);
  }

  /** Rounding x/y at scale 2^e against rounding its integer part: they part only at a tie. */
  lemma TruncationRounds(x: nat, y: nat, e: int, k: nat)
    requires y > 0 && k + e >= 0 && x / y >= 0x80_0000_0000
    ensures y * Pow2(k) > 0
    ensures Round(x * Pow2(k + e), y * Pow2(k)) == RoundScaled(x / y, e)
            <==> x % y == 0 || !HalfwayAboveEven(x / y, e)
  {
    var q, p := x / y, Pow2(k + e);
    var n, d := x * p, y * Pow2(k);
    MulStrict(0, y, Pow2(k));
    RoundScaledOver(q, e, k);
    var m := Round(q * p, Pow2(k));
    RoundBrackets(q * p, Pow2(k));
    HalfwayOver(q, e, k);
    if x % y == 0 {
      assert x == y * q;
      RoundCancel(q * p, Pow2(k), y);
      assert (q * p) * y == x * p by { MulAssoc(y, q, p); }
      assert Pow2(k) * y == d;
    } else {
      if m > 0 {
        LowerSide(x, y, q, p, k, Midpoint2(m - 1));
      }
      if m < INFINITY && 2 * (q * p) == Pow2(k) * Midpoint2(m) {
        LowerSide(x, y, q, p, k, Midpoint2(m));
        RoundBrackets(n, d);
      } else {
        if m < INFINITY {
          UpperSide(x, y, e, k, m);
        }
        RoundIs(n, d, m);
      }
    }
  }

  lemma SwapProduct(q: nat, p: nat, y: nat)
    ensures (2 * (q * p)) * y == 2 * ((q * y) * p)
  {
    MulAssoc(q, p, y);
    MulAssoc(q, y, p);
  }

  lemma LowerSide(x: nat, y: nat, q: nat, p: nat, k: nat, t: nat)
    requires y > 0 && q == x / y && x % y > 0 && p > 0
    requires 2 * (q * p) >= Pow2(k) * t
    ensures 2 * (x * p) > y * Pow2(k) * t
  {
    LowerSideOf(x, y, q, p, Pow2(k) * t);
    MulAssoc(y, Pow2(k), t);
  }

  lemma LowerSideOf(x: nat, y: nat, q: nat, p: nat, u: nat)
    requires y > 0 && q == x / y && x % y > 0 && p > 0
    requires 2 * (q * p) >= u
    ensures 2 * (x * p) > y * u
  {
    assert q * y < x by { assert x == q * y + x % y; }
    MulStrict(q * y, x, p);
    MulMonotone(u, 2 * (q * p), y);
    SwapProduct(q, p, y);
  }

  lemma UpperSide(x: nat, y: nat, e: int, k: nat, m: nat)
    requires y > 0 && k + e >= 0 && x / y >= 0x80_0000_0000 && x % y > 0
    requires 2 * (x / y * Pow2(k + e)) < Pow2(k) * Midpoint2(m)
    ensures 2 * (x * Pow2(k + e)) < y * Pow2(k) * Midpoint2(m)
  {
    var far, j := MidpointInUnits(m, e, k);
    UpperSideOf(x, y, x / y, Pow2(k + e), Pow2(k) * Midpoint2(m), far, j);
    MulAssoc(y, Pow2(k), Midpoint2(m));
  }

  lemma UpperSideOf(x: nat, y: nat, q: nat, p: nat, u: nat, far: bool, j: nat)
    requires y > 0 && q == x / y && q >= 0x80_0000_0000 && x % y > 0 && p > 0
    requires if far then u <= 0x400_0000 * p else u == 2 * (2 * j * p)
    requires 2 * (q * p) < u
    ensures 2 * (x * p) < y * u
  {
    MulStrict(0x200_0000, q, p);
    MulStrict(q, 2 * j, p);
    assert x < (q + 1) * y by { assert x == q * y + x % y; }
    MulMonotone(q + 1, 2 * j, y);
    MulStrict(x, (2 * j) * y, p);
    SwapProduct(2 * j, p, y);
  }

  /** The tie, over a common denominator. */
  lemma HalfwayOver(q: nat, e: int, k: nat)
    requires k + e >= 0
    ensures var m := Round(q * Pow2(k + e), Pow2(k));
            HalfwayAboveEven(q, e) <==>
            m < INFINITY && m % 2 == 0 && 2 * (q * Pow2(k + e)) == Pow2(k) * Midpoint2(m)
  {
    var m := Round(q * Pow2(k + e), Pow2(k));
    forall m': nat
      ensures 2 * q * Up(e) == Up(-e) * Midpoint2(m') <==> 2 * (q * Pow2(k + e)) == Pow2(k) * Midpoint2(m')
    {
      TieOver(q, e, k, Midpoint2(m'));
    }
    if HalfwayAboveEven(q, e) {
      var m': nat :| m' < INFINITY && m' % 2 == 0 && 2 * q * Up(e) == Up(-e) * Midpoint2(m');
      if m' > 0 {
        RisingMidpoints(Pow2(k), m' - 1, m');
      }
      RoundIs(q * Pow2(k + e), Pow2(k), m');
    }
  }

  lemma TieOver(q: nat, e: int, k: nat, t: nat)
    requires k + e >= 0
    ensures 2 * q * Up(e) == Up(-e) * t <==> 2 * (q * Pow2(k + e)) == Pow2(k) * t
  {
    if e >= 0 {
      Pow2Add(k, e);
      MulStrict(2 * q * Pow2(e), t, Pow2(k));
      MulAssoc(2 * q, Pow2(e), Pow2(k));
      MulAssoc(2, q, Pow2(k + e));
    } else {
      Pow2Add(k + e, -e);
      MulStrict(2 * q, Up(-e) * t, Pow2(k + e));
      MulAssoc(2, q, Pow2(k + e));
      MulAssoc(Pow2(k + e), Up(-e), t);
    }
  }

  /* ---- the bits of a tie ---- */

  lemma {:induction false} BitLengthIs(q: nat)
    requires q > 0
    ensures BitLength(q) > 0 && Pow2(BitLength(q) - 1) <= q < Pow2(BitLength(q))
  {
    if q > 1 {
      BitLengthIs(q / 2);
    } else {
      assert BitLength(1) == 1 + BitLength(0);
      assert Pow2(1) == 2 * Pow2(0);
    }
  }

  lemma BitLengthAtLeast(q: nat, n: nat)
    requires q >= Pow2(n)
    ensures BitLength(q) > n
  {
    BitLengthIs(q);
    if BitLength(q) <= n {
      Pow2Monotone(BitLength(q), n);
    }
  }

  /** What is kept of q has at most 24 bits, and 24 if the result is normal. */
  lemma KeptBits(q: nat, e: int, t: nat)
    requires q > 0 && t == DroppedBits(q, e) && BitLength(q) > 24
    ensures t > 0 && t + e >= 0 && q / Pow2(t) < 2 * IMPLICIT_BIT
    ensures t + e > 0 ==> q / Pow2(t) >= IMPLICIT_BIT
  {
    var n: nat := BitLength(q);
    BitLengthIs(q);
    Powers23And24();
    Pow2Monotone(n, t + 24);
    Pow2Sum(t + 24, 24, t);
    QuotientBelow(q, Pow2(24), Pow2(t));
    if t + e > 0 {
      Pow2Sum(n - 1, 23, t);
      QuotientAbove(q, Pow2(23), Pow2(t));
    }
  }

  lemma Powers23And24()
    ensures Pow2(23) == IMPLICIT_BIT && Pow2(24) == 2 * IMPLICIT_BIT
  {
    Eight();
    PowerSum(3, 3, 8, 8);
    PowerSum(6, 6, 64, 64);
    PowerSum(12, 6, 0x1000, 64);
    PowerSum(18, 3, 0x4_0000, 8);
    assert Pow2(22) == 2 * Pow2(21);
    assert Pow2(23) == 2 * Pow2(22);
  }

  lemma QuotientBelow(q: nat, c: nat, p: nat)
    requires p > 0 && q < c * p
    ensures q / p < c
  {
    MulMonotone(0, q % p, 1);
    if q / p >= c {
      MulMonotone(c, q / p, p);
    }
  }

  lemma QuotientAbove(q: nat, c: nat, p: nat)
    requires p > 0 && c * p <= q
    ensures q / p >= c
  {
    if q / p < c {
      MulMonotone(q / p + 1, c, p);
      Distribute(q / p, 1, p);
    }
  }

  /** The magnitude with a midpoint between the values of M and M + 1 is M. */
  lemma MidpointBetween(m: nat, mm: nat)
    requires 2 * Ulps(mm) <= Midpoint2(m) < 2 * Ulps(mm + 1)
    ensures m == mm
  {
    if m < mm {
      UlpsMonotone(m, mm);
      UlpsMonotone(m + 1, mm);
    } else if m > mm {
      UlpsMonotone(mm + 1, m);
      UlpsMonotone(mm + 1, m + 1);
    }
  }

  /** q / p, scaled by k, lies between the scaled neighbours of its whole part. */
  lemma BetweenNeighbours(q: nat, p: nat, k: nat, t: nat)
    requires p > 0 && k > 0 && 2 * (q * k) == p * t
    ensures var c := q / p; 2 * (c * k) <= t < 2 * ((c + 1) * k)
    ensures t == (2 * (q / p) + 1) * k <==> 2 * (q % p) == p
  {
    var c, r := q / p, q % p;
    assert q == c * p + r;
    Distribute(c * p, r, k);
    MulSwap(c, p, k);
    // p * (t - 2 c k) == 2 r k
    var rest := t - 2 * (c * k);
    assert p * rest == 2 * (r * k) by {
      Distribute(t, 0 - 2 * (c * k), p);
      MulAssoc(2, c * k, p);
    }
    MulNatural(r, k);
    MulStrict(rest, 0, p);
    MulStrict(r, p, k);
    MulStrict(rest, 2 * k, p);
    MulAssoc(2, k, p);
    MulStrict(2 * r, p, k);
    MulAssoc(2, r, k);
    MulStrict(rest, k, p);
    Distribute(c, 1, k);
    Distribute(2 * c, 1, k);
    MulAssoc(2, c, k);
  }

  /** A magnitude below infinity has its midpoint below the value of infinity. */
  lemma TooLarge(q: nat, p: nat, k: nat, e: nat, m: nat)
    requires p > 0 && q / p >= IMPLICIT_BIT && m < INFINITY && e >= 254 && k == Pow2(e)
    ensures 2 * (q * k) != p * Midpoint2(m)
  {
    if 2 * (q * k) == p * Midpoint2(m) {
      BetweenNeighbours(q, p, k, Midpoint2(m));
      UlpsOf(255, IMPLICIT_BIT);
      UlpsMonotone(m + 1, INFINITY);
      UlpsMonotone(m, INFINITY);
      Pow2Monotone(254, e);
      MulMonotone(Pow2(254), k, IMPLICIT_BIT);
      MulMonotone(IMPLICIT_BIT, q / p, k);
    }
  }

  /** The bit test says exactly that the number lies halfway above an even magnitude. */
  lemma TieBitsAreHalfway(q: nat, e: int)
    requires q >= 0x80_0000_0000
    ensures TieBits(q, e) <==> HalfwayAboveEven(q, e)
  {
    Powers23And24();
    PowerSum(23, 16, 0x80_0000, 0x1_0000) by {
      Eight();
      PowerSum(3, 3, 8, 8);
      PowerSum(6, 6, 64, 64);
      PowerSum(12, 3, 0x1000, 8);
      assert Pow2(16) == 2 * Pow2(15);
    }
    BitLengthAtLeast(q, 39);
    var t: nat := DroppedBits(q, e);
    KeptBits(q, e, t);
    var c, p, k: nat := q / Pow2(t), Pow2(t), t + e;
    assert p == 2 * Pow2(t - 1);
    forall m: nat
      ensures 2 * q * Up(e) == Up(-e) * Midpoint2(m) <==> 2 * (q * Pow2(k)) == p * Midpoint2(m)
    {
      TieOver(q, e, t, Midpoint2(m));
    }
    if k <= 253 {
      TieAtScale(q, p, k, c);
    } else {
      forall m: nat | m < INFINITY
        ensures 2 * (q * Pow2(k)) != p * Midpoint2(m)
      {
        TooLarge(q, p, Pow2(k), k, m);
      }
    }
  }

  /** At a scale of finite results, the only candidate is the magnitude of the kept bits. */
  lemma TieAtScale(q: nat, p: nat, k: nat, c: nat)
    requires p > 0 && c == q / p && c < 2 * IMPLICIT_BIT && k <= 253 && (k > 0 ==> c >= IMPLICIT_BIT)
    ensures (exists m: nat :: m < INFINITY && m % 2 == 0 && 2 * (q * Pow2(k)) == p * Midpoint2(m))
            <==> 2 * (q % p) == p && c % 2 == 0
  {
    var mm: nat := Packed(k + 1, c);
    PackedRange(k + 1, c);
    PackedValues(k + 1, c);
    Distribute(c, c + 1, Pow2(k));
    forall m: nat | 2 * (q * Pow2(k)) == p * Midpoint2(m)
      ensures m == mm && 2 * (q % p) == p
    {
      BetweenNeighbours(q, p, Pow2(k), Midpoint2(m));
      MidpointBetween(m, mm);
    }
    if 2 * (q % p) == p {
      HalfOver(q, p, Pow2(k), c);
      assert 2 * (q * Pow2(k)) == p * Midpoint2(mm);
    }
  }

  lemma HalfOver(q: nat, p: nat, k: nat, c: nat)
    requires p > 0 && c == q / p && 2 * (q % p) == p
    ensures 2 * (q * k) == p * ((2 * c + 1) * k)
  {
    assert 2 * q == (2 * c + 1) * p;
    MulAssoc(2, q, k);
    MulSwap(2 * c + 1, p, k);
  }

  /** Which operands are misrounded can be read off one remainder and the bits of one quotient. */
  lemma MisroundedTest(a: uint32, b: uint32)
    requires IsFinite(a) && IsFinite(b) && !IsZero(a) && !IsZero(b)
    ensures Significand(a) > 0 && Significand(b) > 0 && Significand(a) < 0x100_0000
    ensures Misrounded(a, b)
            <==> !DividesExactly(a, b) && TieBits(TruncatedQuotient(a, b), QuotientExponent(a, b))
  {
    UlpsOfOperand(a);
    UlpsOfOperand(b);
    QuotientRange(a, b);
    TieBitsAreHalfway(TruncatedQuotient(a, b), QuotientExponent(a, b));
  }

  lemma QuotientCorrect(a: uint32, b: uint32)
    requires IsFinite(a) && IsFinite(b) && !IsZero(a) && !IsZero(b)
    ensures Significand(a) > 0 && Significand(b) > 0 && Significand(a) < 0x100_0000
    ensures
      var rounded := RoundScaled(TruncatedQuotient(a, b), QuotientExponent(a, b));
      Quotient(a, b) == Encode(ProductSign(a, b), rounded) <==> !Misrounded(a, b)
  {
    UlpsOfOperand(a);
    UlpsOfOperand(b);
    QuotientRange(a, b);
    var e := QuotientExponent(a, b);
    var k: nat := if e < 0 then -e else e;
    ExactQuotient(a, b, k, k + e);
    TruncationRounds(Widened(Significand(a)), OddPart(Significand(b)), e, k);
  }

  /** The quotient of zeros and infinities, which needs no rounding. */
  function SpecialQuotient(a: uint32, b: uint32): uint32 {
    if (IsInfinite(a) && IsInfinite(b)) || (IsZero(a) && IsZero(b)) then N_NAN
    else if SignOf(a) != SignOf(b) then (if IsInfinite(a) || IsZero(b) then N_INF else N_ZERO)
    else if IsInfinite(a) || IsZero(b) then P_INF else P_ZERO
  }

  lemma QuotientOfSpecial(a: uint32, b: uint32)
    requires !IsNaN(a) && !IsNaN(b) && SpecialOperand(a, b)
    ensures Quotient(a, b) == SpecialQuotient(a, b) && !Misrounded(a, b)
  {
    UlpsOfOperand(a);
    UlpsOfOperand(b);
    if IsZero(a) && IsFinite(b) && !IsZero(b) {
      UlpsPositive(Magnitude(b));
      assert Ulps(0) == 0;
      assert 0 * Pow2(UNIT) == 0;
      assert Ulps(Magnitude(b)) * Ulps(0) == 0;
      RoundOfMagnitude(0, Ulps(Magnitude(b)));
    }
  }

  lemma DivCorner(a: uint32, b: uint32, res: uint32)
    requires CornerRule(a, b, res) in CORNER_DIV
    ensures !IsNaN(a) && !IsNaN(b) && SpecialOperand(a, b) && res == SpecialQuotient(a, b)
  {
    SpecialEncodings(a);
    SpecialEncodings(b);
  }

  lemma DivTable(a: uint32, b: uint32)
    requires forall rule :: rule in CORNER_DIV ==> rule.a != a || rule.b != b
    ensures !(IsZero(a) && IsZero(b)) && !(IsInfinite(a) && IsInfinite(b))
  {
    SpecialEncodings(a);
    SpecialEncodings(b);
    assert CornerRule(P_ZERO, P_ZERO, N_NAN) in CORNER_DIV && CornerRule(N_ZERO, P_ZERO, N_NAN) in CORNER_DIV;
    assert CornerRule(P_ZERO, N_ZERO, N_NAN) in CORNER_DIV && CornerRule(N_ZERO, N_ZERO, N_NAN) in CORNER_DIV;
    assert CornerRule(P_INF, P_INF, N_NAN) in CORNER_DIV && CornerRule(N_INF, P_INF, N_NAN) in CORNER_DIV;
    assert CornerRule(P_INF, N_INF, N_NAN) in CORNER_DIV && CornerRule(N_INF, N_INF, N_NAN) in CORNER_DIV;
  }

  /** Behind the table the four comparisons find exactly the zeros and infinities, and no invalid pair of them. */
  lemma DivNoCorner(a: uint32, b: uint32)
    requires forall rule :: rule in CORNER_DIV ==> rule.a != a || rule.b != b
    ensures a == P_INF || a == N_INF <==> IsInfinite(a)
    ensures b == P_INF || b == N_INF <==> IsInfinite(b)
    ensures a == P_ZERO || a == N_ZERO <==> IsZero(a)
    ensures b == P_ZERO || b == N_ZERO <==> IsZero(b)
    ensures IsInfinite(a) || IsZero(b) ==> SpecialQuotient(a, b) == if SignOf(a) != SignOf(b) then N_INF else P_INF
    ensures !IsInfinite(a) && !IsZero(b) && (IsZero(a) || IsInfinite(b)) ==>
              SpecialQuotient(a, b) == if SignOf(a) != SignOf(b) then N_ZERO else P_ZERO
  {
    DivTable(a, b);
    SpecialEncodings(a);
    SpecialEncodings(b);
  }

  /** The table of internal_float_div, and what its early returns rely on if it has no rule. */
  method DivTableSearch(b: uint32, a: uint32) returns (hit: bool, r: uint32)
    ensures hit ==> !IsNaN(a) && !IsNaN(b) && SpecialOperand(a, b) && r == SpecialQuotient(a, b)
    ensures a == P_INF || a == N_INF <==> IsInfinite(a)
    ensures b == P_INF || b == N_INF <==> IsInfinite(b)
    ensures a == P_ZERO || a == N_ZERO <==> IsZero(a)
    ensures b == P_ZERO || b == N_ZERO <==> IsZero(b)
    ensures !hit && (IsInfinite(a) || IsZero(b)) ==>
              SpecialQuotient(a, b) == if SignOf(a) != SignOf(b) then N_INF else P_INF
    ensures !hit && !IsInfinite(a) && !IsZero(b) && (IsZero(a) || IsInfinite(b)) ==>
              SpecialQuotient(a, b) == if SignOf(a) != SignOf(b) then N_ZERO else P_ZERO
  {
    SpecialEncodings(a);
    SpecialEncodings(b);
    hit, r := FindCorner(CORNER_DIV, a, b);
    if hit {
      DivCorner(a, b, r);
    } else {
      DivNoCorner(a, b);
    }
  }

  /** The table and the early returns of internal_float_div. */
  method DivSpecial(b: uint32, a: uint32) returns (done: bool, r: uint32)
    ensures done && !IsNaN(a) && !IsNaN(b) ==> SpecialOperand(a, b) && r == SpecialQuotient(a, b)
    ensures done && (CanonicalNaN(a) || CanonicalNaN(b)) ==> IsNaN(r)
    ensures !done ==> !SpecialOperand(a, b) && !CanonicalNaN(a) && !CanonicalNaN(b)
  {
    done, r := DivTableSearch(b, a);
    if done {
      return;
    }
    done := true;
    if a == P_NAN || a == N_NAN || b == P_NAN || b == N_NAN {
      r := if a == P_NAN || b == P_NAN then P_NAN else N_NAN;
    } else if a == P_INF || a == N_INF {
      r := if SignOf(a) != SignOf(b) then N_INF else P_INF;
    } else if b == P_ZERO || b == N_ZERO {
      r := if SignOf(a) != SignOf(b) then N_INF else P_INF;
    } else if a == P_ZERO || a == N_ZERO {
      r := if SignOf(a) != SignOf(b) then N_ZERO else P_ZERO;
    } else if b == P_INF || b == N_INF {
      r := if SignOf(a) != SignOf(b) then N_ZERO else P_ZERO;
    } else {
      done, r := false, 0;
    }
  }

  /** What internal_float_div returns: for numbers the rounding of the truncated quotient. */
  ghost function Divided(a: uint32, b: uint32): uint32
    requires !IsNaN(a) && !IsNaN(b)
  {
    if Misrounded(a, b) then Encode(ProductSign(a, b), RoundScaled(TruncatedQuotient(a, b), QuotientExponent(a, b)))
    else Quotient(a, b)
  }

  lemma DividedIsQuotient(a: uint32, b: uint32)
    requires !IsNaN(a) && !IsNaN(b)
    ensures Divided(a, b) == Quotient(a, b) <==> !Misrounded(a, b)
    ensures SpecialOperand(a, b) ==> Divided(a, b) == SpecialQuotient(a, b)
    ensures !SpecialOperand(a, b) ==>
              && Significand(a) > 0 && Significand(b) > 0 && Significand(a) < 0x100_0000
              && Divided(a, b)
                 == Encode(ProductSign(a, b), RoundScaled(TruncatedQuotient(a, b), QuotientExponent(a, b)))
  {
    if SpecialOperand(a, b) {
      QuotientOfSpecial(a, b);
    } else {
      QuotientCorrect(a, b);
    }
  }

  lemma DividedSigned(a: uint32, b: uint32)
    requires !IsNaN(a) && !IsNaN(b)
    ensures !IsNaN(Divided(a, b)) ==> (Negative(Divided(a, b)) <==> Negative(a) != Negative(b))
    ensures !IsZero(a) && !IsZero(b) && !(IsInfinite(a) && IsInfinite(b)) ==>
              !IsNaN(Divided(a, b)) && (Negative(Divided(a, b)) <==> Value(a) * Value(b) < 0)
  {
    QuotientSigned(a, b);
    SignsMultiply(a, b);
    if Misrounded(a, b) {
      ProductEncoded(a, b, RoundScaled(TruncatedQuotient(a, b), QuotientExponent(a, b)));
    }
  }

  /** internal_float_div. */
  method FloatDiv(b: uint32, a: uint32) returns (r: uint32)
    ensures !IsNaN(a) && !IsNaN(b) ==> r == Divided(a, b) && (r == Quotient(a, b) <==> !Misrounded(a, b))
    ensures !IsNaN(a) && !IsNaN(b) && !IsNaN(r) ==> (Negative(r) <==> Negative(a) != Negative(b))
    ensures CanonicalNaN(a) || CanonicalNaN(b) ==> IsNaN(r)
  {
    if !IsNaN(a) && !IsNaN(b) {
      DividedIsQuotient(a, b);
      DividedSigned(a, b);
    }
    var done;
    done, r := DivSpecial(b, a);
    if !done {
      r := DivSignificands(b, a);
    }
  }
}
