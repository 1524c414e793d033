/**
 The binary32 interchange format and roundTiesToEven (IEEE 754-2008, sections 3.4 and 4.3.1),
 stated over the integers.  A magnitude is the low 31 bits of an encoding; its value is counted in
 units of 2^-149, the least denormal.  Infinity is given the value 2^128 that an unbounded exponent
 range would put there, so that rounding to the nearest magnitude also decides overflow.
 */
module Binary32 {
  import opened PowersOfTwo
  import opened Words


  const SIGN_BIT := 0x8000_0000
  const IMPLICIT_BIT := 0x80_0000
  const INFINITY := 0x7f80_0000

  /** The least denormal is 2^-UNIT. */
  const UNIT: int := 149

  function Magnitude(v: uint32): nat {
    v % SIGN_BIT
  }

  predicate Negative(v: uint32) {
    v >= SIGN_BIT
  }

  function SignOf(v: uint32): nat {
    v / SIGN_BIT
  }

  function ExponentField(v: uint32): nat {
    v / IMPLICIT_BIT % 0x100
  }

  function FractionField(v: uint32): nat {
    v % IMPLICIT_BIT
  }

  predicate IsFinite(v: uint32) {
    Magnitude(v) < INFINITY
  }

  predicate IsInfinite(v: uint32) {
    Magnitude(v) == INFINITY
  }

  predicate IsNaN(v: uint32) {
    Magnitude(v) > INFINITY
  }

  predicate IsZero(v: uint32) {
    Magnitude(v) == 0
  }

  function FlipSign(v: uint32): uint32 {
    if v >= SIGN_BIT then v - SIGN_BIT else v + SIGN_BIT
  }

  /**
   The value of a magnitude in units of 2^-149.  Denormals and the first binade of normal numbers
   count the units; every further binade doubles the one below it.  UlpsOfFields gives the closed
   form in the exponent and the fraction.
   */
  function Ulps(m: nat): (u: nat)
    ensures u > 0 <==> m > 0
  {
    if m < 2 * IMPLICIT_BIT then m else 2 * Ulps(m - IMPLICIT_BIT)
  }

  /** Twice the midpoint between two consecutive magnitudes. */
  function Midpoint2(m: nat): nat {
    Ulps(m) + Ulps(m + 1)
  }

  function Distance(n: nat, d: nat, m: nat): nat {
    var gap := n - d * Ulps(m);
    if gap >= 0 then gap else -gap
  }

  /** m is the magnitude nearest to n/d, and in a tie the one whose last bit is 0. */
  ghost predicate IsNearestEven(n: nat, d: nat, m: nat) {
    && m <= INFINITY
    && forall k: nat :: k <= INFINITY && k != m ==>
                          || Distance(n, d, m) < Distance(n, d, k)
                          || (Distance(n, d, m) == Distance(n, d, k) && m % 2 == 0)
  }

  // The local form: n/d lies between the midpoints on both sides of m.

  ghost predicate AboveMidpoint(n: nat, d: nat, m: nat) {
    m > 0 ==> 2 * n > d * Midpoint2(m - 1) || (2 * n == d * Midpoint2(m - 1) && m % 2 == 0)
  }

  ghost predicate BelowMidpoint(n: nat, d: nat, m: nat) {
    m < INFINITY ==> 2 * n < d * Midpoint2(m) || (2 * n == d * Midpoint2(m) && m % 2 == 0)
  }

  ghost predicate Brackets(n: nat, d: nat, m: nat) {
    m <= INFINITY && AboveMidpoint(n, d, m) && BelowMidpoint(n, d, m)
  }

  /* ---- the scale of magnitudes ---- */

  /** Magnitude (e - 1) * 2^23 + k has the value k * 2^(e-1), for denormals (e = 1) and for normals. */
  lemma {:induction false} UlpsOf(e: nat, k: nat)
    requires e >= 1
    requires k <= 2 * IMPLICIT_BIT
    requires e == 1 || k >= IMPLICIT_BIT
    ensures Ulps((e - 1) * IMPLICIT_BIT + k) == k * Pow2(e - 1)
    decreases e
  {
    if e == 1 {
      if k == 2 * IMPLICIT_BIT {
        assert Ulps(IMPLICIT_BIT) == IMPLICIT_BIT;
      }
    } else {
      UlpsOf(e - 1, k);
      var below: nat := (e - 2) * IMPLICIT_BIT + k;
      TwiceProduct(k, Pow2(e - 2));
      assert below >= IMPLICIT_BIT;
      assert Ulps(below + IMPLICIT_BIT) == 2 * Ulps(below);
    }
  }

  /** The value of an encoding in the terms of section 3.4: 2^(1-150) F, or 2^(E-150) (2^23 + F). */
  lemma UlpsOfFields(m: nat)
    ensures var exponent, fraction := m / IMPLICIT_BIT, m % IMPLICIT_BIT;
            Ulps(m) == if exponent == 0 then fraction else (IMPLICIT_BIT + fraction) * Pow2(exponent - 1)
  {
    var e := m / IMPLICIT_BIT;
    if e > 0 {
      UlpsOf(e, IMPLICIT_BIT + m % IMPLICIT_BIT);
    }
  }

  lemma {:induction false} UlpsStep(m: nat)
    ensures Ulps(m) < Ulps(m + 1)
  {
    if m >= 2 * IMPLICIT_BIT {
      UlpsStep(m - IMPLICIT_BIT);
    }
  }

  lemma {:induction false} UlpsMonotone(a: nat, b: nat)
    requires a <= b
    ensures Ulps(a) <= Ulps(b)
    ensures a < b ==> Ulps(a) < Ulps(b)
    decreases b - a
  {
    if a < b {
      UlpsMonotone(a, b - 1);
      UlpsStep(b - 1);
    }
  }

  lemma Midpoint2Monotone(a: nat, b: nat)
    requires a <= b
    ensures Midpoint2(a) <= Midpoint2(b)
    ensures a < b ==> Midpoint2(a) < Midpoint2(b)
  {
    UlpsMonotone(a, b);
    UlpsMonotone(a + 1, b + 1);
  }

  /** From magnitude (k + 1) * 2^23 on, every value is a multiple of 2^k. */
  lemma {:induction false} UlpsDivisible(m: nat, k: nat) returns (q: nat)
    requires m >= (k + 1) * IMPLICIT_BIT
    ensures Ulps(m) == q * Pow2(k)
    decreases k
  {
    if k == 0 {
      q := Ulps(m);
    } else {
      q := UlpsDivisible(m - IMPLICIT_BIT, k - 1);
      TwiceProduct(q, Pow2(k - 1));
    }
  }

  lemma LargeMidpoint(m: nat, k: nat)
    requires Midpoint2(m) > 2 * IMPLICIT_BIT * Pow2(k)
    ensures m >= (k + 1) * IMPLICIT_BIT
  {
    var first := (k + 1) * IMPLICIT_BIT;
    UlpsOf(k + 1, IMPLICIT_BIT);
    assert Ulps(first) == IMPLICIT_BIT * Pow2(k);
    if m < first {
      UlpsMonotone(m + 1, first);
      UlpsStep(m);
    }
  }

  /** A midpoint above 2^(k+23) is, doubled, a multiple of 2^k. */
  lemma MidpointDivisible(m: nat, k: nat) returns (q: nat)
    requires Midpoint2(m) > 2 * IMPLICIT_BIT * Pow2(k)
    ensures Midpoint2(m) == q * Pow2(k)
  {
    LargeMidpoint(m, k);
    var q0 := UlpsDivisible(m, k);
    var q1 := UlpsDivisible(m + 1, k);
    q := q0 + q1;
    Distribute(q0, q1, Pow2(k));
  }

  /* ---- rounding is well defined ---- */

  lemma BracketsIsNearest(n: nat, d: nat, m: nat)
    requires d > 0 && Brackets(n, d, m)
    ensures IsNearestEven(n, d, m)
  {
    forall k: nat | k <= INFINITY && k != m
      ensures Distance(n, d, m) < Distance(n, d, k)
              || (Distance(n, d, m) == Distance(n, d, k) && m % 2 == 0)
    {
      if k < m {
        UlpsMonotone(k, m - 1);
        UlpsStep(m - 1);
        BelowNeighbour(n, d, Ulps(k), Ulps(m - 1), Ulps(m));
      } else {
        UlpsMonotone(m + 1, k);
        UlpsStep(m);
        AboveNeighbour(n, d, Ulps(m), Ulps(m + 1), Ulps(k));
      }
    }
  }

  lemma BelowNeighbour(n: nat, d: nat, far: nat, near: nat, here: nat)
    requires d > 0 && far <= near < here
    ensures d * far <= d * near < d * here
    ensures d * (near + here) == d * near + d * here
  {
    MulMonotone(far, near, d);
    MulStrict(near, here, d);
  }

  lemma AboveNeighbour(n: nat, d: nat, here: nat, near: nat, far: nat)
    requires d > 0 && here < near <= far
    ensures d * here < d * near <= d * far
    ensures d * (here + near) == d * here + d * near
  {
    MulMonotone(near, far, d);
    MulStrict(here, near, d);
  }

  lemma NearestIsBrackets(n: nat, d: nat, m: nat)
    requires d > 0 && IsNearestEven(n, d, m)
    ensures Brackets(n, d, m)
  {
    if m > 0 {
      UlpsStep(m - 1);
      BelowNeighbour(n, d, Ulps(m - 1), Ulps(m - 1), Ulps(m));
      assert Distance(n, d, m) <= Distance(n, d, m - 1);
    }
    if m < INFINITY {
      UlpsStep(m);
      AboveNeighbour(n, d, Ulps(m), Ulps(m + 1), Ulps(m + 1));
      assert Distance(n, d, m) <= Distance(n, d, m + 1);
    }
  }

  /** Rounding never reverses an order; with equal arguments this is uniqueness. */
  lemma BracketsMonotone(n1: nat, n2: nat, d: nat, m1: nat, m2: nat)
    requires d > 0 && n1 <= n2
    requires Brackets(n1, d, m1) && Brackets(n2, d, m2)
    ensures m1 <= m2
  {
    if m1 > 0 && m2 < INFINITY {
      if m2 <= m1 - 1 {
        RisingMidpoints(d, m2, m1 - 1);
      }
      NoCrossing(n1, n2, d * Midpoint2(m2), d * Midpoint2(m1 - 1), m1, m2);
    }
  }

  lemma NoCrossing(n1: nat, n2: nat, above2: nat, below1: nat, m1: nat, m2: nat)
    requires n1 <= n2
    requires m2 < m1 ==> above2 <= below1 && (m2 < m1 - 1 ==> above2 < below1)
    requires 2 * n1 > below1 || (2 * n1 == below1 && m1 % 2 == 0)
    requires 2 * n2 < above2 || (2 * n2 == above2 && m2 % 2 == 0)
    ensures m1 <= m2
  {
  }

  lemma RisingMidpoints(d: nat, a: nat, b: nat)
    requires d > 0 && a <= b
    ensures d * Midpoint2(a) <= d * Midpoint2(b)
    ensures a < b ==> d * Midpoint2(a) < d * Midpoint2(b)
  {
    Midpoint2Monotone(a, b);
    MulStrict(Midpoint2(a), Midpoint2(b), d);
  }

  lemma {:induction false} FindBracket(n: nat, d: nat, from: nat) returns (m: nat)
    requires d > 0 && from <= INFINITY
    requires AboveMidpoint(n, d, from)
    ensures Brackets(n, d, m)
    decreases INFINITY - from
  {
    if BelowMidpoint(n, d, from) {
      m := from;
    } else {
      m := FindBracket(n, d, from + 1);
    }
  }

  /** The magnitude nearest to n/d, ties to even. */
  ghost function Round(n: nat, d: nat): (m: nat)
    requires d > 0
    ensures m <= INFINITY && IsNearestEven(n, d, m)
  {
    assert exists m: nat :: IsNearestEven(n, d, m) by {
      var m := FindBracket(n, d, 0);
      BracketsIsNearest(n, d, m);
    }
    var m: nat :| IsNearestEven(n, d, m);
    m
  }

  lemma RoundBrackets(n: nat, d: nat)
    requires d > 0
    ensures Brackets(n, d, Round(n, d))
  {
    NearestIsBrackets(n, d, Round(n, d));
  }

  lemma RoundIs(n: nat, d: nat, m: nat)
    requires d > 0 && Brackets(n, d, m)
    ensures Round(n, d) == m
  {
    RoundBrackets(n, d);
    BracketsMonotone(n, n, d, m, Round(n, d));
    BracketsMonotone(n, n, d, Round(n, d), m);
  }

  lemma RoundMonotone(n1: nat, n2: nat, d: nat)
    requires d > 0 && n1 <= n2
    ensures Round(n1, d) <= Round(n2, d)
  {
    RoundBrackets(n1, d);
    RoundBrackets(n2, d);
    BracketsMonotone(n1, n2, d, Round(n1, d), Round(n2, d));
  }

  lemma RoundOfMagnitude(m: nat, d: nat)
    requires d > 0 && m <= INFINITY
    ensures Round(d * Ulps(m), d) == m
  {
    var n := d * Ulps(m);
    if m > 0 {
      UlpsStep(m - 1);
      BelowNeighbour(n, d, Ulps(m - 1), Ulps(m - 1), Ulps(m));
    }
    if m < INFINITY {
      UlpsStep(m);
      AboveNeighbour(n, d, Ulps(m), Ulps(m + 1), Ulps(m + 1));
    }
    RoundIs(n, d, m);
  }

  /** n/d and n'/d' lie on the same side of the value t/2. */
  ghost predicate SameSide(n: nat, d: nat, n': nat, d': nat, t: nat) {
    && (2 * n < d * t <==> 2 * n' < d' * t)
    && (2 * n == d * t <==> 2 * n' == d' * t)
  }

  /** Two numbers that no midpoint tells apart round alike. */
  lemma SameSideSameRound(n: nat, d: nat, n': nat, d': nat)
    requires d > 0 && d' > 0
    requires forall m: nat :: m < INFINITY ==> SameSide(n, d, n', d', Midpoint2(m))
    ensures Round(n, d) == Round(n', d')
  {
    var m := Round(n, d);
    RoundBrackets(n, d);
    if m > 0 {
      assert SameSide(n, d, n', d', Midpoint2(m - 1));
    }
    if m < INFINITY {
      assert SameSide(n, d, n', d', Midpoint2(m));
    }
    RoundIs(n', d', m);
  }

  lemma CancelSide(n: nat, d: nat, c: nat, t: nat)
    requires c > 0
    ensures SameSide(n * c, d * c, n, d, t)
  {
    MulStrict(2 * n, d * t, c);
    MulAssoc(2, n, c);
    MulSwap(d, c, t);
  }

  lemma RoundCancel(n: nat, d: nat, c: nat)
    requires d > 0 && c > 0
    ensures d * c > 0
    ensures Round(n * c, d * c) == Round(n, d)
  {
    MulPositive(d, c);
    forall m: nat | m < INFINITY
      ensures SameSide(n * c, d * c, n, d, Midpoint2(m))
    {
      CancelSide(n, d, c, Midpoint2(m));
    }
    SameSideSameRound(n * c, d * c, n, d);
  }

  /* ---- scaled integers ---- */

  function Up(e: int): (r: nat)
    ensures r > 0
  {
    if e <= 0 then 1 else Pow2(e)
  }

  /** The magnitude nearest to x * 2^e units, for an exponent of either sign. */
  ghost function RoundScaled(x: nat, e: int): (m: nat)
    ensures m <= INFINITY
  {
    Round(x * Up(e), Up(-e))
  }

  /** The same rounding over any common denominator 2^k that clears the exponent. */
  lemma RoundScaledOver(x: nat, e: int, k: nat)
    requires k + e >= 0
    ensures RoundScaled(x, e) == Round(x * Pow2(k + e), Pow2(k))
  {
    if e >= 0 {
      Pow2Sum(k + e, e, k);
      RoundCancel(x * Pow2(e), 1, Pow2(k));
      MulAssoc(x, Pow2(e), Pow2(k));
    } else {
      Pow2Sum(k, -e, k + e);
      RoundCancel(x, Pow2(-e), Pow2(k + e));
    }
  }

  lemma RoundScaledShift(x: nat, e: int, j: nat)
    ensures RoundScaled(x * Pow2(j), e - j) == RoundScaled(x, e)
  {
    var k: nat := j + (if e < 0 then -e else 0);
    RoundScaledOver(x, e, k);
    RoundScaledOver(x * Pow2(j), e - j, k);
    var rest: nat := k + e - j;
    Pow2Add(j, rest);
    assert k + (e - j) == rest && j + rest == k + e;
    MulAssoc(x, Pow2(j), Pow2(rest));
  }

  /* ---- sticky (jammed) right shifts ---- */

  /** y stands for x / 2^d: either exactly, or as the odd integer next to it. */
  ghost predicate Jams(x: int, d: nat, y: int) {
    || x == y * Pow2(d)
    || (y % 2 == 1 && (y - 1) * Pow2(d) < x < (y + 1) * Pow2(d))
  }

  /** One iteration of `sticky |= s & 1; s >>= 1; s |= sticky`. */
  function StickyShift(s: nat): nat {
    if s % 2 == 1 && s / 2 % 2 == 0 then s / 2 + 1 else s / 2
  }

  lemma JamStep(x: int, d: nat, s: nat)
    requires Jams(x, d, s)
    ensures Jams(x, d + 1, StickyShift(s))
  {
    var y, p := StickyShift(s), Pow2(d);
    assert Pow2(d + 1) == 2 * p;
    MulAssoc(y, 2, p);
    MulAssoc(y - 1, 2, p);
    MulAssoc(y + 1, 2, p);
    if s % 2 == 0 {
      assert s == y * 2;
    } else {
      assert y % 2 == 1;
      assert (y - 1) * 2 <= s - 1 && s + 1 <= (y + 1) * 2;
      MulMonotoneInt((y - 1) * 2, s - 1, p);
      MulMonotoneInt(s + 1, (y + 1) * 2, p);
      assert (s - 1) * p == s * p - p && (s + 1) * p == s * p + p;
    }
  }

  /**
   Rounding a jammed significand gives what rounding the exact one gives, as long as at least two
   bits lie below the rounding position: either the significand has 26 bits or more, or its scale
   is at most a quarter of the least denormal.
   */
  lemma JamRound(x: nat, d: nat, y: nat, e: int)
    requires Jams(x, d, y)
    requires x == y * Pow2(d) || y >= 0x200_0000 || e <= -2
    ensures RoundScaled(x, e - d) == RoundScaled(y, e)
  {
    if x == y * Pow2(d) {
      RoundScaledShift(y, e, d);
    } else {
      var k: nat := d + (if e < 0 then -e else e);
      var rest: nat := k + e - d;
      Pow2Add(d, rest);
      assert d + rest == k + e && k + (e - d) == rest;
      RoundScaledOver(x, e - d, k);
      RoundScaledOver(y, e, k);
      JamSameRound(x, d, y, e, k);
    }
  }

  lemma JamSameRound(x: nat, d: nat, y: nat, e: int, k: nat)
    requires Jams(x, d, y) && x != y * Pow2(d)
    requires y >= 0x200_0000 || e <= -2
    requires k + e - d >= 0
    ensures Round(x * Pow2(k + e - d), Pow2(k)) == Round(y * Pow2(k + e), Pow2(k))
  {
    forall m: nat | m < INFINITY
      ensures SameSide(x * Pow2(k + e - d), Pow2(k), y * Pow2(k + e), Pow2(k), Midpoint2(m))
    {
      JamSameSide(x, d, y, e, k, m);
    }
    SameSideSameRound(x * Pow2(k + e - d), Pow2(k), y * Pow2(k + e), Pow2(k));
  }

  lemma JamSameSide(x: nat, d: nat, y: nat, e: int, k: nat, m: nat)
    requires Jams(x, d, y) && x != y * Pow2(d)
    requires y >= 0x200_0000 || e <= -2
    requires k + e - d >= 0
    ensures SameSide(x * Pow2(k + e - d), Pow2(k), y * Pow2(k + e), Pow2(k), Midpoint2(m))
  {
    var p, q := Pow2(k + e - d), Pow2(d);
    Pow2Add(d, k + e - d);
    assert d + (k + e - d) == k + e;
    var far, j := MidpointInUnits(m, e, k);
    if far {
      JamCompareSmall(x, q, y, p, Pow2(k + e));
    } else {
      JamCompare(x, q, y, j, p, Pow2(k + e));
    }
  }

  /** In units of 2^e every midpoint is an even integer, unless it is below 2^25 and e above -2. */
  lemma MidpointInUnits(m: nat, e: int, k: nat) returns (far: bool, j: nat)
    requires k + e >= 0
    ensures !far ==> Pow2(k) * Midpoint2(m) == 2 * (2 * j * Pow2(k + e))
    ensures far ==> e > -2 && Pow2(k) * Midpoint2(m) <= 0x400_0000 * Pow2(k + e)
  {
    var t, unit := Midpoint2(m), Pow2(k + e);
    assert Pow2(k + e + 2) == 4 * unit by {
      assert Pow2(k + e + 1) == 2 * unit;
    }
    if e <= -2 {
      Pow2Add(k + e + 2, -e - 2);
      assert (k + e + 2) + (-e - 2) == k;
      far, j := false, Pow2(-e - 2) * t;
      MulAssoc(4 * unit, Pow2(-e - 2), t);
      FourUnits(j, unit);
    } else {
      Pow2Add(k, e + 2);
      assert k + (e + 2) == k + e + 2;
      far, j := MidpointMultiple(t, m, e + 2, Pow2(k), unit);
    }
  }

  lemma MidpointMultiple(t: nat, m: nat, k: nat, scale: nat, unit: nat) returns (far: bool, j: nat)
    requires t == Midpoint2(m) && scale * Pow2(k) == 4 * unit
    ensures !far ==> scale * t == 2 * (2 * j * unit)
    ensures far ==> scale * t <= 0x400_0000 * unit
  {
    var p := Pow2(k);
    if t > 0x100_0000 * p {
      j := MidpointDivisible(m, k);
      far := false;
      MulAssoc(j, p, scale);
      FourUnits(j, unit);
    } else {
      far, j := true, 0;
      MulMonotoneInt(t, 0x100_0000 * p, scale);
      MulAssoc(0x100_0000, p, scale);
    }
  }

  lemma FourUnits(j: int, unit: int)
    ensures 4 * unit * j == j * (4 * unit) == 2 * (2 * j * unit)
  {
  }

  lemma JamCompare(x: nat, q: nat, y: nat, j: int, p: nat, unit: nat)
    requires p > 0 && q > 0 && unit == q * p
    requires y % 2 == 1 && (y - 1) * q < x < (y + 1) * q
    ensures x * p < 2 * j * unit <==> y * unit < 2 * j * unit
    ensures x * p != 2 * j * unit && y * unit != 2 * j * unit
  {
    var even := 2 * j;
    assert y != even;
    JamCompareAny(x, q, y, even, p, unit);
  }

  lemma JamCompareAny(x: nat, q: nat, y: nat, z: int, p: nat, unit: nat)
    requires p > 0 && q > 0 && unit == q * p
    requires y != z && (y - 1) * q < x < (y + 1) * q
    ensures x * p < z * unit <==> y * unit < z * unit
    ensures x * p != z * unit && y * unit != z * unit
  {
    MulAssoc(z, q, p);
    MulStrict(0, q, p);
    MulStrict(y, z, unit);
    if y < z {
      MulMonotoneInt(y + 1, z, q);
      MulStrict(x, z * q, p);
    } else {
      MulMonotoneInt(z, y - 1, q);
      MulStrict(z * q, x, p);
    }
  }

  lemma JamCompareSmall(x: nat, q: nat, y: nat, p: nat, unit: nat)
    requires p > 0 && q > 0 && unit == q * p
    requires y % 2 == 1 && (y - 1) * q < x && y >= 0x200_0000
    ensures 2 * (x * p) > 0x400_0000 * unit && 2 * (y * unit) > 0x400_0000 * unit
  {
    MulMonotoneInt(0x200_0000, y - 1, q);
    MulStrict(0x200_0000 * q, x, p);
    MulAssoc(0x200_0000, q, p);
    MulStrict(0, q, p);
    MulStrict(0x200_0000, y, unit);
  }

  /* ---- rounding at a known position ---- */

  lemma MidpointProduct(d: nat, m: nat)
    requires d > 0
    ensures d * Midpoint2(m) == d * Ulps(m) + d * Ulps(m + 1)
    ensures d * Ulps(m) < d * Ulps(m + 1)
  {
    UlpsStep(m);
    BelowNeighbour(0, d, Ulps(m), Ulps(m), Ulps(m + 1));
  }

  /** Between two consecutive magnitudes the midpoint decides. */
  lemma RoundBetween(n: nat, d: nat, m: nat)
    requires d > 0 && m < INFINITY
    requires d * Ulps(m) <= n < d * Ulps(m + 1)
    ensures Round(n, d) == if 2 * n < d * Midpoint2(m) || (2 * n == d * Midpoint2(m) && m % 2 == 0) then m else m + 1
  {
    AtLeastMagnitude(n, d, m);
    BelowMagnitude(n, d, m + 1);
    if BelowMidpoint(n, d, m) {
      RoundIs(n, d, m);
    } else {
      assert AboveMidpoint(n, d, m + 1);
      RoundIs(n, d, m + 1);
    }
  }

  lemma AtLeastMagnitude(n: nat, d: nat, m: nat)
    requires d > 0 && d * Ulps(m) <= n
    ensures AboveMidpoint(n, d, m)
  {
    if m > 0 {
      MidpointProduct(d, m - 1);
    }
  }

  lemma BelowMagnitude(n: nat, d: nat, m: nat)
    requires d > 0 && n < d * Ulps(m)
    ensures BelowMidpoint(n, d, m)
  {
    MidpointProduct(d, m);
  }

  /** The magnitude that the exponent e (at least 1) and the 24-bit significand k are packed into. */
  function Packed(e: int, k: int): int {
    (e - 1) * IMPLICIT_BIT + k
  }

  lemma PackedRange(e: nat, k: nat)
    requires 1 <= e <= 254 && k < 2 * IMPLICIT_BIT
    ensures 0 <= Packed(e, k) < INFINITY && Packed(e, k) % 2 == k % 2
  {
  }

  lemma PackedValues(e: nat, k: nat)
    requires 1 <= e <= 254 && k < 2 * IMPLICIT_BIT
    requires e == 1 || k >= IMPLICIT_BIT
    ensures Packed(e, k) >= 0
    ensures Ulps(Packed(e, k)) == k * Pow2(e - 1)
    ensures Ulps(Packed(e, k) + 1) == (k + 1) * Pow2(e - 1)
  {
    UlpsOf(e, k);
    UlpsOf(e, k + 1);
    assert (e - 1) * IMPLICIT_BIT + (k + 1) == Packed(e, k) + 1;
  }

  lemma Eight()
    ensures Pow2(3) == 8
  {
    assert Pow2(1) == 2 && Pow2(2) == 4;
  }

  /** Guard, round and sticky bits decide the rounding of a normalised 27-bit significand. */
  lemma RoundGrs(sig: nat, e: nat)
    requires 1 <= e <= 254 && sig < 0x800_0000
    requires e == 1 || sig >= 0x400_0000
    ensures RoundScaled(sig, e - 4) ==
            Packed(e, sig / 8) + if sig % 8 < 4 || (sig % 8 == 4 && sig / 8 % 2 == 0) then 0 else 1
  {
    Eight();
    RoundScaledOver(sig, e - 4, 3);
    assert 3 + (e - 4) == e - 1;
    PackedRange(e, sig / 8);
    PackedValues(e, sig / 8);
    RoundGrsAt(sig, Packed(e, sig / 8), Pow2(e - 1));
  }

  lemma RoundGrsAt(sig: nat, m: nat, p: nat)
    requires p > 0 && m < INFINITY && m % 2 == sig / 8 % 2
    requires Ulps(m) == sig / 8 * p && Ulps(m + 1) == (sig / 8 + 1) * p
    ensures Round(sig * p, 8) == m + if sig % 8 < 4 || (sig % 8 == 4 && sig / 8 % 2 == 0) then 0 else 1
  {
    GrsProducts(sig, sig / 8, p, Ulps(m), Ulps(m + 1));
    RoundBetween(sig * p, 8, m);
  }

  lemma GrsProducts(sig: nat, k: nat, p: nat, here: nat, next: nat)
    requires p > 0 && k == sig / 8 && here == k * p && next == (k + 1) * p
    ensures 8 * here <= sig * p < 8 * next
    ensures 2 * (sig * p) < 8 * (here + next) <==> sig % 8 < 4
    ensures 2 * (sig * p) == 8 * (here + next) <==> sig % 8 == 4
  {
    assert next == here + p;
    assert sig * p == 8 * here + (sig % 8) * p by {
      assert sig == 8 * k + sig % 8;
    }
    MulStrict(sig % 8, 4, p);
    MulStrict(sig % 8, 8, p);
  }

  /** A significand without guard, round and sticky bits is a magnitude already. */
  lemma RoundPacked(k: nat, e: nat)
    requires 1 <= e <= 254 && k <= 2 * IMPLICIT_BIT
    requires e == 1 || k >= IMPLICIT_BIT
    ensures RoundScaled(8 * k, e - 4) == Packed(e, k)
  {
    Eight();
    RoundScaledOver(8 * k, e - 4, 3);
    assert 3 + (e - 4) == e - 1;
    UlpsOf(e, k);
    MulAssoc(8, k, Pow2(e - 1));
    RoundOfMagnitude(Packed(e, k), 8);
  }

  lemma RoundOverflow(sig: nat, e: int)
    requires sig >= 0x400_0000 && e >= 251
    ensures RoundScaled(sig, e) == INFINITY
  {
    var top: nat := 255;
    Eight();
    RoundScaledOver(sig, e, 3);
    var p := Pow2(top - 1);
    UlpsOf(top, IMPLICIT_BIT);
    assert (top - 1) * IMPLICIT_BIT + IMPLICIT_BIT == INFINITY;
    UlpsStep(INFINITY - 1);
    Pow2Monotone(top - 1, 3 + e);
    MulMonotoneInt(0x400_0000, sig, p);
    assert sig * p <= sig * Pow2(3 + e) by { MulMonotoneInt(p, Pow2(3 + e), sig); }
    RoundIs(sig * Pow2(3 + e), 8, INFINITY);
  }

  lemma RoundUnderflow(sig: nat, e: int)
    requires sig <= 4 && e <= -4
    ensures RoundScaled(sig, e) == 0
  {
    RoundScaledOver(sig, e, -e);
    assert Pow2(4) == 16 by { assert Pow2(1) == 2 && Pow2(2) == 4 && Pow2(3) == 8; }
    Pow2Monotone(4, -e);
    assert Midpoint2(0) == 1;
    RoundIs(sig, Pow2(-e), 0);
  }
}
