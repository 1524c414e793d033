/** Laws that the correctly rounded operations obey on every operand. */
module FpuLaws {
  import opened PowersOfTwo
  import opened Words
  import opened Binary32
  import opened Ieee754
  import opened FpuNormalize
  import opened Fpu
  import opened FpuDivide

  lemma ExactProductCommutes(a: uint32, b: uint32)
    ensures ExactProduct(a, b) == ExactProduct(b, a)
    ensures Significand(a) * Significand(b) == Significand(b) * Significand(a)
  {
    var x, y := Ulps(Magnitude(a)), Ulps(Magnitude(b));
    assert x * y == y * x;
  }

  lemma MultiplicationCommutes(a: uint32, b: uint32)
    requires !IsNaN(a) && !IsNaN(b)
    ensures Multiplied(a, b) == Multiplied(b, a)
  {
    ExactProductCommutes(a, b);
    assert Misread(a, b) <==> Misread(b, a);
    assert ProductSign(a, b) == ProductSign(b, a);
  }

  /** b - a is a - b with the other sign, unless the two are equal. */
  lemma SubtractionAntisymmetric(a: uint32, b: uint32)
    requires IsFinite(a) && IsFinite(b) && Value(a) != Value(b)
    ensures Sum(b, FlipSign(a)) == FlipSign(Sum(a, FlipSign(b)))
  {
    FlippedSign(a);
    FlippedSign(b);
    assert Value(b) - Value(a) == -(Value(a) - Value(b));
  }

  /** Encodings in the order of the numbers they stand for, infinities included. */
  function Order(v: uint32): int {
    if Negative(v) then 0 - Magnitude(v) else Magnitude(v)
  }

  lemma OrderIsOrderOfValues(a: uint32, b: uint32)
    ensures Order(a) <= Order(b) <==> Value(a) <= Value(b)
  {
    var x, y := Magnitude(a), Magnitude(b);
    if x <= y {
      UlpsMonotone(x, y);
    } else {
      UlpsMonotone(y, x);
    }
  }

  lemma OrderOfSum(a: uint32, b: uint32)
    requires IsFinite(a) && IsFinite(b)
    ensures var s := Value(a) + Value(b);
            Order(Sum(a, b)) == if s < 0 then 0 - Round(Abs(s), 1) else Round(Abs(s), 1)
  {
    var s := Value(a) + Value(b);
    if s == 0 {
      RoundOfMagnitude(0, 1);
      assert Ulps(0) == 0;
      assert Order(P_ZERO) == 0 && Order(N_ZERO) == 0;
    } else {
      OrderOfEncoding(if s < 0 then 1 else 0, Round(Abs(s), 1));
    }
  }

  lemma OrderOfEncoding(sign: nat, m: nat)
    requires sign <= 1 && m < SIGN_BIT
    ensures Order(Encode(sign, m)) == if sign == 1 then 0 - m else m
  {
    EncodedFields(sign, m);
  }

  lemma FiniteAdditionMonotone(a: uint32, a': uint32, b: uint32)
    requires IsFinite(a) && IsFinite(a') && IsFinite(b) && Order(a) <= Order(a')
    ensures Order(Sum(a, b)) <= Order(Sum(a', b))
  {
    OrderIsOrderOfValues(a, a');
    OrderOfSum(a, b);
    OrderOfSum(a', b);
    var s, s' := Value(a) + Value(b), Value(a') + Value(b);
    if s >= 0 {
      RoundMonotone(s, s', 1);
    } else if s' < 0 {
      RoundMonotone(-s', -s, 1);
    }
  }

  /** A sum lies between the infinities; with an infinite operand it is that operand. */
  lemma SumBounds(a: uint32, b: uint32)
    requires !IsNaN(a) && !IsNaN(b) && !IsNaN(Sum(a, b))
    ensures 0 - INFINITY <= Order(Sum(a, b)) <= INFINITY
    ensures IsInfinite(a) ==> Sum(a, b) == a
    ensures IsInfinite(b) ==> Sum(a, b) == b
  {
    assert IsNaN(N_NAN);
    if IsFinite(a) && IsFinite(b) {
      OrderOfSum(a, b);
    }
  }

  /** Addition is monotone in each argument, infinities included, wherever it gives a number. */
  lemma AdditionMonotone(a: uint32, a': uint32, b: uint32)
    requires !IsNaN(a) && !IsNaN(a') && !IsNaN(b) && Order(a) <= Order(a')
    requires !IsNaN(Sum(a, b)) && !IsNaN(Sum(a', b))
    ensures Order(Sum(a, b)) <= Order(Sum(a', b))
    ensures Order(Sum(b, a)) <= Order(Sum(b, a'))
  {
    SumCommutes(a, b);
    SumCommutes(a', b);
    SumBounds(a, b);
    SumBounds(a', b);
    if IsFinite(a) && IsFinite(a') && IsFinite(b) {
      FiniteAdditionMonotone(a, a', b);
    }
  }

  /* ---- exactness ---- */

  ghost predicate Representable(n: nat) {
    exists m: nat :: m < INFINITY && Ulps(m) == n
  }

  /** A sum that is itself a binary32 number is returned without error. */
  lemma RepresentableSumIsExact(a: uint32, b: uint32)
    requires IsFinite(a) && IsFinite(b)
    requires Representable(Abs(Value(a) + Value(b)))
    ensures IsFinite(Sum(a, b)) && Value(Sum(a, b)) == Value(a) + Value(b)
  {
    var s := Value(a) + Value(b);
    var m: nat :| m < INFINITY && Ulps(m) == Abs(s);
    RoundOfMagnitude(m, 1);
    if s == 0 {
      assert Ulps(0) == 0;
    } else {
      ValueOfEncoding(if s < 0 then 1 else 0, m);
    }
  }

  lemma ValueOfEncoding(sign: nat, m: nat)
    requires sign <= 1 && m < INFINITY
    ensures IsFinite(Encode(sign, m))
    ensures Value(Encode(sign, m)) == if sign == 1 then 0 - Ulps(m) else Ulps(m)
  {
    EncodedFields(sign, m);
  }

  /** Every integer of at most 24 bits, at any scale, is a magnitude. */
  lemma {:induction false} ScaledIntegerIsMagnitude(q: nat, k: nat) returns (m: nat)
    requires q < 2 * IMPLICIT_BIT
    ensures Ulps(m) == q * Pow2(k)
    decreases k
  {
    if k == 0 {
      m := q;
    } else if q >= IMPLICIT_BIT {
      UlpsOf(k + 1, q);
      m := k * IMPLICIT_BIT + q;
    } else {
      TwiceProduct(q, Pow2(k - 1));
      MulAssoc(q, 2, Pow2(k - 1));
      m := ScaledIntegerIsMagnitude(2 * q, k - 1);
    }
  }

  /** The value of a magnitude is a 24-bit integer at some scale, and so is every larger one. */
  lemma MagnitudeScale(m: nat) returns (q: nat, k: nat)
    ensures Ulps(m) == q * Pow2(k) && q < 2 * IMPLICIT_BIT
    ensures k == 0 || m >= (k + 1) * IMPLICIT_BIT
  {
    UlpsOfFields(m);
    if m / IMPLICIT_BIT == 0 {
      q, k := m, 0;
    } else {
      q, k := IMPLICIT_BIT + m % IMPLICIT_BIT, m / IMPLICIT_BIT - 1;
    }
  }

  /** The difference of two magnitudes within a factor of two of each other is a magnitude. */
  lemma CloseMagnitudes(x: nat, y: nat) returns (m: nat)
    requires x < INFINITY && Ulps(y) <= Ulps(x) <= 2 * Ulps(y)
    ensures Ulps(m) == Ulps(x) - Ulps(y) && m < INFINITY
  {
    if x < y {
      UlpsMonotone(x, y);
    }
    var q, k := MagnitudeScale(y);
    var q' := Ulps(x);
    if k > 0 {
      q' := UlpsDivisible(x, k);
    } else {
      assert Pow2(k) == 1;
    }
    DifferenceInScale(Ulps(x), Ulps(y), q', q, Pow2(k));
    m := ScaledIntegerIsMagnitude(q' - q, k);
    if m >= INFINITY {
      UlpsMonotone(INFINITY, m);
      UlpsMonotone(x, INFINITY);
    }
  }

  lemma DifferenceInScale(x: nat, y: nat, q': nat, q: nat, p: nat)
    requires p > 0 && x == q' * p && y == q * p
    requires y <= x <= 2 * y
    ensures q <= q' <= q + q && x - y == (q' - q) * p
  {
    MulStrict(q', q, p);
    Distribute(q, q, p);
    MulStrict(q + q, q', p);
    Distribute(q' - q, q, p);
  }

  /** Sterbenz: subtracting numbers of one sign within a factor of two of each other is exact. */
  lemma CloseSubtractionIsExact(a: uint32, b: uint32)
    requires IsFinite(a) && IsFinite(b) && Negative(a) == Negative(b)
    requires Abs(Value(b)) <= 2 * Abs(Value(a)) && Abs(Value(a)) <= 2 * Abs(Value(b))
    ensures Value(Sum(a, FlipSign(b))) == Value(a) - Value(b)
  {
    FlippedSign(b);
    var x, y := Magnitude(a), Magnitude(b);
    var m;
    if Ulps(y) <= Ulps(x) {
      m := CloseMagnitudes(x, y);
    } else {
      m := CloseMagnitudes(y, x);
    }
    assert Abs(Value(a) + Value(FlipSign(b))) == Ulps(m);
    RepresentableSumIsExact(a, FlipSign(b));
  }

  /** A quotient that is itself a binary32 number is never misrounded, and exact with its sign. */
  lemma RepresentableQuotientIsExact(a: uint32, b: uint32, m: nat)
    requires IsFinite(a) && IsFinite(b) && !IsZero(a) && !IsZero(b) && m < INFINITY
    requires Ulps(Magnitude(a)) * Pow2(UNIT) == Ulps(Magnitude(b)) * Ulps(m)
    ensures !Misrounded(a, b)
    ensures IsFinite(Quotient(a, b)) && Magnitude(Quotient(a, b)) == m
    ensures Value(Quotient(a, b)) * Value(b) == Value(a) * Pow2(UNIT)
  {
    ExactQuotient(a, b, m);
    QuotientSigned(a, b);
    SignedQuotient(a, b, Quotient(a, b), Pow2(UNIT));
  }

  lemma ExactQuotient(a: uint32, b: uint32, m: nat)
    requires IsFinite(a) && IsFinite(b) && !IsZero(a) && !IsZero(b) && m < INFINITY
    requires Ulps(Magnitude(a)) * Pow2(UNIT) == Ulps(Magnitude(b)) * Ulps(m)
    ensures !Misrounded(a, b)
    ensures IsFinite(Quotient(a, b)) && Magnitude(Quotient(a, b)) == m
  {
    RoundOfMagnitude(m, Ulps(Magnitude(b)));
    ExactDivision(a, b, m);
    EncodedFields(ProductSign(a, b), m);
  }

  lemma SignedQuotient(a: uint32, b: uint32, r: uint32, p: nat)
    requires Ulps(Magnitude(a)) * p == Ulps(Magnitude(b)) * Ulps(Magnitude(r))
    requires Negative(r) <==> Negative(a) != Negative(b)
    ensures Value(r) * Value(b) == Value(a) * p
  {
    ProductOfValues(r, b);
    SignedTimes(Ulps(Magnitude(a)), p);
  }

  /** A product that is itself a binary32 number is exact with its sign, and returned unless it is misread. */
  lemma RepresentableProductIsExact(a: uint32, b: uint32, m: nat)
    requires IsFinite(a) && IsFinite(b) && m < INFINITY
    requires Ulps(Magnitude(a)) * Ulps(Magnitude(b)) == Pow2(UNIT) * Ulps(m)
    ensures IsFinite(Product(a, b)) && Magnitude(Product(a, b)) == m
    ensures Value(Product(a, b)) * Pow2(UNIT) == Value(a) * Value(b)
    ensures Multiplied(a, b) == Product(a, b) <==> !Misread(a, b)
  {
    ExactProductRounds(a, b, m);
    ProductSigned(a, b);
    SignedProduct(a, b, Product(a, b), Pow2(UNIT));
    MultipliedIsProduct(a, b);
  }

  lemma ExactProductRounds(a: uint32, b: uint32, m: nat)
    requires IsFinite(a) && IsFinite(b) && m < INFINITY
    requires Ulps(Magnitude(a)) * Ulps(Magnitude(b)) == Pow2(UNIT) * Ulps(m)
    ensures IsFinite(Product(a, b)) && Magnitude(Product(a, b)) == m
  {
    ExactlyScaled(Ulps(Magnitude(a)) * Ulps(Magnitude(b)), m);
    EncodedFields(ProductSign(a, b), m);
  }

  lemma ExactlyScaled(x: nat, m: nat)
    requires x == Pow2(UNIT) * Ulps(m) && m < INFINITY
    ensures RoundScaled(x, -UNIT) == m
  {
    RoundOfMagnitude(m, Pow2(UNIT));
    RoundScaledOver(x, -UNIT, UNIT);
  }

  lemma SignedProduct(a: uint32, b: uint32, r: uint32, p: nat)
    requires Ulps(Magnitude(a)) * Ulps(Magnitude(b)) == p * Ulps(Magnitude(r))
    requires Negative(r) <==> Negative(a) != Negative(b)
    ensures Value(r) * p == Value(a) * Value(b)
  {
    ProductOfValues(a, b);
    SignedScale(Negative(r), Ulps(Magnitude(r)), p);
  }

  lemma SignedScale(negative: bool, u: int, p: int)
    ensures (if negative then 0 - u else u) * p == if negative then 0 - p * u else p * u
  {
  }

  lemma ExactDivision(a: uint32, b: uint32, m: nat)
    requires IsFinite(a) && IsFinite(b) && !IsZero(a) && !IsZero(b)
    requires Ulps(Magnitude(a)) * Pow2(UNIT) == Ulps(Magnitude(b)) * Ulps(m)
    ensures 0 < Significand(a) < 0x100_0000 && Significand(b) > 0
    ensures DividesExactly(a, b)
  {
    UlpsOfOperand(a);
    UlpsOfOperand(b);
    QuotientRange(a, b);
    var e := QuotientExponent(a, b);
    var k: nat := if e < 0 then -e else 0;
    ExactOverOdd(a, b, m, k, k + e);
    MultipleOfDivisor(Widened(Significand(a)), OddPart(Significand(b)), k, e, m);
  }

  lemma MultipleOfDivisor(x: nat, y: nat, k: nat, e: int, m: nat)
    requires y > 0 && x / y >= 0x80_0000_0000
    requires k == if e < 0 then -e else 0
    requires x * Pow2(k + e) == y * Pow2(k) * Ulps(m)
    ensures x % y == 0
  {
    if e < 0 {
      MulAssoc(y, Pow2(k), Ulps(m));
      DividesProduct(x, y, Pow2(k) * Ulps(m));
    } else {
      var q := ScaleOfExact(x, y, e, m);
      DividesProduct(x, y, q);
    }
  }

  /** An exact quotient, over the widened dividend and the odd part of the divisor. */
  lemma ExactOverOdd(a: uint32, b: uint32, m: nat, k: nat, h: nat)
    requires 0 < Significand(a) < 0x100_0000 && Significand(b) > 0
    requires Ulps(Magnitude(a)) * Pow2(UNIT) == Ulps(Magnitude(b)) * Ulps(m)
    requires h == k + QuotientExponent(a, b)
    ensures Widened(Significand(a)) * Pow2(h) == OddPart(Significand(b)) * Pow2(k) * Ulps(m)
  {
    var p, p' := DividendPowers(a, h);
    var q := DivisorPowers(b);
    MulNatural(Ulps(Magnitude(a)), Pow2(UNIT));
    MulNatural(Widened(Significand(a)), Pow2(h));
    CancelProducts(Ulps(Magnitude(a)) * Pow2(UNIT), Ulps(Magnitude(b)), Widened(Significand(a)) * Pow2(h), Ulps(m),
                   Significand(a), OddPart(Significand(b)), p, q, p', k);
  }

  lemma CancelProducts(n: nat, d: nat, w: nat, u: nat, x: nat, y: nat, p: nat, q: nat, p': nat, q': nat)
    requires n == x * Pow2(p) && d == y * Pow2(q) && w == x * Pow2(p')
    requires n == d * u && p + q' == p' + q
    ensures w == y * Pow2(q') * u
  {
    CancelPowers(x, y, u, p, q, p', q');
  }

  /** Both sides of an equation scaled by powers of two. */
  lemma {:induction false} CancelPowers(x: nat, y: nat, u: nat, p: nat, q: nat, p': nat, q': nat)
    requires x * Pow2(p) == y * Pow2(q) * u
    requires p + q' == p' + q
    ensures x * Pow2(p') == y * Pow2(q') * u
    decreases if p < p' then p' - p else p - p'
  {
    if p < p' {
      TwiceProduct(x, Pow2(p));
      TwiceProduct(y, Pow2(q));
      MulAssoc(2, y * Pow2(q), u);
      CancelPowers(x, y, u, p + 1, q + 1, p', q');
    } else if p > p' {
      TwiceProduct(x, Pow2(p - 1));
      TwiceProduct(y, Pow2(q - 1));
      MulAssoc(2, y * Pow2(q - 1), u);
      CancelPowers(x, y, u, p - 1, q - 1, p', q');
    }
  }

  /** With at least 40 bits in the quotient, an exact one has no bits below the scale 2^e. */
  lemma ScaleOfExact(x: nat, y: nat, e: nat, m: nat) returns (q: nat)
    requires y > 0 && x / y >= 0x80_0000_0000
    requires x * Pow2(e) == y * Pow2(0) * Ulps(m)
    ensures x == y * q
  {
    var p, u, first := Pow2(e), Ulps(m), (e + 1) * IMPLICIT_BIT;
    assert x * p == y * u;
    UlpsOf(e + 1, IMPLICIT_BIT);
    if m < first {
      UlpsMonotone(m, first);
      TooSmall(x, y, p, u);
    }
    q := UlpsDivisible(m, e);
    MulAssoc(y, q, p);
    MulStrict(x, y * q, p);
  }

  lemma TooSmall(x: nat, y: nat, p: nat, u: nat)
    requires y > 0 && p > 0 && x / y >= 0x80_0000_0000
    ensures x * p == y * u ==> u > IMPLICIT_BIT * p
  {
    assert x >= y * 0x80_0000_0000 by {
      assert x == x / y * y + x % y;
      MulMonotone(0x80_0000_0000, x / y, y);
    }
    if u <= IMPLICIT_BIT * p {
      MulMonotone(y * 0x80_0000_0000, x, p);
      MulMonotone(u, IMPLICIT_BIT * p, y);
      MulPositive(y, p);
      MulAssoc(y, IMPLICIT_BIT, p);
    }
  }

  lemma DividesProduct(x: nat, y: nat, q: nat)
    requires y > 0 && x == y * q
    ensures x % y == 0
  {
    assert x / y * y + x % y == x;
    MulStrict(x / y, q, y);
    MulStrict(q, x / y + 1, y);
    Distribute(x / y, 1, y);
  }

  /* ---- multiplication and division are not always correctly rounded ---- */

  /** 2^-149 * 2^19: the exact product 2^-130 is representable, and multiplication returns 2^-129. */
  lemma MultiplicationMisreads()
    ensures Misread(0x0000_0001, 0x4900_0000)
    ensures Product(0x0000_0001, 0x4900_0000) == 0x0008_0000
    ensures Multiplied(0x0000_0001, 0x4900_0000) == 0x0010_0000
  {
    var a: uint32, b: uint32 := 0x0000_0001, 0x4900_0000;
    assert Significand(a) == 1 && Significand(b) == 0x80_0000;
    assert ScaleExponent(a) == 1 && ScaleExponent(b) == 146;
    ProductScale(a, b);
    var sig := Significand(a) * Significand(b);
    assert sig == 0x80_0000 == 0x8_0000 * Pow2(4) by { Eight(); }
    assert sig == 0x10_0000 * Pow2(3) by { Eight(); }
    RoundScaledShift(0x8_0000, 0, 4);
    RoundScaledShift(0x10_0000, 0, 3);
    RoundOfMagnitude(0x8_0000, 1);
    RoundOfMagnitude(0x10_0000, 1);
  }

  /** 1.5 / (1 + 2^-23): the exact quotient lies above a midpoint, the truncated one on it. */
  lemma DivisionMisrounds()
    ensures Misrounded(0x3fc0_0000, 0x3f80_0001)
    ensures Quotient(0x3fc0_0000, 0x3f80_0001) != Encode(0, RoundScaled(0x17f_fffd_0000, 109))
  {
    var a: uint32, b: uint32 := 0x3fc0_0000, 0x3f80_0001;
    var sa, sb := Significand(a), Significand(b);
    assert sa == 0xc0_0000 && sb == 0x80_0001;
    assert ScaleExponent(a) == 127 && ScaleExponent(b) == 127;
    Powers17And40();
    WideningIs(sa, 40);
    assert Widened(sa) == 0xc000_0000_0000_0000;
    assert OddPart(sb) == sb && TrailingZeros(sb) == 0;
    assert TruncatedQuotient(a, b) == 0x17f_fffd_0000 && QuotientExponent(a, b) == 109;
    TieAbove(0xbf_fffe, 109);
    QuotientCorrect(a, b);
  }

  /** An odd 25-bit number, 16 places up, is a tie at every normal scale; it goes down if the number is 1 mod 4. */
  lemma TieAbove(c: nat, e: int)
    requires IMPLICIT_BIT <= c < 2 * IMPLICIT_BIT && c % 2 == 0 && -17 <= e <= 236
    ensures HalfwayAboveEven((2 * c + 1) * 0x1_0000, e)
  {
    var top: nat := e + 18;
    var m: nat := Packed(top, c);
    PackedRange(top, c);
    PackedValues(top, c);
    Distribute(c, c + 1, Pow2(top - 1));
    Powers17And40();
    var q, odd := (2 * c + 1) * 0x1_0000, 2 * c + 1;
    assert 2 * q == odd * 0x2_0000 && Midpoint2(m) == odd * Pow2(top - 1);
    if e >= 0 {
      Pow2Sum(top - 1, 17, e);
      MulAssoc(odd, 0x2_0000, Pow2(e));
      assert Up(e) == Pow2(e) && Up(-e) == 1;
    } else {
      Pow2Sum(17, -e, top - 1);
      MulSwap(odd, Pow2(top - 1), Pow2(-e));
      MulAssoc(odd, Pow2(-e), Pow2(top - 1));
      assert Up(e) == 1 && Up(-e) == Pow2(-e);
    }
    assert 2 * q * Up(e) == Up(-e) * Midpoint2(m);
  }

  lemma {:induction false} WideningIs(s: nat, n: nat)
    requires s > 0 && TOP_BIT <= s * Pow2(n) < 2 * TOP_BIT
    ensures s < 2 * TOP_BIT
    ensures WideningShift(s) == n && Widened(s) == s * Pow2(n)
    decreases n
  {
    if n > 0 {
      MulAssoc(s, 2, Pow2(n - 1));
      MulMonotone(1, Pow2(n - 1), s);
      WideningIs(2 * s, n - 1);
    }
  }

  lemma Powers17And40()
    ensures Pow2(17) == 0x2_0000 && Pow2(40) == 0x100_0000_0000
  {
    Eight();
    PowerSum(3, 3, 8, 8);
    PowerSum(6, 6, 64, 64);
    PowerSum(12, 3, 0x1000, 8);
    assert Pow2(16) == 2 * Pow2(15);
    PowerSum(12, 12, 0x1000, 0x1000);
    PowerSum(24, 16, 0x100_0000, 0x1_0000);
  }
}
