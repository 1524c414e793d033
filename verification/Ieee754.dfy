/**
 The operations of IEEE 754-2008 on binary32: correctly rounded results (section 5.4.1), the sign
 of zero (section 6.3), and the special operands (sections 6.1, 7.2 and 7.3).  They are defined on
 exact integer values and know nothing of significands, alignment or guard bits.
 */
module Ieee754 {
  import opened PowersOfTwo
  import opened Words
  import opened Binary32

  const P_ZERO: uint32 := 0
  const N_ZERO: uint32 := 0x8000_0000
  const P_INF: uint32 := 0x7f80_0000
  const N_INF: uint32 := 0xff80_0000
  const P_NAN: uint32 := 0x7fc0_0000
  const N_NAN: uint32 := 0xffc0_0000

  /** The exact value in units of 2^-149. */
  function Value(v: uint32): int {
    if Negative(v) then 0 - Ulps(Magnitude(v)) else Ulps(Magnitude(v))
  }

  function Abs(x: int): nat {
    if x < 0 then -x else x
  }

  /** The encoding with the given sign (0 or 1) and magnitude. */
  function Encode(sign: nat, m: nat): uint32
    requires sign <= 1 && m < SIGN_BIT
  {
    sign * SIGN_BIT + m
  }

  lemma EncodedFields(sign: nat, m: nat)
    requires sign <= 1 && m < SIGN_BIT
    ensures Magnitude(Encode(sign, m)) == m
    ensures Negative(Encode(sign, m)) <==> sign == 1
  {
  }

  function ProductSign(a: uint32, b: uint32): nat {
    if SignOf(a) == SignOf(b) then 0 else 1
  }

  lemma SpecialEncodings(v: uint32)
    ensures IsZero(v) <==> v == P_ZERO || v == N_ZERO
    ensures IsInfinite(v) <==> v == P_INF || v == N_INF
    ensures ExponentField(v) == 0xff <==> !IsFinite(v)
  {
  }

  lemma FlippedSign(v: uint32)
    ensures Magnitude(FlipSign(v)) == Magnitude(v)
    ensures Value(FlipSign(v)) == -Value(v)
    ensures FlipSign(FlipSign(v)) == v
  {
  }

  ghost function Sum(a: uint32, b: uint32): uint32
    requires !IsNaN(a) && !IsNaN(b)
  {
    if IsInfinite(a) && IsInfinite(b) && a != b then N_NAN
    else if IsInfinite(a) then a
    else if IsInfinite(b) then b
    else
      var s := Value(a) + Value(b);
      if s == 0 then (if Negative(a) && Negative(b) then N_ZERO else P_ZERO)
      else Encode(if s < 0 then 1 else 0, Round(Abs(s), 1))
  }

  ghost function Product(a: uint32, b: uint32): uint32
    requires !IsNaN(a) && !IsNaN(b)
  {
    if (IsInfinite(a) && IsZero(b)) || (IsZero(a) && IsInfinite(b)) then N_NAN
    else if IsInfinite(a) || IsInfinite(b) then Encode(ProductSign(a, b), INFINITY)
    else Encode(ProductSign(a, b), RoundScaled(Ulps(Magnitude(a)) * Ulps(Magnitude(b)), -UNIT))
  }

  ghost function Quotient(a: uint32, b: uint32): uint32
    requires !IsNaN(a) && !IsNaN(b)
  {
    if (IsInfinite(a) && IsInfinite(b)) || (IsZero(a) && IsZero(b)) then N_NAN
    else if IsInfinite(a) || IsZero(b) then Encode(ProductSign(a, b), INFINITY)
    else if IsInfinite(b) then Encode(ProductSign(a, b), 0)
    else Encode(ProductSign(a, b), RoundedQuotient(Ulps(Magnitude(a)), Ulps(Magnitude(b))))
  }

  ghost function RoundedQuotient(n: nat, d: nat): (m: nat)
    requires d > 0
    ensures m <= INFINITY
  {
    Round(n * Pow2(UNIT), d)
  }

  lemma UlpsPositive(m: nat)
    ensures Ulps(m) > 0 <==> m > 0
  {
    UlpsMonotone(0, m);
  }

  lemma SignedTimes(x: int, y: int)
    ensures (0 - x) * y == 0 - x * y && x * (0 - y) == 0 - x * y && (0 - x) * (0 - y) == x * y
  {
  }

  /** The product of two exact values, by their signs. */
  lemma ProductOfValues(a: uint32, b: uint32)
    ensures var p := Ulps(Magnitude(a)) * Ulps(Magnitude(b));
            p >= 0 && Value(a) * Value(b) == if Negative(a) == Negative(b) then p else 0 - p
  {
    SignedTimes(Ulps(Magnitude(a)), Ulps(Magnitude(b)));
    MulNatural(Ulps(Magnitude(a)), Ulps(Magnitude(b)));
  }

  lemma SignsMultiply(a: uint32, b: uint32)
    ensures Value(a) * Value(b) < 0 <==> !IsZero(a) && !IsZero(b) && Negative(a) != Negative(b)
  {
    ProductOfValues(a, b);
    if !IsZero(a) && !IsZero(b) {
      MulPositive(Ulps(Magnitude(a)), Ulps(Magnitude(b)));
    }
  }

  lemma ProductEncoded(a: uint32, b: uint32, m: nat)
    requires m <= INFINITY
    ensures var r := Encode(ProductSign(a, b), m); !IsNaN(r) && (Negative(r) <==> Negative(a) != Negative(b))
  {
    EncodedFields(ProductSign(a, b), m);
  }

  /** A product that is a number is negative if one operand is and the other is not, zeros included. */
  lemma ProductSigned(a: uint32, b: uint32)
    requires !IsNaN(a) && !IsNaN(b)
    ensures !IsNaN(Product(a, b)) ==> (Negative(Product(a, b)) <==> Negative(a) != Negative(b))
    ensures !IsZero(a) && !IsZero(b) ==>
              !IsNaN(Product(a, b)) && (Negative(Product(a, b)) <==> Value(a) * Value(b) < 0)
  {
    assert IsNaN(N_NAN);
    SignsMultiply(a, b);
    ProductEncoded(a, b, INFINITY);
    ProductEncoded(a, b, RoundScaled(Ulps(Magnitude(a)) * Ulps(Magnitude(b)), -UNIT));
  }

  lemma QuotientSigned(a: uint32, b: uint32)
    requires !IsNaN(a) && !IsNaN(b)
    ensures !IsNaN(Quotient(a, b)) ==> (Negative(Quotient(a, b)) <==> Negative(a) != Negative(b))
    ensures !IsZero(a) && !IsZero(b) && !(IsInfinite(a) && IsInfinite(b)) ==>
              !IsNaN(Quotient(a, b)) && (Negative(Quotient(a, b)) <==> Value(a) * Value(b) < 0)
  {
    assert IsNaN(N_NAN);
    SignsMultiply(a, b);
    ProductEncoded(a, b, INFINITY);
    ProductEncoded(a, b, 0);
    if !IsZero(b) {
      ProductEncoded(a, b, RoundedQuotient(Ulps(Magnitude(a)), Ulps(Magnitude(b))));
    }
  }

  /** Rounding an exactly representable value changes nothing. */
  lemma RoundedValue(v: uint32)
    requires IsFinite(v)
    ensures Round(Abs(Value(v)), 1) == Magnitude(v)
    ensures Value(v) < 0 <==> Negative(v) && !IsZero(v)
    ensures Value(v) == 0 <==> IsZero(v)
  {
    UlpsPositive(Magnitude(v));
    RoundOfMagnitude(Magnitude(v), 1);
  }

  lemma SumWithZero(a: uint32, b: uint32)
    requires IsFinite(a) && IsFinite(b) && IsZero(b) && !IsZero(a)
    ensures Sum(a, b) == a && Sum(b, a) == a
  {
    RoundedValue(a);
    RoundedValue(b);
  }

  lemma SumCommutes(a: uint32, b: uint32)
    requires !IsNaN(a) && !IsNaN(b)
    ensures Sum(a, b) == Sum(b, a)
  {
  }

  lemma ZeroProduct(a: uint32, b: uint32)
    requires IsFinite(a) && IsFinite(b) && (IsZero(a) || IsZero(b))
    ensures Product(a, b) == Encode(ProductSign(a, b), 0)
  {
    UlpsPositive(Magnitude(a));
    UlpsPositive(Magnitude(b));
    assert Ulps(Magnitude(a)) * Ulps(Magnitude(b)) == 0;
    RoundUnderflow(0, -UNIT);
  }
}
