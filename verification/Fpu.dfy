/** The arithmetic of the software floating point unit of nemu/src/cpu/fpu.c. */
module Fpu {
  import opened PowersOfTwo
  import opened Words
  import opened Binary32
  import opened Ieee754
  import opened FpuNormalize

  /* ---- corner-case tables ---- */

  datatype CornerRule = CornerRule(a: uint32, b: uint32, res: uint32)

  predicate SpecialOperand(a: uint32, b: uint32) {
    IsZero(a) || IsZero(b) || IsInfinite(a) || IsInfinite(b)
  }

  method FindCorner(rules: seq<CornerRule>, a: uint32, b: uint32) returns (hit: bool, res: uint32)
    ensures hit ==> CornerRule(a, b, res) in rules
    ensures !hit ==> forall rule :: rule in rules ==> rule.a != a || rule.b != b
  {
    for i := 0 to |rules|
      invariant forall rule :: rule in rules[..i] ==> rule.a != a || rule.b != b
    {
      if a == rules[i].a && b == rules[i].b {
        return true, rules[i].res;
      }
    }
    hit, res := false, 0;
  }

  const CORNER_ADD: seq<CornerRule> := [
    CornerRule(P_ZERO, P_ZERO, P_ZERO),
    CornerRule(N_ZERO, P_ZERO, P_ZERO),
    CornerRule(P_ZERO, N_ZERO, P_ZERO),
    CornerRule(N_ZERO, N_ZERO, N_ZERO),
    CornerRule(P_INF, N_INF, N_NAN),
    CornerRule(N_INF, P_INF, N_NAN),
    CornerRule(P_INF, P_NAN, P_NAN),
    CornerRule(P_INF, N_NAN, N_NAN),
    CornerRule(N_INF, P_NAN, P_NAN),
    CornerRule(N_INF, N_NAN, N_NAN),
    CornerRule(N_NAN, P_NAN, P_NAN)
  ]

  /** The significand of a finite operand, with the hidden bit of a normal one. */
  function Significand(v: uint32): nat {
    if ExponentField(v) != 0 then FractionField(v) + IMPLICIT_BIT else FractionField(v)
  }

  /** The exponent whose scale the operand has: denormals share it with exponent field 1. */
  function ScaleExponent(v: uint32): nat {
    if ExponentField(v) == 0 then 1 else ExponentField(v)
  }

  lemma OperandFields(v: uint32)
    ensures Magnitude(v) == ExponentField(v) * IMPLICIT_BIT + FractionField(v)
    ensures Magnitude(v) / IMPLICIT_BIT == ExponentField(v)
    ensures Magnitude(v) % IMPLICIT_BIT == FractionField(v)
  {
  }

  lemma UlpsOfOperand(v: uint32)
    ensures Ulps(Magnitude(v)) == Significand(v) * Pow2(ScaleExponent(v) - 1)
    ensures IsFinite(v) <==> ExponentField(v) < 0xff
    ensures IsZero(v) <==> Significand(v) == 0
    ensures Significand(v) < 2 * IMPLICIT_BIT
    ensures ExponentField(v) > 0 <==> Significand(v) >= IMPLICIT_BIT
  {
    OperandFields(v);
    UlpsOfFields(Magnitude(v));
  }

  /** `x *= -1` on a 32-bit unsigned integer. */
  function Negate32(x: uint32): uint32 {
    if x == 0 then 0 else 0x1_0000_0000 - x
  }

  /* ---- the aligned sum stands for the exact one ---- */

  lemma JamsNegated(x: int, d: nat, y: int)
    requires Jams(x, d, y)
    ensures Jams(-x, d, -y)
  {
    var p := Pow2(d);
    assert (-y) * p == -(y * p);
    assert (-y - 1) * p == -((y + 1) * p) && (-y + 1) * p == -((y - 1) * p);
  }

  lemma JamsPlus(x: int, d: nat, y: int, w: int)
    requires Jams(x, d, y) && w % 2 == 0
    ensures Jams(x + w * Pow2(d), d, y + w)
  {
    var p := Pow2(d);
    Distribute(y, w, p);
    Distribute(y - 1, w, p);
    Distribute(y + 1, w, p);
    assert y - 1 + w == y + w - 1 && y + 1 + w == y + w + 1;
  }

  lemma JamsSign(x: int, d: nat, y: int)
    requires Jams(x, d, y)
    ensures x < 0 <==> y < 0
    ensures x == 0 <==> y == 0
  {
    var p := Pow2(d);
    if x == y * p {
      MulStrict(y, 0, p);
    } else if y > 0 {
      MulMonotoneInt(0, y - 1, p);
    } else {
      assert y + 1 <= 0;
      MulMonotoneInt(y + 1, 0, p);
    }
  }

  /** The three extra bits keep shifts by up to three places exact. */
  lemma JamsShort(sig: nat, d: nat, y: nat)
    requires Jams(8 * sig, d, y) && d <= 3
    ensures 8 * sig == y * Pow2(d)
  {
    var p, c := Pow2(d), Pow2(3 - d);
    Eight();
    Pow2Sum(3, 3 - d, d);
    var q := c * sig;
    assert 8 * sig == q * p by {
      MulSwap(c, sig, p);
    }
    if 8 * sig != y * p {
      if q < y {
        MulMonotoneInt(q, y - 1, p);
      } else {
        MulMonotoneInt(y + 1, q, p);
      }
    }
  }

  lemma JamsBound(sig: nat, d: nat, y: nat)
    requires Jams(8 * sig, d, y)
    requires sig < 0x100_0000 && d >= 4
    ensures y <= 0x80_0000
  {
    var p := Pow2(d);
    assert Pow2(4) == 16 by { Eight(); }
    Pow2Monotone(4, d);
    MulMonotoneInt(16, p, 0x80_0000);
    assert (y - 1) * p == y * p - p;
    MulStrict(y - 1, 0x80_0000, p);
  }

  /** 8 * w * 2^(e-4) units, with e at least 1, is the integer w * 2^(e-1). */
  lemma RoundUnits(w: nat, e: nat)
    requires e >= 1
    ensures RoundScaled(8 * w, e - 4) == Round(w * Pow2(e - 1), 1)
  {
    Eight();
    RoundScaledOver(8 * w, e - 4, 3);
    assert 3 + (e - 4) == e - 1;
    MulAssoc(8, w, Pow2(e - 1));
    RoundCancel(w * Pow2(e - 1), 1, 8);
  }

  function WithSign(v: uint32, x: int): int {
    if Negative(v) then -x else x
  }

  lemma NegateProduct(x: int, y: int)
    ensures (-x) * y == -(x * y)
  {
  }

  lemma ValueOfOperand(v: uint32)
    ensures Value(v) == WithSign(v, Significand(v)) * Pow2(ScaleExponent(v) - 1)
  {
    UlpsOfOperand(v);
    var k, p := Significand(v), Pow2(ScaleExponent(v) - 1);
    NegateProduct(k, p);
  }

  /** The exact sum as one signed significand at the scale of the smaller operand. */
  lemma ExactSum(a: uint32, b: uint32, d: nat)
    requires ScaleExponent(b) == ScaleExponent(a) + d
    ensures Value(a) + Value(b) ==
            (WithSign(a, Significand(a)) + WithSign(b, Significand(b)) * Pow2(d)) * Pow2(ScaleExponent(a) - 1)
  {
    ValueOfOperand(a);
    ValueOfOperand(b);
    Pow2Add(d, ScaleExponent(a) - 1);
    assert d + (ScaleExponent(a) - 1) == ScaleExponent(b) - 1;
    Factor(WithSign(a, Significand(a)), WithSign(b, Significand(b)), Pow2(d), Pow2(ScaleExponent(a) - 1));
  }

  lemma Factor(sa: int, sb: int, q: int, p: int)
    ensures sa * p + sb * (q * p) == (sa + sb * q) * p
  {
  }

  /** Jamming the smaller operand before the signed addition does not change the rounded sum. */
  lemma AlignedSum(a: uint32, b: uint32, d: nat, jammed: nat, y: int)
    requires IsFinite(a) && IsFinite(b)
    requires ExponentField(a) <= ExponentField(b) && ScaleExponent(b) == ScaleExponent(a) + d
    requires Jams(8 * Significand(a), d, jammed) && jammed <= 8 * Significand(a)
    requires y == WithSign(a, jammed) + WithSign(b, 8 * Significand(b))
    ensures y < 0 <==> Value(a) + Value(b) < 0
    ensures RoundScaled(Abs(y), ReadExponent(ExponentField(b), Abs(y)) - 4) == Round(Abs(Value(a) + Value(b)), 1)
  {
    var sb := WithSign(b, Significand(b));
    var w := WithSign(a, Significand(a)) + sb * Pow2(d);
    ExactSum(a, b, d);
    AlignedRange(a, b, d, jammed, y);
    SignedJam(a, Significand(a), d, jammed, sb, y, w);
    AbsoluteSum(w, d, y, ScaleExponent(a));
  }

  lemma AlignedRange(a: uint32, b: uint32, d: nat, jammed: nat, y: int)
    requires ExponentField(a) <= ExponentField(b) && ScaleExponent(b) == ScaleExponent(a) + d
    requires Jams(8 * Significand(a), d, jammed) && jammed <= 8 * Significand(a)
    requires y == WithSign(a, jammed) + WithSign(b, 8 * Significand(b))
    ensures ReadExponent(ExponentField(b), Abs(y)) == ScaleExponent(b)
    ensures d >= 4 ==> Abs(y) >= 0x200_0000
  {
    UlpsOfOperand(a);
    UlpsOfOperand(b);
    if d >= 4 {
      JamsBound(Significand(a), d, jammed);
    }
  }

  lemma SignedJam(a: uint32, sig: nat, d: nat, jammed: nat, sb: int, y: int, w: int)
    requires Jams(8 * sig, d, jammed)
    requires y == WithSign(a, jammed) + 8 * sb && w == WithSign(a, sig) + sb * Pow2(d)
    ensures Jams(8 * w, d, y)
    ensures d <= 3 ==> 8 * w == y * Pow2(d)
  {
    JamsNegated(8 * sig, d, jammed);
    SignedJamOf(WithSign(a, sig), WithSign(a, jammed), d, sb, y, w);
    if d <= 3 {
      JamsShort(sig, d, jammed);
      NegateProduct(jammed, Pow2(d));
      SignedExact(WithSign(a, sig), WithSign(a, jammed), Pow2(d), sb);
    }
  }

  lemma SignedJamOf(sa: int, ja: int, d: nat, sb: int, y: int, w: int)
    requires Jams(8 * sa, d, ja)
    requires y == ja + 8 * sb && w == sa + sb * Pow2(d)
    ensures Jams(8 * w, d, y)
  {
    JamsPlus(8 * sa, d, ja, 8 * sb);
    MulAssoc(8, sb, Pow2(d));
    assert 8 * w == 8 * sa + (8 * sb) * Pow2(d);
  }

  lemma SignedExact(sa: int, ja: int, p: nat, sb: int)
    requires 8 * sa == ja * p
    ensures 8 * (sa + sb * p) == (ja + 8 * sb) * p
  {
    Distribute(ja, 8 * sb, p);
    MulAssoc(8, sb, p);
  }

  lemma AbsoluteSum(w: int, d: nat, y: int, e: nat)
    requires e >= 1 && Jams(8 * w, d, y)
    requires 8 * w == y * Pow2(d) || Abs(y) >= 0x200_0000
    ensures y < 0 <==> w * Pow2(e - 1) < 0
    ensures RoundScaled(Abs(y), e + d - 4) == Round(Abs(w * Pow2(e - 1)), 1)
  {
    AbsoluteJam(w, d, y);
    AbsoluteProduct(w, Pow2(e - 1));
    JamRound(8 * Abs(w), d, Abs(y), e + d - 4);
    assert e + d - 4 - d == e - 4;
    RoundUnits(Abs(w), e);
  }

  lemma AbsoluteProduct(w: int, p: nat)
    requires p > 0
    ensures Abs(w * p) == Abs(w) * p
    ensures w < 0 <==> w * p < 0
  {
    NegateProduct(w, p);
    MulStrict(w, 0, p);
  }

  lemma AbsoluteJam(w: int, d: nat, y: int)
    requires Jams(8 * w, d, y)
    ensures y < 0 <==> w < 0
    ensures Jams(8 * Abs(w), d, Abs(y))
    ensures 8 * w == y * Pow2(d) ==> 8 * Abs(w) == Abs(y) * Pow2(d)
  {
    JamsSign(8 * w, d, y);
    JamsNegated(8 * w, d, y);
    NegateProduct(y, Pow2(d));
  }

  /** Two's complement addition of two signed significands, and the sign taken off the result. */
  method AddSigned(a: uint32, b: uint32, na: bool, nb: bool) returns (sign: nat, res: uint32)
    requires a < 0x4000_0000 && b < 0x4000_0000
    ensures var y := (if na then 0 - a else a) + (if nb then 0 - b else b);
            sign == (if y < 0 then 1 else 0) && res == Abs(y)
  {
    var x, y := a, b;
    if na {
      x := Negate32(x);
    }
    if nb {
      y := Negate32(y);
    }
    res := (x as int + y) % 0x1_0000_0000;
    if res >= SIGN_BIT {
      sign := 1;
      res := Negate32(res);
    } else {
      sign := 0;
    }
  }

  /** One round of the alignment loop is a sticky shift. */
  lemma StickyRound(sig: nat, sticky: int)
    requires sticky == 0 || (sticky == 1 && sig % 2 == 1)
    ensures var sticky', half := if sticky == 1 || sig % 2 == 1 then 1 else 0, sig / 2;
            var sig' := if sticky' == 1 && half % 2 == 0 then half + 1 else half;
            sig' == StickyShift(sig) <= sig && (sticky' == 1 ==> sig' % 2 == 1)
  {
  }

  /** The alignment loop of internal_float_add. */
  method Align(sig0: uint32, shift0: uint32) returns (sig: uint32)
    ensures Jams(sig0, shift0, sig) && sig <= sig0
  {
    sig := sig0;
    var shift: int, sticky := shift0, 0;
    ghost var n: nat := 0;
    while shift > 0
      invariant n + shift == shift0 && shift >= 0 && sig <= sig0
      invariant sticky == 0 || (sticky == 1 && sig % 2 == 1)
      invariant Jams(sig0, n, sig)
      decreases shift
    {
      JamStep(sig0, n, sig);
      StickyRound(sig, sticky);
      sticky := if sticky == 1 || sig % 2 == 1 then 1 else 0;
      sig := sig / 2;
      sig := if sticky == 1 && sig % 2 == 0 then sig + 1 else sig;
      shift, n := shift - 1, n + 1;
    }
  }

  /** internal_float_add past its special cases: a and b are finite, a has the smaller exponent. */
  method AddFinite(a: uint32, b: uint32) returns (r: uint32)
    requires IsFinite(a) && IsFinite(b) && !IsZero(a) && !IsZero(b)
    requires ExponentField(a) <= ExponentField(b)
    ensures r == Sum(a, b)
  {
    UlpsOfOperand(a);
    UlpsOfOperand(b);
    var sigA: uint32, sigB: uint32 := Significand(a), Significand(b);
    var shift: uint32;
    if ExponentField(b) == 0 {
      shift := ExponentField(b) - ExponentField(a);
    } else if ExponentField(a) == 0 {
      shift := ExponentField(b) - ExponentField(a) - 1;
    } else {
      shift := ExponentField(b) - ExponentField(a);
    }
    ghost var d: nat := shift;
    assert d == ScaleExponent(b) - ScaleExponent(a);
    sigA := sigA * 8;
    sigB := sigB * 8;
    sigA := Align(sigA, shift);

    ghost var y := WithSign(a, sigA) + WithSign(b, sigB);
    AlignedSum(a, b, d, sigA, y);
    var sign, sigRes := AddSigned(sigA, sigB, Negative(a), Negative(b));
    ghost var rounds;
    r, rounds := Normalize(sign, ExponentField(b), sigRes);
    SumOfNonzero(a, b);
  }

  lemma SumOfNonzero(a: uint32, b: uint32)
    requires IsFinite(a) && IsFinite(b) && !IsZero(a) && !IsZero(b)
    ensures Sum(a, b) == Encode(if Value(a) + Value(b) < 0 then 1 else 0, Round(Abs(Value(a) + Value(b)), 1))
  {
    UlpsPositive(Magnitude(a));
    UlpsPositive(Magnitude(b));
    RoundOfMagnitude(0, 1);
    assert Ulps(0) == 0;
  }

  predicate CanonicalNaN(v: uint32) {
    v == P_NAN || v == N_NAN
  }

  /**
   When internal_float_add and internal_float_sub answer a NaN operand with a NaN: always, except
   that an infinity is returned if the second operand is a NaN other than the two in the tables.
   */
  predicate SurfacesNaN(a: uint32, b: uint32, r: uint32) {
    IsNaN(a) || IsNaN(b) ==> (IsNaN(r) <==> IsNaN(a) || CanonicalNaN(b) || !IsInfinite(a))
  }

  /** The table of internal_float_add, and what its early returns rely on if it has no rule. */
  method AddTable(b: uint32, a: uint32) returns (hit: bool, r: uint32)
    ensures hit && !IsNaN(a) && !IsNaN(b) ==> r == Sum(a, b)
    ensures hit && (IsNaN(a) || IsNaN(b)) ==> IsNaN(r) && (IsInfinite(a) ==> CanonicalNaN(b))
    ensures a == P_ZERO || a == N_ZERO <==> IsZero(a)
    ensures b == P_ZERO || b == N_ZERO <==> IsZero(b)
    ensures !hit && IsZero(a) && !IsNaN(b) ==> Sum(a, b) == b
    ensures !hit && IsZero(b) && !IsNaN(a) ==> Sum(a, b) == a
    ensures !hit && ExponentField(a) == 0xff && !IsNaN(a) && !IsNaN(b) ==> Sum(a, b) == a
    ensures !hit && IsFinite(a) && ExponentField(b) == 0xff && !IsNaN(b) ==> Sum(a, b) == b
    ensures !hit && IsInfinite(a) ==> !CanonicalNaN(b)
  {
    SpecialEncodings(a);
    SpecialEncodings(b);
    hit, r := FindCorner(CORNER_ADD, a, b);
    if hit {
      AddCorner(a, b, r);
    } else {
      AddNoCorner(a, b);
    }
  }

  /** internal_float_add. */
  method FloatAdd(b: uint32, a: uint32) returns (r: uint32)
    ensures !IsNaN(a) && !IsNaN(b) ==> r == Sum(a, b)
    ensures SurfacesNaN(a, b, r)
  {
    var hit;
    hit, r := AddTable(b, a);
    if hit {
      return;
    }
    if a == P_ZERO || a == N_ZERO {
      return b;
    }
    if b == P_ZERO || b == N_ZERO {
      return a;
    }
    if ExponentField(a) == 0xff {
      return a;
    }
    if ExponentField(b) == 0xff {
      return b;
    }
    if ExponentField(a) > ExponentField(b) {
      r := AddFinite(b, a);
      SumCommutes(a, b);
    } else {
      r := AddFinite(a, b);
    }
  }

  lemma AddCorner(a: uint32, b: uint32, res: uint32)
    requires CornerRule(a, b, res) in CORNER_ADD
    ensures !IsNaN(a) && !IsNaN(b) ==> res == Sum(a, b)
    ensures IsNaN(a) || IsNaN(b) ==> IsNaN(res) && (IsInfinite(a) ==> CanonicalNaN(b))
  {
    assert Ulps(0) == 0;
  }

  /** The early returns behind the table. */
  lemma AddNoCorner(a: uint32, b: uint32)
    requires forall rule :: rule in CORNER_ADD ==> rule.a != a || rule.b != b
    ensures IsZero(a) && !IsNaN(b) ==> Sum(a, b) == b
    ensures IsZero(b) && !IsNaN(a) ==> Sum(a, b) == a
    ensures ExponentField(a) == 0xff && !IsNaN(a) && !IsNaN(b) ==> Sum(a, b) == a
    ensures IsFinite(a) && ExponentField(b) == 0xff && !IsNaN(b) ==> Sum(a, b) == b
    ensures IsInfinite(a) ==> !CanonicalNaN(b)
  {
    AddTableZeros(a, b);
    AddTableInfinities(a, b);
    SpecialEncodings(a);
    SpecialEncodings(b);
    if IsZero(a) && IsFinite(b) {
      SumWithZero(b, a);
    }
    if IsZero(b) && IsFinite(a) {
      SumWithZero(a, b);
    }
  }

  lemma AddTableZeros(a: uint32, b: uint32)
    requires forall rule :: rule in CORNER_ADD ==> rule.a != a || rule.b != b
    ensures !(IsZero(a) && IsZero(b))
  {
    SpecialEncodings(a);
    SpecialEncodings(b);
    assert CornerRule(P_ZERO, P_ZERO, P_ZERO) in CORNER_ADD && CornerRule(N_ZERO, P_ZERO, P_ZERO) in CORNER_ADD;
    assert CornerRule(P_ZERO, N_ZERO, P_ZERO) in CORNER_ADD && CornerRule(N_ZERO, N_ZERO, N_ZERO) in CORNER_ADD;
  }

  lemma AddTableInfinities(a: uint32, b: uint32)
    requires forall rule :: rule in CORNER_ADD ==> rule.a != a || rule.b != b
    ensures IsInfinite(a) && IsInfinite(b) ==> a == b
    ensures IsInfinite(a) ==> !CanonicalNaN(b)
  {
    SpecialEncodings(a);
    SpecialEncodings(b);
    assert CornerRule(P_INF, N_INF, N_NAN) in CORNER_ADD && CornerRule(N_INF, P_INF, N_NAN) in CORNER_ADD;
    assert CornerRule(P_INF, P_NAN, P_NAN) in CORNER_ADD && CornerRule(P_INF, N_NAN, N_NAN) in CORNER_ADD;
    assert CornerRule(N_INF, P_NAN, P_NAN) in CORNER_ADD && CornerRule(N_INF, N_NAN, N_NAN) in CORNER_ADD;
  }

  const CORNER_SUB: seq<CornerRule> := [
    CornerRule(P_ZERO, P_ZERO, P_ZERO),
    CornerRule(N_ZERO, P_ZERO, N_ZERO),
    CornerRule(P_ZERO, N_ZERO, P_ZERO),
    CornerRule(N_ZERO, N_ZERO, P_ZERO),
    CornerRule(P_NAN, P_NAN, P_NAN),
    CornerRule(N_NAN, P_NAN, P_NAN),
    CornerRule(P_NAN, N_NAN, P_NAN),
    CornerRule(N_NAN, N_NAN, N_NAN)
  ]

  /** internal_float_sub. */
  method FloatSub(b: uint32, a: uint32) returns (r: uint32)
    ensures !IsNaN(a) && !IsNaN(b) ==> r == Sum(a, FlipSign(b))
    ensures SurfacesNaN(a, b, r)
  {
    var hit, res := FindCorner(CORNER_SUB, a, b);
    if hit {
      SubCorner(a, b, res);
      return res;
    }
    if a == P_NAN || a == N_NAN {
      return a;
    }
    if b == P_NAN || b == N_NAN {
      return b;
    }
    FlippedSign(b);
    r := FloatAdd(FlipSign(b), a);
    assert CanonicalNaN(b) ==> CanonicalNaN(FlipSign(b));
  }

  lemma SubCorner(a: uint32, b: uint32, res: uint32)
    requires CornerRule(a, b, res) in CORNER_SUB
    ensures !IsNaN(a) && !IsNaN(b) ==> res == Sum(a, FlipSign(b))
    ensures IsNaN(a) || IsNaN(b) ==> IsNaN(res)
  {
    assert Ulps(0) == 0;
  }

  /* ---- multiplication ---- */

  const CORNER_MUL: seq<CornerRule> := [
    CornerRule(P_ZERO, P_INF, N_NAN),
    CornerRule(P_ZERO, N_INF, N_NAN),
    CornerRule(N_ZERO, P_INF, N_NAN),
    CornerRule(N_ZERO, N_INF, N_NAN),
    CornerRule(P_INF, P_ZERO, N_NAN),
    CornerRule(P_INF, N_ZERO, N_NAN),
    CornerRule(N_INF, P_ZERO, N_NAN),
    CornerRule(N_INF, N_ZERO, N_NAN)
  ]

  /**
   The operands whose product reaches internal_normalize with exponent 0 and fewer than 28 bits,
   where it is read at twice its value: a denormal with a small significand times a normal number
   with exponent field 146.
   */
  predicate Misread(a: uint32, b: uint32) {
    && IsFinite(a) && IsFinite(b) && !IsZero(a) && !IsZero(b)
    && ScaleExponent(a) + ScaleExponent(b) == 147
    && Significand(a) * Significand(b) < 2 * LEADING
  }

  function ExactProduct(a: uint32, b: uint32): nat {
    Ulps(Magnitude(a)) * Ulps(Magnitude(b))
  }

  lemma ProductReading(a: uint32, b: uint32)
    requires IsFinite(a) && IsFinite(b) && !IsZero(a) && !IsZero(b)
    ensures var sig, e := Significand(a) * Significand(b), ScaleExponent(a) + ScaleExponent(b) - 147;
            && (e <= 254 || sig >= 2 * LEADING)
            && RoundScaled(sig, ReadExponent(e, sig) - 4)
               == RoundScaled((if Misread(a, b) then 2 else 1) * ExactProduct(a, b), -UNIT)
  {
    SignificandProduct(a, b);
    ProductScale(a, b);
  }

  /** internal_float_mul past its special cases. */
  method MulSignificands(b: uint32, a: uint32) returns (r: uint32)
    ensures IsFinite(a) && IsFinite(b) && !IsZero(a) && !IsZero(b) ==>
              r == Encode(ProductSign(a, b), RoundScaled((if Misread(a, b) then 2 else 1) * ExactProduct(a, b), -UNIT))
  {
    var expA := if ExponentField(a) == 0 then ExponentField(a) + 1 else ExponentField(a);
    var expB := if ExponentField(b) == 0 then ExponentField(b) + 1 else ExponentField(b);
    ProductRange(a, b);
    var sigRes: uint64 := Significand(a) * Significand(b);
    var expRes: int32 := expA + expB - 127 - 20;
    ghost var rounds;
    r, rounds := Normalize(ProductSign(a, b), expRes, sigRes);
    if IsFinite(a) && IsFinite(b) && !IsZero(a) && !IsZero(b) {
      ProductReading(a, b);
    }
  }

  lemma ProductRange(a: uint32, b: uint32)
    ensures 0 <= Significand(a) * Significand(b) < 0x1_0000_0000_0000
  {
    UlpsOfOperand(a);
    UlpsOfOperand(b);
    SmallProduct(Significand(a), Significand(b));
    MulMonotone(0, Significand(a), Significand(b));
  }

  lemma SmallProduct(x: nat, y: nat)
    requires x < 0x100_0000 && y < 0x100_0000
    ensures x * y < 0x1_0000_0000_0000
  {
    MulMonotone(x, 0xff_ffff, y);
  }

  lemma SignificandProduct(a: uint32, b: uint32)
    requires IsFinite(a) && IsFinite(b) && !IsZero(a) && !IsZero(b)
    ensures 0 < Significand(a) * Significand(b) < 0x1_0000_0000_0000
    ensures ScaleExponent(a) + ScaleExponent(b) > 401 ==> Significand(a) * Significand(b) >= 2 * LEADING
    ensures ScaleExponent(a) + ScaleExponent(b) >= 3 ==> Significand(a) * Significand(b) >= IMPLICIT_BIT
  {
    UlpsOfOperand(a);
    UlpsOfOperand(b);
    var x, y := Significand(a), Significand(b);
    MulStrict(0, x, y);
    MulMonotone(x, 0x100_0000, y);
    if ExponentField(a) > 0 {
      MulMonotone(IMPLICIT_BIT, x, y);
    }
    if ExponentField(b) > 0 {
      MulMonotone(IMPLICIT_BIT, y, x);
    }
  }

  lemma ProductScale(a: uint32, b: uint32)
    requires IsFinite(a) && IsFinite(b)
    ensures var sig, e := Significand(a) * Significand(b), ScaleExponent(a) + ScaleExponent(b) - 147;
            && RoundScaled(sig, e - 4) == RoundScaled(ExactProduct(a, b), -UNIT)
            && RoundScaled(sig, e + 1 - 4) == RoundScaled(2 * ExactProduct(a, b), -UNIT)
  {
    UlpsOfOperand(a);
    UlpsOfOperand(b);
    var sig, e := Significand(a) * Significand(b), ScaleExponent(a) + ScaleExponent(b) - 147;
    var j := ScaleExponent(a) - 1 + (ScaleExponent(b) - 1);
    Pow2Add(ScaleExponent(a) - 1, ScaleExponent(b) - 1);
    Regroup(Significand(a), Significand(b), Pow2(ScaleExponent(a) - 1), Pow2(ScaleExponent(b) - 1));
    assert ExactProduct(a, b) == sig * Pow2(j);
    RescaleProduct(sig, e - 4, j, ExactProduct(a, b));
  }

  lemma RescaleProduct(sig: nat, e: int, j: nat, exact: nat)
    requires exact == sig * Pow2(j)
    ensures RoundScaled(sig, e) == RoundScaled(exact, e - j)
    ensures RoundScaled(sig, e + 1) == RoundScaled(2 * exact, e - j)
  {
    RoundScaledShift(sig, e, j);
    RoundScaledShift(sig, e + 1, j + 1);
    assert Pow2(j + 1) == 2 * Pow2(j);
    assert (e + 1) - (j + 1) == e - j;
    TwiceProduct(sig, Pow2(j));
  }

  lemma Regroup(x: nat, y: nat, p: nat, q: nat)
    ensures (x * p) * (y * q) == (x * y) * (p * q)
  {
    MulAssoc(x, p, y * q);
    MulAssoc(p, y, q);
    MulAssoc(y, p, q);
    MulAssoc(x, y, p * q);
  }

  /** A misread product is always rounded to a wrong magnitude. */
  lemma MisreadDiffers(a: uint32, b: uint32)
    requires Misread(a, b)
    ensures RoundScaled(2 * ExactProduct(a, b), -UNIT) != RoundScaled(ExactProduct(a, b), -UNIT)
  {
    SignificandProduct(a, b);
    ProductScale(a, b);
    var sig := Significand(a) * Significand(b);
    RoundGrs(sig, 1);
    JamStep(sig, 0, sig);
    JamRound(sig, 1, StickyShift(sig), -3);
    RoundGrs(StickyShift(sig), 1);
  }

  /** What internal_float_mul returns: the correctly rounded product, or that of twice the product. */
  ghost function Multiplied(a: uint32, b: uint32): uint32
    requires !IsNaN(a) && !IsNaN(b)
  {
    if Misread(a, b) then Encode(ProductSign(a, b), RoundScaled(2 * ExactProduct(a, b), -UNIT))
    else Product(a, b)
  }

  lemma MultipliedIsProduct(a: uint32, b: uint32)
    requires !IsNaN(a) && !IsNaN(b)
    ensures Multiplied(a, b) == Product(a, b) <==> !Misread(a, b)
    ensures SpecialOperand(a, b) ==> !Misread(a, b)
  {
    if Misread(a, b) {
      MisreadDiffers(a, b);
    }
  }

  lemma MultipliedSigned(a: uint32, b: uint32)
    requires !IsNaN(a) && !IsNaN(b)
    ensures !IsNaN(Multiplied(a, b)) ==> (Negative(Multiplied(a, b)) <==> Negative(a) != Negative(b))
    ensures !IsZero(a) && !IsZero(b) ==>
              !IsNaN(Multiplied(a, b)) && (Negative(Multiplied(a, b)) <==> Value(a) * Value(b) < 0)
  {
    ProductSigned(a, b);
    SignsMultiply(a, b);
    ProductEncoded(a, b, RoundScaled(2 * ExactProduct(a, b), -UNIT));
  }

  lemma NoZeroTimesInfinity(a: uint32, b: uint32)
    requires forall rule :: rule in CORNER_MUL ==> rule.a != a || rule.b != b
    ensures !(IsZero(a) && IsInfinite(b)) && !(IsInfinite(a) && IsZero(b))
  {
    assert CornerRule(P_ZERO, P_INF, N_NAN) in CORNER_MUL && CornerRule(P_ZERO, N_INF, N_NAN) in CORNER_MUL;
    assert CornerRule(N_ZERO, P_INF, N_NAN) in CORNER_MUL && CornerRule(N_ZERO, N_INF, N_NAN) in CORNER_MUL;
    assert CornerRule(P_INF, P_ZERO, N_NAN) in CORNER_MUL && CornerRule(P_INF, N_ZERO, N_NAN) in CORNER_MUL;
    assert CornerRule(N_INF, P_ZERO, N_NAN) in CORNER_MUL && CornerRule(N_INF, N_ZERO, N_NAN) in CORNER_MUL;
  }

  /** The table of internal_float_mul, and what its early returns rely on if it has no rule. */
  method MulTable(b: uint32, a: uint32) returns (hit: bool, r: uint32)
    ensures hit ==> !IsNaN(a) && !IsNaN(b) && SpecialOperand(a, b) && r == Product(a, b)
    ensures a == P_INF || a == N_INF <==> IsInfinite(a)
    ensures b == P_INF || b == N_INF <==> IsInfinite(b)
    ensures a == P_ZERO || a == N_ZERO <==> IsZero(a)
    ensures b == P_ZERO || b == N_ZERO <==> IsZero(b)
    ensures !hit && !IsNaN(a) && !IsNaN(b) && (IsZero(a) || IsZero(b)) ==>
              Product(a, b) == if SignOf(a) != SignOf(b) then N_ZERO else P_ZERO
    ensures !hit && !IsNaN(a) && !IsNaN(b) && (IsInfinite(a) || IsInfinite(b)) ==>
              Product(a, b) == if SignOf(a) != SignOf(b) then N_INF else P_INF
  {
    SpecialEncodings(a);
    SpecialEncodings(b);
    hit, r := FindCorner(CORNER_MUL, a, b);
    if hit {
      MulCorner(a, b, r);
    } else {
      MulNoCorner(a, b);
    }
  }

  /** The table and the early returns of internal_float_mul. */
  method MulSpecial(b: uint32, a: uint32) returns (done: bool, r: uint32)
    ensures done && !IsNaN(a) && !IsNaN(b) ==> SpecialOperand(a, b) && r == Product(a, b)
    ensures done && (CanonicalNaN(a) || CanonicalNaN(b)) ==> IsNaN(r)
    ensures !done ==> !SpecialOperand(a, b) && !CanonicalNaN(a) && !CanonicalNaN(b)
  {
    done, r := MulTable(b, a);
    if done {
      return;
    }
    done := true;
    if a == P_NAN || a == N_NAN || b == P_NAN || b == N_NAN {
      r := if a == P_NAN || b == P_NAN then P_NAN else N_NAN;
    } else if a == P_ZERO || a == N_ZERO || b == P_ZERO || b == N_ZERO {
      r := if SignOf(a) != SignOf(b) then N_ZERO else P_ZERO;
    } else if a == P_INF || a == N_INF || b == P_INF || b == N_INF {
      r := if SignOf(a) != SignOf(b) then N_INF else P_INF;
    } else {
      done, r := false, 0;
    }
  }

  /** internal_float_mul. */
  method FloatMul(b: uint32, a: uint32) returns (r: uint32)
    ensures !IsNaN(a) && !IsNaN(b) ==> r == Multiplied(a, b) && (r == Product(a, b) <==> !Misread(a, b))
    ensures !IsNaN(a) && !IsNaN(b) && !IsNaN(r) ==> (Negative(r) <==> Negative(a) != Negative(b))
    ensures CanonicalNaN(a) || CanonicalNaN(b) ==> IsNaN(r)
  {
    if !IsNaN(a) && !IsNaN(b) {
      MultipliedIsProduct(a, b);
      MultipliedSigned(a, b);
    }
    var done;
    done, r := MulSpecial(b, a);
    if !done {
      r := MulSignificands(b, a);
    }
  }

  lemma MulCorner(a: uint32, b: uint32, res: uint32)
    requires CornerRule(a, b, res) in CORNER_MUL
    ensures !IsNaN(a) && !IsNaN(b) && SpecialOperand(a, b) && res == Product(a, b)
  {
    SpecialEncodings(a);
    SpecialEncodings(b);
  }

  /** The early returns behind the table. */
  lemma MulNoCorner(a: uint32, b: uint32)
    requires forall rule :: rule in CORNER_MUL ==> rule.a != a || rule.b != b
    ensures a == P_INF || a == N_INF <==> IsInfinite(a)
    ensures b == P_INF || b == N_INF <==> IsInfinite(b)
    ensures a == P_ZERO || a == N_ZERO <==> IsZero(a)
    ensures b == P_ZERO || b == N_ZERO <==> IsZero(b)
    ensures !IsNaN(a) && !IsNaN(b) && (IsZero(a) || IsZero(b)) ==>
              Product(a, b) == if SignOf(a) != SignOf(b) then N_ZERO else P_ZERO
    ensures !IsNaN(a) && !IsNaN(b) && (IsInfinite(a) || IsInfinite(b)) ==>
              Product(a, b) == if SignOf(a) != SignOf(b) then N_INF else P_INF
  {
    NoZeroTimesInfinity(a, b);
    SpecialEncodings(a);
    SpecialEncodings(b);
    if IsFinite(a) && IsFinite(b) && (IsZero(a) || IsZero(b)) {
      ZeroProduct(a, b);
    }
  }
}
