/** internal_normalize of nemu/src/cpu/fpu.c: normalisation and rounding of a significand with GRS bits. */
module FpuNormalize {
  import opened PowersOfTwo
  import opened Words
  import opened Binary32

  /** The leading bit of a normalised significand that carries its guard, round and sticky bits. */
  const LEADING := 0x400_0000

  /** The exponent at which internal_normalize reads its input: sig * 2^(e-4) units. */
  function ReadExponent(exp: int, sig: nat): int {
    if exp == 0 && sig < 2 * LEADING then 1 else exp
  }

  /** A significand in position for rounding: normal, or denormal with the exponent field 0. */
  predicate InPosition(exp: int, sig: nat) {
    if exp == 0 then sig < LEADING else exp > 0 && LEADING <= sig < 2 * LEADING
  }

  /** The assignments to f.exponent and f.fraction keep 8 and 23 bits. */
  function Fields(exp: int, sig: nat): nat {
    exp % 0x100 * IMPLICIT_BIT + sig % IMPLICIT_BIT
  }

  lemma FieldsPacked(exp: nat, k: nat)
    requires exp <= 254
    requires if exp == 0 then k < IMPLICIT_BIT else IMPLICIT_BIT <= k < 2 * IMPLICIT_BIT
    ensures Fields(exp, k) == Packed(if exp == 0 then 1 else exp, k)
  {
  }

  /** The first branch of internal_normalize: sticky shifts to the right. */
  method NormalizeRight(exp0: int32, sig0: nat) returns (exp: int, sig: nat, overflow: bool)
    requires sig0 >= 2 * LEADING || exp0 < 0
    ensures overflow ==> sig == 0 && (exp == 0 || exp == 0xff)
    ensures overflow ==> exp * IMPLICIT_BIT == RoundScaled(sig0, exp0 - 4)
    ensures !overflow ==> InPosition(exp, sig) && exp <= 254
    ensures !overflow ==> RoundScaled(sig, ReadExponent(exp, sig) - 4) == RoundScaled(sig0, exp0 - 4)
    ensures !overflow && sig0 == 2 * LEADING && exp0 >= 0 ==> sig == LEADING
  {
    exp, sig, overflow := exp0, sig0, false;
    while (sig / LEADING > 1 && exp < 0xff) || (sig > 4 && exp < 0)
      invariant exp0 <= exp
      invariant RoundScaled(sig, exp - 4) == RoundScaled(sig0, exp0 - 4)
      invariant sig / LEADING > 1 || exp < 0 || (exp > 0 && sig >= LEADING) || (exp == 0 && exp0 < 0)
      invariant sig0 == 2 * LEADING && exp0 >= 0 ==> (sig == sig0 && exp == exp0) || sig == LEADING
      decreases sig
    {
      JamStep(sig, 0, sig);
      JamRound(sig, 1, StickyShift(sig), exp - 3);
      sig, exp := StickyShift(sig), exp + 1;
    }
    if exp >= 0xff {
      RoundOverflow(sig, exp - 4);
      exp, sig, overflow := 0xff, 0, true;
    }
    if exp == 0 {
      JamStep(sig, 0, sig);
      JamRound(sig, 1, StickyShift(sig), -3);
      sig := StickyShift(sig);
    }
    if exp < 0 {
      RoundUnderflow(sig, exp - 4);
      exp, sig, overflow := 0, 0, true;
    }
  }

  /** The second branch of internal_normalize: shifts to the left, until normal or denormal. */
  method NormalizeLeft(exp0: int32, sig0: nat) returns (exp: int, sig: nat)
    requires sig0 < LEADING && exp0 > 0
    ensures InPosition(exp, sig) && exp <= exp0
    ensures RoundScaled(sig, ReadExponent(exp, sig) - 4) == RoundScaled(sig0, exp0 - 4)
  {
    exp, sig := exp0, sig0;
    while sig / LEADING == 0 && exp > 0
      invariant 0 <= exp <= exp0 && sig < 2 * LEADING
      invariant RoundScaled(sig, exp - 4) == RoundScaled(sig0, exp0 - 4)
      decreases exp
    {
      RoundScaledShift(sig, exp - 4, 1);
      sig, exp := sig * 2, exp - 1;
    }
    if exp == 0 {
      JamStep(sig, 0, sig);
      JamRound(sig, 1, StickyShift(sig), -3);
      sig := StickyShift(sig);
    }
  }

  /** One normalisation, before rounding. */
  method NormalizePass(exp0: int32, sig0: nat) returns (exp: int, sig: nat, overflow: bool)
    ensures -0x8000_0000 <= exp < 0x8000_0000
    ensures overflow ==> sig == 0 && (exp == 0 || exp == 0xff)
    ensures !overflow ==> InPosition(exp, sig)
    ensures exp0 <= 254 || sig0 >= 2 * LEADING ==>
              (if overflow then Fields(exp, sig) == RoundScaled(sig0, ReadExponent(exp0, sig0) - 4)
               else && exp <= 254
                    && RoundScaled(sig, ReadExponent(exp, sig) - 4) == RoundScaled(sig0, ReadExponent(exp0, sig0) - 4))
    ensures !overflow && sig0 == 2 * LEADING && exp0 >= 0 ==> sig == LEADING
    ensures (exp0 == 0 && sig0 < 2 * LEADING) || (exp0 > 0 && LEADING <= sig0 < 2 * LEADING) ==>
              !overflow && sig == sig0
  {
    exp, sig, overflow := exp0, sig0, false;
    if sig / LEADING > 1 || exp < 0 {
      exp, sig, overflow := NormalizeRight(exp, sig);
    } else if sig / LEADING == 0 && exp > 0 {
      exp, sig := NormalizeLeft(exp, sig);
    } else if exp == 0 && sig / LEADING == 1 {
      exp := exp + 1;
    }
  }

  /** Dropping the guard, round and sticky bits gives the rounded magnitude, or another pass will. */
  lemma DropGrs(exp: nat, sig: nat)
    requires InPosition(exp, sig) && exp <= 254
    ensures var m := RoundScaled(sig, ReadExponent(exp, sig) - 4);
            if sig % 8 < 4 || (sig % 8 == 4 && sig / 8 % 2 == 0)
            then Fields(exp, sig / 8) == m
            else RoundScaled((sig / 8 + 1) * 8, ReadExponent(exp, (sig / 8 + 1) * 8) - 4) == m
  {
    var e := if exp == 0 then 1 else exp;
    RoundGrs(sig, e);
    FieldsPacked(exp, sig / 8);
    RoundPacked(sig / 8 + 1, e);
    assert Packed(e, sig / 8 + 1) == Packed(e, sig / 8) + 1;
  }

  /**
   internal_normalize.  The loop is its `goto GRS_OVERFLOW`; it is taken at most once, because the
   significand that was rounded up has no guard, round or sticky bits left; rounds counts it.
   */
  method Normalize(sign: nat, exp0: int32, sig0: uint64) returns (r: uint32, ghost rounds: nat)
    requires sign <= 1
    ensures rounds <= 1
    ensures exp0 <= 254 || sig0 >= 2 * LEADING ==>
              r == sign * SIGN_BIT + RoundScaled(sig0, ReadExponent(exp0, sig0) - 4)
  {
    var exp: int, sig: nat := exp0, sig0;
    ghost var meant := exp0 <= 254 || sig0 >= 2 * LEADING;
    ghost var m := RoundScaled(sig0, ReadExponent(exp0, sig0) - 4);
    rounds := 0;
    while true
      invariant rounds <= 1 && -0x8000_0000 <= exp < 0x8000_0000
      invariant meant ==> exp <= 254 || sig >= 2 * LEADING
      invariant meant ==> RoundScaled(sig, ReadExponent(exp, sig) - 4) == m
      invariant rounds == 1 ==> sig % 8 == 0 && sig <= 2 * LEADING && 0 <= exp && (sig >= LEADING || exp == 0)
      decreases 2 - rounds
    {
      var overflow;
      exp, sig, overflow := NormalizePass(exp, sig);
      if overflow {
        assert meant ==> Fields(exp, sig) == m;
        break;
      }
      assert InPosition(exp, sig);
      if meant { DropGrs(exp, sig); }
      var grs := sig % 8;
      sig := sig / 8;
      if grs < 4 || (grs == 4 && sig % 2 == 0) {
        break;
      }
      sig := (sig + 1) * 8;
      rounds := rounds + 1;
    }
    r := sign * SIGN_BIT + Fields(exp, sig);
  }
}
