/** The binary digits of a natural number, and operations that work on them one by one. */
module Bits {
  import opened PowersOfTwo

  predicate BitAt(x: nat, i: nat) {
    x / Pow2(i) % 2 == 1
  }

  /** The places below k at which x has a one. */
  function OnesBelow(x: nat, k: nat): set<nat> {
    set i: nat | i < k && x / Pow2(i) % 2 == 1
  }

  function Digit(b: bool): (d: nat)
    ensures d < 2
  {
    if b then 1 else 0
  }

  /** The n lowest digits of x and y, put together by f. */
  function Bitwise(f: (bool, bool) -> bool, x: nat, y: nat, n: nat): (z: nat)
    ensures z < Pow2(n)
  {
    if n == 0 then 0 else 2 * Bitwise(f, x / 2, y / 2, n - 1) + Digit(f(x % 2 == 1, y % 2 == 1))
  }

  lemma BitAtNext(x: nat, i: nat)
    ensures BitAt(x, 0) <==> x % 2 == 1
    ensures BitAt(x, i + 1) <==> BitAt(x / 2, i)
  {
    assert Pow2(0) == 1;
    HalfFirst(x, i);
  }

  lemma HalfFirst(x: nat, i: nat)
    ensures x / Pow2(i + 1) == x / 2 / Pow2(i)
  {
    var h, p := x / 2, Pow2(i);
    var q, r := h / p, h % p;
    assert h == q * p + r;
    TwiceProduct(q, p);
    DivModUnique(x, q, 2 * p, 2 * r + x % 2);
  }

  /** Every digit of the result is f of the two digits in its place. */
  lemma {:induction false} BitwiseAt(f: (bool, bool) -> bool, x: nat, y: nat, n: nat, i: nat)
    ensures BitAt(Bitwise(f, x, y, n), i) <==> i < n && f(BitAt(x, i), BitAt(y, i))
    decreases n
  {
    var z := Bitwise(f, x, y, n);
    if n == 0 {
      assert z == 0;
      DivModUnique(0, 0, Pow2(i), 0);
    } else {
      var d := Digit(f(x % 2 == 1, y % 2 == 1));
      assert z == 2 * Bitwise(f, x / 2, y / 2, n - 1) + d;
      assert z / 2 == Bitwise(f, x / 2, y / 2, n - 1) && z % 2 == d;
      if i == 0 {
        BitAtNext(z, 0);
        BitAtNext(x, 0);
        BitAtNext(y, 0);
      } else {
        BitAtNext(z, i - 1);
        BitAtNext(x, i - 1);
        BitAtNext(y, i - 1);
        BitwiseAt(f, x / 2, y / 2, n - 1, i - 1);
      }
    }
  }

  /** A number is known by its digits. */
  lemma {:induction false} SameDigits(x: nat, y: nat, n: nat)
    requires x < Pow2(n) && y < Pow2(n) && forall i: nat :: i < n ==> BitAt(x, i) == BitAt(y, i)
    ensures x == y
    decreases n
  {
    if n > 0 {
      BitAtNext(x, 0);
      BitAtNext(y, 0);
      assert BitAt(x, 0) == BitAt(y, 0);
      forall i: nat | i < n - 1
        ensures BitAt(x / 2, i) == BitAt(y / 2, i)
      {
        BitAtNext(x, i);
        BitAtNext(y, i);
        assert BitAt(x, i + 1) == BitAt(y, i + 1);
      }
      SameDigits(x / 2, y / 2, n - 1);
    }
  }

  /** Turning all digits over subtracts from the number whose digits are all ones. */
  lemma {:induction false} BitwiseNot(x: nat, n: nat)
    requires x < Pow2(n)
    ensures Bitwise((a, b) => !a, x, x, n) == Pow2(n) - 1 - x
    decreases n
  {
    if n > 0 {
      BitwiseNot(x / 2, n - 1);
    }
  }

  /* ---- counting the ones ---- */

  lemma NoOnesFrom(x: nat, k: nat, i: nat)
    requires x < Pow2(k) && k <= i
    ensures !BitAt(x, i)
  {
    Pow2Monotone(k, i);
    DivModUnique(x, 0, Pow2(i), x);
  }

  lemma OnesNext(x: nat, k: nat)
    ensures |OnesBelow(x, k + 1)| == |OnesBelow(x, k)| + x / Pow2(k) % 2
  {
    assert OnesBelow(x, k + 1) == OnesBelow(x, k) + if BitAt(x, k) then {k} else {};
  }

  /** Below Pow2(k) all ones are counted after k places. */
  lemma AllOnes(x: nat, k: nat, n: nat)
    requires x < Pow2(k) && x < Pow2(n)
    ensures OnesBelow(x, k) == OnesBelow(x, n)
  {
    forall i: nat | i < k || i < n
      ensures i in OnesBelow(x, k) <==> i in OnesBelow(x, n)
    {
      if i >= k {
        NoOnesFrom(x, k, i);
      }
      if i >= n {
        NoOnesFrom(x, n, i);
      }
    }
  }

  /** The n lowest places are those of the remainder. */
  lemma LowOnes(x: nat, n: nat)
    ensures OnesBelow(x % Pow2(n), n) == OnesBelow(x, n)
  {
    forall i: nat | i < n
      ensures x % Pow2(n) / Pow2(i) % 2 == x / Pow2(i) % 2
    {
      Pow2Sum(n, n - i, i);
      assert Pow2(n - i) == 2 * Pow2(n - i - 1) && Pow2(n) > 0;
      LowPlaces(x, Pow2(n), Pow2(i), Pow2(n - i - 1));
    }
  }

  lemma LowPlaces(x: nat, m: nat, p: nat, h: nat)
    requires p > 0 && m == 2 * h * p > 0
    ensures x % m / p % 2 == x / p % 2
  {
    var q, r := x / m, x % m;
    assert x == r + q * m;
    MulAssoc(q, 2 * h, p);
    AddMultiple(r, q * (2 * h), p);
    EvenAdded(r / p, q, h);
  }

  lemma EvenAdded(s: nat, q: nat, h: nat)
    ensures (s + q * (2 * h)) % 2 == s % 2
  {
    TwiceProduct(q, h);
  }
}
