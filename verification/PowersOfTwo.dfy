/** Powers of two over the natural numbers, with the few facts the bit-level proofs need. */
module PowersOfTwo {

  function Pow2(n: nat): (r: nat)
    ensures r > 0
  {
    if n == 0 then 1 else 2 * Pow2(n - 1)
  }

  lemma {:induction false} Pow2Add(a: nat, b: nat)
    ensures Pow2(a + b) == Pow2(a) * Pow2(b)
  {
    if a == 0 {
    } else {
      Pow2Add(a - 1, b);
    }
  }

  lemma Pow2Sum(n: nat, a: nat, b: nat)
    requires n == a + b
    ensures Pow2(n) == Pow2(a) * Pow2(b)
  {
    Pow2Add(a, b);
  }

  lemma {:induction false} Pow2Monotone(a: nat, b: nat)
    requires a <= b
    ensures Pow2(a) <= Pow2(b)
  {
    if a == b {
    } else {
      Pow2Monotone(a, b - 1);
    }
  }

  lemma MulMonotone(a: nat, b: nat, c: nat)
    requires a <= b
    ensures a * c <= b * c
  {
  }

  lemma MulStrict(a: int, b: int, c: int)
    requires c > 0
    ensures a < b <==> a * c < b * c
    ensures a == b <==> a * c == b * c
  {
    if a < b {
      assert (b - a) * c > 0;
    } else if a > b {
      assert (a - b) * c > 0;
    }
  }

  lemma MulMonotoneInt(a: int, b: int, c: nat)
    requires a <= b
    ensures a * c <= b * c
  {
    assert (b - a) * c >= 0;
  }

  lemma MulAssoc(a: int, b: int, c: int)
    ensures (a * b) * c == a * (b * c)
  {
  }

  lemma MulSwap(a: int, b: int, c: int)
    ensures (a * b) * c == (a * c) * b
  {
  }

  lemma MulNatural(a: nat, b: nat)
    ensures a * b >= 0
  {
  }

  lemma MulPositive(a: nat, b: nat)
    requires a > 0 && b > 0
    ensures a * b > 0
  {
  }

  lemma TwiceProduct(x: int, p: int)
    ensures x * (2 * p) == 2 * (x * p)
  {
  }

  lemma Distribute(a: int, b: int, c: int)
    ensures (a + b) * c == a * c + b * c
  {
  }

  lemma DivModUnique(x: int, q: int, d: int, r: int)
    requires 0 <= r < d && x == q * d + r
    ensures x / d == q && x % d == r
  {
    var q', r' := x / d, x % d;
    assert x == q' * d + r';
    if q' > q {
      MulMonotoneInt(q + 1, q', d);
    } else if q' < q {
      MulMonotoneInt(q' + 1, q, d);
    }
  }

  lemma AddMultiple(x: int, c: int, d: int)
    requires d > 0
    ensures (x + c * d) % d == x % d && (x + c * d) / d == x / d + c
  {
    Distribute(x / d, c, d);
    DivModUnique(x + c * d, x / d + c, d, x % d);
  }

  /** Reducing modulo a multiple of m first changes nothing. */
  lemma NestedMod(x: int, k: int, m: int)
    requires k > 0 && m > 0
    ensures k * m > 0 && x % (k * m) % m == x % m
  {
    MulPositive(k, m);
    var q := x / (k * m);
    MulAssoc(q, k, m);
    AddMultiple(x % (k * m), q * k, m);
  }

  lemma ModSum(a: int, b: int, c: int, m: int)
    requires m > 0
    ensures (a % m + b % m + c) % m == (a + b + c) % m
  {
    Distribute(a / m, b / m, m);
    AddMultiple(a % m + b % m + c, a / m + b / m, m);
  }

  lemma ModDifference(a: int, b: int, c: int, m: int)
    requires m > 0
    ensures (a % m - b % m - c) % m == (a - b - c) % m
  {
    Distribute(a / m - b / m, b / m, m);
    AddMultiple(a % m - b % m - c, a / m - b / m, m);
  }
}
