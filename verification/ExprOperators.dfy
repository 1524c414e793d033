/**
 The operators of the debugger's expressions, on 32-bit unsigned words: how each is computed, and
 what the result has to be (ISO/IEC 9899:2011, sections 6.2.5, 6.5.3 and 6.5.5 to 6.5.14).
 */
module ExprOperators {
  import opened Bits
  import opened PowersOfTwo
  import opened Words
  import opened Wrappers

  type Word = uint32

  datatype BinOp =
    | Or | And | BitOr | BitXor | BitAnd | Eq | Neq | Leq | Less | Geq | Greater
    | Shl | Shr | Plus | Minus | Times | Divide | Modulo

  datatype UnOp = Complement | Not | Deref

  /**
   What an expression is evaluated in: the values of its operands (numbers, registers and symbols;
   None for an unknown symbol), the words in memory, and what the host does where C leaves a
   division by zero or an oversized shift undefined.
   */
  datatype Env = Env(operand: string -> Option<Word>, load: Word -> Word, undefined: (BinOp, Word, Word) -> Word)

  const MEM_SIZE: Word := 0x800_0000

  function Truth(b: bool): Word {
    if b then 1 else 0
  }

  /** x << n and x >> n, one place at a time. */
  function ShiftedLeft(x: Word, n: nat): Word
    decreases n
  {
    if n == 0 then x else ShiftedLeft(2 * x % WRAP, n - 1)
  }

  function ShiftedRight(x: Word, n: nat): Word
    decreases n
  {
    if n == 0 then x else ShiftedRight(x / 2, n - 1)
  }

  function BitwiseWord(f: (bool, bool) -> bool, x: Word, y: Word): Word {
    Pow2Of32();
    Bitwise(f, x, y, 32)
  }

  function Quotient(x: Word, y: Word): Word
    requires y != 0
  {
    QuotientFits(x, y);
    x / y
  }

  lemma QuotientFits(x: nat, y: nat)
    requires y > 0
    ensures 0 <= x / y <= x
  {
    assert x == x / y * y + x % y;
    if x / y > x {
      MulMonotone(x + 1, x / y, y);
      MulMonotone(1, y, x + 1);
    }
  }

  function Apply(env: Env, op: BinOp, x: Word, y: Word): Word {
    match op
    case Or => Truth(x != 0 || y != 0)
    case And => Truth(x != 0 && y != 0)
    case BitOr => BitwiseWord((a, b) => a || b, x, y)
    case BitXor => BitwiseWord((a, b) => a != b, x, y)
    case BitAnd => BitwiseWord((a, b) => a && b, x, y)
    case Eq => Truth(x == y)
    case Neq => Truth(x != y)
    case Leq => Truth(x <= y)
    case Less => Truth(x < y)
    case Geq => Truth(x >= y)
    case Greater => Truth(x > y)
    case Shl => if y < 32 then ShiftedLeft(x, y) else env.undefined(op, x, y)
    case Shr => if y < 32 then ShiftedRight(x, y) else env.undefined(op, x, y)
    case Plus => (x + y) % WRAP
    case Minus => (x - y) % WRAP
    case Times => x * y % WRAP
    case Divide => if y != 0 then Quotient(x, y) else env.undefined(op, x, y)
    case Modulo => if y != 0 then x % y else env.undefined(op, x, y)
  }

  function ApplyUnary(env: Env, op: UnOp, x: Option<Word>): Option<Word> {
    if x.None? then None
    else match op
      case Complement => Some(BitwiseWord((a, b) => !a, x.value, x.value))
      case Not => Some(Truth(x.value == 0))
      case Deref => if (x.value + 4) % WRAP >= MEM_SIZE then None else Some(env.load(x.value))
  }

  lemma Pow2Of32()
    ensures Pow2(32) == WRAP
  {
    assert Pow2(8) == 0x100;
    Pow2Sum(16, 8, 8);
    Pow2Sum(32, 16, 16);
  }

  /* ---- what the results have to be ---- */

  /** a and b differ by a multiple of 2^32. */
  ghost predicate Congruent(a: int, b: int) {
    exists k: int :: a - b == k * WRAP
  }

  /** z is the truth value of b. */
  ghost predicate Tells(z: Word, b: bool) {
    z <= 1 && (z == 1 <==> b)
  }

  /** x is y with something added, and how much. */
  ghost predicate Above(x: int, y: int, d: int) {
    d > 0 && x == y + d
  }

  ghost predicate QuotientAndRest(x: nat, y: nat, q: nat, r: nat) {
    r < y && x == q * y + r
  }

  /** The result z of a binary operator, by the integers that the words stand for and by their bits. */
  ghost predicate Means(env: Env, op: BinOp, x: Word, y: Word, z: Word) {
    match op
    case Or => z <= 1 && (z == 0 <==> x + y == 0)
    case And => z <= 1 && (z == 0 <==> x * y == 0)
    case BitOr => forall i: nat :: i < 32 ==> (BitAt(z, i) <==> BitAt(x, i) || BitAt(y, i))
    case BitXor => forall i: nat :: i < 32 ==> (BitAt(z, i) <==> BitAt(x, i) != BitAt(y, i))
    case BitAnd => forall i: nat :: i < 32 ==> (BitAt(z, i) <==> BitAt(x, i) && BitAt(y, i))
    case Eq => Tells(z, x - y == 0)
    case Neq => Tells(z, (exists d :: Above(x, y, d)) || exists d :: Above(y, x, d))
    case Less => Tells(z, exists d :: Above(y, x, d))
    case Greater => Tells(z, exists d :: Above(x, y, d))
    case Leq => Tells(z, !exists d :: Above(x, y, d))
    case Geq => Tells(z, !exists d :: Above(y, x, d))
    case Shl => if y < 32 then Congruent(z, x * Pow2(y)) else z == env.undefined(Shl, x, y)
    case Shr => if y < 32 then z * Pow2(y) <= x < (z + 1) * Pow2(y) else z == env.undefined(Shr, x, y)
    case Plus => Congruent(z, x + y)
    case Minus => Congruent(z + y, x)
    case Times => Congruent(z, x * y)
    case Divide =>
      if y > 0 then exists r: nat :: QuotientAndRest(x, y, z, r) else z == env.undefined(Divide, x, y)
    case Modulo =>
      if y > 0 then exists q: nat :: QuotientAndRest(x, y, q, z) else z == env.undefined(Modulo, x, y)
  }

  /** The result z of a unary operator, None for a load outside memory. */
  ghost predicate UnaryMeans(env: Env, op: UnOp, x: Word, z: Option<Word>) {
    match op
    case Complement => z.Some? && x + z.value == 0xffff_ffff
    case Not => z.Some? && Tells(z.value, x == 0)
    case Deref => if 0x7ff_fffc <= x < 0xffff_fffc then z.None? else z == Some(env.load(x))
  }

  lemma {:induction false} ShiftedLeftIs(x: Word, n: nat)
    ensures ShiftedLeft(x, n) == x * Pow2(n) % WRAP
    decreases n
  {
    if n == 0 {
      DivModUnique(x, 0, WRAP, x);
    } else {
      var x', p := 2 * x % WRAP, Pow2(n - 1);
      ShiftedLeftIs(x', n - 1);
      var c := 2 * x / WRAP;
      assert 2 * x == c * WRAP + x';
      Distribute(c * WRAP, x', p);
      MulSwap(c, WRAP, p);
      TwiceProduct(x, p);
      MulAssoc(2, x, p);
      AddMultiple(x' * p, c * p, WRAP);
    }
  }

  lemma {:induction false} ShiftedRightIs(x: Word, n: nat)
    ensures ShiftedRight(x, n) == x / Pow2(n)
    decreases n
  {
    if n > 0 {
      ShiftedRightIs(x / 2, n - 1);
      HalfFirst(x, n - 1);
    }
  }

  /** A word is determined by what it is congruent to. */
  lemma CongruentWord(z: Word, a: int)
    ensures Congruent(z, a) <==> z == a % WRAP
  {
    assert a % WRAP - a == (0 - a / WRAP) * WRAP;
    if k: int :| z - a == k * WRAP {
      DivModUnique(a, 0 - k, WRAP, z);
    }
  }

  lemma CongruentDifference(z: Word, x: int, y: int)
    ensures Congruent(z + y, x) <==> Congruent(z, x - y)
  {
    if k: int :| z + y - x == k * WRAP {
      assert z - (x - y) == k * WRAP;
    }
    if k: int :| z - (x - y) == k * WRAP {
      assert z + y - x == k * WRAP;
    }
  }

  lemma ArithmeticMeans(env: Env, op: BinOp, x: Word, y: Word, z: Word)
    requires op.Plus? || op.Minus? || op.Times?
    ensures Means(env, op, x, y, z) <==> z == Apply(env, op, x, y)
  {
    CongruentWord(z, x + y);
    CongruentDifference(z, x, y);
    CongruentWord(z, x - y);
    CongruentWord(z, x * y);
  }

  lemma DivisionMeans(env: Env, op: BinOp, x: Word, y: Word, z: Word)
    requires op.Divide? || op.Modulo?
    ensures Means(env, op, x, y, z) <==> z == Apply(env, op, x, y)
  {
    if y > 0 {
      assert QuotientAndRest(x, y, x / y, x % y);
      forall q: nat, r: nat | QuotientAndRest(x, y, q, r)
        ensures q == x / y && r == x % y
      {
        DivModUnique(x, q, y, r);
      }
    }
  }

  lemma ShiftMeans(env: Env, op: BinOp, x: Word, y: Word, z: Word)
    requires op.Shl? || op.Shr?
    ensures Means(env, op, x, y, z) <==> z == Apply(env, op, x, y)
  {
    ShiftedLeftIs(x, y);
    CongruentWord(z, x * Pow2(y));
    ShiftedRightIs(x, y);
    var p := Pow2(y);
    assert x == x / p * p + x % p;
    Distribute(x / p, 1, p);
    Distribute(z, 1, p);
    if z * p <= x < (z + 1) * p {
      DivModUnique(x, z, p, x - z * p);
    }
  }

  lemma OrderMeans(env: Env, op: BinOp, x: Word, y: Word, z: Word)
    requires op.Eq? || op.Neq? || op.Leq? || op.Less? || op.Geq? || op.Greater?
    ensures Means(env, op, x, y, z) <==> z == Apply(env, op, x, y)
  {
    if x < y {
      assert Above(y, x, y - x);
    } else if y < x {
      assert Above(x, y, x - y);
    }
  }

  lemma LogicMeans(env: Env, op: BinOp, x: Word, y: Word, z: Word)
    requires op.Or? || op.And?
    ensures Means(env, op, x, y, z) <==> z == Apply(env, op, x, y)
  {
    if x > 0 && y > 0 {
      MulPositive(x, y);
    }
  }

  lemma BitwiseMeans(f: (bool, bool) -> bool, x: Word, y: Word, z: Word)
    ensures (forall i: nat :: i < 32 ==> (BitAt(z, i) <==> f(BitAt(x, i), BitAt(y, i)))) <==> z == BitwiseWord(f, x, y)
  {
    Pow2Of32();
    var r := Bitwise(f, x, y, 32);
    forall i: nat
      ensures BitAt(r, i) <==> i < 32 && f(BitAt(x, i), BitAt(y, i))
    {
      BitwiseAt(f, x, y, 32, i);
    }
    if forall i: nat :: i < 32 ==> (BitAt(z, i) <==> f(BitAt(x, i), BitAt(y, i))) {
      SameDigits(z, r, 32);
    }
  }

  /** The result of an operator is the one word that it has to be. */
  lemma ApplyMeans(env: Env, op: BinOp, x: Word, y: Word, z: Word)
    ensures Means(env, op, x, y, z) <==> z == Apply(env, op, x, y)
  {
    match op
    case Or => LogicMeans(env, op, x, y, z);
    case And => LogicMeans(env, op, x, y, z);
    case BitOr => BitwiseMeans((a, b) => a || b, x, y, z);
    case BitXor => BitwiseMeans((a, b) => a != b, x, y, z);
    case BitAnd => BitwiseMeans((a, b) => a && b, x, y, z);
    case Shl => ShiftMeans(env, op, x, y, z);
    case Shr => ShiftMeans(env, op, x, y, z);
    case Plus => ArithmeticMeans(env, op, x, y, z);
    case Minus => ArithmeticMeans(env, op, x, y, z);
    case Times => ArithmeticMeans(env, op, x, y, z);
    case Divide => DivisionMeans(env, op, x, y, z);
    case Modulo => DivisionMeans(env, op, x, y, z);
    case _ => OrderMeans(env, op, x, y, z);
  }

  lemma UnaryApplyMeans(env: Env, op: UnOp, x: Word, z: Option<Word>)
    ensures UnaryMeans(env, op, x, z) <==> z == ApplyUnary(env, op, Some(x))
  {
    match op
    case Complement => ComplementIs(x);
    case Not =>
    case Deref => LoadRange(x);
  }

  /** The range test of a load wraps around at the top. */
  lemma LoadRange(x: Word)
    ensures (x + 4) % WRAP >= MEM_SIZE <==> 0x7ff_fffc <= x < 0xffff_fffc
  {
  }

  lemma ComplementIs(x: Word)
    ensures BitwiseWord((a, b) => !a, x, x) == 0xffff_ffff - x
  {
    Pow2Of32();
    BitwiseNot(x, 32);
  }

  /* ---- laws ---- */

  /** Exactly one of <, == and > holds, and the other three comparisons are their opposites. */
  lemma OneOrder(env: Env, x: Word, y: Word)
    ensures Apply(env, Less, x, y) + Apply(env, Eq, x, y) + Apply(env, Greater, x, y) == 1
    ensures Apply(env, Leq, x, y) == 1 - Apply(env, Greater, x, y)
    ensures Apply(env, Geq, x, y) == 1 - Apply(env, Less, x, y)
    ensures Apply(env, Neq, x, y) == 1 - Apply(env, Eq, x, y)
    ensures Apply(env, Less, x, y) == Apply(env, Greater, y, x)
  {
  }
}
