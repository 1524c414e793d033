/**
 Debugger expressions: their trees, their values in C (ISO/IEC 9899:2011, sections 6.5.3 and 6.5.5
 to 6.5.14) and as the debugger reads them, and their token lists.
 */
module ExprTree {
  import opened ExprOperators
  import opened Wrappers

  datatype Token =
    | Operand(text: string)
    | Open
    | Close
    | Binary(bop: BinOp)
    | Unary(uop: UnOp)
    | NoToken

  /** The precedence level, as find_dom_op numbers them: 1 binds loosest. */
  function Level(op: BinOp): nat {
    match op
    case Or => 1
    case And => 2
    case BitOr => 3
    case BitXor => 4
    case BitAnd => 5
    case Eq => 6
    case Neq => 6
    case Leq => 7
    case Less => 7
    case Geq => 7
    case Greater => 7
    case Shl => 8
    case Shr => 8
    case Plus => 9
    case Minus => 9
    case Times => 10
    case Divide => 10
    case Modulo => 10
  }

  /** Every operator binds tighter than those of the lines below it, and as tight as those of its own line. */
  lemma PrecedenceOfC()
    ensures Level(Times) == Level(Divide) == Level(Modulo)
            > Level(Plus) == Level(Minus)
            > Level(Shl) == Level(Shr)
            > Level(Less) == Level(Leq) == Level(Greater) == Level(Geq)
            > Level(Eq) == Level(Neq)
            > Level(BitAnd) > Level(BitXor) > Level(BitOr) > Level(And) > Level(Or)
  {
  }

  /** Operators and operands; a Prefix holds the whole chain of unary operators before its operand. */
  datatype Expr =
    | Leaf(text: string)
    | Group(inner: Expr)
    | Prefix(ops: seq<UnOp>, operand: Expr)
    | Infix(op: BinOp, left: Expr, right: Expr)

  function ExprLevel(e: Expr): nat {
    match e
    case Leaf(_) => 12
    case Group(_) => 12
    case Prefix(_, _) => 11
    case Infix(op, _, _) => Level(op)
  }

  /** The tree is one the C grammar gives to its own token list. */
  predicate WellFormed(e: Expr) {
    match e
    case Leaf(_) => true
    case Group(inner) => WellFormed(inner)
    case Prefix(ops, x) => ops != [] && ExprLevel(x) == 12 && WellFormed(x)
    case Infix(op, l, r) => Level(op) <= ExprLevel(l) && Level(op) < ExprLevel(r) && WellFormed(l) && WellFormed(r)
  }

  function UnaryTokens(ops: seq<UnOp>): (ts: seq<Token>)
    ensures |ts| == |ops| && forall i :: 0 <= i < |ops| ==> ts[i] == Unary(ops[i])
  {
    seq(|ops|, i requires 0 <= i < |ops| => Unary(ops[i]))
  }

  function Print(e: Expr): (ts: seq<Token>)
    ensures WellFormed(e) ==> |ts| > 0
  {
    match e
    case Leaf(text) => [Operand(text)]
    case Group(inner) => [Open] + Print(inner) + [Close]
    case Prefix(ops, x) => UnaryTokens(ops) + Print(x)
    case Infix(op, l, r) => Print(l) + [Binary(op)] + Print(r)
  }

  /* ---- C semantics; None when an operand is unknown or a load is out of range ---- */

  function ApplyChain(env: Env, ops: seq<UnOp>, x: Option<Word>): Option<Word> {
    if ops == [] then x else ApplyUnary(env, ops[0], ApplyChain(env, ops[1..], x))
  }

  function Combine(env: Env, op: BinOp, x: Option<Word>, y: Option<Word>): Option<Word> {
    if x.None? || y.None? then None else Some(Apply(env, op, x.value, y.value))
  }

  function Value(env: Env, e: Expr): Option<Word> {
    match e
    case Leaf(text) => env.operand(text)
    case Group(inner) => Value(env, inner)
    case Prefix(ops, x) => ApplyChain(env, ops, Value(env, x))
    case Infix(op, l, r) => Combine(env, op, Value(env, l), Value(env, r))
  }

  /* ---- how the debugger reads a chain of unary operators ---- */

  /** The first position of u in ops, or 0. */
  function FirstOf(ops: seq<UnOp>, u: UnOp): (i: nat)
    ensures u in ops ==> i < |ops| && ops[i] == u && forall j :: 0 <= j < i ==> ops[j] != u
    ensures u !in ops ==> i == 0
  {
    if u !in ops || ops[0] == u then 0
    else
      assert u in ops[1..];
      1 + FirstOf(ops[1..], u)
  }

  function Max(a: nat, b: nat): nat {
    if a > b then a else b
  }

  /** The operator the debugger takes for the outermost one: everything before it is dropped. */
  function ChainHead(ops: seq<UnOp>): (k: nat)
    requires ops != []
    ensures k < |ops|
  {
    Max(Max(FirstOf(ops, Complement), FirstOf(ops, Not)), FirstOf(ops, Deref))
  }

  function Kept(ops: seq<UnOp>): seq<UnOp> {
    if ops == [] then [] else
      var k := ChainHead(ops);
      [ops[k]] + Kept(ops[k + 1..])
  }

  function ReadValue(env: Env, e: Expr): Option<Word> {
    match e
    case Leaf(text) => env.operand(text)
    case Group(inner) => ReadValue(env, inner)
    case Prefix(ops, x) => ApplyChain(env, Kept(ops), ReadValue(env, x))
    case Infix(op, l, r) => Combine(env, op, ReadValue(env, l), ReadValue(env, r))
  }

  predicate UniformChain(ops: seq<UnOp>) {
    forall i :: 0 <= i < |ops| ==> ops[i] == ops[0]
  }

  predicate UniformChains(e: Expr) {
    match e
    case Leaf(_) => true
    case Group(inner) => UniformChains(inner)
    case Prefix(ops, x) => UniformChain(ops) && UniformChains(x)
    case Infix(_, l, r) => UniformChains(l) && UniformChains(r)
  }

  lemma {:induction false} KeptLength(ops: seq<UnOp>)
    ensures |Kept(ops)| <= |ops|
  {
    if ops != [] {
      KeptLength(ops[ChainHead(ops) + 1..]);
    }
  }

  /** A chain is read whole exactly when its operators are all the same. */
  lemma {:induction false} KeptWhole(ops: seq<UnOp>)
    ensures Kept(ops) == ops <==> UniformChain(ops)
    decreases |ops|
  {
    if ops != [] {
      var k := ChainHead(ops);
      if k == 0 {
        HeadFirst(ops);
        UniformTail(ops);
        KeptWhole(ops[1..]);
        assert ops == [ops[0]] + ops[1..];
      } else {
        KeptLength(ops[k + 1..]);
        assert |Kept(ops)| < |ops|;
        HeadElsewhere(ops);
      }
    }
  }

  lemma UniformTail(ops: seq<UnOp>)
    requires ops != [] && UniformChain(ops)
    ensures UniformChain(ops[1..])
  {
    var rest := ops[1..];
    forall i | 0 <= i < |rest|
      ensures rest[i] == rest[0]
    {
      assert rest[i] == ops[i + 1] && rest[0] == ops[1];
    }
  }

  lemma HeadElsewhere(ops: seq<UnOp>)
    requires ops != [] && ChainHead(ops) > 0
    ensures !UniformChain(ops)
  {
    var k := ChainHead(ops);
    assert k == FirstOf(ops, Complement) || k == FirstOf(ops, Not) || k == FirstOf(ops, Deref);
    assert ops[k] != ops[0];
  }

  /** If the head is the first operator, no operator of another kind occurs at all. */
  lemma HeadFirst(ops: seq<UnOp>)
    requires ops != [] && ChainHead(ops) == 0
    ensures UniformChain(ops)
  {
    forall i | 0 <= i < |ops|
      ensures ops[i] == ops[0]
    {
      assert FirstOf(ops, ops[i]) == 0;
    }
  }

  /** With uniform chains the debugger's reading has the C value. */
  lemma {:induction false} UniformReadsAsC(env: Env, e: Expr)
    requires UniformChains(e)
    ensures ReadValue(env, e) == Value(env, e)
  {
    match e
    case Leaf(_) =>
    case Group(inner) => UniformReadsAsC(env, inner);
    case Prefix(ops, x) =>
      KeptWhole(ops);
      UniformReadsAsC(env, x);
    case Infix(_, l, r) =>
      UniformReadsAsC(env, l);
      UniformReadsAsC(env, r);
  }

  /** The tree without the operators that the debugger drops. */
  function AsRead(e: Expr): Expr {
    match e
    case Leaf(_) => e
    case Group(inner) => Group(AsRead(inner))
    case Prefix(ops, x) => Prefix(Kept(ops), AsRead(x))
    case Infix(op, l, r) => Infix(op, AsRead(l), AsRead(r))
  }

  /** The debugger's reading is the C value of what it keeps, and it keeps all exactly if no chain is mixed. */
  lemma {:induction false} ReadsWhatIsKept(env: Env, e: Expr)
    ensures ReadValue(env, e) == Value(env, AsRead(e))
    ensures AsRead(e) == e <==> UniformChains(e)
    decreases e
  {
    match e
    case Leaf(_) =>
    case Group(inner) => ReadsWhatIsKept(env, inner);
    case Prefix(ops, x) =>
      KeptWhole(ops);
      ReadsWhatIsKept(env, x);
    case Infix(_, l, r) =>
      ReadsWhatIsKept(env, l);
      ReadsWhatIsKept(env, r);
  }

  /* ---- the value of a tree, by what the results of its operators have to be ---- */

  ghost predicate ChainYields(env: Env, ops: seq<UnOp>, x: Word, v: Word) {
    if ops == [] then v == x
    else exists u: Word :: ChainYields(env, ops[1..], x, u) && UnaryMeans(env, ops[0], u, Some(v))
  }

  /** The value of e is v, in C or, as the debugger reads its chains, with the operators that it keeps. */
  ghost predicate Yields(env: Env, e: Expr, asRead: bool, v: Word) {
    match e
    case Leaf(text) => env.operand(text) == Some(v)
    case Group(inner) => Yields(env, inner, asRead, v)
    case Prefix(ops, x) =>
      exists y: Word :: Yields(env, x, asRead, y) && ChainYields(env, if asRead then Kept(ops) else ops, y, v)
    case Infix(op, l, r) =>
      exists x: Word, y: Word :: Yields(env, l, asRead, x) && Yields(env, r, asRead, y) && Means(env, op, x, y, v)
  }

  lemma {:induction false} ChainValue(env: Env, ops: seq<UnOp>, x: Word, v: Word)
    ensures ChainYields(env, ops, x, v) <==> ApplyChain(env, ops, Some(x)) == Some(v)
    decreases ops
  {
    if ops != [] {
      var rest := ApplyChain(env, ops[1..], Some(x));
      forall u: Word
        ensures ChainYields(env, ops[1..], x, u) <==> rest == Some(u)
        ensures UnaryMeans(env, ops[0], u, Some(v)) <==> ApplyUnary(env, ops[0], Some(u)) == Some(v)
      {
        ChainValue(env, ops[1..], x, u);
        UnaryApplyMeans(env, ops[0], u, Some(v));
      }
      if rest.Some? && ApplyUnary(env, ops[0], rest) == Some(v) {
        assert ChainYields(env, ops[1..], x, rest.value);
      }
    }
  }

  lemma {:induction false} NoChain(env: Env, ops: seq<UnOp>)
    ensures ApplyChain(env, ops, None) == None
    decreases ops
  {
    if ops != [] {
      NoChain(env, ops[1..]);
    }
  }

  /** Both values of a tree are the ones that its operators, taken by their meaning, give. */
  lemma {:induction false} ValueYields(env: Env, e: Expr, asRead: bool, v: Word)
    ensures Yields(env, e, asRead, v) <==> (if asRead then ReadValue(env, e) else Value(env, e)) == Some(v)
    decreases e
  {
    match e
    case Leaf(_) =>
    case Group(inner) => ValueYields(env, inner, asRead, v);
    case Prefix(ops, x) =>
      forall y: Word
        ensures Yields(env, x, asRead, y) <==> (if asRead then ReadValue(env, x) else Value(env, x)) == Some(y)
      {
        ValueYields(env, x, asRead, y);
      }
      var chain := if asRead then Kept(ops) else ops;
      forall y: Word
        ensures ChainYields(env, chain, y, v) <==> ApplyChain(env, chain, Some(y)) == Some(v)
      {
        ChainValue(env, chain, y, v);
      }
      NoChain(env, chain);
    case Infix(op, l, r) =>
      forall x: Word
        ensures Yields(env, l, asRead, x) <==> (if asRead then ReadValue(env, l) else Value(env, l)) == Some(x)
        ensures Yields(env, r, asRead, x) <==> (if asRead then ReadValue(env, r) else Value(env, r)) == Some(x)
      {
        ValueYields(env, l, asRead, x);
        ValueYields(env, r, asRead, x);
      }
      forall x: Word, y: Word
        ensures Means(env, op, x, y, v) <==> Apply(env, op, x, y) == v
      {
        ApplyMeans(env, op, x, y, v);
      }
  }

  lemma OneOperator(env: Env, op: UnOp, x: Word, v: Word)
    requires UnaryMeans(env, op, x, Some(v))
    ensures ApplyChain(env, [op], Some(x)) == Some(v)
  {
    UnaryApplyMeans(env, op, x, Some(v));
  }

  /* ---- every list of operands and operators has a tree ---- */

  /** The tree for the tokens of l, op and the tokens of r. */
  function Joined(l: Expr, op: BinOp, r: Expr): (e: Expr)
    decreases l, r
  {
    if r.Infix? && Level(r.op) <= Level(op) && Level(r.op) <= ExprLevel(l) then
      Infix(r.op, Joined(l, op, r.left), r.right)
    else if l.Infix? && Level(l.op) < Level(op) then Infix(l.op, l.left, Joined(l.right, op, r))
    else Infix(op, l, r)
  }

  lemma LevelRange(e: Expr)
    ensures if e.Infix? then 1 <= ExprLevel(e) == Level(e.op) <= 10 else ExprLevel(e) >= 11
  {
  }

  lemma {:induction false} JoinedLevels(l: Expr, op: BinOp, r: Expr)
    requires WellFormed(l) && WellFormed(r)
    ensures WellFormed(Joined(l, op, r))
    ensures ExprLevel(Joined(l, op, r)) == Least(Level(op), Least(ExprLevel(l), ExprLevel(r)))
    decreases l, r
  {
    LevelRange(l);
    LevelRange(r);
    LevelRange(Infix(op, l, r));
    if r.Infix? && Level(r.op) <= Level(op) && Level(r.op) <= ExprLevel(l) {
      JoinedLevels(l, op, r.left);
      InfixFormed(r.op, Joined(l, op, r.left), r.right);
    } else if l.Infix? && Level(l.op) < Level(op) {
      JoinedLevels(l.right, op, r);
      InfixFormed(l.op, l.left, Joined(l.right, op, r));
    } else {
      InfixFormed(op, l, r);
    }
  }

  lemma InfixFormed(op: BinOp, l: Expr, r: Expr)
    ensures WellFormed(Infix(op, l, r))
            <==> WellFormed(l) && WellFormed(r) && Level(op) <= ExprLevel(l) && Level(op) < ExprLevel(r)
    ensures ExprLevel(Infix(op, l, r)) == Level(op)
  {
  }

  lemma {:induction false} JoinedTokens(l: Expr, op: BinOp, r: Expr)
    ensures Print(Joined(l, op, r)) == Print(l) + [Binary(op)] + Print(r)
    decreases l, r
  {
    if r.Infix? && Level(r.op) <= Level(op) && Level(r.op) <= ExprLevel(l) {
      JoinedTokens(l, op, r.left);
      Regrouped(Print(l), [Binary(op)], Print(r.left), [Binary(r.op)], Print(r.right));
    } else if l.Infix? && Level(l.op) < Level(op) {
      JoinedTokens(l.right, op, r);
      Regrouped(Print(l.left), [Binary(l.op)], Print(l.right), [Binary(op)], Print(r));
    }
  }

  lemma Regrouped<T>(a: seq<T>, b: seq<T>, c: seq<T>, d: seq<T>, e: seq<T>)
    ensures (a + b + c) + d + e == a + b + (c + d + e)
  {
  }

  /** Well-formed trees are closed under joining their tokens by an operator. */
  lemma JoinedTree(l: Expr, op: BinOp, r: Expr)
    requires WellFormed(l) && WellFormed(r)
    ensures WellFormed(Joined(l, op, r)) && Print(Joined(l, op, r)) == Print(l) + [Binary(op)] + Print(r)
  {
    JoinedLevels(l, op, r);
    JoinedTokens(l, op, r);
  }

  function Least(a: nat, b: nat): nat {
    if a < b then a else b
  }

  /** The tree for u and the tokens of e. */
  function Prefixed(u: UnOp, e: Expr): Expr {
    match e
    case Leaf(_) => Prefix([u], e)
    case Group(_) => Prefix([u], e)
    case Prefix(ops, x) => Prefix([u] + ops, x)
    case Infix(op, l, r) => Infix(op, Prefixed(u, l), r)
  }

  /** They are closed under a unary operator in front of their tokens, too. */
  lemma {:induction false} PrefixedTree(u: UnOp, e: Expr)
    requires WellFormed(e)
    ensures WellFormed(Prefixed(u, e)) && Print(Prefixed(u, e)) == [Unary(u)] + Print(e)
    ensures ExprLevel(Prefixed(u, e)) == Least(11, ExprLevel(e))
    decreases e
  {
    match e
    case Leaf(_) =>
    case Group(_) =>
    case Prefix(ops, x) => assert UnaryTokens([u] + ops) == [Unary(u)] + UnaryTokens(ops);
    case Infix(op, l, r) => PrefixedTree(u, l);
  }

  /** "!~0" is 0 in C; the debugger drops the "!" and answers 0xffffffff. */
  lemma MixedChainMisread(env: Env)
    requires env.operand("0") == Some(0)
    ensures var e := Prefix([Not, Complement], Leaf("0"));
            WellFormed(e) && Value(env, e) == Some(0) && ReadValue(env, e) == Some(0xffff_ffff)
  {
    var ops := [Not, Complement];
    assert ops[0] == Not && ops[1] == Complement && ops[1..] == [Complement] && ops[2..] == [];
    assert FirstOf(ops, Complement) == 1 && FirstOf(ops, Not) == 0 && FirstOf(ops, Deref) == 0;
    assert ChainHead(ops) == 1;
    assert Kept(ops) == [Complement];
    OneOperator(env, Complement, 0, 0xffff_ffff);
    UnaryApplyMeans(env, Not, 0xffff_ffff, Some(0));
  }
}
