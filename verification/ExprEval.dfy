/** eval_tokens of nemu/src/monitor/expr.c, and exactly which printed expressions it evaluates. */
module ExprEval {
  import opened ExprOperators
  import opened ExprTree
  import opened ExprScan
  import opened Parentheses
  import opened Wrappers

  /** The tokens w stand at ts[s..]. */
  ghost predicate Stands(ts: seq<Token>, s: nat, w: seq<Token>) {
    s + |w| <= |ts| && forall i :: 0 <= i < |w| ==> ts[s + i] == w[i]
  }

  ghost predicate At(ts: seq<Token>, s: nat, e: Expr) {
    Stands(ts, s, Print(e))
  }

  lemma Part(ts: seq<Token>, s: nat, w: seq<Token>, i: nat, part: seq<Token>)
    requires Stands(ts, s, w) && i + |part| <= |w|
    requires forall k :: 0 <= k < |part| ==> w[i + k] == part[k]
    ensures Stands(ts, s + i, part)
  {
    forall k | 0 <= k < |part|
      ensures ts[s + i + k] == part[k]
    {
      assert ts[s + (i + k)] == w[i + k];
    }
  }

  lemma AtLeaf(ts: seq<Token>, s: nat, text: string)
    requires At(ts, s, Leaf(text))
    ensures ts[s] == Operand(text)
  {
    assert ts[s + 0] == Print(Leaf(text))[0];
  }

  lemma OneToken(ts: seq<Token>, s: nat, t: Token)
    requires Stands(ts, s, [t])
    ensures s < |ts| && ts[s] == t
  {
    assert ts[s + 0] == [t][0];
  }

  lemma TwoParts(ts: seq<Token>, s: nat, u: seq<Token>, v: seq<Token>)
    requires Stands(ts, s, u + v)
    ensures Stands(ts, s, u) && Stands(ts, s + |u|, v)
  {
    Part(ts, s, u + v, 0, u);
    Part(ts, s, u + v, |u|, v);
  }

  lemma InfixTokens(op: BinOp, l: Expr, r: Expr)
    ensures Print(Infix(op, l, r)) == Print(l) + [Binary(op)] + Print(r)
    ensures |Print(Infix(op, l, r))| == |Print(l)| + 1 + |Print(r)|
  {
  }

  lemma AtInfix(ts: seq<Token>, s: nat, op: BinOp, l: Expr, r: Expr)
    requires At(ts, s, Infix(op, l, r))
    ensures At(ts, s, l)
    ensures s + |Print(l)| < |ts| && ts[s + |Print(l)|] == Binary(op)
    ensures At(ts, s + |Print(l)| + 1, r)
  {
    InfixTokens(op, l, r);
    JoinedTokens(ts, s, Print(l), Binary(op), Print(r), Print(Infix(op, l, r)), s + |Print(l)|);
  }

  lemma JoinedTokens(ts: seq<Token>, s: nat, u: seq<Token>, t: Token, v: seq<Token>, w: seq<Token>, q: nat)
    requires w == u + [t] + v && Stands(ts, s, w) && q == s + |u|
    ensures Stands(ts, s, u) && q < |ts| && ts[q] == t && Stands(ts, q + 1, v)
  {
    TwoParts(ts, s, u + [t], v);
    TwoParts(ts, s, u, [t]);
    OneToken(ts, q, t);
  }

  lemma GroupTokens(inner: Expr)
    ensures Print(Group(inner)) == [Open] + Print(inner) + [Close]
    ensures |Print(Group(inner))| == |Print(inner)| + 2
  {
  }

  lemma AtGroup(ts: seq<Token>, s: nat, inner: Expr)
    requires At(ts, s, Group(inner))
    ensures ts[s] == Open && At(ts, s + 1, inner)
    ensures s + 1 + |Print(inner)| < |ts| && ts[s + 1 + |Print(inner)|] == Close
  {
    GroupTokens(inner);
    EnclosedTokens(ts, s, Open, Print(inner), Close, Print(Group(inner)), s + 1 + |Print(inner)|);
  }

  lemma EnclosedTokens(ts: seq<Token>, s: nat, t: Token, v: seq<Token>, t': Token, w: seq<Token>, q: nat)
    requires w == [t] + v + [t'] && Stands(ts, s, w) && q == s + 1 + |v|
    ensures s < |ts| && ts[s] == t && Stands(ts, s + 1, v) && q < |ts| && ts[q] == t'
  {
    TwoParts(ts, s, [t] + v, [t']);
    OneToken(ts, q, t');
    TwoParts(ts, s, [t], v);
    OneToken(ts, s, t);
  }

  lemma AtPrefix(ts: seq<Token>, s: nat, ops: seq<UnOp>, x: Expr)
    requires At(ts, s, Prefix(ops, x))
    ensures s + |ops| <= |ts| && forall k :: s <= k < s + |ops| ==> ts[k] == Unary(ops[k - s])
    ensures At(ts, s + |ops|, x)
  {
    TwoParts(ts, s, UnaryTokens(ops), Print(x));
    ChainTokens(ts, s, ops, UnaryTokens(ops));
  }

  lemma ChainTokens(ts: seq<Token>, s: nat, ops: seq<UnOp>, chain: seq<Token>)
    requires Stands(ts, s, chain) && |chain| == |ops|
    requires forall k :: 0 <= k < |ops| ==> chain[k] == Unary(ops[k])
    ensures forall k :: s <= k < s + |ops| ==> ts[k] == Unary(ops[k - s])
  {
    forall k | s <= k < s + |ops|
      ensures ts[k] == Unary(ops[k - s])
    {
      assert ts[s + (k - s)] == chain[k - s];
    }
  }

  lemma AtPrefixSuffix(ts: seq<Token>, s: nat, ops: seq<UnOp>, x: Expr, k: nat)
    requires At(ts, s, Prefix(ops, x)) && k <= |ops|
    ensures At(ts, s + k, Prefix(ops[k..], x))
  {
    Part(ts, s, Print(Prefix(ops, x)), k, Print(Prefix(ops[k..], x)));
  }

  /* ---- printed expressions are balanced ---- */

  lemma {:induction false} PrintedBalanced(ts: seq<Token>, s: nat, e: Expr)
    requires At(ts, s, e)
    ensures Balanced(ts, s, s + |Print(e)|)
    decreases e
  {
    match e
    case Leaf(text) =>
      AtLeaf(ts, s, text);
      assert Balanced(ts, s, s);
      OneMore(ts, s, s);
    case Group(inner) =>
      AtGroup(ts, s, inner);
      PrintedBalanced(ts, s + 1, inner);
      GroupBalanced(ts, s, inner, s + 1 + |Print(inner)|);
    case Prefix(ops, x) =>
      AtPrefix(ts, s, ops, x);
      PrintedBalanced(ts, s + |ops|, x);
      PrefixBalanced(ts, s, ops, x, s + |ops|);
    case Infix(op, l, r) =>
      AtInfix(ts, s, op, l, r);
      PrintedBalanced(ts, s, l);
      PrintedBalanced(ts, s + |Print(l)| + 1, r);
      InfixBalanced(ts, s, op, l, r, s + |Print(l)|);
  }

  lemma PrefixBalanced(ts: seq<Token>, s: nat, ops: seq<UnOp>, x: Expr, q: nat)
    requires q == s + |ops| && q + |Print(x)| <= |ts| && Balanced(ts, q, q + |Print(x)|)
    requires forall k :: s <= k < q ==> ts[k] == Unary(ops[k - s])
    ensures Balanced(ts, s, s + |Print(Prefix(ops, x))|)
  {
    PrintedLength(ops, x);
    FlatDepth(ts, s, q);
    JoinBalanced(ts, s, q, q + |Print(x)|);
  }

  lemma InfixBalanced(ts: seq<Token>, s: nat, op: BinOp, l: Expr, r: Expr, q: nat)
    requires q == s + |Print(l)| && q + 1 + |Print(r)| <= |ts| && ts[q] == Binary(op)
    requires Balanced(ts, s, q) && Balanced(ts, q + 1, q + 1 + |Print(r)|)
    ensures Balanced(ts, s, s + |Print(Infix(op, l, r))|)
  {
    InfixTokens(op, l, r);
    OneMore(ts, s, q);
    JoinBalanced(ts, s, q + 1, q + 1 + |Print(r)|);
  }

  lemma OneMore(ts: seq<Token>, s: nat, j: nat)
    requires s <= j < |ts| && Balanced(ts, s, j) && ts[j] != Open && ts[j] != Close
    ensures Balanced(ts, s, j + 1)
  {
    assert Depth(ts, s, j + 1) == Depth(ts, s, j);
  }

  lemma GroupBalanced(ts: seq<Token>, s: nat, inner: Expr, q: nat)
    requires q == s + 1 + |Print(inner)| < |ts| && ts[s] == Open && ts[q] == Close && Balanced(ts, s + 1, q)
    ensures Balanced(ts, s, s + |Print(Group(inner))|)
  {
    GroupTokens(inner);
    InsideGroup(ts, s, q);
    assert Depth(ts, s, q + 1) == Depth(ts, s, q) - 1;
  }

  /** Behind an opening parenthesis the depth is one more than counted from the inside. */
  lemma InsideGroup(ts: seq<Token>, s: nat, j: nat)
    requires s + 1 <= j <= |ts| && ts[s] == Open && NeverNegative(ts, s + 1, j)
    ensures forall k :: s + 1 <= k <= j ==> Depth(ts, s, k) == 1 + Depth(ts, s + 1, k) && Depth(ts, s, k) > 0
  {
    assert Depth(ts, s, s + 1) == Depth(ts, s, s) + 1;
    forall k | s + 1 <= k <= j
      ensures Depth(ts, s, k) == 1 + Depth(ts, s + 1, k) && Depth(ts, s, k) > 0
    {
      DepthSplit(ts, s, s + 1, k);
    }
  }

  lemma {:induction false} FlatDepth(ts: seq<Token>, s: nat, j: nat)
    requires s <= j <= |ts|
    requires forall k :: s <= k < j ==> ts[k] != Open && ts[k] != Close
    ensures forall k :: s <= k <= j ==> Depth(ts, s, k) == 0
    decreases j
  {
    if s < j {
      FlatDepth(ts, s, j - 1);
    }
  }

  lemma JoinBalanced(ts: seq<Token>, s: nat, m: nat, j: nat)
    requires s <= m <= j <= |ts|
    requires Balanced(ts, s, m) && Balanced(ts, m, j)
    ensures Balanced(ts, s, j)
    ensures forall k :: m <= k <= j ==> Depth(ts, s, k) == Depth(ts, m, k)
  {
    forall k | m <= k <= j
      ensures Depth(ts, s, k) == Depth(ts, m, k)
    {
      DepthSplit(ts, s, m, k);
    }
  }

  predicate EndsInGroup(e: Expr) {
    match e
    case Leaf(_) => false
    case Group(_) => true
    case Prefix(_, x) => EndsInGroup(x)
    case Infix(_, _, r) => EndsInGroup(r)
  }

  lemma {:induction false} LastToken(ts: seq<Token>, s: nat, e: Expr)
    requires At(ts, s, e) && WellFormed(e)
    ensures ts[s + |Print(e)| - 1] == Close <==> EndsInGroup(e)
    decreases e
  {
    match e
    case Leaf(text) => AtLeaf(ts, s, text);
    case Group(inner) => AtGroup(ts, s, inner);
    case Prefix(ops, x) =>
      AtPrefix(ts, s, ops, x);
      LastToken(ts, s + |ops|, x);
    case Infix(op, l, r) =>
      AtInfix(ts, s, op, l, r);
      LastToken(ts, s + |Print(l)| + 1, r);
  }

  lemma {:induction false} PrintedSeparated(ts: seq<Token>, s: nat, e: Expr)
    requires At(ts, s, e)
    ensures Separated(ts, s, s + |Print(e)|)
    decreases e
  {
    match e
    case Leaf(_) =>
    case Group(inner) =>
      AtGroup(ts, s, inner);
      PrintedSeparated(ts, s + 1, inner);
      GroupSeparated(ts, s, inner, s + 1 + |Print(inner)|);
    case Prefix(ops, x) =>
      AtPrefix(ts, s, ops, x);
      PrintedSeparated(ts, s + |ops|, x);
      PrefixSeparated(ts, s, ops, x, s + |ops|);
    case Infix(op, l, r) =>
      AtInfix(ts, s, op, l, r);
      PrintedSeparated(ts, s, l);
      PrintedSeparated(ts, s + |Print(l)| + 1, r);
      InfixSeparated(ts, s, op, l, r, s + |Print(l)|);
  }

  /** One token between two separated ranges, which does not meet a parenthesis of the wrong kind. */
  lemma JoinSeparated(ts: seq<Token>, i: nat, q: nat, j: nat)
    requires i <= q < j <= |ts| && Separated(ts, i, q) && Separated(ts, q + 1, j)
    requires (i < q ==> ts[q] != Open) && (q + 1 < j ==> ts[q] != Close)
    ensures Separated(ts, i, j)
  {
  }

  lemma GroupSeparated(ts: seq<Token>, s: nat, inner: Expr, q: nat)
    requires q == s + 1 + |Print(inner)| < |ts| && ts[s] == Open && ts[q] == Close && Separated(ts, s + 1, q)
    ensures Separated(ts, s, s + |Print(Group(inner))|)
  {
    GroupTokens(inner);
    JoinSeparated(ts, s, s, q);
    JoinSeparated(ts, s, q, q + 1);
  }

  lemma PrefixSeparated(ts: seq<Token>, s: nat, ops: seq<UnOp>, x: Expr, q: nat)
    requires q == s + |ops| && q + |Print(x)| <= |ts| && Separated(ts, q, q + |Print(x)|)
    requires forall k :: s <= k < q ==> ts[k] == Unary(ops[k - s])
    ensures Separated(ts, s, s + |Print(Prefix(ops, x))|)
  {
    PrintedLength(ops, x);
  }

  lemma InfixSeparated(ts: seq<Token>, s: nat, op: BinOp, l: Expr, r: Expr, q: nat)
    requires q == s + |Print(l)| && q + 1 + |Print(r)| <= |ts| && ts[q] == Binary(op)
    requires Separated(ts, s, q) && Separated(ts, q + 1, q + 1 + |Print(r)|)
    ensures Separated(ts, s, s + |Print(Infix(op, l, r))|)
  {
    InfixTokens(op, l, r);
    JoinSeparated(ts, s, q, q + 1 + |Print(r)|);
  }

  /* ---- what is visible in a printed expression ---- */

  /** Outside a group there is only its first token. */
  lemma OutsideGroup(ts: seq<Token>, s: nat, inner: Expr, q: nat, p: nat)
    requires At(ts, s, Group(inner)) && q == s + 1 + |Print(inner)| && s <= p <= q
    requires p <= |ts| && Depth(ts, s, p) == 0
    ensures p == s && ts[p] == Open
  {
    AtGroup(ts, s, inner);
    PrintedBalanced(ts, s + 1, inner);
    InGroup(ts, s, q, p);
  }

  lemma InGroup(ts: seq<Token>, s: nat, q: nat, p: nat)
    requires s < q <= |ts| && ts[s] == Open && NeverNegative(ts, s + 1, q)
    requires s <= p <= q && Depth(ts, s, p) == 0
    ensures p == s
  {
    InsideGroup(ts, s, q);
  }

  /** Outside its groups, an expression shows no binary operator looser than its own level. */
  lemma {:induction false} VisibleBinary(ts: seq<Token>, s: nat, e: Expr, p: nat)
    requires At(ts, s, e) && WellFormed(e)
    requires s <= p < s + |Print(e)| && Depth(ts, s, p) == 0
    ensures ts[p].Binary? ==> Level(ts[p].bop) >= ExprLevel(e)
    ensures ts[p].Binary? && e.Infix? && p > s + |Print(e.left)| ==> Level(ts[p].bop) > ExprLevel(e)
    decreases e
  {
    match e
    case Leaf(text) => AtLeaf(ts, s, text);
    case Group(inner) =>
      GroupTokens(inner);
      OutsideGroup(ts, s, inner, s + 1 + |Print(inner)|, p);
    case Prefix(ops, x) =>
      AtPrefix(ts, s, ops, x);
      FlatDepth(ts, s, s + |ops|);
      if p >= s + |ops| {
        DepthSplit(ts, s, s + |ops|, p);
        VisibleBinary(ts, s + |ops|, x, p);
      }
    case Infix(op, l, r) =>
      var q := s + |Print(l)|;
      OutsideOperands(ts, s, op, l, r, p, q);
      if p < q {
        VisibleBinary(ts, s, l, p);
      } else if p > q {
        VisibleBinary(ts, q + 1, r, p);
      }
  }

  lemma OutsideOperands(ts: seq<Token>, s: nat, op: BinOp, l: Expr, r: Expr, p: nat, q: nat)
    requires At(ts, s, Infix(op, l, r)) && s <= p < s + |Print(Infix(op, l, r))| && q == s + |Print(l)|
    ensures At(ts, s, l) && At(ts, q + 1, r) && ts[q] == Binary(op)
    ensures s + |Print(Infix(op, l, r))| == q + 1 + |Print(r)| <= |ts|
    ensures q < p ==> Depth(ts, q + 1, p) == Depth(ts, s, p)
  {
    AtInfix(ts, s, op, l, r);
    PrintedBalanced(ts, s, l);
    assert Depth(ts, s, q + 1) == Depth(ts, s, q);
    if q < p {
      DepthSplit(ts, s, q + 1, p);
    }
  }

  /** Outside its groups, a single operand shows no operator. */
  lemma VisibleOperand(ts: seq<Token>, s: nat, e: Expr, p: nat)
    requires At(ts, s, e) && ExprLevel(e) == 12
    requires s <= p < s + |Print(e)| && Depth(ts, s, p) == 0
    ensures !ts[p].Unary? && !ts[p].Binary?
  {
    match e
    case Leaf(text) => AtLeaf(ts, s, text);
    case Group(inner) =>
      GroupTokens(inner);
      OutsideGroup(ts, s, inner, s + 1 + |Print(inner)|, p);
  }

  /* ---- which expressions the searches understand ---- */

  /**
   No search is led astray by the token next behind the expression, or behind one of its operands.
   A search that skips a group at the end of its range goes on to compare the token behind it.
   */
  predicate Understood(e: Expr, next: Token) {
    match e
    case Leaf(_) => true
    case Group(inner) => Understood(inner, Close)
    case Prefix(ops, x) => (EndsInGroup(x) ==> ChainUnderstood(ops, next)) && Understood(x, next)
    case Infix(op, l, r) =>
      && (EndsInGroup(r) && next.Binary? ==> Level(next.bop) > Level(op))
      && Understood(l, Binary(op)) && Understood(r, next)
  }

  /** The chain in front of a group keeps its head, and what is left of it too, with this token behind the group. */
  predicate ChainUnderstood(ops: seq<UnOp>, next: Token) {
    if next.Unary? then ChainHas(ops, next.uop) else !next.Binary?
  }

  /** u occurs in the chain, and again in what each head leaves of it. */
  predicate ChainHas(ops: seq<UnOp>, u: UnOp) {
    ops == [] || (u in ops && ChainHas(ops[ChainHead(ops) + 1..], u))
  }

  /** The token behind a chain whose operand is a group takes the head of the chain. */
  predicate TakesHead(ops: seq<UnOp>, next: Token) {
    next.Binary? || (next.Unary? && next.uop !in ops)
  }

  /** In a printed expression, the searches compare what is visible. */
  lemma PrintedCompares(ts: seq<Token>, s: nat, end: nat, e: Expr)
    requires At(ts, s, e) && end + 1 == s + |Print(e)| < |ts| && s <= end
    ensures Regular(ts, s, end)
    ensures forall p: nat :: Compares(ts, end, s, p) <==> Visible(ts, s, end, p)
  {
    PrintedBalanced(ts, s, e);
    PrintedSeparated(ts, s, e);
    ComparesVisible(ts, s, end);
  }

  lemma InfixDominant(ts: seq<Token>, s: nat, end: nat, e: Expr, d: nat)
    requires e.Infix? && At(ts, s, e) && WellFormed(e) && end + 1 == s + |Print(e)| < |ts|
    ensures HasOperator(ts, s, end)
    ensures Dominant(ts, s, end, d) ==>
              if EndsInGroup(e.right) && ts[end + 1].Binary? && Level(ts[end + 1].bop) <= Level(e.op)
              then d == end + 1 else d == s + |Print(e.left)|
  {
    var l, r := e.left, e.right;
    assert e == Infix(e.op, l, r);
    var q := s + |Print(l)|;
    InfixTokens(e.op, l, r);
    AtInfix(ts, s, e.op, l, r);
    PrintedBalanced(ts, s, l);
    LastToken(ts, s, e);
    PrintedCompares(ts, s, end, e);
    assert Compares(ts, end, s, q) && ts[q].Binary?;
    if EndsInGroup(e.right) {
      assert Compares(ts, end, s, end + 1);
    }
    if Dominant(ts, s, end, d) && d <= end {
      VisibleBinary(ts, s, e, d);
    }
  }

  lemma PrefixDominant(ts: seq<Token>, s: nat, end: nat, ops: seq<UnOp>, x: Expr, d: nat)
    requires At(ts, s, Prefix(ops, x)) && WellFormed(Prefix(ops, x))
    requires end + 1 == s + |Print(Prefix(ops, x))| < |ts|
    ensures HasOperator(ts, s, end)
    ensures Dominant(ts, s, end, d) ==>
              if EndsInGroup(x) && TakesHead(ops, ts[end + 1]) then d == end + 1 else d == s + ChainHead(ops)
  {
    AtPrefix(ts, s, ops, x);
    FlatDepth(ts, s, s + |ops|);
    LastToken(ts, s, Prefix(ops, x));
    PrintedCompares(ts, s, end, Prefix(ops, x));
    assert Compares(ts, end, s, s) && ts[s].Unary?;
    forall p: nat | s + |ops| <= p <= end && Compares(ts, end, s, p)
      ensures !ts[p].Unary? && !ts[p].Binary?
    {
      DepthSplit(ts, s, s + |ops|, p);
      VisibleOperand(ts, s + |ops|, x, p);
    }
    if EndsInGroup(x) && ts[end + 1].Binary? {
      assert Compares(ts, end, s, end + 1);
    } else if Dominant(ts, s, end, d) {
      assert UnaryHead(ts, s, end, d);
      if Compares(ts, end, s, end + 1) && ts[end + 1].Unary? && ts[end + 1].uop !in ops {
        StaleHead(ts, s, end, ops, d);
      } else {
        HeadInChain(ts, s, end, ops, d);
      }
    }
  }

  /** Each kind in the chain shows first where the chain has it first. */
  lemma FirstInChain(ts: seq<Token>, s: nat, end: nat, ops: seq<UnOp>, u: UnOp)
    requires u in ops && s + |ops| <= end + 1 < |ts| && Regular(ts, s, end)
    requires forall k :: s <= k < s + |ops| ==> ts[k] == Unary(ops[k - s])
    requires forall k :: s <= k <= s + |ops| ==> Depth(ts, s, k) == 0
    ensures FirstCompared(ts, s, end, Unary(u), s + FirstOf(ops, u))
  {
    ComparesVisible(ts, s, end);
    var i := FirstOf(ops, u);
    forall q: nat | q < s + i && Compares(ts, end, s, q)
      ensures ts[q] != Unary(u)
    {
    }
  }

  /** A kind that does not occur in the chain and stands behind the range takes the head. */
  lemma StaleHead(ts: seq<Token>, s: nat, end: nat, ops: seq<UnOp>, d: nat)
    requires ops != [] && s + |ops| <= end + 1 < |ts|
    requires forall k :: s <= k < s + |ops| ==> ts[k] == Unary(ops[k - s])
    requires forall k :: s <= k <= s + |ops| ==> Depth(ts, s, k) == 0
    requires forall p: nat :: s + |ops| <= p <= end && Compares(ts, end, s, p) ==> !ts[p].Unary?
    requires UnaryHead(ts, s, end, d)
    requires Compares(ts, end, s, end + 1) && ts[end + 1].Unary? && ts[end + 1].uop !in ops
    ensures d == end + 1
  {
    assert FirstCompared(ts, s, end, ts[end + 1], end + 1);
  }

  lemma HeadInChain(ts: seq<Token>, s: nat, end: nat, ops: seq<UnOp>, d: nat)
    requires ops != [] && s + |ops| <= end + 1 < |ts| && Regular(ts, s, end)
    requires forall k :: s <= k < s + |ops| ==> ts[k] == Unary(ops[k - s])
    requires forall k :: s <= k <= s + |ops| ==> Depth(ts, s, k) == 0
    requires forall p: nat :: s + |ops| <= p <= end && Compares(ts, end, s, p) ==> !ts[p].Unary?
    requires UnaryHead(ts, s, end, d)
    requires Compares(ts, end, s, end + 1) && ts[end + 1].Unary? ==> ts[end + 1].uop in ops
    ensures d == s + ChainHead(ops)
  {
    var u := ts[d].uop;
    if u in ops {
      FirstInChain(ts, s, end, ops, u);
      FirstComparedUnique(ts, s, end, Unary(u), d, s + FirstOf(ops, u));
    }
    assert d < s + |ops| && ops[d - s] == u;
    forall v | v in ops
      ensures FirstOf(ops, v) <= d - s
    {
      FirstInChain(ts, s, end, ops, v);
    }
    LatestFirst(ops, d - s, u);
  }

  /** The head of a chain is the latest of the first positions. */
  lemma LatestFirst(ops: seq<UnOp>, k: nat, u: UnOp)
    requires ops != [] && u in ops && k == FirstOf(ops, u) && forall v :: v in ops ==> FirstOf(ops, v) <= k
    ensures ChainHead(ops) == k
  {
    forall v: UnOp
      ensures FirstOf(ops, v) <= k
    {
      if v !in ops {
        assert FirstOf(ops, v) == 0;
      }
    }
    assert u == Complement || u == Not || u == Deref;
  }

  /* ---- eval_tokens ---- */

  /** e is the expression that tokens start to end print. */
  ghost predicate Spells(ts: seq<Token>, start: nat, end: int, e: Expr) {
    WellFormed(e) && At(ts, start, e) && start + |Print(e)| == end + 1 < |ts|
  }

  /** The evaluation of tokens start to end gave ok and value as it should, whatever expression they print. */
  ghost predicate Evaluates(env: Env, ts: seq<Token>, start: nat, end: int, value: Word, ok: bool) {
    forall e: Expr {:trigger Spells(ts, start, end, e)} :: Spells(ts, start, end, e) ==>
                        && ok == (Understood(e, ts[end + 1]) && ReadValue(env, e).Some?)
                        && (ok ==> Some(value) == ReadValue(env, e))
  }

  lemma SingleToken(env: Env, ts: seq<Token>, start: nat, e: Expr)
    requires Spells(ts, start, start, e)
    ensures e.Leaf? && ts[start] == Operand(e.text)
  {
    match e
    case Leaf(text) => AtLeaf(ts, start, text);
    case Group(_) =>
    case Prefix(_, _) =>
    case Infix(_, _, _) =>
  }

  /** A range of several tokens is one group exactly when it prints a Group. */
  lemma GroupRange(ts: seq<Token>, start: nat, end: nat, e: Expr)
    requires Spells(ts, start, end, e) && start < end
    ensures e.Group? <==> Enclosed(ts, start, end)
    ensures !e.Leaf?
    ensures Regular(ts, start, end)
  {
    PrintedBalanced(ts, start, e);
    PrintedSeparated(ts, start, e);
    match e
    case Leaf(_) =>
    case Group(inner) =>
      AtGroup(ts, start, inner);
      PrintedBalanced(ts, start + 1, inner);
      InsideGroup(ts, start, end);
    case Prefix(ops, x) =>
      AtPrefix(ts, start, ops, x);
    case Infix(op, l, r) =>
      AtInfix(ts, start, op, l, r);
      PrintedBalanced(ts, start, l);
      assert Depth(ts, start, start + |Print(l)|) == 0;
  }

  lemma GroupEvaluates(env: Env, ts: seq<Token>, start: nat, end: nat, value: Word, ok: bool)
    requires start < end && end + 1 < |ts| && Enclosed(ts, start, end) && ts[end] == Close
    requires Evaluates(env, ts, start + 1, end - 1, value, ok)
    ensures Evaluates(env, ts, start, end, value, ok)
  {
    forall e: Expr | Spells(ts, start, end, e)
      ensures e.Group? && Spells(ts, start + 1, end - 1, e.inner)
    {
      GroupRange(ts, start, end, e);
      AtGroup(ts, start, e.inner);
    }
  }

  /** A failed search, or one that ended behind the range, means the expression is not understood. */
  lemma FailedEvaluates(env: Env, ts: seq<Token>, start: nat, end: nat, value: Word, dom: nat, found: bool)
    requires start < end && end + 1 < |ts|
    requires !Enclosed(ts, start, end)
    requires found == HasOperator(ts, start, end)
    requires found ==> Dominant(ts, start, end, dom) && dom == end + 1
    ensures Evaluates(env, ts, start, end, value, false)
  {
    forall e: Expr | Spells(ts, start, end, e)
      ensures !Understood(e, ts[end + 1])
    {
      GroupRange(ts, start, end, e);
      if e.Infix? {
        InfixDominant(ts, start, end, e, dom);
        assert |Print(e)| == |Print(e.left)| + 1 + |Print(e.right)|;
      } else {
        PrefixDominant(ts, start, end, e.ops, e.operand, dom);
      }
    }
  }

  /** An operator found inside the range is the root of the expression, and the token behind did no harm. */
  lemma InfixRoot(ts: seq<Token>, start: nat, end: nat, e: Expr, dom: nat)
    requires e.Infix? && Spells(ts, start, end, e) && start < end && start <= dom <= end
    requires Dominant(ts, start, end, dom)
    ensures ts[dom] == Binary(e.op)
    ensures Spells(ts, start, dom - 1, e.left) && Spells(ts, dom + 1, end, e.right)
    ensures EndsInGroup(e.right) && ts[end + 1].Binary? ==> Level(ts[end + 1].bop) > Level(e.op)
  {
    InfixDominant(ts, start, end, e, dom);
    SpelledOperands(ts, start, end, e);
  }

  lemma PrefixRoot(ts: seq<Token>, start: nat, end: nat, e: Expr, dom: nat)
    requires e.Prefix? && Spells(ts, start, end, e) && start < end && start <= dom <= end
    requires Dominant(ts, start, end, dom)
    ensures dom == start + ChainHead(e.ops) && ts[dom] == Unary(e.ops[ChainHead(e.ops)])
    ensures EndsInGroup(e.operand) ==> !TakesHead(e.ops, ts[end + 1])
  {
    var ops, x := e.ops, e.operand;
    assert e == Prefix(ops, x);
    AtPrefix(ts, start, ops, x);
    PrefixDominant(ts, start, end, ops, x, dom);
  }

  lemma SpelledOperands(ts: seq<Token>, start: nat, end: nat, e: Expr)
    requires e.Infix? && Spells(ts, start, end, e)
    ensures var q := start + |Print(e.left)|;
            && q < end && ts[q] == Binary(e.op)
            && Spells(ts, start, q - 1, e.left) && Spells(ts, q + 1, end, e.right)
  {
    AtInfix(ts, start, e.op, e.left, e.right);
    assert |Print(e)| == |Print(e.left)| + 1 + |Print(e.right)|;
  }

  /** A dominant binary operator is the root of the expression. */
  lemma BinaryRoot(ts: seq<Token>, start: nat, end: nat, e: Expr, dom: nat)
    requires Spells(ts, start, end, e) && start < end && start <= dom <= end && ts[dom].Binary?
    requires !Enclosed(ts, start, end) && Dominant(ts, start, end, dom)
    ensures e.Infix? && ts[dom] == Binary(e.op)
    ensures Spells(ts, start, dom - 1, e.left) && Spells(ts, dom + 1, end, e.right)
    ensures EndsInGroup(e.right) && ts[end + 1].Binary? ==> Level(ts[end + 1].bop) > Level(e.op)
  {
    GroupRange(ts, start, end, e);
    if e.Prefix? {
      PrefixRoot(ts, start, end, e, dom);
    } else {
      InfixRoot(ts, start, end, e, dom);
    }
  }

  /** Values of the operands, the right one first, give the value of the expression. */
  lemma RootApplies(env: Env, e: Expr, next: Token, v1: Word, ok1: bool, v2: Word, ok2: bool)
    requires e.Infix? && (EndsInGroup(e.right) && next.Binary? ==> Level(next.bop) > Level(e.op))
    requires ok2 == (Understood(e.right, next) && ReadValue(env, e.right).Some?)
    requires ok2 ==> Some(v2) == ReadValue(env, e.right)
    requires ok2 ==> ok1 == (Understood(e.left, Binary(e.op)) && ReadValue(env, e.left).Some?)
    requires ok2 && ok1 ==> Some(v1) == ReadValue(env, e.left)
    ensures (ok2 && ok1) == (Understood(e, next) && ReadValue(env, e).Some?)
    ensures ok2 && ok1 ==> ReadValue(env, e) == Some(Apply(env, e.op, v1, v2))
  {
  }

  lemma RootEvaluates(env: Env, ts: seq<Token>, start: nat, end: nat, e: Expr, dom: nat,
                      v1: Word, ok1: bool, v2: Word, ok2: bool)
    requires e.Infix? && end + 1 < |ts| && dom <= end && ts[dom] == Binary(e.op)
    requires Spells(ts, start, dom - 1, e.left) && Spells(ts, dom + 1, end, e.right)
    requires EndsInGroup(e.right) && ts[end + 1].Binary? ==> Level(ts[end + 1].bop) > Level(e.op)
    requires Evaluates(env, ts, dom + 1, end, v2, ok2)
    requires ok2 ==> Evaluates(env, ts, start, dom - 1, v1, ok1)
    ensures (ok2 && ok1) == (Understood(e, ts[end + 1]) && ReadValue(env, e).Some?)
    ensures ok2 && ok1 ==> ReadValue(env, e) == Some(Apply(env, e.op, v1, v2))
  {
    EvaluatesOne(env, ts, dom + 1, end, v2, ok2, e.right);
    if ok2 {
      EvaluatesOne(env, ts, start, dom - 1, v1, ok1, e.left);
    }
    RootApplies(env, e, ts[end + 1], v1, ok1, v2, ok2);
  }

  /** What the range says when the dominant operator is binary. */
  lemma BinaryEvaluates(env: Env, ts: seq<Token>, start: nat, end: nat, dom: nat,
                        v1: Word, ok1: bool, v2: Word, ok2: bool, value: Word)
    requires start < end && end + 1 < |ts| && start <= dom <= end && ts[dom].Binary?
    requires !Enclosed(ts, start, end)
    requires Dominant(ts, start, end, dom)
    requires Evaluates(env, ts, dom + 1, end, v2, ok2)
    requires ok2 ==> Evaluates(env, ts, start, dom - 1, v1, ok1)
    requires ok1 && ok2 ==> value == Apply(env, ts[dom].bop, v1, v2)
    ensures Evaluates(env, ts, start, end, value, ok2 && ok1)
  {
    forall e: Expr | Spells(ts, start, end, e)
      ensures (ok2 && ok1) == (Understood(e, ts[end + 1]) && ReadValue(env, e).Some?)
      ensures ok2 && ok1 ==> Some(value) == ReadValue(env, e)
    {
      BinaryRoot(ts, start, end, e, dom);
      RootEvaluates(env, ts, start, end, e, dom, v1, ok1, v2, ok2);
    }
  }

  /** What the range says when the dominant operator is unary. */
  lemma UnaryEvaluates(env: Env, ts: seq<Token>, start: nat, end: nat, dom: nat,
                       v: Word, ok: bool, value: Word, ok': bool)
    requires start < end && end + 1 < |ts| && start <= dom <= end && ts[dom].Unary?
    requires !Enclosed(ts, start, end)
    requires Dominant(ts, start, end, dom)
    requires Evaluates(env, ts, dom + 1, end, v, ok)
    requires ok' == (ok && ApplyUnary(env, ts[dom].uop, Some(v)).Some?)
    requires ok' ==> Some(value) == ApplyUnary(env, ts[dom].uop, Some(v))
    ensures Evaluates(env, ts, start, end, value, ok')
  {
    forall e: Expr | Spells(ts, start, end, e)
      ensures ok' == (Understood(e, ts[end + 1]) && ReadValue(env, e).Some?)
      ensures ok' ==> Some(value) == ReadValue(env, e)
    {
      GroupRange(ts, start, end, e);
      if e.Infix? {
        InfixRoot(ts, start, end, e, dom);
      } else {
        UnaryRootEvaluates(env, ts, start, end, e, dom, v, ok);
      }
    }
  }

  /** What a chain is without its first k operators. */
  function Rest(ops: seq<UnOp>, x: Expr, k: nat): Expr
    requires k <= |ops|
  {
    if k == |ops| then x else Prefix(ops[k..], x)
  }

  lemma UnaryRootEvaluates(env: Env, ts: seq<Token>, start: nat, end: nat, e: Expr, dom: nat, v: Word, ok: bool)
    requires e.Prefix? && Spells(ts, start, end, e) && start < end && start <= dom <= end
    requires Dominant(ts, start, end, dom)
    requires Evaluates(env, ts, dom + 1, end, v, ok)
    ensures ts[dom].Unary?
    ensures !ok ==> !(Understood(e, ts[end + 1]) && ReadValue(env, e).Some?)
    ensures ok ==> Understood(e, ts[end + 1]) && ReadValue(env, e) == ApplyUnary(env, ts[dom].uop, Some(v))
  {
    PrefixRoot(ts, start, end, e, dom);
    var k := ChainHead(e.ops) + 1;
    var rest := Rest(e.ops, e.operand, k);
    SpelledSuffix(ts, start, end, e.ops, e.operand, k);
    EvaluatesOne(env, ts, start + k, end, v, ok, rest);
    HeadApplies(env, e, rest, ts[end + 1], v, ok);
  }

  /** A value behind the head of a chain gives the value of the chain. */
  lemma HeadApplies(env: Env, e: Expr, rest: Expr, next: Token, v: Word, ok: bool)
    requires e.Prefix? && e.ops != [] && (EndsInGroup(e.operand) ==> !TakesHead(e.ops, next))
    requires rest == Rest(e.ops, e.operand, ChainHead(e.ops) + 1)
    requires ok == (Understood(rest, next) && ReadValue(env, rest).Some?)
    requires ok ==> Some(v) == ReadValue(env, rest)
    ensures !ok ==> !(Understood(e, next) && ReadValue(env, e).Some?)
    ensures ok ==> Understood(e, next) && ReadValue(env, e) == ApplyUnary(env, e.ops[ChainHead(e.ops)], Some(v))
  {
    ReadChain(env, e);
    UnderstoodRest(e.ops, e.operand, ChainHead(e.ops) + 1, next);
  }

  lemma ChainRest(ops: seq<UnOp>, next: Token)
    requires ops != [] && !TakesHead(ops, next)
    ensures ChainUnderstood(ops, next) == ChainUnderstood(ops[ChainHead(ops) + 1..], next)
  {
  }

  lemma UnderstoodRest(ops: seq<UnOp>, x: Expr, k: nat, next: Token)
    requires ops != [] && k == ChainHead(ops) + 1 && (EndsInGroup(x) ==> !TakesHead(ops, next))
    ensures Understood(Rest(ops, x, k), next) == Understood(Prefix(ops, x), next)
  {
    if EndsInGroup(x) {
      ChainRest(ops, next);
    }
    var rest := ops[k..];
    if k == |ops| {
      assert rest == [] && Rest(ops, x, k) == x;
      assert EndsInGroup(x) ==> ChainUnderstood(rest, next);
    } else {
      assert Rest(ops, x, k) == Prefix(rest, x);
    }
  }

  lemma ReadChain(env: Env, e: Expr)
    requires e.Prefix? && e.ops != []
    ensures var k := ChainHead(e.ops);
            ReadValue(env, e) == ApplyUnary(env, e.ops[k], ReadValue(env, Rest(e.ops, e.operand, k + 1)))
  {
    var k := ChainHead(e.ops);
    var rest := e.ops[k + 1..];
    assert Kept(e.ops) == [e.ops[k]] + Kept(rest);
    assert Kept(e.ops)[1..] == Kept(rest);
    assert ReadValue(env, Rest(e.ops, e.operand, k + 1)) == ApplyChain(env, Kept(rest), ReadValue(env, e.operand));
  }

  lemma EvaluatesOne(env: Env, ts: seq<Token>, start: nat, end: int, value: Word, ok: bool, e: Expr)
    requires Evaluates(env, ts, start, end, value, ok) && Spells(ts, start, end, e)
    ensures ok == (Understood(e, ts[end + 1]) && ReadValue(env, e).Some?)
    ensures ok ==> Some(value) == ReadValue(env, e)
  {
  }

  lemma SpelledSuffix(ts: seq<Token>, start: nat, end: nat, ops: seq<UnOp>, x: Expr, k: nat)
    requires Spells(ts, start, end, Prefix(ops, x)) && k <= |ops|
    ensures Spells(ts, start + k, end, Rest(ops, x, k))
  {
    PrintedLength(ops, x);
    PrintedLength(ops[k..], x);
    AtPrefixSuffix(ts, start, ops, x, k);
    AtPrefix(ts, start, ops, x);
  }

  lemma PrintedLength(ops: seq<UnOp>, x: Expr)
    ensures |Print(Prefix(ops, x))| == |ops| + |Print(x)|
  {
  }

  /**
   What eval_tokens needs of a range, and what SearchEndsIfPaired shows it to need: if the parentheses
   add up, the searches leave it.
   */
  predicate Searchable(ts: seq<Token>, start: nat, end: int)
    requires -1 <= end < |ts|
  {
    start <= end && Depth(ts, start, end + 1) == 0 ==> Walks(ts, end, start)
  }

  /** What a group encloses is searchable. */
  lemma InnerSearchable(ts: seq<Token>, start: nat, end: nat)
    requires start < end < |ts| && Enclosed(ts, start, end)
    ensures Searchable(ts, start + 1, end - 1)
  {
    var first := start + 1;
    assert Depth(ts, start, first) == Depth(ts, start, start) + 1;
    forall k | first <= k <= end
      ensures Depth(ts, first, k) >= 0
    {
      DepthSplit(ts, start, first, k);
    }
    if first <= end - 1 && Depth(ts, first, end) == 0 {
      BalancedWalks(ts, first, end - 1, first);
    }
  }

  /** The operands of an operator that a search has compared are searchable. */
  lemma OperandsSearchable(ts: seq<Token>, start: nat, end: nat, dom: nat)
    requires start <= end && end + 1 < |ts| && Walks(ts, end, start) && Compares(ts, end, start, dom)
    ensures start <= dom <= end + 1 && Searchable(ts, start, dom - 1) && Searchable(ts, dom + 1, end)
  {
    WalksBehind(ts, end, start, dom);
    if dom > 0 {
      WalksBefore(ts, end, start, dom);
    }
  }

  lemma UnpairedSpellsNothing(env: Env, ts: seq<Token>, start: nat, end: nat, value: Word)
    requires start <= end && end + 1 < |ts| && Depth(ts, start, end + 1) != 0
    ensures Evaluates(env, ts, start, end, value, false)
  {
    forall e: Expr
      ensures !Spells(ts, start, end, e)
    {
      if Spells(ts, start, end, e) {
        PrintedBalanced(ts, start, e);
      }
    }
  }

  /**
   eval_tokens.  The token array extends at least one token past the range, which the searches may
   read; its first token is not a binary operator, and a range from its start is not empty, or the C
   code would take the index before it, which as an unsigned number is the largest.
   */
  method EvalTokens(env: Env, ts: seq<Token>, start: nat, end: int, success: bool) returns (value: Word, success': bool)
    requires -1 <= end && end + 1 < |ts| < 0x8000_0000
    requires success ==> Searchable(ts, start, end)
    requires start == 0 ==> end >= 0 && !ts[0].Binary?
    ensures !success || start > end ==> !success'
    ensures success ==> Evaluates(env, ts, start, end, value, success')
    decreases success, if start <= end then end + 1 - start else 0
  {
    if !success {
      return 0, false;
    }
    if start > end {
      return 0, false;
    }
    if start == end {
      forall e: Expr | Spells(ts, start, end, e)
        ensures e.Leaf? && ts[start] == Operand(e.text)
      {
        SingleToken(env, ts, start, e);
      }
      if !ts[start].Operand? {
        return 0, false;
      }
      var found := env.operand(ts[start].text);
      return if found.Some? then found.value else 0, found.Some?;
    }
    var pair;
    pair, success' := CheckPairParentheses(ts, start, end, success);
    if pair {
      InnerSearchable(ts, start, end);
      value, success' := EvalTokens(env, ts, start + 1, end - 1, success');
      GroupEvaluates(env, ts, start, end, value, success');
      return;
    }
    if !success' {
      UnpairedSpellsNothing(env, ts, start, end, 0);
      return 0, success';
    }
    value, success' := EvalOperator(env, ts, start, end);
  }

  /** The last branch of eval_tokens: split the range at its dominant operator. */
  method EvalOperator(env: Env, ts: seq<Token>, start: nat, end: nat) returns (value: Word, success': bool)
    requires start < end && end + 1 < |ts| < 0x8000_0000
    requires Depth(ts, start, end + 1) == 0 && Walks(ts, end, start)
    requires !Enclosed(ts, start, end)
    requires start == 0 ==> !ts[0].Binary?
    ensures Evaluates(env, ts, start, end, value, success')
    decreases true, end + 1 - start, 0
  {
    var dom;
    dom, success' := FindDomOp(ts, start, end, true);
    if success' {
      OperandsSearchable(ts, start, end, dom);
    }
    ghost var found := success';
    var value2;
    value2, success' := EvalTokens(env, ts, dom + 1, end, success');
    if !success' {
      if !found || dom == end + 1 {
        FailedEvaluates(env, ts, start, end, 0, dom, found);
      } else if ts[dom].Binary? {
        BinaryEvaluates(env, ts, start, end, dom, 0, false, value2, false, 0);
      } else {
        UnaryEvaluates(env, ts, start, end, dom, value2, false, 0, false);
      }
      return 0, false;
    }
    match ts[dom] {
      case Binary(op) =>
        var value1;
        value1, success' := EvalTokens(env, ts, start, dom - 1, success');
        value := Apply(env, op, value1, value2);
        BinaryEvaluates(env, ts, start, end, dom, value1, success', value2, true, value);
      case Unary(op) =>
        var result := ApplyUnary(env, op, Some(value2));
        value, success' := if result.Some? then result.value else 0, result.Some?;
        UnaryEvaluates(env, ts, start, end, dom, value2, true, value, success');
    }
  }

  /* ---- which printed expressions evaluate ---- */

  /** No left operand is an operator expression that ends in a group. */
  predicate GroupFree(e: Expr) {
    match e
    case Leaf(_) => true
    case Group(inner) => GroupFree(inner)
    case Prefix(_, x) => GroupFree(x)
    case Infix(_, l, r) => (EndsInGroup(l) ==> l.Group?) && GroupFree(l) && GroupFree(r)
  }

  /** If e ends in a group, the chain in front of that group has u, and again behind each of its heads. */
  predicate LastChainHas(e: Expr, u: UnOp) {
    match e
    case Leaf(_) => true
    case Group(_) => true
    case Prefix(ops, x) => EndsInGroup(x) ==> ChainHas(ops, u)
    case Infix(_, _, r) => LastChainHas(r, u)
  }

  /**
   In front of a token that is no operator, exactly the group-free expressions are understood; in
   front of a unary operator, those of them whose last chain has it.
   */
  lemma {:induction false} UnderstoodIsGroupFree(e: Expr, next: Token)
    requires WellFormed(e)
    ensures Understood(e, next) ==> GroupFree(e)
    ensures GroupFree(e) && !next.Binary? && !next.Unary? ==> Understood(e, next)
    ensures GroupFree(e) && next.Unary? ==> (Understood(e, next) <==> LastChainHas(e, next.uop))
    ensures GroupFree(e) && next.Binary? && (EndsInGroup(e) ==> e.Group?) ==> Understood(e, next)
    ensures !e.Group? && next.Binary? && Level(next.bop) <= ExprLevel(e) && Understood(e, next) ==> !EndsInGroup(e)
    decreases e
  {
    match e
    case Leaf(_) =>
    case Group(inner) => UnderstoodIsGroupFree(inner, Close);
    case Prefix(_, x) => UnderstoodIsGroupFree(x, next);
    case Infix(op, l, r) =>
      UnderstoodIsGroupFree(l, Binary(op));
      UnderstoodIsGroupFree(r, next);
  }

  /** An expression printed without any parentheses. */
  predicate NoGroups(e: Expr) {
    match e
    case Leaf(_) => true
    case Group(_) => false
    case Prefix(_, x) => NoGroups(x)
    case Infix(_, l, r) => NoGroups(l) && NoGroups(r)
  }

  /** Every operand of a binary operator is a leaf or a group. */
  predicate FullyGrouped(e: Expr) {
    match e
    case Leaf(_) => true
    case Group(inner) => FullyGrouped(inner)
    case Prefix(_, x) => FullyGrouped(x)
    case Infix(_, l, r) => ExprLevel(l) == 12 && ExprLevel(r) == 12 && FullyGrouped(l) && FullyGrouped(r)
  }

  /** Expressions without parentheses, and expressions with all of them, are read right. */
  lemma {:induction false} PlainAndFullyGroupedAreGroupFree(e: Expr)
    ensures NoGroups(e) ==> !EndsInGroup(e)
    ensures NoGroups(e) || FullyGrouped(e) ==> GroupFree(e)
  {
    match e
    case Leaf(_) =>
    case Group(inner) => PlainAndFullyGroupedAreGroupFree(inner);
    case Prefix(_, x) => PlainAndFullyGroupedAreGroupFree(x);
    case Infix(_, l, r) =>
      PlainAndFullyGroupedAreGroupFree(l);
      PlainAndFullyGroupedAreGroupFree(r);
  }

  /* ---- a list of tokens has one tree ---- */

  /** With no operator behind it, the root of a binary tree is dominant. */
  lemma RootDominant(ts: seq<Token>, end: nat, e: Expr)
    requires e.Infix? && Spells(ts, 0, end, e) && end + 1 < |ts| && ts[end + 1] == NoToken
    ensures |Print(e.left)| <= end && Dominant(ts, 0, end, |Print(e.left)|) && ts[|Print(e.left)|] == Binary(e.op)
  {
    var root := |Print(e.left)|;
    SpelledOperands(ts, 0, end, e);
    PrintedCompares(ts, 0, end, e);
    PrintedBalanced(ts, 0, e.left);
    assert Compares(ts, end, 0, root) && ts[root].Binary?;
    forall q: nat | Compares(ts, end, 0, q) && ts[q].Binary?
      ensures Level(ts[q].bop) > Level(e.op) || (Level(ts[q].bop) == Level(e.op) && q <= root)
    {
      VisibleBinary(ts, 0, e, q);
    }
  }

  lemma SameRoot(ts: seq<Token>, end: nat, e: Expr, e': Expr)
    requires Spells(ts, 0, end, e) && Spells(ts, 0, end, e') && end + 1 < |ts| && ts[end + 1] == NoToken && e.Infix?
    ensures e'.Infix? && |Print(e'.left)| == |Print(e.left)| && e'.op == e.op
  {
    var root := |Print(e.left)|;
    RootDominant(ts, end, e);
    GroupRange(ts, 0, end, e);
    GroupRange(ts, 0, end, e');
    match e'
    case Prefix(ops, x) => PrefixRoot(ts, 0, end, e', root);
    case Infix(_, _, _) => InfixRoot(ts, 0, end, e', root); SpelledOperands(ts, 0, end, e');
    case _ =>
  }

  lemma SameKind(e: Expr, e': Expr)
    requires WellFormed(e) && WellFormed(e') && Print(e) == Print(e')
    ensures e.Leaf? <==> e'.Leaf?
    ensures e.Group? <==> e'.Group?
    ensures e.Infix? <==> e'.Infix?
    ensures e.Infix? ==> e'.op == e.op && |Print(e'.left)| == |Print(e.left)|
  {
    var w := Print(e);
    var ts, end := w + [NoToken], |w| - 1;
    assert Stands(ts, 0, w);
    assert Spells(ts, 0, end, e) && Spells(ts, 0, end, e');
    LeafLength(e);
    LeafLength(e');
    if |w| > 1 {
      GroupRange(ts, 0, end, e);
      GroupRange(ts, 0, end, e');
      if e.Infix? {
        SameRoot(ts, end, e, e');
      } else if e'.Infix? {
        SameRoot(ts, end, e', e);
      }
    }
  }

  lemma LeafLength(e: Expr)
    requires WellFormed(e)
    ensures |Print(e)| == 1 <==> e.Leaf?
  {
  }

  /** A list of tokens has at most one well-formed tree. */
  lemma {:induction false} TreesAreUnique(e: Expr, e': Expr)
    requires WellFormed(e) && WellFormed(e') && Print(e) == Print(e')
    ensures e == e'
    decreases e
  {
    SameKind(e, e');
    match e
    case Leaf(text) => assert Print(e)[0] == Operand(text) && Print(e')[0] == Operand(e'.text);
    case Group(inner) =>
      assert Print(e)[1..|Print(e)| - 1] == Print(inner) && Print(e')[1..|Print(e')| - 1] == Print(e'.inner);
      TreesAreUnique(inner, e'.inner);
    case Prefix(ops, x) =>
      SameChain(e, e');
      TreesAreUnique(x, e'.operand);
    case Infix(op, l, r) =>
      var k := |Print(l)|;
      assert Print(e)[..k] == Print(l) && Print(e')[..k] == Print(e'.left);
      assert Print(e)[k + 1..] == Print(r) && Print(e')[k + 1..] == Print(e'.right);
      TreesAreUnique(l, e'.left);
      TreesAreUnique(r, e'.right);
  }

  lemma SameChain(e: Expr, e': Expr)
    requires WellFormed(e) && WellFormed(e') && Print(e) == Print(e') && e.Prefix? && e'.Prefix?
    ensures e.ops == e'.ops && Print(e.operand) == Print(e'.operand)
  {
    ChainEnds(e);
    ChainEnds(e');
    assert |e.ops| == |e'.ops| by {
      assert !Print(e)[|e'.ops|].Unary? && !Print(e')[|e.ops|].Unary?;
    }
    forall i | 0 <= i < |e.ops|
      ensures e.ops[i] == e'.ops[i]
    {
      assert Print(e)[i] == Unary(e.ops[i]) && Print(e')[i] == Unary(e'.ops[i]);
    }
  }

  /** A printed chain shows where it ends. */
  lemma ChainEnds(e: Expr)
    requires WellFormed(e) && e.Prefix?
    ensures |e.ops| < |Print(e)| && !Print(e)[|e.ops|].Unary?
    ensures forall i :: 0 <= i < |e.ops| ==> Print(e)[i] == Unary(e.ops[i])
    ensures Print(e)[|e.ops|..] == Print(e.operand)
  {
  }

  /**
   expr, from its token list on: the tokens of e, with the rest of the token array behind them.  The
   array is cleared after an evaluation, but not after a failed tokenisation, so the rest is arbitrary.
   */
  method EvalPrinted(env: Env, e: Expr, rest: seq<Token>) returns (value: Word, success: bool)
    requires WellFormed(e) && |Print(e)| + |rest| < 0x8000_0000 && rest != []
    ensures success <==> Understood(e, rest[0]) && ReadValue(env, e).Some?
    ensures success ==> Some(value) == ReadValue(env, e)
    ensures success ==> Yields(env, e, true, value)
    ensures success && UniformChains(e) ==> Some(value) == Value(env, e) && Yields(env, e, false, value)
    ensures !rest[0].Binary? && !rest[0].Unary? ==> (success <==> GroupFree(e) && ReadValue(env, e).Some?)
  {
    var w := Print(e);
    var ts, end := w + rest, |w| - 1;
    assert Stands(ts, 0, w);
    assert Spells(ts, 0, end, e) && ts[end + 1] == rest[0];
    PrintedBalanced(ts, 0, e);
    BalancedWalks(ts, 0, end, 0);
    FirstTokenNotBinary(e);
    value, success := EvalTokens(env, ts, 0, end, true);
    EvaluatesOne(env, ts, 0, end, value, success, e);
    UnderstoodIsGroupFree(e, rest[0]);
    ValueYields(env, e, true, value);
    if UniformChains(e) {
      UniformReadsAsC(env, e);
      ValueYields(env, e, false, value);
    }
  }

  /**
   Tokens left behind by an input that could not be tokenised: "!(1)" is group-free and has a value,
   but with a "+" or a "~" behind it the searches take that for its dominant operator.
   */
  lemma StaleOperatorMisleads(env: Env, op: BinOp)
    requires env.operand("1") == Some(1)
    ensures var e := Prefix([Not], Group(Leaf("1")));
            && WellFormed(e) && GroupFree(e) && Value(env, e) == ReadValue(env, e) == Some(0)
            && !Understood(e, Binary(op)) && !Understood(e, Unary(Complement)) && Understood(e, Unary(Not))
  {
    var ops := [Not];
    var e := Prefix(ops, Group(Leaf("1")));
    KeptWhole(ops);
    assert UniformChains(e);
    UniformReadsAsC(env, e);
    assert ops[0] == Not && ops[1..] == [];
    assert Value(env, Group(Leaf("1"))) == Some(1);
    assert ApplyChain(env, ops, Some(1)) == ApplyUnary(env, Not, ApplyChain(env, [], Some(1))) == Some(0);
    assert ChainHead(ops) == 0;
  }

  /** "(1)*(1)+1" is 2 in C, and is not evaluated: behind its left operand the searches find the "+" again. */
  lemma GroupBeforeOperatorFails(env: Env, next: Token)
    requires env.operand("1") == Some(1)
    ensures var one := Leaf("1");
            var e := Infix(Plus, Infix(Times, Group(one), Group(one)), one);
            && WellFormed(e) && Print(e) == [Open, Operand("1"), Close, Binary(Times), Open, Operand("1"), Close,
                                             Binary(Plus), Operand("1")]
            && Value(env, e) == ReadValue(env, e) == Some(2)
            && !GroupFree(e) && !Understood(e, next)
  {
    var one := Leaf("1");
    var product := Infix(Times, Group(one), Group(one));
    assert Value(env, Group(one)) == ReadValue(env, Group(one)) == Some(1);
    assert Value(env, product) == ReadValue(env, product) == Some(1);
    assert Print(Group(one)) == [Open, Operand("1"), Close];
    assert EndsInGroup(product);
  }

  lemma {:induction false} FirstTokenNotBinary(e: Expr)
    requires WellFormed(e)
    ensures !Print(e)[0].Binary?
  {
    match e
    case Leaf(_) =>
    case Group(_) =>
    case Prefix(ops, _) => assert Print(e)[0] == UnaryTokens(ops)[0];
    case Infix(_, l, _) =>
      FirstTokenNotBinary(l);
      assert Print(e)[0] == Print(l)[0];
  }
}
