/** The parenthesis checks and operator searches of nemu/src/monitor/expr.c, over a token array. */
module ExprScan {
  import opened ExprOperators
  import opened ExprTree
  import opened Parentheses
  import opened Words

  method CheckValidParentheses(ts: seq<Token>, start: nat, end: nat, success: bool)
    returns (valid: bool, success': bool)
    requires start <= end < |ts| < 0x8000_0000
    ensures valid == (success && Depth(ts, start, end + 1) == 0)
    ensures success' == valid
  {
    if !success {
      return false, false;
    }
    var depth: int := 0;
    var i := start;
    while i <= end
      invariant start <= i <= end + 1
      invariant depth == Depth(ts, start, i) % WRAP
    {
      if ts[i] == Open {
        depth := (depth + 1) % WRAP;
      } else if ts[i] == Close {
        depth := (depth - 1) % WRAP;
      }
      i := i + 1;
    }
    DepthBound(ts, start, end + 1);
    valid := depth == 0 && i == end + 1;
    success' := valid;
  }

  /** The index behind the group that opens at start, or failure if it does not close by end. */
  method SkipParentheses(ts: seq<Token>, start: nat, end: nat, success: bool) returns (next: nat, success': bool)
    requires start <= end < |ts| < 0x8000_0000 && ts[start] == Open
    ensures next == (if success then Behind(ts, start, end) else 0) && success' == (next != 0)
    ensures success && success' ==>
              && start < next <= end + 1 && Depth(ts, start, next) == 0
              && ts[next - 1] == Close
              && forall k :: start < k < next ==> Depth(ts, start, k) > 0
    ensures success && !success' ==> forall k :: start < k <= end + 1 ==> Depth(ts, start, k) > 0
  {
    if !success {
      return 0, false;
    }
    BehindIs(ts, start, end);
    var depth: nat := 1;
    var i := start + 1;
    assert Depth(ts, start, start + 1) == Depth(ts, start, start) + 1;
    while i <= end && depth > 0
      invariant start + 1 <= i <= end + 1
      invariant depth == Depth(ts, start, i)
      invariant depth == 0 ==> ts[i - 1] == Close
      invariant forall k :: start < k < i ==> Depth(ts, start, k) > 0
    {
      if ts[i] == Open {
        depth := depth + 1;
      } else if ts[i] == Close {
        depth := depth - 1;
      }
      i := i + 1;
    }
    if depth != 0 {
      return 0, false;
    }
    next, success' := i, true;
  }

  /** check_pair_parentheses: the range is one group. */
  method CheckPairParentheses(ts: seq<Token>, start: nat, end: nat, success: bool) returns (pair: bool, success': bool)
    requires start <= end < |ts| < 0x8000_0000
    ensures success' == (success && Depth(ts, start, end + 1) == 0)
    ensures pair ==> success' && start < end && ts[start] == Open && ts[end] == Close
    ensures pair <==> success' && Enclosed(ts, start, end)
  {
    if !success {
      return false, false;
    }
    var valid;
    valid, success' := CheckValidParentheses(ts, start, end, success);
    if !valid {
      return false, success';
    }
    if ts[start] == Open {
      var next;
      next, success' := SkipParentheses(ts, start, end, success');
      return next == end + 1, success';
    }
    return false, success';
  }

  /* ---- ranges without groups side by side ---- */

  /** The positions outside all groups, and the one past the end of the range when a group ends there. */
  predicate Visible(ts: seq<Token>, start: nat, end: nat, p: nat)
    requires start <= end < |ts|
  {
    || (start <= p <= end && Depth(ts, start, p) == 0 && ts[p] != Open)
    || (p == end + 1 && ts[end] == Close)
  }

  /** The ranges of printed expressions: balanced, and without two groups side by side. */
  ghost predicate Regular(ts: seq<Token>, start: nat, end: nat)
    requires start <= end < |ts|
  {
    Balanced(ts, start, end + 1) && Separated(ts, start, end + 1)
  }

  /** Skipping a group at the top level reveals exactly one new position, the one behind the group. */
  lemma SkippedGroup(ts: seq<Token>, start: nat, end: nat, i: nat, next: nat)
    requires start <= i < next <= end + 1 < |ts|
    requires Balanced(ts, start, end + 1) && Separated(ts, start, end + 1)
    requires Depth(ts, start, i) == 0 && ts[i] == Open
    requires Depth(ts, i, next) == 0 && ts[next - 1] == Close
    requires forall k :: i < k < next ==> Depth(ts, i, k) > 0
    ensures Visible(ts, start, end, next)
    ensures forall p :: i <= p < next ==> !Visible(ts, start, end, p)
    ensures next <= end ==> Depth(ts, start, next + 1) == 0 && ts[next] != Close
  {
    DepthSplit(ts, start, i, next);
    forall p | i <= p < next
      ensures !Visible(ts, start, end, p)
    {
      DepthSplit(ts, start, i, p);
    }
    if next <= end {
      assert Depth(ts, start, next + 1) == Delta(ts[next]);
      assert Depth(ts, start, next + 1) >= 0;
    }
  }

  /** A token outside all groups that does not open one is compared, and leaves the scan outside. */
  lemma PlainToken(ts: seq<Token>, start: nat, end: nat, i: nat)
    requires start <= i <= end < |ts| && Balanced(ts, start, end + 1)
    requires Depth(ts, start, i) == 0 && ts[i] != Open
    ensures Visible(ts, start, end, i) && ts[i] != Close
    ensures Depth(ts, start, i + 1) == 0
  {
    assert Depth(ts, start, i + 1) == Delta(ts[i]);
  }

  /** In a regular range, the search stands outside all groups, and not behind one. */
  ghost predicate Outside(ts: seq<Token>, start: nat, end: nat, i: nat)
    requires start <= end < |ts|
  {
    && start <= i
    && (i <= end + 1 ==> Depth(ts, start, i) == 0)
    && (i == end + 1 ==> ts[end] != Close)
  }

  /** In a regular range, a round compares the next visible token. */
  lemma NextVisible(ts: seq<Token>, start: nat, end: nat, i: nat)
    requires start <= end && i <= end && end + 1 < |ts| && Outside(ts, start, end, i) && Regular(ts, start, end)
    ensures Passes(ts, end, i) && Outside(ts, start, end, Compared(ts, end, i) + 1)
    ensures Visible(ts, start, end, Compared(ts, end, i))
    ensures forall p: nat :: i <= p < Compared(ts, end, i) ==> !Visible(ts, start, end, p)
  {
    if ts[i] == Open {
      DepthSplit(ts, start, i, end + 1);
      BehindIs(ts, i, end);
      SkippedGroup(ts, start, end, i, Behind(ts, i, end));
    } else {
      PlainToken(ts, start, end, i);
    }
  }

  lemma {:induction false} VisibleFrom(ts: seq<Token>, start: nat, end: nat, i: nat)
    requires start <= end && i <= end + 2 && end + 1 < |ts| && Outside(ts, start, end, i) && Regular(ts, start, end)
    ensures Walks(ts, end, i)
    ensures forall p: nat :: Compares(ts, end, i, p) <==> i <= p && Visible(ts, start, end, p)
    decreases end + 2 - i
  {
    if i <= end {
      NextVisible(ts, start, end, i);
      VisibleFrom(ts, start, end, Compared(ts, end, i) + 1);
    }
  }

  /** In a regular range, the search compares exactly the visible tokens. */
  lemma ComparesVisible(ts: seq<Token>, start: nat, end: nat)
    requires start <= end && end + 1 < |ts| && Regular(ts, start, end)
    ensures Walks(ts, end, start)
    ensures forall p: nat :: Compares(ts, end, start, p) <==> Visible(ts, start, end, p)
  {
    VisibleFrom(ts, start, end, start);
  }

  /* ---- the searches ---- */

  /** p is the last t that the search compares. */
  ghost predicate LastCompared(ts: seq<Token>, start: nat, end: nat, t: Token, p: nat)
    requires end + 1 < |ts|
  {
    && Compares(ts, end, start, p) && ts[p] == t
    && forall q: nat :: p < q && Compares(ts, end, start, q) ==> ts[q] != t
  }

  /** p is the first t that the search compares. */
  ghost predicate FirstCompared(ts: seq<Token>, start: nat, end: nat, t: Token, p: nat)
    requires end + 1 < |ts|
  {
    && Compares(ts, end, start, p) && ts[p] == t
    && forall q: nat :: q < p && Compares(ts, end, start, q) ==> ts[q] != t
  }

  ghost predicate NeverCompared(ts: seq<Token>, start: nat, end: nat, t: Token)
    requires end + 1 < |ts|
  {
    forall q: nat :: Compares(ts, end, start, q) ==> ts[q] != t
  }

  /** result is the last t compared in front of i, if hit says that there is one. */
  ghost predicate LastUpTo(ts: seq<Token>, start: nat, end: nat, t: Token, i: nat, result: nat, hit: bool)
    requires end + 1 < |ts|
  {
    && (hit ==> result < i && Compares(ts, end, start, result) && ts[result] == t)
    && forall q: nat :: q < i && Compares(ts, end, start, q) && ts[q] == t ==> hit && q <= result
  }

  lemma LastStep(ts: seq<Token>, start: nat, end: nat, t: Token, i: nat, k: nat, result: nat, hit: bool)
    requires i <= k && end + 1 < |ts| && Compares(ts, end, start, k)
    requires forall p: nat :: i <= p < k ==> !Compares(ts, end, start, p)
    requires LastUpTo(ts, start, end, t, i, result, hit)
    ensures LastUpTo(ts, start, end, t, k + 1, if ts[k] == t then k else result, hit || ts[k] == t)
  {
    forall q: nat | q < k + 1 && Compares(ts, end, start, q) && ts[q] == t
      ensures q == k || (q < i && hit && q <= result)
    {
      if q < k {
        assert q < i;
      }
    }
  }

  lemma LastDone(ts: seq<Token>, start: nat, end: nat, t: Token, i: nat, result: nat, hit: bool)
    requires end + 1 < |ts| && end < i && Continues(ts, end, start, i) && LastUpTo(ts, start, end, t, i, result, hit)
    ensures if hit then LastCompared(ts, start, end, t, result) else NeverCompared(ts, start, end, t)
  {
  }

  /** find_specific_last_op, on a range that it leaves. */
  method FindSpecificLastOp(ts: seq<Token>, start: nat, end: nat, t: Token, success: bool, found: bool)
    returns (result: nat, success': bool, found': bool)
    requires start <= end && end + 1 < |ts| < 0x8000_0000
    requires t != Open && t != Close
    requires Walks(ts, end, start)
    ensures success' == success
    ensures !success ==> result == 0 && found' == found
    ensures success ==> start <= result <= end + 1
    ensures success ==>
              if NeverCompared(ts, start, end, t) then found' == found && result == start
              else found' && LastCompared(ts, start, end, t, result)
  {
    success', found' := success, found;
    if !success {
      return 0, success', found';
    }
    result := start;
    ghost var hit := false;
    var i := start;
    while i <= end
      invariant start <= i <= end + 2 && success' && start <= result
      invariant Walks(ts, end, i) && Continues(ts, end, start, i)
      invariant if hit then found' else found' == found && result == start
      invariant LastUpTo(ts, start, end, t, i, result, hit)
    {
      ghost var k := Compared(ts, end, i);
      WalkOn(ts, end, start, i, k);
      LastStep(ts, start, end, t, i, k, result, hit);
      if ts[i] == Open {
        i, success' := SkipParentheses(ts, i, end, success');
      }
      if ts[i] == t {
        result, found', hit := i, true, true;
      }
      i := i + 1;
    }
    LastDone(ts, start, end, t, i, result, hit);
  }

  /** find_specific_first_op, on a range that it leaves or in which it finds the token. */
  method FindSpecificFirstOp(ts: seq<Token>, start: nat, end: nat, t: Token, success: bool, found: bool)
    returns (result: nat, success': bool, found': bool)
    requires start <= end && end + 1 < |ts| < 0x8000_0000
    requires t != Open && t != Close
    requires WalksTo(ts, end, start, t)
    ensures success' == success
    ensures !success ==> result == 0 && found' == found
    ensures success ==> start <= result <= end + 1
    ensures success ==>
              if NeverCompared(ts, start, end, t) then found' == found && result == start
              else found' && FirstCompared(ts, start, end, t, result)
  {
    success', found' := success, found;
    if !success {
      return 0, success', found';
    }
    result := start;
    var i := start;
    while i <= end
      invariant start <= i <= end + 2 && success' && found' == found
      invariant WalksTo(ts, end, i, t) && Continues(ts, end, start, i)
      invariant LastUpTo(ts, start, end, t, i, start, false)
    {
      ghost var k := Compared(ts, end, i);
      WalkOn(ts, end, start, i, k);
      LastStep(ts, start, end, t, i, k, start, false);
      if ts[i] == Open {
        i, success' := SkipParentheses(ts, i, end, success');
      }
      if ts[i] == t {
        return i, success', true;
      }
      i := i + 1;
    }
    LastDone(ts, start, end, t, i, start, false);
  }

  /* ---- the dominant operator ---- */

  /** The operators of the ten binary LEVELS, in the order in which find_dom_op looks for them. */
  const LEVELS: seq<seq<BinOp>> := [
    [Or], [And], [BitOr], [BitXor], [BitAnd], [Eq, Neq], [Leq, Less, Geq, Greater],
    [Shl, Shr], [Plus, Minus], [Times, Divide, Modulo]
  ]

  lemma LevelRow(op: BinOp)
    ensures 1 <= Level(op) <= 10 == |LEVELS|
    ensures op in LEVELS[Level(op) - 1]
  {
  }

  lemma RowLevel(l: nat, op: BinOp)
    requires l < |LEVELS| && op in LEVELS[l]
    ensures Level(op) == l + 1
  {
  }

  ghost predicate NeverComparedOf(ts: seq<Token>, start: nat, end: nat, ops: seq<BinOp>)
    requires start <= end && end + 1 < |ts|
  {
    forall q: nat :: Compares(ts, end, start, q) && ts[q].Binary? ==> ts[q].bop !in ops
  }

  /** p is the last binary operator among ops that the searches compare. */
  ghost predicate LastComparedOf(ts: seq<Token>, start: nat, end: nat, ops: seq<BinOp>, p: nat)
    requires start <= end && end + 1 < |ts|
  {
    && Compares(ts, end, start, p) && ts[p].Binary? && ts[p].bop in ops
    && forall q: nat :: p < q && Compares(ts, end, start, q) && ts[q].Binary? ==> ts[q].bop !in ops
  }

  /** One level of find_dom_op: the maximum of the positions that its operators were last found at. */
  method FindLevel(ts: seq<Token>, start: nat, end: nat, ops: seq<BinOp>) returns (result: nat, found: bool)
    requires start <= end && end + 1 < |ts| < 0x8000_0000
    requires Walks(ts, end, start)
    ensures start <= result <= end + 1
    ensures if found then LastComparedOf(ts, start, end, ops, result)
            else result == start && NeverComparedOf(ts, start, end, ops)
  {
    result, found := start, false;
    var i := 0;
    while i < |ops|
      invariant i <= |ops| && start <= result <= end + 1
      invariant if found then LastComparedOf(ts, start, end, ops[..i], result)
                else result == start && NeverComparedOf(ts, start, end, ops[..i])
    {
      var position, ok, hit := FindSpecificLastOp(ts, start, end, Binary(ops[i]), true, false);
      assert ops[..i + 1] == ops[..i] + [ops[i]];
      result := Max(result, position);
      found := found || hit;
      i := i + 1;
    }
    assert ops[..i] == ops;
  }

  /** Of the positions at which the kinds of unary operators are first compared, r is the last one. */
  ghost predicate UnaryHead(ts: seq<Token>, start: nat, end: nat, r: nat)
    requires start <= end && end + 1 < |ts|
  {
    && r < |ts| && ts[r].Unary? && FirstCompared(ts, start, end, ts[r], r)
    && forall u: UnOp, p: nat :: FirstCompared(ts, start, end, Unary(u), p) ==> p <= r
  }

  lemma FirstComparedUnique(ts: seq<Token>, start: nat, end: nat, t: Token, p: nat, q: nat)
    requires start <= end && end + 1 < |ts|
    requires FirstCompared(ts, start, end, t, p) && FirstCompared(ts, start, end, t, q)
    ensures p == q
  {
  }

  /** r is the last of the loosest-binding binary operators compared, or failing any, the unary head. */
  ghost predicate Dominant(ts: seq<Token>, start: nat, end: nat, r: nat)
    requires start <= end && end + 1 < |ts|
  {
    if exists q: nat :: Compares(ts, end, start, q) && ts[q].Binary? then
      && Compares(ts, end, start, r) && ts[r].Binary?
      && forall q: nat :: Compares(ts, end, start, q) && ts[q].Binary? ==>
                            Level(ts[q].bop) > Level(ts[r].bop) || (Level(ts[q].bop) == Level(ts[r].bop) && q <= r)
    else UnaryHead(ts, start, end, r)
  }

  ghost predicate HasOperator(ts: seq<Token>, start: nat, end: nat)
    requires start <= end && end + 1 < |ts|
  {
    exists q: nat :: Compares(ts, end, start, q) && (ts[q].Binary? || ts[q].Unary?)
  }

  lemma LevelFound(ts: seq<Token>, start: nat, end: nat, l: nat, result: nat, found: bool)
    requires start <= end && end + 1 < |ts| && l < |LEVELS|
    requires forall q: nat :: Compares(ts, end, start, q) && ts[q].Binary? ==> Level(ts[q].bop) > l
    requires if found then LastComparedOf(ts, start, end, LEVELS[l], result)
             else NeverComparedOf(ts, start, end, LEVELS[l])
    ensures found ==> Dominant(ts, start, end, result)
    ensures !found ==> forall q: nat :: Compares(ts, end, start, q) && ts[q].Binary? ==> Level(ts[q].bop) > l + 1
  {
    if found {
      RowLevel(l, ts[result].bop);
    }
    forall q: nat | Compares(ts, end, start, q) && ts[q].Binary?
      ensures Level(ts[q].bop) == l + 1 <==> ts[q].bop in LEVELS[l]
    {
      LevelRow(ts[q].bop);
      if ts[q].bop in LEVELS[l] {
        RowLevel(l, ts[q].bop);
      }
    }
  }

  /** The last block of find_dom_op: the three unary operators. */
  method FindUnary(ts: seq<Token>, start: nat, end: nat) returns (result: nat, success': bool)
    requires start <= end && end + 1 < |ts| < 0x8000_0000
    requires Walks(ts, end, start)
    ensures !success' ==> result == 0
    ensures if exists q: nat :: Compares(ts, end, start, q) && ts[q].Unary?
            then success' && UnaryHead(ts, start, end, result)
            else !success'
  {
    WalksToAny(ts, end, start, Unary(Complement));
    WalksToAny(ts, end, start, Unary(Not));
    WalksToAny(ts, end, start, Unary(Deref));
    var p1, ok1, f1 := FindSpecificFirstOp(ts, start, end, Unary(Complement), true, false);
    var p2, ok2, f2 := FindSpecificFirstOp(ts, start, end, Unary(Not), ok1, f1);
    var p3, ok3, f3 := FindSpecificFirstOp(ts, start, end, Unary(Deref), ok2, f2);
    result := Max(Max(p1, p2), p3);
    forall u: UnOp
      ensures FirstOrStart(ts, start, end, Unary(u), OfKind(u, p1, p2, p3))
    {
      match u
      case Complement =>
      case Not =>
      case Deref =>
    }
    UnaryOutcome(ts, start, end, p1, p2, p3);
    if !f3 {
      return 0, false;
    }
    success' := true;
  }

  ghost predicate FirstOrStart(ts: seq<Token>, start: nat, end: nat, t: Token, p: nat)
    requires start <= end && end + 1 < |ts|
  {
    if NeverCompared(ts, start, end, t) then p == start else FirstCompared(ts, start, end, t, p)
  }

  function OfKind(u: UnOp, p1: nat, p2: nat, p3: nat): nat {
    match u
    case Complement => p1
    case Not => p2
    case Deref => p3
  }

  lemma UnaryMaximum(ts: seq<Token>, start: nat, end: nat, p1: nat, p2: nat, p3: nat, some: UnOp)
    requires start <= end && end + 1 < |ts|
    requires forall u: UnOp :: FirstOrStart(ts, start, end, Unary(u), OfKind(u, p1, p2, p3))
    requires !NeverCompared(ts, start, end, Unary(some))
    ensures UnaryHead(ts, start, end, Max(Max(p1, p2), p3))
  {
    var r := Max(Max(p1, p2), p3);
    forall u: UnOp, p: nat | FirstCompared(ts, start, end, Unary(u), p)
      ensures p <= r
    {
      assert p < end + 2;
      FirstComparedUnique(ts, start, end, Unary(u), p, OfKind(u, p1, p2, p3));
    }
    var top := if p3 == r then Deref else if p2 == r then Not else Complement;
    if NeverCompared(ts, start, end, Unary(top)) {
      assert r == start;
      assert FirstCompared(ts, start, end, Unary(some), OfKind(some, p1, p2, p3));
      assert OfKind(some, p1, p2, p3) == r;
    }
  }

  lemma UnaryOutcome(ts: seq<Token>, start: nat, end: nat, p1: nat, p2: nat, p3: nat)
    requires start <= end && end + 1 < |ts|
    requires forall u: UnOp :: FirstOrStart(ts, start, end, Unary(u), OfKind(u, p1, p2, p3))
    ensures if exists q: nat :: Compares(ts, end, start, q) && ts[q].Unary?
            then SomeUnary(ts, start, end) && UnaryHead(ts, start, end, Max(Max(p1, p2), p3))
            else !SomeUnary(ts, start, end)
  {
    if q: nat :| Compares(ts, end, start, q) && ts[q].Unary? {
      UnaryIsOfSomeKind(ts, start, end, q);
      UnaryMaximum(ts, start, end, p1, p2, p3, ts[q].uop);
    }
  }

  ghost predicate SomeUnary(ts: seq<Token>, start: nat, end: nat)
    requires start <= end && end + 1 < |ts|
  {
    || !NeverCompared(ts, start, end, Unary(Complement))
    || !NeverCompared(ts, start, end, Unary(Not))
    || !NeverCompared(ts, start, end, Unary(Deref))
  }

  lemma UnaryIsOfSomeKind(ts: seq<Token>, start: nat, end: nat, q: nat)
    requires start <= end && end + 1 < |ts|
    requires Compares(ts, end, start, q) && ts[q].Unary?
    ensures !NeverCompared(ts, start, end, Unary(ts[q].uop)) && SomeUnary(ts, start, end)
  {
    assert q < end + 2;
    match ts[q].uop
    case Complement => assert ts[q] == Unary(Complement);
    case Not => assert ts[q] == Unary(Not);
    case Deref => assert ts[q] == Unary(Deref);
  }

  method FindDomOp(ts: seq<Token>, start: nat, end: nat, success: bool) returns (result: nat, success': bool)
    requires start <= end && end + 1 < |ts| < 0x8000_0000
    requires Walks(ts, end, start)
    ensures !success' ==> result == 0
    ensures success' <==> success && HasOperator(ts, start, end)
    ensures !success' ==> result == 0
    ensures success' ==> Compares(ts, end, start, result) && (ts[result].Binary? || ts[result].Unary?)
    ensures success' ==> Dominant(ts, start, end, result)
  {
    if !success {
      return 0, false;
    }
    success' := true;
    var found: bool;
    var l := 0;
    while l < |LEVELS|
      invariant l <= |LEVELS|
      invariant forall q: nat :: Compares(ts, end, start, q) && ts[q].Binary? ==> Level(ts[q].bop) > l
    {
      result, found := FindLevel(ts, start, end, LEVELS[l]);
      LevelFound(ts, start, end, l, result, found);
      if found {
        return;
      }
      l := l + 1;
    }
    forall q: nat | Compares(ts, end, start, q)
      ensures !ts[q].Binary?
    {
      if ts[q].Binary? {
        LevelRow(ts[q].bop);
      }
    }
    result, success' := FindUnary(ts, start, end);
  }
}
