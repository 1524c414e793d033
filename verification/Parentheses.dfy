/**
 Parentheses in a token array, and the way that the operator searches of nemu/src/monitor/expr.c
 take over them: for which ranges this way leads out of the range at all.
 */
module Parentheses {
  import opened ExprOperators
  import opened ExprTree

  function Delta(t: Token): int {
    match t
    case Open => 1
    case Close => -1
    case _ => 0
  }

  /** The parentheses opened and not closed in ts[i..j]. */
  function Depth(ts: seq<Token>, i: nat, j: nat): int
    requires i <= j <= |ts|
  {
    if i == j then 0 else Depth(ts, i, j - 1) + Delta(ts[j - 1])
  }

  lemma {:induction false} DepthSplit(ts: seq<Token>, i: nat, k: nat, j: nat)
    requires i <= k <= j <= |ts|
    ensures Depth(ts, i, j) == Depth(ts, i, k) + Depth(ts, k, j)
    decreases j
  {
    if k < j {
      DepthSplit(ts, i, k, j - 1);
    }
  }

  lemma {:induction false} DepthBound(ts: seq<Token>, i: nat, j: nat)
    requires i <= j <= |ts|
    ensures i - j <= Depth(ts, i, j) <= j - i
    decreases j
  {
    if i < j {
      DepthBound(ts, i, j - 1);
    }
  }

  /** No prefix of ts[i..j] closes more parentheses than it has opened. */
  ghost predicate NeverNegative(ts: seq<Token>, i: nat, j: nat)
    requires i <= j <= |ts|
  {
    forall k :: i <= k <= j ==> Depth(ts, i, k) >= 0
  }

  ghost predicate Balanced(ts: seq<Token>, i: nat, j: nat)
    requires i <= j <= |ts|
  {
    Depth(ts, i, j) == 0 && NeverNegative(ts, i, j)
  }

  /** No group is directly followed by another one. */
  predicate Separated(ts: seq<Token>, i: nat, j: nat)
    requires i <= j <= |ts|
  {
    forall k :: i < k < j && ts[k - 1] == Close ==> ts[k] != Open
  }

  /* ---- groups ---- */

  /** The first token opens a parenthesis that nothing closes before the last token. */
  predicate Enclosed(ts: seq<Token>, start: nat, end: nat)
    requires start <= end < |ts|
  {
    ts[start] == Open && forall k :: start < k <= end ==> Depth(ts, start, k) > 0
  }

  /** The first index from k on at which nothing opened since i is open any more, or 0. */
  function ClosedFrom(ts: seq<Token>, i: nat, k: nat, end: nat): (r: nat)
    requires i < k <= end + 1 <= |ts|
    ensures r == 0 ==> forall j :: k <= j <= end + 1 ==> Depth(ts, i, j) > 0
    ensures r != 0 ==> k <= r <= end + 1 && Depth(ts, i, r) <= 0 && forall j :: k <= j < r ==> Depth(ts, i, j) > 0
    decreases end + 1 - k
  {
    if Depth(ts, i, k) <= 0 then k else if k == end + 1 then 0 else ClosedFrom(ts, i, k + 1, end)
  }

  /** The index behind the group that opens at i, or 0 if it does not close within the range. */
  function Behind(ts: seq<Token>, i: nat, end: nat): (r: nat)
    requires i <= end < |ts|
    ensures r != 0 ==> i < r <= end + 1
  {
    ClosedFrom(ts, i, i + 1, end)
  }

  lemma BehindIs(ts: seq<Token>, i: nat, end: nat)
    requires i <= end < |ts| && ts[i] == Open
    ensures var r := Behind(ts, i, end);
            && (r == 0 <==> forall j :: i < j <= end + 1 ==> Depth(ts, i, j) > 0)
            && (r != 0 ==> && i + 1 < r && Depth(ts, i, r) == 0 && ts[r - 1] == Close
                           && forall j :: i < j < r ==> Depth(ts, i, j) > 0)
  {
    assert Depth(ts, i, i + 1) == Depth(ts, i, i) + 1;
    var r := Behind(ts, i, end);
    if r != 0 {
      assert Depth(ts, i, r) == Depth(ts, i, r - 1) + Delta(ts[r - 1]);
    }
  }

  /* ---- the way of a search ---- */

  /** What opens at i, if anything, closes within the range. */
  predicate Passes(ts: seq<Token>, end: nat, i: nat)
    requires i <= end < |ts|
  {
    ts[i] == Open ==> Behind(ts, i, end) != 0
  }

  /** The token that a round compares: the one behind the group that it skips, even if it opens another. */
  function Compared(ts: seq<Token>, end: nat, i: nat): (k: nat)
    requires i <= end < |ts| && Passes(ts, end, i)
    ensures i <= k <= end + 1
  {
    if ts[i] == Open then Behind(ts, i, end) else i
  }

  /** From i on, the search leaves the range: every group that it skips closes. */
  predicate Walks(ts: seq<Token>, end: nat, i: nat)
    requires end < |ts|
    decreases end + 2 - i
  {
    i > end || (Passes(ts, end, i) && Walks(ts, end, Compared(ts, end, i) + 1))
  }

  /** From i on, a search for the first t leaves the range or finds it. */
  predicate WalksTo(ts: seq<Token>, end: nat, i: nat, t: Token)
    requires end + 1 < |ts|
    decreases end + 2 - i
  {
    || i > end
    || (Passes(ts, end, i) && (ts[Compared(ts, end, i)] == t || WalksTo(ts, end, Compared(ts, end, i) + 1, t)))
  }

  lemma {:induction false} WalksToAny(ts: seq<Token>, end: nat, i: nat, t: Token)
    requires end + 1 < |ts| && Walks(ts, end, i)
    ensures WalksTo(ts, end, i, t)
    decreases end + 2 - i
  {
    if i <= end {
      WalksToAny(ts, end, Compared(ts, end, i) + 1, t);
    }
  }

  /** From i on, the search compares token p. */
  predicate Compares(ts: seq<Token>, end: nat, i: nat, p: nat): (r: bool)
    requires end < |ts|
    ensures r ==> i <= p <= end + 1
    decreases end + 2 - i
  {
    && i <= end && Passes(ts, end, i)
    && (p == Compared(ts, end, i) || Compares(ts, end, Compared(ts, end, i) + 1, p))
  }

  /** From i on, the search compares what it compares from start on and has not passed yet. */
  ghost predicate Continues(ts: seq<Token>, end: nat, start: nat, i: nat)
    requires end < |ts|
  {
    forall p: nat :: Compares(ts, end, i, p) <==> i <= p && Compares(ts, end, start, p)
  }

  lemma WalkOn(ts: seq<Token>, end: nat, start: nat, i: nat, k: nat)
    requires i <= end && end + 1 < |ts| && Continues(ts, end, start, i)
    requires Passes(ts, end, i) && k == Compared(ts, end, i)
    ensures Compares(ts, end, start, k) && Continues(ts, end, start, k + 1)
    ensures forall p: nat :: i <= p < k ==> !Compares(ts, end, start, p)
    ensures Walks(ts, end, i) ==> Walks(ts, end, k + 1)
    ensures forall t: Token :: WalksTo(ts, end, i, t) && ts[k] != t ==> WalksTo(ts, end, k + 1, t)
  {
    forall p: nat
      ensures Compares(ts, end, i, p) <==> p == k || Compares(ts, end, k + 1, p)
    {
    }
  }

  /** The loop of a search that runs to the end: its index, and whether skip_parentheses has failed. */
  datatype Scan = Scan(i: nat, success: bool)

  /** One round; a failed skip_parentheses answers 0, and so does every later one. */
  function Round(ts: seq<Token>, end: nat, s: Scan): Scan
    requires s.i <= end < |ts|
  {
    if ts[s.i] != Open then Scan(s.i + 1, s.success)
    else
      var k := if s.success then Behind(ts, s.i, end) else 0;
      Scan(k + 1, s.success && k != 0)
  }

  function Rounds(ts: seq<Token>, end: nat, s: Scan, n: nat): Scan
    requires end < |ts|
    decreases n
  {
    if n == 0 || s.i > end then s else Rounds(ts, end, Round(ts, end, s), n - 1)
  }

  ghost predicate Ends(ts: seq<Token>, end: nat, s: Scan)
    requires end < |ts|
  {
    exists n: nat :: Rounds(ts, end, s, n).i > end
  }

  lemma EndsNext(ts: seq<Token>, end: nat, s: Scan)
    requires s.i <= end < |ts|
    ensures Ends(ts, end, s) <==> Ends(ts, end, Round(ts, end, s))
  {
    if n: nat :| Rounds(ts, end, s, n).i > end {
      assert Rounds(ts, end, Round(ts, end, s), n - 1).i > end;
    }
    if n: nat :| Rounds(ts, end, Round(ts, end, s), n).i > end {
      assert Rounds(ts, end, s, n + 1).i > end;
    }
  }

  /** After a failure the loop never gets past a parenthesis that opens behind index 0. */
  lemma {:induction false} Stuck(ts: seq<Token>, end: nat, i: nat, f: nat, n: nat)
    requires 1 <= i <= f <= end < |ts| && ts[f] == Open
    ensures Rounds(ts, end, Scan(i, false), n).i <= end
    decreases n
  {
    if n > 0 {
      Stuck(ts, end, Round(ts, end, Scan(i, false)).i, f, n - 1);
    }
  }

  lemma {:induction false} FreeWay(ts: seq<Token>, end: nat, i: nat)
    requires end < |ts| && forall j :: i <= j <= end ==> ts[j] != Open
    ensures Ends(ts, end, Scan(i, false))
    decreases end + 1 - i
  {
    if i > end {
      assert Rounds(ts, end, Scan(i, false), 0).i > end;
    } else {
      FreeWay(ts, end, i + 1);
      EndsNext(ts, end, Scan(i, false));
    }
  }

  /** After a failure the loop starts again at 1, and ends if and only if nothing opens from there on. */
  lemma AfterFailure(ts: seq<Token>, end: nat)
    requires end < |ts|
    ensures Ends(ts, end, Scan(1, false)) <==> forall j :: 1 <= j <= end ==> ts[j] != Open
  {
    if f :| 1 <= f <= end && ts[f] == Open {
      forall n: nat
        ensures Rounds(ts, end, Scan(1, false), n).i <= end
      {
        Stuck(ts, end, 1, f, n);
      }
    } else {
      FreeWay(ts, end, 1);
    }
  }

  /**
   A search leaves its range if and only if every group that it skips closes, or nothing opens behind
   the first token of the array.
   */
  lemma {:induction false} SearchEnds(ts: seq<Token>, end: nat, i: nat)
    requires end < |ts|
    ensures Ends(ts, end, Scan(i, true)) <==> Walks(ts, end, i) || forall j :: 1 <= j <= end ==> ts[j] != Open
    decreases end + 2 - i
  {
    if i > end {
      assert Rounds(ts, end, Scan(i, true), 0).i > end;
    } else {
      EndsNext(ts, end, Scan(i, true));
      if ts[i] == Open && Behind(ts, i, end) == 0 {
        AfterFailure(ts, end);
      } else {
        SearchEnds(ts, end, Round(ts, end, Scan(i, true)).i);
      }
    }
  }

  /** On the ranges that pass check_valid_parentheses the second case adds nothing. */
  lemma SearchEndsIfPaired(ts: seq<Token>, start: nat, end: nat)
    requires start <= end < |ts| && Depth(ts, start, end + 1) == 0
    ensures Ends(ts, end, Scan(start, true)) <==> Walks(ts, end, start)
  {
    SearchEnds(ts, end, start);
    if forall j :: 1 <= j <= end ==> ts[j] != Open {
      if ts[start] == Open {
        BehindIs(ts, start, end);
        NothingOpens(ts, end, Behind(ts, start, end) + 1);
      } else {
        NothingOpens(ts, end, start + 1);
      }
    }
  }

  lemma {:induction false} NothingOpens(ts: seq<Token>, end: nat, i: nat)
    requires end < |ts| && forall j :: i <= j <= end ==> ts[j] != Open
    ensures Walks(ts, end, i)
    decreases end + 1 - i
  {
    if i <= end {
      NothingOpens(ts, end, i + 1);
    }
  }

  /* ---- balanced ranges ---- */

  lemma {:induction false} BalancedWalks(ts: seq<Token>, start: nat, end: nat, i: nat)
    requires start <= end < |ts| && start <= i && Balanced(ts, start, end + 1)
    ensures Walks(ts, end, i)
    decreases end + 2 - i
  {
    if i <= end {
      DepthSplit(ts, start, i, end + 1);
      if ts[i] == Open {
        BehindIs(ts, i, end);
        BalancedWalks(ts, start, end, Behind(ts, i, end) + 1);
      } else {
        BalancedWalks(ts, start, end, i + 1);
      }
    }
  }

  /** Without groups side by side, what the way passes outside groups only closes. */
  lemma {:induction false} WalkDepth(ts: seq<Token>, end: nat, i: nat)
    requires i <= end + 1 <= |ts| && Separated(ts, i, end + 1) && Walks(ts, end, i)
    ensures Depth(ts, i, end + 1) <= 0
    ensures Depth(ts, i, end + 1) == 0 ==> NeverNegative(ts, i, end + 1)
    decreases end + 1 - i
  {
    if i <= end {
      var k := i;
      if ts[i] == Open {
        BehindIs(ts, i, end);
        k := Behind(ts, i, end);
      }
      if k <= end {
        WalkDepth(ts, end, k + 1);
        assert Depth(ts, i, k + 1) == Depth(ts, i, k) + Delta(ts[k]);
        forall j | k + 1 <= j <= end + 1
          ensures Depth(ts, i, j) == Delta(ts[k]) + Depth(ts, k + 1, j)
        {
          DepthSplit(ts, i, k + 1, j);
        }
      }
    }
  }

  /** Without groups side by side, a search that is reached ends exactly if the range is balanced. */
  lemma SeparatedWalks(ts: seq<Token>, start: nat, end: nat)
    requires start <= end < |ts| && Depth(ts, start, end + 1) == 0 && Separated(ts, start, end + 1)
    ensures Walks(ts, end, start) <==> Balanced(ts, start, end + 1)
  {
    if Walks(ts, end, start) {
      WalkDepth(ts, end, start);
    } else if Balanced(ts, start, end + 1) {
      BalancedWalks(ts, start, end, start);
    }
  }

  /* ---- the operands of an operator on the way ---- */

  /** The way goes on behind a token that it compares. */
  lemma {:induction false} WalksBehind(ts: seq<Token>, end: nat, i: nat, p: nat)
    requires end < |ts| && Walks(ts, end, i) && Compares(ts, end, i, p)
    ensures i <= p <= end + 1 && Walks(ts, end, p + 1)
    decreases end + 2 - i
  {
    var k := Compared(ts, end, i);
    if p != k {
      WalksBehind(ts, end, k + 1, p);
    }
  }

  /** In front of a token that it compares, the way is that of the shorter range. */
  lemma {:induction false} WalksBefore(ts: seq<Token>, end: nat, i: nat, p: nat)
    requires end < |ts| && 0 < p && Walks(ts, end, i) && Compares(ts, end, i, p)
    ensures p <= end + 1 && Walks(ts, p - 1, i)
    decreases end + 2 - i
  {
    var k := Compared(ts, end, i);
    WalksBehind(ts, end, i, p);
    if ts[i] == Open {
      if p != k {
        WalksBehind(ts, end, k + 1, p);
      }
      BehindIs(ts, i, end);
      if i <= p - 1 {
        BehindIs(ts, i, p - 1);
      }
    }
    if p != k {
      WalksBefore(ts, end, k + 1, p);
    }
  }

  /* ---- ranges that close before they open ---- */

  /** On ")(" the state of the loop repeats after its second round. */
  lemma RepeatsForEver()
    ensures var ts := [Close, Open];
            && Depth(ts, 0, 2) == 0 && !Ends(ts, 1, Scan(0, true))
            && Rounds(ts, 1, Scan(0, true), 2) == Scan(1, false) == Round(ts, 1, Scan(1, false))
  {
    var ts := [Close, Open];
    assert Depth(ts, 0, 1) == -1 && Depth(ts, 0, 2) == 0;
    assert Depth(ts, 1, 2) == 1;
    assert Behind(ts, 1, 1) == 0;
    assert ts[1] == Open;
    assert !Walks(ts, 1, 1);
    SearchEndsIfPaired(ts, 0, 1);
    assert Round(ts, 1, Scan(0, true)) == Scan(1, true);
    assert Rounds(ts, 1, Scan(1, true), 1) == Scan(1, false);
  }

  /** On ")(1)(" the loop looks at the last "(" behind a group, and so leaves the range. */
  lemma LeavesBehindGroup()
    ensures var ts := [Close, Open, Operand("1"), Close, Open];
            Depth(ts, 0, 5) == 0 && !Balanced(ts, 0, 5) && Ends(ts, 4, Scan(0, true))
  {
    var ts := [Close, Open, Operand("1"), Close, Open];
    assert Depth(ts, 0, 1) == -1 && Depth(ts, 0, 2) == 0 && Depth(ts, 0, 3) == 0;
    assert Depth(ts, 0, 4) == -1 && Depth(ts, 0, 5) == 0;
    assert Depth(ts, 1, 2) == 1 && Depth(ts, 1, 3) == 1 && Depth(ts, 1, 4) == 0;
    assert ClosedFrom(ts, 1, 4, 4) == 4;
    assert ClosedFrom(ts, 1, 3, 4) == 4;
    assert Behind(ts, 1, 4) == 4;
    assert Walks(ts, 4, 1);
    SearchEndsIfPaired(ts, 0, 4);
  }
}
