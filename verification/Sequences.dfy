/** Sequences of nodes that are named by their indices in a pool. */
module Sequences {
  /** The index that stands for NULL. */
  const NIL: int := -1

  /** The node at position i of a chain, or NIL outside it. */
  function At(s: seq<nat>, i: int): int {
    if 0 <= i < |s| then s[i] else NIL
  }

  /** s without its element at position i. */
  function Without<T>(s: seq<T>, i: nat): seq<T>
    requires i < |s|
  {
    s[..i] + s[i + 1..]
  }

  /** s with x at position i, in front of what was there. */
  function Inserted<T>(s: seq<T>, i: nat, x: T): seq<T>
    requires i <= |s|
  {
    s[..i] + [x] + s[i..]
  }

  function Upto(n: nat): (s: seq<nat>)
    ensures |s| == n && forall i :: 0 <= i < n ==> s[i] == i
  {
    seq(n, i => i)
  }

  lemma WithoutElements(s: seq<nat>, i: nat)
    requires i < |s|
    ensures |Without(s, i)| == |s| - 1
    ensures forall p :: p in s <==> p == s[i] || p in Without(s, i)
  {
    forall p | p in s && p != s[i]
      ensures p in Without(s, i)
    {
      var j :| 0 <= j < |s| && s[j] == p;
      assert Without(s, i)[if j < i then j else j - 1] == p;
    }
  }
}
