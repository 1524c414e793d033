/**
 The pooled doubly linked list of game/include/adt/linklist.h.  Pointers into the static pool are
 its indices, with NIL for NULL; the last node of the pool ends the free list and is never handed out.
 */
module LinkList {
  import opened Sequences

  datatype Node<T> = Node(data: T, prev: int, next: int)

  /** The nodes s, all different, are linked both ways from first on; prev is in front of the first. */
  ghost predicate Chain<T>(pool: seq<Node<T>>, first: int, prev: int, s: seq<nat>)
    decreases s
  {
    if s == [] then first == NIL
    else && first == s[0] < |pool| && s[0] !in s[1..] && pool[s[0]].prev == prev
         && Chain(pool, pool[s[0]].next, s[0], s[1..])
  }

  /** The free nodes s, all different, are linked from first on and end at the last node of the pool. */
  ghost predicate FreeChain<T>(pool: seq<Node<T>>, first: int, s: seq<nat>)
    decreases s
  {
    if s == [] then first == |pool| - 1 >= 0 && pool[first].next == NIL
    else first == s[0] < |pool| - 1 && s[0] !in s[1..] && FreeChain(pool, pool[s[0]].next, s[1..])
  }

  /** No node outside touched has changed. */
  ghost predicate Framed<T(!new)>(pool: seq<Node<T>>, pool': seq<Node<T>>, touched: set<int>) {
    && |pool'| == |pool|
    && forall p: nat :: p < |pool| && p !in touched ==> pool'[p] == pool[p]
  }

  ghost predicate SameData<T(!new)>(pool: seq<Node<T>>, pool': seq<Node<T>>) {
    && |pool'| == |pool|
    && forall p: nat :: p < |pool| ==> pool'[p].data == pool[p].data
  }

  lemma {:induction false} ChainKept<T>(pool: seq<Node<T>>, pool': seq<Node<T>>, first: int, prev: int, s: seq<nat>)
    requires Chain(pool, first, prev, s) && |pool'| == |pool|
    requires forall p: nat :: p < |pool| && p in s ==> pool'[p].prev == pool[p].prev && pool'[p].next == pool[p].next
    ensures Chain(pool', first, prev, s)
    decreases s
  {
    if s != [] {
      ChainKept(pool, pool', pool[s[0]].next, s[0], s[1..]);
    }
  }

  lemma {:induction false} FreeChainKept<T>(pool: seq<Node<T>>, pool': seq<Node<T>>, first: int, s: seq<nat>)
    requires FreeChain(pool, first, s) && |pool'| == |pool|
    requires forall p: nat :: p < |pool| && (p in s || p == |pool| - 1) ==> pool'[p].next == pool[p].next
    ensures FreeChain(pool', first, s)
    decreases s
  {
    if s != [] {
      FreeChainKept(pool, pool', pool[s[0]].next, s[1..]);
    }
  }

  lemma {:induction false} ChainLink<T>(pool: seq<Node<T>>, first: int, prev: int, s: seq<nat>, i: nat)
    requires Chain(pool, first, prev, s) && i < |s|
    ensures first == s[0] && s[i] < |pool| && pool[s[i]].next == At(s, i + 1)
    ensures pool[s[i]].prev == if i == 0 then prev else s[i - 1]
    decreases s
  {
    if i > 0 {
      ChainLink(pool, pool[s[0]].next, s[0], s[1..], i - 1);
    }
  }

  /** The nodes of a chain lie in the pool, and no two of them are the same. */
  lemma {:induction false} ChainNodes<T>(pool: seq<Node<T>>, first: int, prev: int, s: seq<nat>)
    requires Chain(pool, first, prev, s)
    ensures forall p :: p in s ==> p < |pool|
    ensures forall i, j :: 0 <= i < j < |s| ==> s[i] != s[j]
    decreases s
  {
    if s != [] {
      ChainNodes(pool, pool[s[0]].next, s[0], s[1..]);
      assert s == [s[0]] + s[1..];
    }
  }

  lemma {:induction false} InsertedChain<T>(pool: seq<Node<T>>, first: int, prev: int, s: seq<nat>, i: nat, obj: nat,
                                            pool': seq<Node<T>>, first': int)
    requires Chain(pool, first, prev, s) && i <= |s| && obj < |pool| == |pool'| && obj !in s
    requires pool'[obj].prev == (if i == 0 then prev else s[i - 1]) && pool'[obj].next == At(s, i)
    requires first' == if i == 0 then obj else first
    requires forall p: nat :: p < |pool| && p in s ==>
                                && pool'[p].prev == (if i < |s| && p == s[i] then obj else pool[p].prev)
                                && pool'[p].next == (if i > 0 && p == s[i - 1] then obj else pool[p].next)
    ensures Chain(pool', first', prev, Inserted(s, i, obj))
    decreases i
  {
    if i == 0 {
      assert Inserted(s, i, obj)[1..] == s;
      if s != [] {
        ChainKept(pool, pool', pool[s[0]].next, s[0], s[1..]);
      }
    } else {
      var t := s[1..];
      assert Inserted(s, i, obj) == [s[0]] + Inserted(t, i - 1, obj);
      assert i > 1 ==> s[i - 1] == t[i - 2] && s[i - 1] in t;
      assert i < |s| ==> s[i] == t[i - 1] && s[i] in t;
      assert At(s, i) == At(t, i - 1);
      InsertedChain(pool, pool[s[0]].next, s[0], t, i - 1, obj, pool', pool'[s[0]].next);
    }
  }

  lemma RemovedFirst<T>(pool: seq<Node<T>>, first: int, prev: int, s: seq<nat>, pool': seq<Node<T>>)
    requires Chain(pool, first, prev, s) && s != [] && |pool| == |pool'|
    requires forall p: nat :: p < |pool| && p in s && p != s[0] ==>
                                && pool'[p].prev == (if 1 < |s| && p == s[1] then prev else pool[p].prev)
                                && pool'[p].next == pool[p].next
    ensures Chain(pool', At(s, 1), prev, s[1..])
  {
    var t := s[1..];
    if t != [] {
      assert t[0] == s[1] && t[0] in t;
      ChainKept(pool, pool', pool[t[0]].next, t[0], t[1..]);
    }
  }

  lemma {:induction false} RemovedChain<T>(pool: seq<Node<T>>, first: int, prev: int, s: seq<nat>, i: nat,
                                           pool': seq<Node<T>>, first': int)
    requires Chain(pool, first, prev, s) && i < |s| && |pool| == |pool'|
    requires first' == if i == 0 then At(s, 1) else first
    requires forall p: nat :: p < |pool| && p in s && p != s[i] ==>
                                && pool'[p].prev == (if i + 1 < |s| && p == s[i + 1]
                                                     then (if i == 0 then prev else s[i - 1]) else pool[p].prev)
                                && pool'[p].next == (if i > 0 && p == s[i - 1] then At(s, i + 1) else pool[p].next)
    ensures Chain(pool', first', prev, Without(s, i)) && s[i] !in Without(s, i)
    decreases i
  {
    if i == 0 {
      RemovedFirst(pool, first, prev, s, pool');
      assert Without(s, i) == s[1..];
    } else {
      var t := s[1..];
      assert Without(s, i) == [s[0]] + Without(t, i - 1);
      assert s[i] == t[i - 1] && s[i] in t;
      assert i > 1 ==> s[i - 1] == t[i - 2] && s[i - 1] in t;
      assert i + 1 < |s| ==> s[i + 1] == t[i] && s[i + 1] in t;
      assert At(s, i + 1) == At(t, i);
      ChainLink(pool, first, prev, s, 0);
      RemovedChain(pool, pool[s[0]].next, s[0], t, i - 1, pool', pool'[s[0]].next);
    }
  }

  /** The nodes from i on, linked by their numbers. */
  lemma {:induction false} InitialChain<T>(pool: seq<Node<T>>, i: nat)
    requires i < |pool| && pool[|pool| - 1].next == NIL
    requires forall p: nat :: p < |pool| - 1 ==> pool[p].next == p + 1
    ensures FreeChain(pool, i, Upto(|pool| - 1)[i..])
    decreases |pool| - i
  {
    if i < |pool| - 1 {
      assert Upto(|pool| - 1)[i..][1..] == Upto(|pool| - 1)[i + 1..];
      InitialChain(pool, i + 1);
    }
  }

  lemma {:induction false} FreeNodes<T>(pool: seq<Node<T>>, first: int, s: seq<nat>)
    requires FreeChain(pool, first, s)
    ensures forall p :: p in s ==> p < |pool| - 1
    decreases s
  {
    if s != [] {
      FreeNodes(pool, pool[s[0]].next, s[1..]);
      assert s == [s[0]] + s[1..];
    }
  }

  class Pool<T(!new)> {
    const size: nat
    const pool: array<Node<T>>
    var freeHead: int
    /** The nodes that new can hand out, in order; before the first call, all of them. */
    ghost var idle: seq<nat>
    /** How often new has linked the pool. */
    ghost var linked: nat

    ghost predicate Valid()
      reads this, pool
    {
      && pool.Length == size + 1 && linked == (if freeHead == NIL then 0 else 1)
      && if freeHead == NIL then idle == Upto(size) && pool[size].next == NIL
         else FreeChain(pool[..], freeHead, idle)
    }

    /** The static initialisation: all links are NULL. */
    constructor (size: nat, zero: T)
      ensures Valid() && fresh(pool) && this.size == size && freeHead == NIL && idle == Upto(size)
    {
      this.size := size;
      pool := new Node<T>[size + 1](_ => Node(zero, NIL, NIL));
      freeHead := NIL;
      idle := Upto(size);
      linked := 0;
    }

    /** The branch of new that links the pool. */
    method LinkPool()
      requires Valid() && freeHead == NIL
      modifies pool, this`linked
      ensures linked == 1 && FreeChain(pool[..], 0, idle) && SameData(old(pool[..]), pool[..])
      ensures Framed(old(pool[..]), pool[..], set p | p in idle)
    {
      var i := 1;
      while i <= size
        invariant 1 <= i <= size + 1 && linked == old(linked) && pool[size] == old(pool[size])
        invariant forall p: nat :: p < i - 1 ==> pool[p].next == p + 1
        invariant SameData(old(pool[..]), pool[..])
      {
        pool[i - 1] := pool[i - 1].(next := i);
        i := i + 1;
      }
      linked := linked + 1;
      InitialChain(pool[..], 0);
      assert Upto(size)[0..] == Upto(size);
      forall p: nat | p < size
        ensures p in idle
      {
        assert idle[p] == p;
      }
    }

    /**
     new; the C code asserts that a free node is followed by another.  The pool is linked at most
     once, because the free head is never NULL again.
     */
    method New() returns (ret: nat)
      requires Valid() && idle != []
      modifies this`freeHead, this`idle, this`linked, pool
      ensures Valid() && freeHead != NIL && ret == old(idle)[0] < size && idle == old(idle)[1..] && ret !in idle
      ensures pool[ret] == Node(old(pool[..])[ret].data, NIL, NIL)
      ensures Framed(old(pool[..]), pool[..], set p | p in old(idle)) && SameData(old(pool[..]), pool[..])
    {
      var head := freeHead;
      if head == NIL {
        LinkPool();
        head := 0;
      }
      ghost var linked := pool[..];
      assert FreeChain(linked, linked[head].next, idle[1..]);
      assert pool[head].next != NIL;
      ret := head;
      freeHead := pool[head].next;
      pool[ret] := pool[ret].(prev := NIL, next := NIL);
      idle := idle[1..];
      FreeChainKept(linked, pool[..], freeHead, idle);
      FreeNodes(linked, head, old(idle));
    }

    /** insert: obj goes between its neighbours in the chain s. */
    method Insert(prev: int, next: int, obj: nat, ghost first: int, ghost s: seq<nat>, ghost i: nat)
      requires Valid() && Chain(pool[..], first, NIL, s) && i <= |s| && prev == At(s, i - 1) && next == At(s, i)
      requires prev != NIL || next != NIL
      requires obj < size && obj !in s && obj !in idle && forall p :: p in s ==> p < size && p !in idle
      modifies pool
      ensures Valid() && Chain(pool[..], if i == 0 then obj else first, NIL, Inserted(s, i, obj))
      ensures SameData(old(pool[..]), pool[..]) && Framed(old(pool[..]), pool[..], {prev, next, obj})
    {
      ghost var before := pool[..];
      ChainNodes(before, first, NIL, s);
      assert (prev != NIL ==> prev in s) && (next != NIL ==> next in s);
      pool[obj] := pool[obj].(prev := prev);
      pool[obj] := pool[obj].(next := next);
      if prev != NIL {
        pool[prev] := pool[prev].(next := obj);
      }
      if next != NIL {
        pool[next] := pool[next].(prev := obj);
      }
      InsertedChain(before, first, NIL, s, i, obj, pool[..], if i == 0 then obj else first);
      if freeHead != NIL {
        FreeChainKept(before, pool[..], freeHead, idle);
      }
    }

    /** remove: the neighbours of node are linked to each other; node keeps its own links. */
    method Remove(node: nat, ghost first: int, ghost s: seq<nat>, ghost i: nat)
      requires Valid() && Chain(pool[..], first, NIL, s) && i < |s| && node == s[i]
      requires forall p :: p in s ==> p < size && p !in idle
      modifies pool
      ensures Valid() && Chain(pool[..], if i == 0 then At(s, 1) else first, NIL, Without(s, i))
      ensures s[i] !in Without(s, i)
      ensures SameData(old(pool[..]), pool[..]) && Framed(old(pool[..]), pool[..], {At(s, i - 1), At(s, i + 1)})
    {
      ghost var before := pool[..];
      ChainLink(before, first, NIL, s, i);
      ChainNodes(before, first, NIL, s);
      var prev, next := pool[node].prev, pool[node].next;
      assert (prev != NIL ==> prev in s) && (next != NIL ==> next in s);
      if prev != NIL {
        pool[prev] := pool[prev].(next := next);
      }
      if next != NIL {
        pool[next] := pool[next].(prev := prev);
      }
      RemovedChain(before, first, NIL, s, i, pool[..], if i == 0 then At(s, 1) else first);
      if freeHead != NIL {
        FreeChainKept(before, pool[..], freeHead, idle);
      }
    }

    /** free: node is the next one to be handed out. */
    method Free(node: nat)
      requires Valid() && freeHead != NIL && node < size && node !in idle
      modifies this`freeHead, this`idle, pool
      ensures Valid() && freeHead != NIL && idle == [node] + old(idle)
      ensures SameData(old(pool[..]), pool[..]) && Framed(old(pool[..]), pool[..], {node})
    {
      pool[node] := pool[node].(next := freeHead);
      FreeChainKept(old(pool[..]), pool[..], freeHead, idle);
      freeHead := node;
      idle := [node] + idle;
      assert idle[1..] == old(idle);
    }
  }
}
