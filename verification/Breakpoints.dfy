/**
 The breakpoint manager of nemu/src/monitor/breakpoint.c.  Pointers into the static node pool are
 its indices, with NIL for NULL.
 */
module Breakpoints {
  import opened Sequences
  import opened Words
  import opened Wrappers

  const INT3: byte := 0xf1
  const NR_BP: nat := 32

  datatype Kind = Breakpoint | Watchpoint

  datatype Bp = Bp(no: int, inUse: bool, enable: bool, oriByte: byte, kind: Kind, addr: nat,
                   expr: string, oldVal: int, next: int)

  /* ---- chains over a node pool ---- */

  /** The nodes s, all different, are linked in this order from first on. */
  ghost predicate Chain(pool: seq<Bp>, first: int, s: seq<nat>)
    decreases s
  {
    if s == [] then first == NIL
    else first == s[0] < |pool| && s[0] !in s[1..] && Chain(pool, pool[s[0]].next, s[1..])
  }

  /** The nodes of pool are on the live chain, on the idle chain, or in taken. */
  ghost predicate Partition(pool: seq<Bp>, live: seq<nat>, idle: seq<nat>, taken: set<nat>) {
    forall p: nat :: p < |pool| ==>
                       && (p in live || p in idle || p in taken)
                       && !(p in live && p in idle) && !(p in live && p in taken) && !(p in idle && p in taken)
                       && (pool[p].inUse <==> p !in idle)
  }

  /** Every node carries its own index as its number. */
  ghost predicate Numbered(pool: seq<Bp>) {
    forall p: nat :: p < |pool| ==> pool[p].no == p
  }

  /** The breakpoints among s lie in memory of this size. */
  ghost predicate InRange(pool: seq<Bp>, s: seq<nat>, size: nat) {
    forall p: nat :: p < |pool| && p in s && pool[p].kind == Breakpoint ==> pool[p].addr < size
  }

  /** Node p holds b, and no other node has changed. */
  ghost predicate Updated(pool: seq<Bp>, pool': seq<Bp>, p: nat, b: Bp) {
    && |pool'| == |pool| && p < |pool| && pool'[p] == b
    && forall q: nat :: q < |pool| && q != p ==> pool'[q] == pool[q]
  }

  lemma {:induction false} ChainKept(pool: seq<Bp>, pool': seq<Bp>, first: int, s: seq<nat>)
    requires Chain(pool, first, s) && |pool'| == |pool|
    requires forall p: nat :: p < |pool| && p in s ==> pool'[p].next == pool[p].next
    ensures Chain(pool', first, s)
    decreases s
  {
    if s != [] {
      ChainKept(pool, pool', pool[s[0]].next, s[1..]);
    }
  }

  lemma ChainPushed(pool: seq<Bp>, first: int, s: seq<nat>, p: nat)
    requires Chain(pool, first, s) && p < |pool| && p !in s && pool[p].next == first
    ensures Chain(pool, p, [p] + s)
  {
    assert ([p] + s)[1..] == s;
  }

  lemma {:induction false} ChainLink(pool: seq<Bp>, first: int, s: seq<nat>, i: nat)
    requires Chain(pool, first, s) && i < |s|
    ensures first == s[0] && s[i] < |pool| && pool[s[i]].next == At(s, i + 1)
    decreases s
  {
    if i > 0 {
      ChainLink(pool, pool[s[0]].next, s[1..], i - 1);
      assert s[i] == s[1..][i - 1];
    }
  }

  lemma {:induction false} ChainNodes(pool: seq<Bp>, first: int, s: seq<nat>)
    requires Chain(pool, first, s)
    ensures forall p :: p in s ==> p < |pool|
    decreases s
  {
    if s != [] {
      ChainNodes(pool, pool[s[0]].next, s[1..]);
      assert s == [s[0]] + s[1..];
    }
  }

  /** Linking the predecessor of node i, or the chain's start, past node i unlinks it. */
  lemma {:induction false} ChainUnlinked(pool: seq<Bp>, first: int, s: seq<nat>, i: nat, pool': seq<Bp>, first': int)
    requires Chain(pool, first, s) && i < |s|
    requires if i == 0 then first' == At(s, 1) && pool' == pool
             else && first' == first && s[i - 1] < |pool|
                  && Updated(pool, pool', s[i - 1], pool[s[i - 1]].(next := At(s, i + 1)))
    ensures Chain(pool', first', Without(s, i)) && s[i] !in Without(s, i)
    decreases i
  {
    var s' := s[1..];
    if i == 0 {
      assert Without(s, 0) == s';
      if s' != [] {
        ChainLink(pool, first, s, 0);
      }
    } else {
      assert Without(s, i) == [s[0]] + Without(s', i - 1);
      assert Without(s, i)[1..] == Without(s', i - 1);
      assert s[i] == s'[i - 1] && s[i] in s';
      if i == 1 {
        ChainUnlinked(pool, pool[s[0]].next, s', 0, pool, At(s', 1));
        ChainKept(pool, pool', At(s', 1), Without(s', 0));
      } else {
        assert s[i - 1] == s'[i - 2] && s[i - 1] in s';
        ChainUnlinked(pool, pool[s[0]].next, s', i - 1, pool', pool[s[0]].next);
      }
      WithoutElements(s', i - 1);
    }
  }

  /* ---- the patched program ---- */

  /** The addresses of the breakpoints among the nodes s. */
  ghost function Addresses(pool: seq<Bp>, s: seq<nat>): set<nat> {
    set p | p in s && p < |pool| && pool[p].kind == Breakpoint :: pool[p].addr
  }

  /** The breakpoints among s remember the bytes of the program that they replace. */
  ghost predicate Remembers(pool: seq<Bp>, s: seq<nat>, image: seq<byte>) {
    forall p :: p in s && p < |pool| && pool[p].kind == Breakpoint ==>
                  pool[p].addr < |image| && pool[p].oriByte == image[pool[p].addr]
  }

  /** Memory is the program with INT3 over the armed addresses. */
  ghost predicate Overlaid(mem: seq<byte>, image: seq<byte>, armed: set<nat>) {
    && |image| == |mem|
    && (forall a :: a in armed ==> a < |image|)
    && forall a :: 0 <= a < |image| ==> mem[a] == if a in armed then INT3 else image[a]
  }

  lemma AddressesSplit(pool: seq<Bp>, s: seq<nat>, i: nat)
    requires i < |s|
    ensures Addresses(pool, s) == Addresses(pool, [s[i]]) + Addresses(pool, Without(s, i))
  {
    WithoutElements(s, i);
  }

  /** What an unchanged part of the pool says about its addresses and the bytes behind them. */
  lemma SameNodes(pool: seq<Bp>, pool': seq<Bp>, s: seq<nat>, image: seq<byte>)
    requires |pool| == |pool'|
    requires forall p :: p in s && p < |pool| ==>
                           && pool'[p].kind == pool[p].kind && pool'[p].addr == pool[p].addr
                           && pool'[p].oriByte == pool[p].oriByte
    ensures Addresses(pool', s) == Addresses(pool, s)
    ensures Remembers(pool', s, image) == Remembers(pool, s, image)
  {
  }

  lemma SingleAddress(pool: seq<Bp>, p: nat)
    requires p < |pool|
    ensures Addresses(pool, [p]) == if pool[p].kind == Breakpoint then {pool[p].addr} else {}
  {
  }

  /** The pool as init_bp_list leaves it: one chain through all nodes. */
  lemma InitialLists(pool: seq<Bp>)
    requires |pool| > 0
    requires forall p: nat :: p < |pool| ==> !pool[p].inUse && pool[p].next == if p + 1 < |pool| then p + 1 else NIL
    ensures Chain(pool, 0, Upto(|pool|)) && Chain(pool, NIL, [])
    ensures Partition(pool, [], Upto(|pool|), {})
  {
    InitialChain(pool, 0);
    forall p: nat | p < |pool|
      ensures p in Upto(|pool|)
    {
      assert Upto(|pool|)[p] == p;
    }
  }

  lemma {:induction false} InitialChain(pool: seq<Bp>, i: nat)
    requires i < |pool|
    requires forall p: nat :: p < |pool| ==> pool[p].next == if p + 1 < |pool| then p + 1 else NIL
    ensures Chain(pool, i, Upto(|pool|)[i..])
    decreases |pool| - i
  {
    assert Upto(|pool|)[i..][1..] == Upto(|pool|)[i + 1..];
    if i + 1 < |pool| {
      InitialChain(pool, i + 1);
    }
  }

  /** The loop of init_bp_list, and the statement behind it that ends the chain. */
  method LinkPool(bpList: array<Bp>)
    requires bpList.Length == NR_BP
    modifies bpList
    ensures forall p: nat :: p < NR_BP ==>
                               && bpList[p].no == p && !bpList[p].inUse
                               && bpList[p].next == if p + 1 < NR_BP then p + 1 else NIL
  {
    var i := 0;
    while i < NR_BP
      invariant i <= NR_BP
      invariant forall p: nat :: p < i ==> bpList[p].no == p && !bpList[p].inUse && bpList[p].next == p + 1
    {
      bpList[i] := bpList[i].(no := i, inUse := false, next := i + 1);
      i := i + 1;
    }
    bpList[NR_BP - 1] := bpList[NR_BP - 1].(next := NIL);
  }

  /* ---- what deleting, masking and resuming do to memory ---- */

  /** The byte that a breakpoint replaced is back. */
  function Undo(mem: seq<byte>, b: Bp): (r: seq<byte>)
    requires b.kind == Breakpoint ==> b.addr < |mem|
    ensures |r| == |mem|
  {
    if b.kind == Breakpoint then mem[b.addr := b.oriByte] else mem
  }

  /** The bytes of all breakpoints in s are back, that of the first in s written last. */
  function Undone(mem: seq<byte>, pool: seq<Bp>, s: seq<nat>): (r: seq<byte>)
    requires InRange(pool, s, |mem|)
    ensures |r| == |mem|
  {
    if s == [] then mem
    else if s[0] < |pool| then Undo(Undone(mem, pool, s[1..]), pool[s[0]])
    else Undone(mem, pool, s[1..])
  }

  function Overlay(mem: seq<byte>, armed: set<nat>): (r: seq<byte>)
    ensures |r| == |mem|
  {
    seq(|mem|, a requires 0 <= a < |mem| => if a in armed then INT3 else mem[a])
  }

  function Reversed(s: seq<nat>): (r: seq<nat>)
    ensures |r| == |s|
  {
    seq(|s|, i requires 0 <= i < |s| => s[|s| - 1 - i])
  }

  /** The first breakpoint of s at this address. */
  function Find(pool: seq<Bp>, s: seq<nat>, addr: nat): (p: int) {
    if s == [] then NIL
    else if s[0] < |pool| && pool[s[0]].kind == Breakpoint && pool[s[0]].addr == addr then s[0]
    else Find(pool, s[1..], addr)
  }

  lemma ReversedNext(s: seq<nat>, i: nat)
    requires i < |s|
    ensures Reversed(s[..i + 1]) == [s[i]] + Reversed(s[..i])
    ensures Reversed(s[..i + 1])[0] == s[i] && Reversed(s[..i + 1])[1..] == Reversed(s[..i])
  {
  }

  lemma ReversedElements(s: seq<nat>)
    ensures forall p :: p in Reversed(s) <==> p in s
  {
    forall p | p in s
      ensures p in Reversed(s)
    {
      var i :| 0 <= i < |s| && s[i] == p;
      assert Reversed(s)[|s| - 1 - i] == p;
    }
  }

  /** Everything but the links is the same. */
  ghost predicate SameContents(pool: seq<Bp>, pool': seq<Bp>) {
    && |pool'| == |pool|
    && forall p: nat :: p < |pool| ==> pool'[p].(next := NIL) == pool[p].(next := NIL)
  }

  /** The nodes s keep their numbers, kinds, addresses and bytes. */
  ghost predicate SameRecords(pool: seq<Bp>, pool': seq<Bp>, s: seq<nat>) {
    && |pool'| == |pool|
    && forall p: nat :: p < |pool| && p in s ==> pool'[p].(next := NIL) == pool[p].(next := NIL)
  }

  lemma UpdatedTwice(pool: seq<Bp>, pool': seq<Bp>, pool'': seq<Bp>, p: nat, b: Bp, b': Bp)
    requires Updated(pool, pool', p, b) && Updated(pool', pool'', p, b')
    ensures Updated(pool, pool'', p, b')
  {
  }

  /** A pushed node adds its own address and its own memory to those of the chain. */
  lemma PushedNode(pool: seq<Bp>, p: nat, s: seq<nat>, image: seq<byte>)
    requires p < |pool|
    ensures Addresses(pool, [p] + s) == (if pool[p].kind == Breakpoint then {pool[p].addr} else {}) + Addresses(pool, s)
    ensures Remembers(pool, [p] + s, image) <==> Remembers(pool, [p], image) && Remembers(pool, s, image)
  {
  }

  lemma NewlyPatched(pool: seq<Bp>, pool': seq<Bp>, first: int, s: seq<nat>, p: nat, mem: seq<byte>, image: seq<byte>,
                     armed: set<nat>, addr: nat)
    requires p !in s && addr < |mem| && p < |pool'| && Updated(pool, pool', p, pool'[p])
    requires pool'[p].kind == Breakpoint && pool'[p].addr == addr && pool'[p].oriByte == mem[addr]
    requires Chain(pool, first, s)
    requires Overlaid(mem, image, armed) && Remembers(pool, s, image) && armed <= Addresses(pool, s)
    ensures Overlaid(mem[addr := INT3], image, armed + {addr})
    ensures armed + {addr} <= Addresses(pool', [p] + s)
    ensures Remembers(pool', [p] + s, image) <==> addr !in armed || image[addr] == INT3
  {
    SameNodes(pool, pool', s, image);
    PushedNode(pool', p, s, image);
    OverlaidArmed(mem, image, armed, addr);
    RemembersOne(pool', p, image);
  }

  lemma OverlaidArmed(mem: seq<byte>, image: seq<byte>, armed: set<nat>, addr: nat)
    requires Overlaid(mem, image, armed) && addr < |mem|
    ensures Overlaid(mem[addr := INT3], image, armed + {addr})
    ensures mem[addr] == image[addr] <==> addr !in armed || image[addr] == INT3
  {
  }

  lemma RemembersOne(pool: seq<Bp>, p: nat, image: seq<byte>)
    requires p < |pool| && pool[p].kind == Breakpoint && pool[p].addr < |image|
    ensures Remembers(pool, [p], image) <==> pool[p].oriByte == image[pool[p].addr]
  {
    assert [p][0] == p;
  }

  lemma FreedPartition(pool: seq<Bp>, pool': seq<Bp>, live: seq<nat>, idle: seq<nat>, p: nat, size: nat)
    requires Partition(pool, live, idle, {p}) && Numbered(pool) && InRange(pool, live, size)
    requires p < |pool| == |pool'| && Updated(pool, pool', p, pool'[p]) && !pool'[p].inUse && pool'[p].no == p
    ensures Partition(pool', live, [p] + idle, {}) && Numbered(pool') && InRange(pool', live, size)
  {
  }

  /** Freeing node i of the live chain s takes its patch back, and no other. */
  lemma Unpatched(pool: seq<Bp>, pool': seq<Bp>, pool'': seq<Bp>, s: seq<nat>, i: nat, mem: seq<byte>,
                  image: seq<byte>, armed: set<nat>)
    requires i < |s| && s[i] < |pool| == |pool''| && SameContents(pool, pool') && s[i] !in Without(s, i)
    requires Updated(pool', pool'', s[i], pool''[s[i]])
    requires pool[s[i]].kind == Breakpoint ==> pool[s[i]].addr < |mem|
    ensures SameRecords(pool, pool'', Without(s, i))
    ensures Overlaid(mem, image, armed) && Remembers(pool, s, image) && armed <= Addresses(pool, s) ==>
              && Overlaid(Undo(mem, pool[s[i]]), image, armed - Addresses(pool, [s[i]]))
              && Remembers(pool'', Without(s, i), image)
              && armed - Addresses(pool, [s[i]]) <= Addresses(pool'', Without(s, i))
  {
    var s' := Without(s, i);
    SameNodes(pool, pool'', s', image);
    AddressesSplit(pool, s, i);
    SingleAddress(pool, s[i]);
    WithoutElements(s, i);
  }

  /** The nodes s are marked free, with new links; the others have not changed. */
  ghost predicate Freed(pool: seq<Bp>, pool': seq<Bp>, s: seq<nat>) {
    && |pool'| == |pool|
    && forall p: nat :: p < |pool| ==>
                          if p in s then pool'[p].(next := NIL) == pool[p].(inUse := false, next := NIL)
                          else pool'[p] == pool[p]
  }

  lemma FreedNext(pool: seq<Bp>, pool': seq<Bp>, pool'': seq<Bp>, s: seq<nat>)
    requires s != [] && s[0] !in s[1..] && s[0] < |pool| == |pool''| && Freed(pool, pool', s[1..])
    requires Updated(pool', pool'', s[0], pool''[s[0]])
    requires pool''[s[0]].(next := NIL) == pool[s[0]].(inUse := false, next := NIL)
    ensures Freed(pool, pool'', s)
  {
    assert s == [s[0]] + s[1..];
  }

  lemma Disarmed(pool: seq<Bp>, pool': seq<Bp>, s: seq<nat>, armed: set<nat>)
    requires s != [] && s[0] !in s[1..] && s[0] < |pool| && Freed(pool, pool', s[1..])
    ensures armed - Addresses(pool, s[1..]) - Addresses(pool', [s[0]]) == armed - Addresses(pool, s)
  {
    AddressesSplit(pool, s, 0);
    assert Without(s, 0) == s[1..];
  }

  /** The breakpoints among s are marked enabled; nothing else has changed. */
  ghost predicate Enabled(pool: seq<Bp>, pool': seq<Bp>, s: seq<nat>) {
    && |pool'| == |pool|
    && forall p: nat :: p < |pool| ==>
                          pool'[p] == if p in s && pool[p].kind == Breakpoint then pool[p].(enable := true) else pool[p]
  }

  lemma EnabledNext(pool: seq<Bp>, pool': seq<Bp>, pool'': seq<Bp>, s: seq<nat>, i: nat)
    requires i < |s| && s[i] < |pool| && Enabled(pool, pool', s[..i])
    requires var b := pool'[s[i]];
             Updated(pool', pool'', s[i], if b.kind == Breakpoint then b.(enable := true) else b)
    ensures Enabled(pool, pool'', s[..i + 1])
  {
    assert s[..i + 1] == s[..i] + [s[i]];
  }

  lemma EnabledLists(pool: seq<Bp>, pool': seq<Bp>, head: int, live: seq<nat>, free: int, idle: seq<nat>)
    requires Enabled(pool, pool', live) && Chain(pool, head, live) && Chain(pool, free, idle)
    requires Partition(pool, live, idle, {}) && Numbered(pool)
    ensures Chain(pool', head, live) && Chain(pool', free, idle) && Partition(pool', live, idle, {}) && Numbered(pool')
  {
    ChainKept(pool, pool', head, live);
    ChainKept(pool, pool', free, idle);
  }

  lemma EnabledRange(pool: seq<Bp>, pool': seq<Bp>, s: seq<nat>, size: nat)
    requires Enabled(pool, pool', s) && InRange(pool, s, size)
    ensures InRange(pool', s, size)
  {
  }

  lemma OverlayNext(mem: seq<byte>, pool: seq<Bp>, s: seq<nat>, i: nat)
    requires i < |s| && s[i] < |pool| && (pool[s[i]].kind == Breakpoint ==> pool[s[i]].addr < |mem|)
    ensures Overlay(mem, Addresses(pool, s[..i + 1]))
            == if pool[s[i]].kind == Breakpoint then Overlay(mem, Addresses(pool, s[..i]))[pool[s[i]].addr := INT3]
               else Overlay(mem, Addresses(pool, s[..i]))
  {
    AddressesSplit(pool, s[..i + 1], i);
    assert Without(s[..i + 1], i) == s[..i];
    SingleAddress(pool, s[i]);
  }

  /** Undoing breakpoints that remember the program, in any order, disarms their addresses. */
  lemma {:induction false} UndoneOverlaid(mem: seq<byte>, pool: seq<Bp>, s: seq<nat>, image: seq<byte>, armed: set<nat>)
    requires Overlaid(mem, image, armed) && Remembers(pool, s, image)
    ensures InRange(pool, s, |mem|)
    ensures Overlaid(Undone(mem, pool, s), image, armed - Addresses(pool, s))
    decreases s
  {
    if s == [] {
      assert armed - Addresses(pool, s) == armed;
    } else {
      assert s == [s[0]] + s[1..];
      UndoneOverlaid(mem, pool, s[1..], image, armed);
      AddressesSplit(pool, s, 0);
      assert Without(s, 0) == s[1..];
      if s[0] < |pool| {
        SingleAddress(pool, s[0]);
      }
    }
  }

  lemma {:induction false} FindListed(pool: seq<Bp>, s: seq<nat>, addr: nat)
    ensures var p := Find(pool, s, addr);
            && (p != NIL <==> addr in Addresses(pool, s))
            && (p != NIL ==> 0 <= p < |pool| && p in s && pool[p].kind == Breakpoint && pool[p].addr == addr)
    decreases s
  {
    if s != [] {
      assert s == [s[0]] + s[1..];
      FindListed(pool, s[1..], addr);
    }
  }

  /** Where several breakpoints undo one address, the byte of the first of them stays. */
  lemma {:induction false} UndoneAt(mem: seq<byte>, pool: seq<Bp>, s: seq<nat>, addr: nat)
    requires InRange(pool, s, |mem|) && addr < |mem|
    ensures var p := Find(pool, s, addr);
            if p == NIL then Undone(mem, pool, s)[addr] == mem[addr]
            else 0 <= p < |pool| && Undone(mem, pool, s)[addr] == pool[p].oriByte
    decreases s
  {
    if s != [] {
      assert s == [s[0]] + s[1..];
      UndoneAt(mem, pool, s[1..], addr);
    }
  }

  /** Masking and resuming is a round trip exactly if INT3 stands at every live breakpoint. */
  lemma MaskThenResume(mem: seq<byte>, pool: seq<Bp>, s: seq<nat>)
    requires InRange(pool, s, |mem|)
    ensures InRange(pool, Reversed(s), |mem|)
    ensures Overlay(Undone(mem, pool, Reversed(s)), Addresses(pool, s)) == mem
            <==> forall a :: a in Addresses(pool, s) ==> mem[a] == INT3
  {
    ReversedElements(s);
    var masked := Undone(mem, pool, Reversed(s));
    var resumed := Overlay(masked, Addresses(pool, s));
    forall a: nat | a < |mem|
      ensures resumed[a] == if a in Addresses(pool, s) then INT3 else mem[a]
    {
      UndoneAt(mem, pool, Reversed(s), a);
      FindListed(pool, Reversed(s), a);
      assert Addresses(pool, Reversed(s)) == Addresses(pool, s);
    }
  }

  /**
   Freeing the chain s restores the program exactly if the breakpoint set last at each address
   remembers the program's byte: two breakpoints on one armed address lose it.
   */
  lemma DeleteAllRestores(mem: seq<byte>, pool: seq<Bp>, s: seq<nat>, image: seq<byte>, armed: set<nat>)
    requires InRange(pool, s, |mem|) && Overlaid(mem, image, armed) && armed <= Addresses(pool, s)
    ensures Undone(mem, pool, s) == image
            <==> forall a: nat :: a in Addresses(pool, s) ==>
                                    var p := Find(pool, s, a);
                                    0 <= p < |pool| && a < |image| && pool[p].oriByte == image[a]
  {
    forall a: nat | a < |mem|
      ensures var p := Find(pool, s, a);
              if a in Addresses(pool, s) then 0 <= p < |pool| && Undone(mem, pool, s)[a] == pool[p].oriByte
              else Undone(mem, pool, s)[a] == image[a]
    {
      UndoneAt(mem, pool, s, a);
      FindListed(pool, s, a);
    }
  }

  /**
   Undoing a chain whose first node is a breakpoint at addr leaves that node's byte there, and the
   program at all other addresses, provided that the nodes behind it remember the program there.
   */
  lemma FirstByteStays(mem: seq<byte>, pool: seq<Bp>, p: nat, s: seq<nat>, image: seq<byte>, addr: nat)
    requires p < |pool| && pool[p].kind == Breakpoint && pool[p].addr == addr
    requires InRange(pool, [p] + s, |mem|) && addr < |mem| == |image|
    requires forall q :: q in s && q < |pool| && pool[q].kind == Breakpoint && pool[q].addr != addr ==>
                           pool[q].addr < |image| && pool[q].oriByte == image[pool[q].addr]
    requires forall a: nat :: a < |mem| && a != addr && a !in Addresses(pool, s) ==> mem[a] == image[a]
    ensures Undone(mem, pool, [p] + s) == image[addr := pool[p].oriByte]
  {
    forall a: nat | a < |mem|
      ensures Undone(mem, pool, [p] + s)[a] == image[addr := pool[p].oriByte][a]
    {
      assert ([p] + s)[0] == p && ([p] + s)[1..] == s;
      UndoneAt(mem, pool, [p] + s, a);
      FindListed(pool, s, a);
    }
  }

  /** Two new breakpoints p and q at addr leave what s remembers, wherever else the program is patched. */
  lemma SetTwice(pool: seq<Bp>, pool': seq<Bp>, pool'': seq<Bp>, p: nat, q: nat, s: seq<nat>, mem: seq<byte>,
                 image: seq<byte>, armed: set<nat>, addr: nat)
    requires p !in s && q !in s && p < |pool'| && Updated(pool, pool', p, pool'[p])
    requires q < |pool''| && Updated(pool', pool'', q, pool''[q])
    requires pool'[p].kind == Breakpoint && pool'[p].addr == addr && q != p
    requires Overlaid(mem, image, armed) && Remembers(pool, s, image) && armed <= Addresses(pool, s)
    ensures forall r :: r in [p] + s && r < |pool''| && pool''[r].kind == Breakpoint && pool''[r].addr != addr ==>
                          pool''[r].addr < |image| && pool''[r].oriByte == image[pool''[r].addr]
    ensures forall a: nat :: a < |mem| && a != addr && a !in Addresses(pool'', [p] + s) ==> mem[a] == image[a]
  {
    SameNodes(pool, pool'', s, image);
    PushedNode(pool'', p, s, image);
  }

  /* ---- sessions: what the commands are meant to do ---- */

  /** A live node: its number, and the address if it is a breakpoint. */
  datatype Entry = Entry(no: nat, addr: Option<nat>)

  datatype Session = Session(live: seq<Entry>, idle: seq<nat>, armed: set<nat>)

  datatype Command =
    | SetAt(addr: nat)
    | SetOn(expr: string, val: Option<int>)
    | Delete(no: int)
    | Mask
    | Resume
    | DeleteAll

  function Where(live: seq<Entry>): set<nat> {
    set e | e in live && e.addr.Some? :: e.addr.value
  }

  /** live without the first entry of this number, and that entry's address. */
  function Removed(live: seq<Entry>, no: int): seq<Entry> {
    if live == [] then [] else if live[0].no == no then live[1..] else [live[0]] + Removed(live[1..], no)
  }

  function AddressOf(live: seq<Entry>, no: int): set<nat> {
    if live == [] then {} else if live[0].no == no then Where([live[0]]) else AddressOf(live[1..], no)
  }

  predicate Listed(live: seq<Entry>, no: int) {
    exists e :: e in live && e.no == no
  }

  function Numbers(live: seq<Entry>): seq<nat> {
    if live == [] then [] else [live[0].no] + Numbers(live[1..])
  }

  function Step(st: Session, cmd: Command): Session {
    match cmd
    case SetAt(addr) =>
      if st.idle == [] then st
      else Session([Entry(st.idle[0], Some(addr))] + st.live, st.idle[1..], st.armed + {addr})
    case SetOn(_, val) =>
      if st.idle == [] || val.None? then st
      else Session([Entry(st.idle[0], None)] + st.live, st.idle[1..], st.armed)
    case Delete(no) =>
      if no < 0 || !Listed(st.live, no) then st
      else Session(Removed(st.live, no), [no] + st.idle, st.armed - AddressOf(st.live, no))
    case Mask => Session(st.live, st.idle, st.armed - Where(st.live))
    case Resume => Session(st.live, st.idle, st.armed + Where(st.live))
    case DeleteAll => Session([], Numbers(st.live) + st.idle, st.armed - Where(st.live))
  }

  function Steps(st: Session, cmds: seq<Command>): Session
    decreases |cmds|
  {
    if cmds == [] then st else Steps(Step(st, cmds[0]), cmds[1..])
  }

  /** The pool has a free node when one is needed, and no address gets a second breakpoint. */
  predicate Allowed(st: Session, cmd: Command, size: nat) {
    match cmd
    case SetAt(addr) => st.idle != [] && addr < size && addr !in Where(st.live)
    case SetOn(_, val) => val.Some? ==> st.idle != []
    case _ => true
  }

  predicate AllAllowed(st: Session, cmds: seq<Command>, size: nat)
    decreases |cmds|
  {
    cmds == [] || (Allowed(st, cmds[0], size) && AllAllowed(Step(st, cmds[0]), cmds[1..], size))
  }

  /** The commands are allowed one after the other from start on, and lead to st. */
  ghost predicate Reached(start: Session, cmds: seq<Command>, st: Session, size: nat) {
    AllAllowed(start, cmds, size) && st == Steps(start, cmds)
  }

  /** No two entries share an address. */
  predicate Distinct(live: seq<Entry>) {
    live == [] || ((live[0].addr.Some? ==> live[0].addr.value !in Where(live[1..])) && Distinct(live[1..]))
  }

  /** Whether the last of the masking and unmasking commands was one to mask. */
  function MaskedAfter(cmds: seq<Command>, masked: bool): bool {
    if cmds == [] then masked else MaskedAfter(cmds[1..], MaskedBy(cmds[0], masked))
  }

  function MaskedBy(cmd: Command, masked: bool): bool {
    match cmd
    case Mask => true
    case Resume | DeleteAll => false
    case _ => masked
  }

  lemma {:induction false} RemovedEntries(live: seq<Entry>, no: int)
    requires Distinct(live)
    ensures Where(Removed(live, no)) == Where(live) - AddressOf(live, no)
    ensures Distinct(Removed(live, no))
    decreases live
  {
    if live == [] {
    } else {
      assert live == [live[0]] + live[1..];
      assert Where(live) == Where([live[0]]) + Where(live[1..]);
      if live[0].no != no {
        RemovedEntries(live[1..], no);
        var rest := Removed(live[1..], no);
        assert Removed(live, no)[1..] == rest;
        assert Where(Removed(live, no)) == Where([live[0]]) + Where(rest);
        AddressListed(live[1..], no);
      }
    }
  }

  lemma {:induction false} AddressListed(live: seq<Entry>, no: int)
    ensures AddressOf(live, no) <= Where(live)
    decreases live
  {
    if live != [] && live[0].no != no {
      AddressListed(live[1..], no);
    }
  }

  lemma StepArmed(st: Session, cmd: Command, size: nat)
    requires Allowed(st, cmd, size) && Distinct(st.live) && st.armed <= Where(st.live)
    ensures Distinct(Step(st, cmd).live) && Step(st, cmd).armed <= Where(Step(st, cmd).live)
    ensures (st.armed == Where(st.live) && cmd != Mask) || cmd == Resume || cmd == DeleteAll ==>
              Step(st, cmd).armed == Where(Step(st, cmd).live)
  {
    if cmd.SetAt? || cmd.SetOn? {
      if st.idle != [] {
        var e := Entry(st.idle[0], if cmd.SetAt? then Some(cmd.addr) else None);
        assert ([e] + st.live)[1..] == st.live;
        assert Where([e] + st.live) == Where([e]) + Where(st.live);
      }
    } else if cmd.Delete? {
      RemovedEntries(st.live, cmd.no);
    }
  }

  /** Along any run, armed addresses belong to live breakpoints; unless masked, to all of them. */
  lemma {:induction false} RunArmed(st: Session, cmds: seq<Command>, size: nat, masked: bool)
    requires AllAllowed(st, cmds, size) && Distinct(st.live) && st.armed <= Where(st.live)
    requires !masked ==> st.armed == Where(st.live)
    ensures Distinct(Steps(st, cmds).live) && Steps(st, cmds).armed <= Where(Steps(st, cmds).live)
    ensures !MaskedAfter(cmds, masked) ==> Steps(st, cmds).armed == Where(Steps(st, cmds).live)
    decreases |cmds|
  {
    if cmds != [] {
      StepArmed(st, cmds[0], size);
      RunArmed(Step(st, cmds[0]), cmds[1..], size, MaskedBy(cmds[0], masked));
    }
  }

  lemma {:induction false} StepsNext(st: Session, cmds: seq<Command>, cmd: Command, size: nat)
    ensures Steps(st, cmds + [cmd]) == Step(Steps(st, cmds), cmd)
    ensures AllAllowed(st, cmds + [cmd], size) <==> AllAllowed(st, cmds, size) && Allowed(Steps(st, cmds), cmd, size)
    decreases |cmds|
  {
    if cmds == [] {
      assert [cmd][1..] == [];
    } else {
      assert (cmds + [cmd])[1..] == cmds[1..] + [cmd];
      StepsNext(Step(st, cmds[0]), cmds[1..], cmd, size);
    }
  }

  lemma ReachedArmed(start: Session, cmds: seq<Command>, st: Session, size: nat)
    requires Reached(start, cmds, st, size)
    ensures Distinct(start.live) && start.armed == Where(start.live) && !MaskedAfter(cmds, false) ==>
              st.armed == Where(st.live)
  {
    if Distinct(start.live) && start.armed == Where(start.live) {
      RunArmed(start, cmds, size, false);
    }
  }

  lemma ReachedNext(start: Session, cmds: seq<Command>, n: nat, st: Session, size: nat)
    requires n < |cmds| && Reached(start, cmds[..n], st, size) && Allowed(st, cmds[n], size)
    ensures Reached(start, cmds[..n + 1], Step(st, cmds[n]), size)
  {
    StepsNext(start, cmds[..n], cmds[n], size);
    assert cmds[..n + 1] == cmds[..n] + [cmds[n]];
  }

  /* ---- the session that a pool holds ---- */

  function EntryOf(pool: seq<Bp>, p: nat): Entry {
    Entry(p, if p < |pool| && pool[p].kind == Breakpoint then Some(pool[p].addr) else None)
  }

  function Entries(pool: seq<Bp>, s: seq<nat>): (live: seq<Entry>)
    ensures |live| == |s| && forall i :: 0 <= i < |s| ==> live[i] == EntryOf(pool, s[i])
  {
    seq(|s|, i requires 0 <= i < |s| => EntryOf(pool, s[i]))
  }

  lemma EntriesWhere(pool: seq<Bp>, s: seq<nat>)
    ensures Where(Entries(pool, s)) == Addresses(pool, s)
  {
    forall p | p in s && p < |pool| && pool[p].kind == Breakpoint
      ensures pool[p].addr in Where(Entries(pool, s))
    {
      var i :| 0 <= i < |s| && s[i] == p;
      assert Entries(pool, s)[i] == EntryOf(pool, p);
    }
  }

  lemma {:induction false} EntriesNumbers(pool: seq<Bp>, s: seq<nat>)
    ensures Numbers(Entries(pool, s)) == s
    decreases s
  {
    if s != [] {
      EntriesNumbers(pool, s[1..]);
      assert Entries(pool, s)[1..] == Entries(pool, s[1..]);
    }
  }

  lemma EntriesKept(pool: seq<Bp>, pool': seq<Bp>, s: seq<nat>)
    requires |pool'| == |pool|
    requires forall p :: p in s && p < |pool| ==> pool'[p].kind == pool[p].kind && pool'[p].addr == pool[p].addr
    ensures Entries(pool', s) == Entries(pool, s)
  {
  }

  lemma Pushed(pool: seq<Bp>, pool': seq<Bp>, p: nat, s: seq<nat>)
    requires p !in s && p < |pool'| && Updated(pool, pool', p, pool'[p])
    ensures Entries(pool', [p] + s) == [EntryOf(pool', p)] + Entries(pool, s)
  {
    assert ([p] + s)[1..] == s;
    EntriesKept(pool, pool', s);
  }

  lemma EntriesListed(pool: seq<Bp>, s: seq<nat>, no: int)
    ensures Listed(Entries(pool, s), no) <==> exists p :: p in s && p == no
  {
    if p: nat :| p in s && p == no {
      var i :| 0 <= i < |s| && s[i] == p;
      assert Entries(pool, s)[i].no == no;
    }
    if e :| e in Entries(pool, s) && e.no == no {
      var i :| 0 <= i < |s| && Entries(pool, s)[i] == e;
      assert s[i] in s && s[i] == no;
    }
  }

  /** Removing a number from the session is removing its first node from the chain. */
  lemma {:induction false} EntriesRemoved(pool: seq<Bp>, s: seq<nat>, i: nat, no: int)
    requires i < |s| && s[i] == no && forall j :: 0 <= j < i ==> s[j] != no
    ensures Removed(Entries(pool, s), no) == Entries(pool, Without(s, i))
    ensures AddressOf(Entries(pool, s), no) == Addresses(pool, [no])
    decreases s
  {
    if i == 0 {
      assert Without(s, 0) == s[1..];
      EntriesWhere(pool, [no]);
      assert [EntryOf(pool, no)] == Entries(pool, [no]);
    } else {
      var t := s[1..];
      assert t[i - 1] == no && forall j :: 0 <= j < i - 1 ==> t[j] == s[j + 1];
      EntriesRemoved(pool, t, i - 1, no);
      assert Without(s, i) == [s[0]] + Without(t, i - 1);
      assert Entries(pool, s)[1..] == Entries(pool, t);
      assert Entries(pool, Without(s, i)) == [EntryOf(pool, s[0])] + Entries(pool, Without(t, i - 1));
    }
  }

  class Manager {
    const bpList: array<Bp>
    const mem: array<byte>
    var head: int
    var free: int
    /** The nodes on the two chains, in order. */
    ghost var live: seq<nat>
    ghost var idle: seq<nat>
    /** The program as loaded, and the addresses at which INT3 has been patched over it. */
    ghost var image: seq<byte>
    ghost var armed: set<nat>

    /** Two chains that share no node; the nodes in taken are on neither, all others on one of them. */
    ghost predicate Lists(taken: set<nat>)
      reads this, bpList
    {
      && Chain(bpList[..], head, live) && Chain(bpList[..], free, idle)
      && Partition(bpList[..], live, idle, taken)
      && Numbered(bpList[..]) && InRange(bpList[..], live, mem.Length)
    }

    ghost predicate Valid()
      reads this, bpList
    {
      Lists({})
    }

    /** The program is patched at addresses of live breakpoints only, and they can undo it. */
    ghost predicate Patched()
      reads this, bpList, mem
    {
      && Overlaid(mem[..], image, armed) && Remembers(bpList[..], live, image)
      && armed <= Addresses(bpList[..], live)
    }

    /** The session that the chains hold. */
    ghost function View(): Session
      reads this, bpList
    {
      Session(Entries(bpList[..], live), idle, armed)
    }

    constructor (mem: array<byte>)
      ensures this.mem == mem && fresh(bpList) && bpList.Length == NR_BP
      ensures Valid() && Patched() && live == [] && idle == Upto(NR_BP) && image == mem[..] && armed == {}
    {
      this.mem := mem;
      bpList := new Bp[NR_BP](_ => Bp(0, false, false, 0, Breakpoint, 0, "", 0, NIL));
      new;
      InitBpList();
    }

    /** init_bp_list: all nodes are free, in the order of their numbers. */
    method InitBpList()
      requires bpList.Length == NR_BP
      modifies this, bpList
      ensures Valid() && Patched() && live == [] && idle == Upto(NR_BP) && image == mem[..] && armed == {}
    {
      LinkPool(bpList);
      head, free := NIL, 0;
      live, idle := [], Upto(NR_BP);
      image, armed := mem[..], {};
      InitialLists(bpList[..]);
    }

    /** new_BP; the C code asserts that a node is free. */
    method NewBp() returns (p: nat)
      requires Valid() && free != NIL
      modifies this`free, this`idle, bpList
      ensures old(idle) != [] && p == old(idle)[0] && idle == old(idle)[1..] && Lists({p}) && p < bpList.Length
      ensures Updated(old(bpList[..]), bpList[..], p, old(bpList[..])[p].(inUse := true))
    {
      p := free;
      free := bpList[p].next;
      bpList[p] := bpList[p].(inUse := true);
      idle := idle[1..];
      ChainKept(old(bpList[..]), bpList[..], free, idle);
      ChainKept(old(bpList[..]), bpList[..], head, live);
    }

    /** free_BP: undo the patch of a breakpoint and put its node in front of the free chain. */
    method FreeBp(p: nat)
      requires Chain(bpList[..], free, idle) && p !in idle && p < bpList.Length && bpList[p].inUse
      requires bpList[p].kind == Breakpoint ==> bpList[p].addr < mem.Length
      modifies this`free, this`idle, this`armed, bpList, mem
      ensures Chain(bpList[..], free, idle) && idle == [p] + old(idle)
      ensures Updated(old(bpList[..]), bpList[..], p, old(bpList[p]).(inUse := false, next := old(free)))
      ensures armed == old(armed) - Addresses(old(bpList[..]), [p])
      ensures mem[..] == Undo(old(mem[..]), old(bpList[p]))
    {
      SingleAddress(bpList[..], p);
      if bpList[p].kind != Watchpoint {
        mem[bpList[p].addr] := bpList[p].oriByte;
        armed := armed - {bpList[p].addr};
      }
      bpList[p] := bpList[p].(inUse := false, next := free);
      ChainKept(old(bpList[..]), bpList[..], free, idle);
      ChainPushed(bpList[..], free, idle, p);
      free := p;
      idle := [p] + idle;
    }

    /** The last two statements of set_breakpoint and set_watchpoint: p becomes the head. */
    method Push(p: nat)
      requires Lists({p}) && p < bpList.Length && (bpList[p].kind == Breakpoint ==> bpList[p].addr < mem.Length)
      modifies this`head, this`live, bpList
      ensures Valid() && live == [p] + old(live)
      ensures Updated(old(bpList[..]), bpList[..], p, old(bpList[p]).(next := old(head)))
    {
      bpList[p] := bpList[p].(next := head);
      ChainKept(old(bpList[..]), bpList[..], head, live);
      ChainKept(old(bpList[..]), bpList[..], free, idle);
      ChainPushed(bpList[..], head, live, p);
      head := p;
      live := [p] + live;
    }

    /** The middle of set_breakpoint: fetch the original byte and patch INT3 over it. */
    method Arm(p: nat, addr: nat)
      requires Lists({p}) && p < bpList.Length && addr < mem.Length
      modifies this`armed, bpList, mem
      ensures Lists({p})
      ensures Updated(old(bpList[..]), bpList[..], p,
                      old(bpList[p]).(kind := Breakpoint, addr := addr, oriByte := old(mem[addr]), enable := true))
      ensures armed == old(armed) + {addr} && mem[..] == old(mem[..])[addr := INT3]
    {
      bpList[p] := bpList[p].(kind := Breakpoint, addr := addr);
      bpList[p] := bpList[p].(oriByte := mem[addr]);
      mem[addr] := INT3;
      bpList[p] := bpList[p].(enable := true);
      armed := armed + {addr};
      ChainKept(old(bpList[..]), bpList[..], head, live);
      ChainKept(old(bpList[..]), bpList[..], free, idle);
    }

    /**
     set_breakpoint.  The patched program survives unless INT3 is itself fetched as the original
     byte, from an address already armed.
     */
    method SetBreakpoint(addr: nat) returns (no: int)
      requires Valid() && free != NIL && addr < mem.Length
      modifies this`free, this`idle, this`head, this`live, this`armed, bpList, mem
      ensures Valid() && old(idle) != [] && idle == old(idle)[1..] && live == [old(idle)[0]] + old(live)
      ensures live[0] < bpList.Length && no == bpList[live[0]].no
      ensures Updated(old(bpList[..]), bpList[..], live[0],
                      old(bpList[..])[live[0]].(kind := Breakpoint, addr := addr, oriByte := old(mem[addr]),
                                                enable := true, inUse := true, next := old(head)))
      ensures armed == old(armed) + {addr} && mem[..] == old(mem[..])[addr := INT3]
      ensures old(Patched()) ==> (Patched() <==> addr !in old(armed) || image[addr] == INT3)
    {
      ghost var pool0, mem0 := bpList[..], mem[..];
      var p := NewBp();
      ghost var pool1 := bpList[..];
      Arm(p, addr);
      ghost var pool2 := bpList[..];
      Push(p);
      no := bpList[p].no;
      UpdatedTwice(pool0, pool1, pool2, p, pool1[p], pool2[p]);
      UpdatedTwice(pool0, pool2, bpList[..], p, pool2[p], bpList[p]);
      assert p !in old(live);
      if old(Patched()) {
        NewlyPatched(pool0, bpList[..], old(head), old(live), p, mem0, image, old(armed), addr);
      }
    }

    /** The middle of set_watchpoint. */
    method Watch(p: nat, e: string, val: int)
      requires Lists({p}) && p < bpList.Length
      modifies bpList
      ensures Lists({p})
      ensures Updated(old(bpList[..]), bpList[..], p,
                      old(bpList[p]).(kind := Watchpoint, expr := e, oldVal := val, enable := true))
    {
      bpList[p] := bpList[p].(kind := Watchpoint, expr := e, oldVal := val, enable := true);
      ChainKept(old(bpList[..]), bpList[..], head, live);
      ChainKept(old(bpList[..]), bpList[..], free, idle);
    }

    method AddWatchpoint(e: string, val: int) returns (no: int)
      requires Valid() && free != NIL
      modifies this`free, this`idle, this`head, this`live, bpList
      ensures Valid() && old(idle) != [] && idle == old(idle)[1..] && live == [old(idle)[0]] + old(live)
      ensures live[0] < bpList.Length && no == bpList[live[0]].no
      ensures Updated(old(bpList[..]), bpList[..], live[0],
                      old(bpList[..])[live[0]].(kind := Watchpoint, expr := e, oldVal := val,
                                                enable := true, inUse := true, next := old(head)))
      ensures old(Patched()) ==> Patched()
    {
      ghost var pool0 := bpList[..];
      var p := NewBp();
      ghost var pool1 := bpList[..];
      Watch(p, e, val);
      ghost var pool2 := bpList[..];
      Push(p);
      no := bpList[p].no;
      UpdatedTwice(pool0, pool1, pool2, p, pool1[p], pool2[p]);
      UpdatedTwice(pool0, pool2, bpList[..], p, pool2[p], bpList[p]);
      assert p !in old(live);
      SameNodes(pool0, bpList[..], old(live), image);
      PushedNode(bpList[..], p, old(live), image);
    }

    /** set_watchpoint, from the value of its expression on; None if that could not be evaluated. */
    method SetWatchpoint(e: string, val: Option<int>) returns (no: int)
      requires Valid() && (val.Some? ==> free != NIL)
      modifies this`free, this`idle, this`head, this`live, bpList
      ensures Valid()
      ensures val.None? ==> no == -1 && live == old(live) && idle == old(idle) && bpList[..] == old(bpList[..])
      ensures val.Some? ==> old(idle) != [] && idle == old(idle)[1..] && live == [old(idle)[0]] + old(live)
      ensures val.Some? ==> live[0] < bpList.Length && no == bpList[live[0]].no
      ensures val.Some? ==>
                Updated(old(bpList[..]), bpList[..], live[0],
                        old(bpList[..])[live[0]].(kind := Watchpoint, expr := e, oldVal := val.value,
                                                  enable := true, inUse := true, next := old(head)))
      ensures old(Patched()) ==> Patched()
    {
      if val.None? {
        no := -1;
      } else {
        no := AddWatchpoint(e, val.value);
      }
    }

    /** The search of delete_breakpoint: the live node with this number, and the one before it. */
    method FindNumber(no: int) returns (p: int, prev: int, ghost i: nat)
      requires Valid()
      ensures i <= |live| && p == At(live, i) && prev == if i == 0 then NIL else live[i - 1]
      ensures forall j :: 0 <= j < i ==> live[j] != no
      ensures i < |live| ==> p == no < bpList.Length
      ensures p == NIL <==> forall q :: q in live ==> q != no
      ensures p != NIL ==> p == no
    {
      p, prev, i := head, NIL, 0;
      while p != NIL
        invariant i <= |live| && p == At(live, i) && prev == if i == 0 then NIL else live[i - 1]
        invariant forall j :: 0 <= j < i ==> live[j] != no
        decreases |live| - i
      {
        ChainLink(bpList[..], head, live, i);
        if bpList[p].no == no {
          return;
        }
        prev, p := p, bpList[p].next;
        i := i + 1;
      }
    }

    /** The relinking of delete_breakpoint: node i leaves the live chain. */
    method Unlink(p: nat, prev: int, ghost i: nat)
      requires Valid() && i < |live| && p == live[i] < bpList.Length
      requires prev == if i == 0 then NIL else live[i - 1]
      modifies this`head, this`live, bpList
      ensures Lists({p}) && live == Without(old(live), i)
      ensures SameContents(old(bpList[..]), bpList[..])
    {
      ChainLink(bpList[..], head, live, i);
      if prev == NIL {
        head := bpList[p].next;
      } else {
        ChainLink(bpList[..], head, live, i - 1);
        bpList[prev] := bpList[prev].(next := bpList[p].next);
      }
      ChainUnlinked(old(bpList[..]), old(head), live, i, bpList[..], head);
      ChainKept(old(bpList[..]), bpList[..], free, idle);
      WithoutElements(live, i);
      live := Without(live, i);
    }

    /** delete_breakpoint: the live node with this number leaves the chain, the others keep their order. */
    method DeleteBreakpoint(no: int) returns (found: bool, ghost i: nat)
      requires Valid()
      modifies this`head, this`free, this`live, this`idle, this`armed, bpList, mem
      ensures Valid() && SameRecords(old(bpList[..]), bpList[..], live)
      ensures forall j :: 0 <= j < i && j < |old(live)| ==> old(live)[j] != no
      ensures !found ==> i == |old(live)| && live == old(live) && idle == old(idle) && armed == old(armed)
                         && mem[..] == old(mem[..]) && bpList[..] == old(bpList[..])
      ensures found ==> i < |old(live)| && old(live)[i] == no < bpList.Length
      ensures found ==> live == Without(old(live), i) && idle == [no] + old(idle)
                        && armed == old(armed) - Addresses(old(bpList[..]), [no])
                        && mem[..] == Undo(old(mem[..]), old(bpList[..])[no])
      ensures old(Patched()) ==> Patched()
    {
      var p, prev;
      p, prev, i := FindNumber(no);
      if p == NIL {
        return false, i;
      }
      found := true;
      ghost var pool0, mem0 := bpList[..], mem[..];
      Unlink(p, prev, i);
      ghost var pool1 := bpList[..];
      FreeBp(p);
      ChainKept(pool1, bpList[..], head, live);
      FreedPartition(pool1, bpList[..], live, idle[1..], p, mem.Length);
      Unpatched(pool0, pool1, bpList[..], old(live), i, mem0, image, old(armed));
    }

    /** delete_all_breakpoint_recursively: the chain s from p on is freed from its end. */
    method DeleteAllRecursively(p: int, ghost s: seq<nat>)
      requires Chain(bpList[..], p, s) && Chain(bpList[..], free, idle)
      requires forall q :: q in s ==> q !in idle && (q < bpList.Length ==> bpList[q].inUse)
      requires InRange(bpList[..], s, mem.Length)
      modifies this`free, this`idle, this`armed, bpList, mem
      ensures Chain(bpList[..], free, idle) && idle == s + old(idle)
      ensures Freed(old(bpList[..]), bpList[..], s)
      ensures armed == old(armed) - Addresses(old(bpList[..]), s)
      ensures mem[..] == Undone(old(mem[..]), old(bpList[..]), s)
      decreases |s|
    {
      if p == NIL {
        return;
      }
      ghost var pool0 := bpList[..];
      if bpList[p].next != NIL {
        DeleteAllRecursively(bpList[p].next, s[1..]);
      }
      assert s == [s[0]] + s[1..] && s + old(idle) == [s[0]] + (s[1..] + old(idle));
      ghost var pool1 := bpList[..];
      Disarmed(pool0, pool1, s, old(armed));
      FreeBp(p);
      FreedNext(pool0, pool1, bpList[..], s);
    }

    /** delete_all_breakpoint */
    method DeleteAllBreakpoint()
      requires Valid()
      modifies this`head, this`free, this`live, this`idle, this`armed, bpList, mem
      ensures Valid() && live == [] && idle == old(live) + old(idle)
      ensures armed == old(armed) - Addresses(old(bpList[..]), old(live))
      ensures mem[..] == Undone(old(mem[..]), old(bpList[..]), old(live))
      ensures old(Patched()) ==> Patched() && armed == {} && mem[..] == image
    {
      ghost var pool0, mem0 := bpList[..], mem[..];
      ChainNodes(pool0, head, live);
      DeleteAllRecursively(head, live);
      head, live := NIL, [];
      if old(Patched()) {
        UndoneOverlaid(mem0, pool0, old(live), image, old(armed));
      }
    }

    /** find_breakpoint: the node set last at this address, or NULL. */
    method FindBreakpoint(addr: nat) returns (p: int)
      requires Valid()
      ensures p == Find(bpList[..], live, addr)
    {
      p := head;
      ghost var i := 0;
      while p != NIL
        invariant i <= |live| && p == At(live, i)
        invariant Find(bpList[..], live, addr) == Find(bpList[..], live[i..], addr)
        decreases |live| - i
      {
        ChainLink(bpList[..], head, live, i);
        if bpList[p].kind == Breakpoint && bpList[p].addr == addr {
          break;
        }
        p := bpList[p].next;
        i := i + 1;
      }
    }

    /** mask_breakpoints: every live breakpoint writes back its byte, the first of the chain first. */
    method MaskBreakpoints()
      requires Valid()
      modifies this`armed, mem
      ensures Valid() && armed == old(armed) - Addresses(bpList[..], live)
      ensures mem[..] == Undone(old(mem[..]), bpList[..], Reversed(live))
      ensures old(Patched()) ==> Patched() && armed == {} && mem[..] == image
    {
      var p := head;
      ghost var i := 0;
      while p != NIL
        invariant i <= |live| && p == At(live, i)
        invariant armed == old(armed) && mem[..] == Undone(old(mem[..]), bpList[..], Reversed(live[..i]))
        decreases |live| - i
      {
        ChainLink(bpList[..], head, live, i);
        ReversedNext(live, i);
        if bpList[p].kind == Breakpoint {
          mem[bpList[p].addr] := bpList[p].oriByte;
        }
        p := bpList[p].next;
        i := i + 1;
      }
      armed := armed - Addresses(bpList[..], live);
      assert live[..i] == live;
      ReversedElements(live);
      if old(Patched()) {
        UndoneOverlaid(old(mem[..]), bpList[..], Reversed(live), image, old(armed));
      }
    }

    /** The loop of resume_breakpoints. */
    method ResumeLoop()
      requires Valid()
      modifies bpList, mem
      ensures mem[..] == Overlay(old(mem[..]), Addresses(old(bpList[..]), live))
      ensures Enabled(old(bpList[..]), bpList[..], live)
    {
      ghost var pool0, mem0 := bpList[..], mem[..];
      var p := head;
      ghost var i := 0;
      while p != NIL
        invariant i <= |live| && p == At(live, i)
        invariant mem[..] == Overlay(mem0, Addresses(pool0, live[..i]))
        invariant Enabled(pool0, bpList[..], live[..i])
        decreases |live| - i
      {
        ChainLink(pool0, head, live, i);
        OverlayNext(mem0, pool0, live, i);
        ghost var pool1 := bpList[..];
        if bpList[p].kind == Breakpoint {
          mem[bpList[p].addr] := INT3;
          bpList[p] := bpList[p].(enable := true);
        }
        EnabledNext(pool0, pool1, bpList[..], live, i);
        p := bpList[p].next;
        i := i + 1;
      }
      assert live[..i] == live;
    }

    /** resume_breakpoints: INT3 over the addresses of all live breakpoints. */
    method ResumeBreakpoints()
      requires Valid()
      modifies this`armed, bpList, mem
      ensures Valid() && armed == old(armed) + Addresses(old(bpList[..]), live)
      ensures mem[..] == Overlay(old(mem[..]), Addresses(old(bpList[..]), live))
      ensures Enabled(old(bpList[..]), bpList[..], live)
      ensures old(Patched()) ==> Patched() && armed == Addresses(bpList[..], live)
    {
      ghost var pool0 := bpList[..];
      ResumeLoop();
      armed := armed + Addresses(pool0, live);
      EnabledLists(pool0, bpList[..], head, live, free, idle);
      SameNodes(pool0, bpList[..], live, image);
      EnabledRange(pool0, bpList[..], live, mem.Length);
    }

    method IsAllowed(cmd: Command) returns (allowed: bool)
      requires Valid()
      ensures allowed == Allowed(View(), cmd, mem.Length)
    {
      EntriesWhere(bpList[..], live);
      match cmd {
        case SetAt(addr) =>
          var p := FindBreakpoint(addr);
          FindListed(bpList[..], live, addr);
          allowed := free != NIL && addr < mem.Length && p == NIL;
        case SetOn(_, val) =>
          allowed := val.Some? ==> free != NIL;
        case _ =>
          allowed := true;
      }
    }

    method ExecuteSet(cmd: Command)
      requires Valid() && Patched() && (cmd.SetAt? || cmd.SetOn?) && Allowed(View(), cmd, mem.Length)
      modifies this`head, this`free, this`live, this`idle, this`armed, bpList, mem
      ensures Valid() && Patched() && View() == Step(old(View()), cmd)
    {
      ghost var pool, s := bpList[..], live;
      EntriesWhere(pool, s);
      match cmd {
        case SetAt(addr) =>
          var _ := SetBreakpoint(addr);
          Pushed(pool, bpList[..], live[0], s);
        case SetOn(e, val) =>
          var _ := SetWatchpoint(e, val);
          if val.Some? {
            Pushed(pool, bpList[..], live[0], s);
          }
      }
    }

    method ExecuteDelete(no: int)
      requires Valid() && Patched()
      modifies this`head, this`free, this`live, this`idle, this`armed, bpList, mem
      ensures Valid() && Patched() && View() == Step(old(View()), Delete(no))
    {
      ghost var pool, s := bpList[..], live;
      var found, i := DeleteBreakpoint(no);
      EntriesListed(pool, s, no);
      if found {
        EntriesRemoved(pool, s, i, no);
        EntriesKept(pool, bpList[..], live);
      }
    }

    /** One command of a session. */
    method Execute(cmd: Command)
      requires Valid() && Patched() && Allowed(View(), cmd, mem.Length)
      modifies this`head, this`free, this`live, this`idle, this`armed, bpList, mem
      ensures Valid() && Patched() && View() == Step(old(View()), cmd)
    {
      ghost var pool, s := bpList[..], live;
      EntriesWhere(pool, s);
      match cmd {
        case SetAt(_) =>
          ExecuteSet(cmd);
        case SetOn(_, _) =>
          ExecuteSet(cmd);
        case Delete(no) =>
          ExecuteDelete(no);
        case Mask =>
          MaskBreakpoints();
        case Resume =>
          ResumeBreakpoints();
          EntriesKept(pool, bpList[..], live);
        case DeleteAll =>
          DeleteAllBreakpoint();
          EntriesNumbers(pool, s);
      }
    }

    /**
     Any run of commands, up to the first that is not allowed.  Patched() says that memory is the
     loaded program under INT3 at the armed addresses all along; while nothing is masked these are
     the addresses of all live breakpoints.
     */
    method Run(cmds: seq<Command>) returns (n: nat)
      requires Valid() && Patched()
      modifies this`head, this`free, this`live, this`idle, this`armed, bpList, mem
      ensures Valid() && Patched() && n <= |cmds| && Reached(old(View()), cmds[..n], View(), mem.Length)
      ensures n < |cmds| ==> !Allowed(View(), cmds[n], mem.Length)
      ensures old(Distinct(View().live) && armed == Where(View().live)) && !MaskedAfter(cmds[..n], false) ==>
                armed == Where(View().live)
    {
      n := 0;
      ghost var start := View();
      while n < |cmds|
        invariant Valid() && Patched() && n <= |cmds| && Reached(start, cmds[..n], View(), mem.Length)
      {
        var allowed := IsAllowed(cmds[n]);
        if !allowed {
          break;
        }
        ghost var st := View();
        ReachedNext(start, cmds, n, st, mem.Length);
        Execute(cmds[n]);
        assert View() == Step(st, cmds[n]);
        n := n + 1;
      }
      ReachedArmed(start, cmds[..n], View(), mem.Length);
    }
  }

  /**
   Two breakpoints on one address, and all breakpoints deleted: INT3 stays there, so the program is
   lost unless it has INT3 itself.
   */
  method SetTwiceThenDeleteAll(m: Manager, addr: nat)
    requires m.Valid() && m.Patched() && |m.idle| >= 2 && addr < m.mem.Length
    modifies m`head, m`free, m`live, m`idle, m`armed, m.bpList, m.mem
    ensures m.Valid() && m.live == [] && m.image == old(m.image)
    ensures m.mem[..] == m.image[addr := INT3]
    ensures m.mem[..] == m.image <==> m.image[addr] == INT3
  {
    ghost var pool0, mem0, s := m.bpList[..], m.mem[..], m.live;
    var _ := m.SetBreakpoint(addr);
    ghost var pool1, p := m.bpList[..], m.live[0];
    var _ := m.SetBreakpoint(addr);
    ghost var pool2, mem2, q := m.bpList[..], m.mem[..], m.live[0];
    assert m.live == [q] + ([p] + s) && m.live[1..] == [p] + s;
    SetTwice(pool0, pool1, pool2, p, q, s, mem0, m.image, old(m.armed), addr);
    FirstByteStays(mem2, pool2, q, [p] + s, m.image, addr);
    m.DeleteAllBreakpoint();
  }
}
