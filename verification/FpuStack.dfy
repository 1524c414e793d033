/** The register stack of nemu/src/cpu/fpu.c: eight registers addressed relative to a moving top. */
module FpuStack {
  import opened Words
  import opened Binary32
  import opened Ieee754
  import opened Fpu
  import opened FpuDivide

  /** The view after fpu_load, and after fpu_store. */
  function Pushed(view: seq<uint32>, v: uint32): seq<uint32>
    requires |view| == 8
  {
    [v] + view[..7]
  }

  function Popped(view: seq<uint32>): seq<uint32>
    requires |view| == 8
  {
    view[1..] + [view[0]]
  }

  class Registers {
    const regStack: array<uint32>
    var top: nat

    ghost predicate Valid()
      reads this
    {
      regStack.Length == 8 && top < 8
    }

    /** The registers ST(0), ST(1), ..., ST(7). */
    ghost function View(): (view: seq<uint32>)
      requires Valid()
      reads this, regStack
      ensures |view| == 8
    {
      regStack[top..] + regStack[..top]
    }

    constructor ()
      ensures Valid() && top == 0 && fresh(regStack)
      ensures View() == seq(8, _ => P_ZERO)
    {
      regStack := new uint32[8](_ => P_ZERO);
      top := 0;
    }

    lemma ViewAt(i: nat)
      requires Valid() && i < 8
      ensures View()[i] == regStack[(top + i) % 8]
    {
    }

    method Load(val: uint32)
      requires Valid()
      modifies this, regStack
      ensures Valid() && top == (old(top) + 7) % 8
      ensures View() == Pushed(old(View()), val)
    {
      top := if top == 0 then 7 else top - 1;
      regStack[top] := val;
    }

    method Store() returns (val: uint32)
      requires Valid()
      modifies this
      ensures Valid() && top == (old(top) + 1) % 8
      ensures val == old(View())[0] && View() == Popped(old(View()))
    {
      val := regStack[top];
      top := (top + 1) % 8;
    }

    method Peek() returns (val: uint32)
      requires Valid()
      ensures val == View()[0]
    {
      val := regStack[top];
    }

    /** Assigns ST(i). */
    method Put(i: nat, val: uint32)
      requires Valid()
      modifies regStack
      ensures Valid() && View() == old(View())[i % 8 := val]
    {
      var k := (top + i) % 8;
      assert k == if top + i % 8 < 8 then top + i % 8 else top + i % 8 - 8;
      regStack[k] := val;
      assert View() == old(View())[i % 8 := val];
    }

    /** Assigns ST(0). */
    method PutTop(val: uint32)
      requires Valid()
      modifies regStack
      ensures Valid() && View()[0] == val && View()[1..] == old(View()[1..])
    {
      Put(0, val);
    }

    method Get(i: nat) returns (val: uint32)
      requires Valid()
      ensures val == View()[i % 8]
    {
      val := regStack[(top + i) % 8];
      ViewAt(i % 8);
    }

    method Add(val: uint32)
      requires Valid()
      modifies regStack
      ensures Valid() && View()[1..] == old(View()[1..])
      ensures !IsNaN(val) && !IsNaN(old(View())[0]) ==> View()[0] == Sum(old(View())[0], val)
      ensures SurfacesNaN(old(View())[0], val, View()[0])
    {
      var a := Get(0);
      var r := FloatAdd(val, a);
      PutTop(r);
    }

    method AddIdx(idx: nat, storeIdx: nat)
      requires Valid()
      modifies regStack
      ensures Valid() && View() == old(View())[storeIdx % 8 := View()[storeIdx % 8]]
      ensures !IsNaN(old(View())[0]) && !IsNaN(old(View())[idx % 8]) ==>
                View()[storeIdx % 8] == Sum(old(View())[0], old(View())[idx % 8])
      ensures SurfacesNaN(old(View())[0], old(View())[idx % 8], View()[storeIdx % 8])
    {
      var a := Get(0);
      var b := Get(idx);
      var r := FloatAdd(b, a);
      Put(storeIdx, r);
    }

    method Sub(val: uint32)
      requires Valid()
      modifies regStack
      ensures Valid() && View()[1..] == old(View()[1..])
      ensures !IsNaN(val) && !IsNaN(old(View())[0]) ==> View()[0] == Sum(old(View())[0], FlipSign(val))
      ensures SurfacesNaN(old(View())[0], val, View()[0])
    {
      var a := Get(0);
      var r := FloatSub(val, a);
      PutTop(r);
    }

    method Mul(val: uint32)
      requires Valid()
      modifies regStack
      ensures Valid() && View()[1..] == old(View()[1..])
      ensures !IsNaN(val) && !IsNaN(old(View())[0]) ==> View()[0] == Multiplied(old(View())[0], val)
      ensures CanonicalNaN(val) || CanonicalNaN(old(View())[0]) ==> IsNaN(View()[0])
    {
      var a := Get(0);
      var r := FloatMul(val, a);
      PutTop(r);
    }

    method MulIdx(idx: nat, storeIdx: nat)
      requires Valid()
      modifies regStack
      ensures Valid() && View() == old(View())[storeIdx % 8 := View()[storeIdx % 8]]
      ensures var a, b := old(View())[0], old(View())[idx % 8];
              && (!IsNaN(a) && !IsNaN(b) ==> View()[storeIdx % 8] == Multiplied(a, b))
              && (CanonicalNaN(a) || CanonicalNaN(b) ==> IsNaN(View()[storeIdx % 8]))
    {
      ghost var view := View();
      var a := Get(0);
      var b := Get(idx);
      var r := FloatMul(b, a);
      Put(storeIdx, r);
      assert a == view[0] && b == view[idx % 8] && View() == view[storeIdx % 8 := r];
    }

    method Div(val: uint32)
      requires Valid()
      modifies regStack
      ensures Valid() && View()[1..] == old(View()[1..])
      ensures !IsNaN(val) && !IsNaN(old(View())[0]) ==> View()[0] == Divided(old(View())[0], val)
      ensures CanonicalNaN(val) || CanonicalNaN(old(View())[0]) ==> IsNaN(View()[0])
    {
      var a := Get(0);
      var r := FloatDiv(val, a);
      PutTop(r);
    }

    method Exchange(idx: nat)
      requires Valid()
      modifies regStack
      ensures Valid()
      ensures View() == old(View())[0 := old(View())[idx % 8]][idx % 8 := old(View())[0]]
    {
      var temp := Get(0);
      var other := Get(idx);
      Put(0, other);
      Put(idx, temp);
    }

    method Copy(idx: nat)
      requires Valid()
      modifies regStack
      ensures Valid() && View() == old(View())[idx % 8 := old(View())[0]]
    {
      var st0 := Get(0);
      Put(idx, st0);
    }
  }

  /** n loads followed by n stores give the values back, last in first out, for up to eight of them. */
  function PushAll(view: seq<uint32>, vals: seq<uint32>): (r: seq<uint32>)
    requires |view| == 8
    ensures |r| == 8
  {
    if vals == [] then view else Pushed(PushAll(view, vals[..|vals| - 1]), vals[|vals| - 1])
  }

  lemma {:induction false} PushedValuesComeBack(view: seq<uint32>, vals: seq<uint32>, i: nat)
    requires |view| == 8 && |vals| <= 8 && i < 8
    ensures PushAll(view, vals)[i] == if i < |vals| then vals[|vals| - 1 - i] else view[i - |vals|]
  {
    if vals != [] && i > 0 {
      PushedValuesComeBack(view, vals[..|vals| - 1], i - 1);
    }
  }

  lemma PopUndoesPush(view: seq<uint32>, v: uint32)
    requires |view| == 8
    ensures Pushed(view, v)[0] == v
    ensures Popped(Pushed(view, v)) == view[7 := v]
  {
    assert Pushed(view, v)[1..] == view[..7];
  }
}
