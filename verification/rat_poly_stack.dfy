/**
 * poly/RatPolyStack.java: a mutable stack of polynomials, the engine of
 * an RPN calculator. The java.util.Stack it wraps is a list whose last
 * element is the top; its iterator runs from the bottom to the top.
 */
module PolyStack {
  import opened Terms
  import opened Polys

  /** The stack read from the top down: the [p1, p2, ...] of the class documentation. */
  function TopFirst(s: seq<Poly>): (r: seq<Poly>)
    ensures |r| == |s|
    decreases |s|
  {
    if s == [] then [] else [s[|s| - 1]] + TopFirst(s[..|s| - 1])
  }

  /** Element i from the top is element |s| - 1 - i from the bottom. */
  lemma {:induction false} TopFirstAt(s: seq<Poly>, i: nat)
    requires i < |s|
    ensures TopFirst(s)[i] == s[|s| - 1 - i]
    decreases |s|
  {
    if i > 0 {
      var init := s[..|s| - 1];
      TopFirstAt(init, i - 1);
      assert TopFirst(s)[i] == TopFirst(init)[i - 1];
    }
  }

  /** Pushing on the bottom-first list puts the element at the front of the top-first one. */
  lemma TopFirstPush(s: seq<Poly>, p: Poly)
    ensures TopFirst(s + [p]) == [p] + TopFirst(s)
  {
    assert (s + [p])[..|s|] == s;
  }

  class RatPolyStack {
    /** The `polys` field, bottom first. */
    var polys: seq<Poly>

    /** Every element is a well-formed RatPoly (the elements are never null in the source). */
    ghost predicate Valid()
      reads this
    {
      forall i :: 0 <= i < |polys| ==> Polys.Valid(polys[i])
    }

    /** The abstract value: the polynomials from the top down. */
    function Contents(): (r: seq<Poly>)
      reads this
      ensures |r| == |polys|
      ensures forall i :: 0 <= i < |r| ==> r[i] == polys[|polys| - 1 - i]
    {
      forall i | 0 <= i < |polys|
        ensures TopFirst(polys)[i] == polys[|polys| - 1 - i]
      {
        TopFirstAt(polys, i);
      }
      TopFirst(polys)
    }

    /** The empty stack []. */
    constructor ()
      ensures Valid() && polys == [] && Contents() == []
    {
      polys := [];
    }

    /** size: the loop counting the elements the iterator yields. */
    method Size() returns (size: nat)
      ensures size == |Contents()|
    {
      size := 0;
      for i := 0 to |polys|
        invariant size == i
      {
        size := size + 1;
      }
    }

    /** push: this_post = [p]:this. */
    method Push(p: Poly)
      requires Valid() && Polys.Valid(p)
      modifies this
      ensures Valid() && polys == old(polys) + [p]
      ensures Contents() == [p] + old(Contents())
    {
      TopFirstPush(polys, p);
      polys := polys + [p];
    }

    /** pop: if this = [p]:S then this_post = S and p is returned. */
    method Pop() returns (p: Poly)
      requires Valid() && |polys| > 0
      modifies this
      ensures Valid() && Polys.Valid(p) && polys == old(polys)[..|old(polys)| - 1]
      ensures old(Contents()) == [p] + Contents()
    {
      p := polys[|polys| - 1];
      TopFirstPush(polys[..|polys| - 1], p);
      assert polys == polys[..|polys| - 1] + [p];
      polys := polys[..|polys| - 1];
    }

    /** dup: if this = [p]:S then this_post = [p, p]:S. */
    method Dup()
      requires Valid() && |polys| > 0
      modifies this
      ensures Valid() && |polys| == |old(polys)| + 1
      ensures Contents() == [old(Contents())[0]] + old(Contents())
    {
      var p := Pop();
      Push(p);
      Push(p);
    }

    /** swap: if this = [p1, p2]:S then this_post = [p2, p1]:S. */
    method Swap()
      requires Valid() && |polys| >= 2
      modifies this
      ensures Valid() && |polys| == |old(polys)|
      ensures Contents() == [old(Contents())[1], old(Contents())[0]] + old(Contents())[2..]
    {
      var p1 := Pop();
      var p2 := Pop();
      Push(p1);
      Push(p2);
    }

    /** clear: pops until empty. */
    method Clear()
      requires Valid()
      modifies this
      ensures Valid() && polys == [] && Contents() == []
    {
      while polys != []
        invariant Valid()
        decreases |polys|
      {
        var _ := Pop();
      }
    }

    /**
     * getNthFromTop as written: it advances the stack's iterator `index`
     * times, but that iterator starts at the bottom, so the element
     * returned is `index` from the bottom.
     */
    method GetNthFromTopAsWritten(index: nat) returns (p: Poly)
      requires index < |polys|
      ensures p == polys[index]
    {
      var it := 0;
      var n := index;
      while n > 0
        invariant it + n == index
      {
        it := it + 1;
        n := n - 1;
      }
      p := polys[it];
    }

    /** getNthFromTop, corrected: the iterator walks down from the top. */
    method GetNthFromTop(index: nat) returns (p: Poly)
      requires index < |polys|
      ensures p == Contents()[index]
    {
      var it := |polys| - 1;
      var n := index;
      while n > 0
        invariant 0 <= n <= index
        invariant it == |polys| - 1 - (index - n)
      {
        it := it - 1;
        n := n - 1;
      }
      TopFirstAt(polys, index);
      p := polys[it];
    }

    /** add: if this = [p1, p2]:S then this_post = [p1 + p2]:S. */
    method Add()
      requires Valid() && |polys| >= 2
      modifies this
      ensures Valid() && |polys| == |old(polys)| - 1
      ensures Contents()[1..] == old(Contents())[2..]
      ensures IsSum(Contents()[0], old(Contents())[0], old(Contents())[1])
    {
      var p1 := Pop();
      var p2 := Pop();
      var r := Polys.Add(p1, p2);
      Push(r);
    }

    /** sub: if this = [p1, p2]:S then this_post = [p2 - p1]:S. */
    method Sub()
      requires Valid() && |polys| >= 2
      modifies this
      ensures Valid() && |polys| == |old(polys)| - 1
      ensures Contents()[1..] == old(Contents())[2..]
      ensures IsDifference(Contents()[0], old(Contents())[1], old(Contents())[0])
    {
      var p1 := Pop();
      var p2 := Pop();
      var r := Polys.Sub(p2, p1);
      Push(r);
    }

    /** mul: if this = [p1, p2]:S then this_post = [p1 * p2]:S. */
    method Mul()
      requires Valid() && |polys| >= 2
      modifies this
      ensures Valid() && |polys| == |old(polys)| - 1
      ensures Contents()[1..] == old(Contents())[2..]
      ensures IsProduct(Contents()[0], old(Contents())[0], old(Contents())[1])
    {
      var p1 := Pop();
      var p2 := Pop();
      var r := Polys.Mul(p1, p2);
      Push(r);
    }

    /** div: if this = [p1, p2]:S then this_post = [p2 / p1]:S. */
    method Div()
      requires Valid() && |polys| >= 2
      modifies this
      ensures Valid() && |polys| == |old(polys)| - 1
      ensures Contents()[1..] == old(Contents())[2..]
      ensures IsQuotient(Contents()[0], old(Contents())[1], old(Contents())[0])
    {
      var p1 := Pop();
      var p2 := Pop();
      var r := Polys.Div(p2, p1);
      Push(r);
    }

    /** differentiate: if this = [p1]:S then this_post = [dp1/dx]:S. */
    method Differentiate()
      requires Valid() && |polys| >= 1
      modifies this
      ensures Valid() && |polys| == |old(polys)|
      ensures Contents()[1..] == old(Contents())[1..]
      ensures IsDerivative(Contents()[0], old(Contents())[0])
    {
      var p1 := Pop();
      var r := Polys.Differentiate(p1);
      Push(r);
    }

    /** integrate: if this = [p1]:S then this_post = [the antiderivative of p1 with constant 0]:S. */
    method Integrate()
      requires Valid() && |polys| >= 1
      modifies this
      ensures Valid() && |polys| == |old(polys)|
      ensures Contents()[1..] == old(Contents())[1..]
      ensures IsAntiderivative(Contents()[0], old(Contents())[0], Zero)
    {
      var p1 := Pop();
      var r := Polys.AntiDifferentiate(p1, Zero);
      Push(r);
    }
  }

  /**
   * On the stack [1, 0] (1 on top), getNthFromTop(0) as written returns
   * the bottom element 0 instead of the top element 1.
   */
  method NthFromTopMismatch() returns (asWritten: Poly, fromTop: Poly)
    ensures asWritten == ZeroPoly && fromTop == FromInt(1, 0)
    ensures asWritten != fromTop
  {
    var s := new RatPolyStack();
    s.Push(ZeroPoly);
    s.Push(FromInt(1, 0));
    asWritten := s.GetNthFromTopAsWritten(0);
    fromTop := s.GetNthFromTop(0);
    assert s.polys == [ZeroPoly, FromInt(1, 0)];
    assert s.Contents()[0] == FromInt(1, 0);
    assert FromInt(1, 0).terms != [];
  }
}
