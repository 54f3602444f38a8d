/** Flattening a sequence through a function, the shape of every nested loop
    of the scripts that appends what each element of an outer sequence
    produces. */
module Seqs {

  /** `f(xs[0]) + f(xs[1]) + ...`, in order. */
  function FlatMap<A, B>(xs: seq<A>, f: A -> seq<B>): seq<B>
    decreases |xs|
  {
    if xs == [] then [] else FlatMap(xs[..|xs| - 1], f) + f(xs[|xs| - 1])
  }

  lemma {:induction false} FlatMapAppend<A, B>(xs: seq<A>, ys: seq<A>, f: A -> seq<B>)
    ensures FlatMap(xs + ys, f) == FlatMap(xs, f) + FlatMap(ys, f)
    decreases |ys|
  {
    if ys == [] {
      assert xs + ys == xs;
    } else {
      var zs := xs + ys;
      var init := ys[..|ys| - 1];
      var last := f(ys[|ys| - 1]);
      assert zs[..|zs| - 1] == xs + init;
      assert zs[|zs| - 1] == ys[|ys| - 1];
      FlatMapAppend(xs, init, f);
      assert (FlatMap(xs, f) + FlatMap(init, f)) + last == FlatMap(xs, f) + (FlatMap(init, f) + last);
    }
  }

  /** One element more: what it produces goes at the end. */
  lemma FlatMapSnoc<A, B>(xs: seq<A>, x: A, f: A -> seq<B>)
    ensures FlatMap(xs + [x], f) == FlatMap(xs, f) + f(x)
  {
    var zs := xs + [x];
    assert zs[..|zs| - 1] == xs;
  }

  /** Something is produced exactly when one of the elements produced it. */
  lemma {:induction false} FlatMapMembers<A, B>(xs: seq<A>, f: A -> seq<B>, y: B)
    ensures y in FlatMap(xs, f) <==> exists i :: 0 <= i < |xs| && y in f(xs[i])
    decreases |xs|
  {
    if xs != [] {
      var init := xs[..|xs| - 1];
      FlatMapMembers(init, f, y);
      assert forall i :: 0 <= i < |init| ==> init[i] == xs[i];
    }
  }

  /** The length is the sum of what each element produces. */
  function SumLengths<A, B>(xs: seq<A>, f: A -> seq<B>): nat
    decreases |xs|
  {
    if xs == [] then 0 else SumLengths(xs[..|xs| - 1], f) + |f(xs[|xs| - 1])|
  }

  lemma {:induction false} FlatMapLength<A, B>(xs: seq<A>, f: A -> seq<B>)
    ensures |FlatMap(xs, f)| == SumLengths(xs, f)
    decreases |xs|
  {
    if xs != [] {
      FlatMapLength(xs[..|xs| - 1], f);
    }
  }

  /** Element `j` of what `xs[i]` produces sits at position
      `SumLengths(xs[..i], f) + j` of the result. */
  lemma {:induction false} FlatMapAt<A, B>(xs: seq<A>, f: A -> seq<B>, i: nat, j: nat)
    requires i < |xs| && j < |f(xs[i])|
    ensures SumLengths(xs[..i], f) + j < |FlatMap(xs, f)|
    ensures FlatMap(xs, f)[SumLengths(xs[..i], f) + j] == f(xs[i])[j]
  {
    assert xs == xs[..i] + [xs[i]] + xs[i + 1..];
    FlatMapAppend(xs[..i] + [xs[i]], xs[i + 1..], f);
    FlatMapSnoc(xs[..i], xs[i], f);
    FlatMapLength(xs[..i], f);
  }

  /** When every element produces exactly one thing, the result lists those
      things in order. */
  lemma {:induction false} FlatMapSingletons<A, B>(xs: seq<A>, f: A -> seq<B>)
    requires forall i :: 0 <= i < |xs| ==> |f(xs[i])| == 1
    ensures |FlatMap(xs, f)| == |xs|
    ensures forall i :: 0 <= i < |xs| ==> FlatMap(xs, f)[i] == f(xs[i])[0]
    decreases |xs|
  {
    if xs != [] {
      var init := xs[..|xs| - 1];
      FlatMapSingletons(init, f);
      assert forall i :: 0 <= i < |init| ==> init[i] == xs[i];
    }
  }

  function Min(a: nat, b: nat): nat {
    if a < b then a else b
  }

  /** Python's `zip(xs, ys)`: the pairs at equal positions, as many as the
      shorter sequence has elements. */
  function Zip<A, B>(xs: seq<A>, ys: seq<B>): (r: seq<(A, B)>)
    ensures |r| == Min(|xs|, |ys|)
    ensures forall i :: 0 <= i < |r| ==> r[i] == (xs[i], ys[i])
  {
    seq(Min(|xs|, |ys|), i requires 0 <= i < Min(|xs|, |ys|) => (xs[i], ys[i]))
  }

  /** Elements past the end of the shorter sequence are never paired. */
  lemma ZipIgnoresSurplus<A, B>(xs: seq<A>, ys: seq<B>, moreXs: seq<A>, moreYs: seq<B>)
    requires |xs| == |ys|
    ensures Zip(xs + moreXs, ys) == Zip(xs, ys)
    ensures Zip(xs, ys + moreYs) == Zip(xs, ys)
  {
  }

  /** Zipping the concatenations of equally long pieces zips piece by piece. */
  lemma ZipAppend<A, B>(x1: seq<A>, x2: seq<A>, y1: seq<B>, y2: seq<B>)
    requires |x1| == |y1|
    ensures Zip(x1 + x2, y1 + y2) == Zip(x1, y1) + Zip(x2, y2)
  {
    var l, r := Zip(x1 + x2, y1 + y2), Zip(x1, y1) + Zip(x2, y2);
    assert |l| == |r|;
    forall i | 0 <= i < |l|
      ensures l[i] == r[i]
    {
      if i >= |x1| {
        assert (x1 + x2)[i] == x2[i - |x1|] && (y1 + y2)[i] == y2[i - |y1|];
      }
    }
  }
}
