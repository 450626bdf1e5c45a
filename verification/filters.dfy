/**
  Order-preserving filters over sequences: the shape of a Python list
  comprehension with an `if` clause, or of an XPath step with a predicate.
 */
module Filters {

  /** `r` is `xs` keeping exactly the elements `keep` accepts, in their
      order: `idx` lists the positions taken, strictly increasing, and
      holds every accepted position. */
  ghost predicate FilteredAt<T>(r: seq<T>, xs: seq<T>, keep: T -> bool, idx: seq<int>)
  {
    && |idx| == |r|
    && (forall k :: 0 <= k < |idx| ==> 0 <= idx[k] < |xs| && r[k] == xs[idx[k]])
    && (forall j, k :: 0 <= j < k < |idx| ==> idx[j] < idx[k])
    && (forall i :: 0 <= i < |xs| ==> (keep(xs[i]) <==> i in idx))
  }

  ghost predicate Filtered<T>(r: seq<T>, xs: seq<T>, keep: T -> bool)
  {
    exists idx :: FilteredAt(r, xs, keep, idx)
  }

  /** Every position moved `d` places on. */
  ghost function Offset(idx: seq<int>, d: int): (r: seq<int>)
    ensures |r| == |idx|
    ensures forall k :: 0 <= k < |idx| ==> r[k] == idx[k] + d
  {
    seq(|idx|, k requires 0 <= k < |idx| => idx[k] + d)
  }

  lemma FilteredNil<T>(keep: T -> bool)
    ensures Filtered([], [], keep)
  {
    assert FilteredAt([], [], keep, []);
  }

  lemma OffsetIn(idx: seq<int>, d: int, i: int)
    ensures i in Offset(idx, d) <==> i - d in idx
  {
    var s := Offset(idx, d);
    if i - d in idx {
      var k :| 0 <= k < |idx| && idx[k] == i - d;
      assert s[k] == i;
    }
    if i in s {
      var k :| 0 <= k < |s| && s[k] == i;
      assert idx[k] == i - d;
    }
  }

  /** Filtering `[x] + xs` puts `x` in front of the filtered `xs` when it is
      kept and leaves the filtered `xs` otherwise. */
  lemma FilteredCons<T>(x: T, xs: seq<T>, r: seq<T>, keep: T -> bool)
    requires Filtered(r, xs, keep)
    ensures keep(x) ==> Filtered([x] + r, [x] + xs, keep)
    ensures !keep(x) ==> Filtered(r, [x] + xs, keep)
  {
    var idx :| FilteredAt(r, xs, keep, idx);
    if keep(x) {
      ConsKept(x, xs, r, keep, idx);
    } else {
      ConsDropped(x, xs, r, keep, idx);
    }
  }

  lemma ConsDropped<T>(x: T, xs: seq<T>, r: seq<T>, keep: T -> bool, idx: seq<int>)
    requires FilteredAt(r, xs, keep, idx) && !keep(x)
    ensures FilteredAt(r, [x] + xs, keep, Offset(idx, 1))
  {
    var s := Offset(idx, 1);
    var ys := [x] + xs;
    forall i | 0 <= i < |ys| ensures keep(ys[i]) <==> i in s {
      OffsetIn(idx, 1, i);
      if i > 0 {
        assert ys[i] == xs[i - 1];
      }
    }
  }

  lemma ConsKept<T>(x: T, xs: seq<T>, r: seq<T>, keep: T -> bool, idx: seq<int>)
    requires FilteredAt(r, xs, keep, idx) && keep(x)
    ensures FilteredAt([x] + r, [x] + xs, keep, [0] + Offset(idx, 1))
  {
    var s := Offset(idx, 1);
    var ys := [x] + xs;
    var idx' := [0] + s;
    forall k | 0 <= k < |idx'|
      ensures 0 <= idx'[k] < |ys| && ([x] + r)[k] == ys[idx'[k]]
    {
      if k > 0 {
        assert idx'[k] == idx[k - 1] + 1;
      }
    }
    forall i | 0 <= i < |ys| ensures keep(ys[i]) <==> i in idx' {
      OffsetIn(idx, 1, i);
      if i > 0 {
        assert ys[i] == xs[i - 1];
        assert i in idx' <==> i in s;
      }
    }
  }

  /** Filtering a concatenation filters each part and concatenates the
      results. */
  lemma FilteredConcat<T>(r1: seq<T>, xs1: seq<T>, r2: seq<T>, xs2: seq<T>, keep: T -> bool)
    requires Filtered(r1, xs1, keep) && Filtered(r2, xs2, keep)
    ensures Filtered(r1 + r2, xs1 + xs2, keep)
  {
    var i1 :| FilteredAt(r1, xs1, keep, i1);
    var i2 :| FilteredAt(r2, xs2, keep, i2);
    ConcatAt(r1, xs1, i1, r2, xs2, i2, keep);
  }

  lemma ConcatAt<T>(r1: seq<T>, xs1: seq<T>, i1: seq<int>, r2: seq<T>, xs2: seq<T>, i2: seq<int>, keep: T -> bool)
    requires FilteredAt(r1, xs1, keep, i1) && FilteredAt(r2, xs2, keep, i2)
    ensures FilteredAt(r1 + r2, xs1 + xs2, keep, i1 + Offset(i2, |xs1|))
  {
    var s := Offset(i2, |xs1|);
    var idx := i1 + s;
    var r, ys := r1 + r2, xs1 + xs2;
    forall k | 0 <= k < |idx| ensures 0 <= idx[k] < |ys| && r[k] == ys[idx[k]]
    {
      if k >= |i1| {
        assert idx[k] == i2[k - |i1|] + |xs1|;
      }
    }
    forall j, k | 0 <= j < k < |idx| ensures idx[j] < idx[k]
    {
      if j < |i1| <= k {
        assert idx[j] < |xs1| <= idx[k];
      } else if |i1| <= j {
        assert idx[j] == i2[j - |i1|] + |xs1| && idx[k] == i2[k - |i1|] + |xs1|;
      }
    }
    forall i | 0 <= i < |ys| ensures keep(ys[i]) <==> i in idx
    {
      OffsetIn(i2, |xs1|, i);
      assert i in idx <==> i in i1 || i in s;
      if i < |xs1| {
        assert ys[i] == xs1[i];
        assert i !in s;
      } else {
        assert ys[i] == xs2[i - |xs1|];
        assert i !in i1;
      }
    }
  }
}
