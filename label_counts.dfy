/**
 * Voxel counts per label, computed when the caller supplies its own
 * labelling instead of asking for seeding.
 */
module LabelCounts {

  /** The largest label of a non-empty labelling. */
  function MaxLabel(s: seq<nat>): (m: nat)
    requires |s| > 0
    ensures m in s
    ensures forall x :: x in s ==> x <= m
  {
    if |s| == 1 then s[0]
    else
      var n := |s| - 1;
      assert s == s[..n] + [s[n]];
      var m := MaxLabel(s[..n]);
      if s[n] > m then s[n] else m
  }

  /** Entry `k` is the number of voxels labelled `k`, for `k < n`. */
  function Histogram(s: seq<nat>, n: nat): (h: seq<nat>)
    ensures |h| == n
  {
    seq(n, k => multiset(s)[k])
  }

  function Sum(h: seq<nat>): nat {
    if h == [] then 0 else Sum(h[..|h| - 1]) + h[|h| - 1]
  }

  lemma {:induction false} SumIncrement(h: seq<nat>, x: nat)
    requires x < |h|
    ensures Sum(h[x := h[x] + 1]) == Sum(h) + 1
  {
    var n := |h| - 1;
    if x < n {
      SumIncrement(h[..n], x);
      assert h[x := h[x] + 1][..n] == h[..n][x := h[x] + 1];
    } else {
      assert h[x := h[x] + 1][..n] == h[..n];
    }
  }

  /** When every label is below `n`, the counts add up to the number of voxels. */
  lemma {:induction false} HistogramTotal(s: seq<nat>, n: nat)
    requires forall x :: x in s ==> x < n
    ensures Sum(Histogram(s, n)) == |s|
  {
    if s == [] {
      SumOfZeros(Histogram(s, n));
    } else {
      var m := |s| - 1;
      var x := s[m];
      assert s == s[..m] + [x];
      assert x in s;
      assert forall y :: y in s[..m] ==> y in s;
      HistogramTotal(s[..m], n);
      var before := Histogram(s[..m], n);
      assert multiset(s) == multiset(s[..m]) + multiset{x};
      assert Histogram(s, n) == before[x := before[x] + 1];
      SumIncrement(before, x);
    }
  }

  lemma {:induction false} SumOfZeros(h: seq<nat>)
    requires forall k :: 0 <= k < |h| ==> h[k] == 0
    ensures Sum(h) == 0
  {
    if h != [] {
      SumOfZeros(h[..|h| - 1]);
    }
  }

  /** The counting loop: one array entry per label up to the largest, each
      incremented once per voxel carrying that label. */
  method CountLabels(segmentation: array<nat>) returns (sizes: array<nat>)
    requires segmentation.Length > 0
    ensures fresh(sizes)
    ensures sizes.Length == MaxLabel(segmentation[..]) + 1
    ensures sizes[..] == Histogram(segmentation[..], sizes.Length)
  {
    var maxId := MaxLabel(segmentation[..]);
    sizes := new nat[maxId + 1](_ => 0);
    var i := 0;
    while i < segmentation.Length
      invariant 0 <= i <= segmentation.Length
      invariant sizes.Length == maxId + 1
      invariant forall k :: 0 <= k < sizes.Length ==> sizes[k] == multiset(segmentation[..i])[k]
    {
      assert segmentation[..i + 1] == segmentation[..i] + [segmentation[i]];
      assert segmentation[i] in segmentation[..];
      sizes[segmentation[i]] := sizes[segmentation[i]] + 1;
      i := i + 1;
    }
    assert segmentation[..i] == segmentation[..];
  }

  /** The counts the loop produces account for every voxel exactly once. */
  lemma CountsCoverAllVoxels(s: seq<nat>)
    requires |s| > 0
    ensures Sum(Histogram(s, MaxLabel(s) + 1)) == |s|
  {
    HistogramTotal(s, MaxLabel(s) + 1);
  }
}
