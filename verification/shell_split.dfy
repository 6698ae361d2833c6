/** The shell driver's load balancer `zSplit`: the z layers of the box grid
    are cut into `workers` contiguous runs of roughly equal flagged-box
    count, and each worker receives the layers of its run that hold at
    least one flagged box. */
module ShellSplit {
  import opened GoNum
  import opened Lattice

  /** The layers in [lo, hi) with a positive count, in increasing order. */
  function Positives(counts: seq<int>, lo: int, hi: int): (ps: seq<int>)
    requires 0 <= lo <= hi <= |counts|
    ensures forall k :: 0 <= k < |ps| ==> lo <= ps[k] < hi && counts[ps[k]] > 0
    decreases hi - lo
  {
    if lo == hi then []
    else (if counts[lo] > 0 then [lo] else []) + Positives(counts, lo + 1, hi)
  }

  /** A layer is listed exactly when it lies in the range and its count is
      positive. */
  lemma {:induction false} PositivesMembers(counts: seq<int>, lo: int, hi: int, j: int)
    requires 0 <= lo <= hi <= |counts|
    ensures j in Positives(counts, lo, hi) <==> lo <= j < hi && counts[j] > 0
    decreases hi - lo
  {
    if lo < hi {
      PositivesMembers(counts, lo + 1, hi, j);
    }
  }

  /** The listed layers increase strictly. */
  lemma {:induction false} PositivesIncreasing(counts: seq<int>, lo: int, hi: int)
    requires 0 <= lo <= hi <= |counts|
    ensures Increasing(Positives(counts, lo, hi))
    decreases hi - lo
  {
    if lo < hi {
      PositivesIncreasing(counts, lo + 1, hi);
    }
  }

  predicate Increasing(s: seq<int>)
  {
    forall a, b :: 0 <= a < b < |s| ==> s[a] < s[b]
  }

  /** Listing [lo, hi) is listing [lo, mid) and then [mid, hi). */
  lemma {:induction false} PositivesSplit(counts: seq<int>, lo: int, mid: int, hi: int)
    requires 0 <= lo <= mid <= hi <= |counts|
    ensures Positives(counts, lo, hi) == Positives(counts, lo, mid) + Positives(counts, mid, hi)
    decreases mid - lo
  {
    if lo < mid {
      PositivesSplit(counts, lo + 1, mid, hi);
    }
  }

  /** The lists one after the other. */
  function Flatten(ss: seq<seq<int>>): seq<int>
  {
    if |ss| == 0 then [] else Flatten(ss[..|ss| - 1]) + ss[|ss| - 1]
  }

  /** Cut points 0 = splits[0] <= splits[1] <= ... <= splits[k] = n. */
  predicate Cuts(splits: seq<int>, k: nat, n: nat)
  {
    && |splits| == k + 1
    && splits[0] == 0
    && splits[k] == n
    && (forall a, b :: 0 <= a <= b <= k ==> splits[a] <= splits[b])
  }

  /** Worker w's list: the positive layers between its cut points. */
  function Parts(counts: seq<int>, splits: seq<int>, k: nat): (parts: seq<seq<int>>)
    requires Cuts(splits, k, |counts|)
    ensures |parts| == k
  {
    seq(k, w requires 0 <= w < k => Positives(counts, splits[w], splits[w + 1]))
  }

  /** The lists of the first k workers, one after the other, are all
      positive layers below the k-th cut. */
  lemma {:induction false} FlattenParts(counts: seq<int>, splits: seq<int>, k: nat)
    requires 1 <= k
    requires Cuts(splits, k, |counts|)
    ensures Flatten(Parts(counts, splits, k)) == Positives(counts, 0, |counts|)
  {
    FlattenPrefix(counts, splits, k, k);
    assert Parts(counts, splits, k)[..k] == Parts(counts, splits, k);
  }

  lemma {:induction false} FlattenPrefix(counts: seq<int>, splits: seq<int>, k: nat, w: nat)
    requires Cuts(splits, k, |counts|)
    requires w <= k
    ensures Flatten(Parts(counts, splits, k)[..w]) == Positives(counts, 0, splits[w])
  {
    var parts := Parts(counts, splits, k);
    if w > 0 {
      FlattenPrefix(counts, splits, k, w - 1);
      assert parts[..w][..w - 1] == parts[..w - 1];
      PositivesSplit(counts, 0, splits[w - 1], splits[w]);
    }
  }

  /** Worker w's list holds exactly the positive layers between its cuts. */
  lemma PartsMembers(counts: seq<int>, splits: seq<int>, k: nat)
    requires Cuts(splits, k, |counts|)
    ensures forall w, j :: 0 <= w < k ==>
      (j in Parts(counts, splits, k)[w] <==> splits[w] <= j < splits[w + 1] && counts[j] > 0)
  {
    forall w, j | 0 <= w < k
      ensures j in Parts(counts, splits, k)[w] <==> splits[w] <= j < splits[w + 1] && counts[j] > 0
    {
      PositivesMembers(counts, splits[w], splits[w + 1], j);
    }
  }

  /** Every positive layer is in some worker's list, and in one only. */
  lemma PartsPartition(counts: seq<int>, splits: seq<int>, k: nat)
    requires Cuts(splits, k, |counts|)
    ensures forall j :: 0 <= j < |counts| && counts[j] > 0 ==>
      exists w :: 0 <= w < k && j in Parts(counts, splits, k)[w]
    ensures forall w1, w2, j ::
      (0 <= w1 < k && 0 <= w2 < k && j in Parts(counts, splits, k)[w1] && j in Parts(counts, splits, k)[w2]) ==> w1 == w2
  {
    var parts := Parts(counts, splits, k);
    PartsMembers(counts, splits, k);
    forall j | 0 <= j < |counts| && counts[j] > 0
      ensures exists w :: 0 <= w < k && j in parts[w]
    {
      var w := FindPart(splits, k, |counts|, j);
      assert j in parts[w];
    }
  }

  /** A layer inside the cuts lies between two consecutive cuts. */
  lemma {:induction false} FindPart(splits: seq<int>, k: nat, n: nat, j: int) returns (w: nat)
    requires Cuts(splits, k, n)
    requires 0 <= j < n
    ensures w < k && splits[w] <= j < splits[w + 1]
  {
    if splits[k - 1] <= j {
      w := k - 1;
    } else {
      var shorter := splits[..k];
      assert Cuts(shorter, k - 1, splits[k - 1]);
      w := FindPart(shorter, k - 1, splits[k - 1], j);
    }
  }

  /** `zSplit`'s first phase: the cut points. The running sum of layer
      counts is compared against a target that grows in steps of
      ceil(total / workers); each time the sum passes it, the current layer
      opens the next worker's run. The unused cut points are set to the
      number of layers. */
  method ZSplitPoints(zCounts: seq<int>, workers: int) returns (splits: seq<int>, cursor: int)
    requires 1 <= workers
    requires forall i :: 0 <= i < |zCounts| ==> 0 <= zCounts[i]
    ensures Cuts(splits, workers, |zCounts|)
    ensures 1 <= cursor <= workers
    ensures forall w :: cursor <= w <= workers ==> splits[w] == |zCounts|
  {
    var n := |zCounts|;
    var tot := 0;
    for i := 0 to n
      invariant tot == SumInt(zCounts[..i])
    {
      SumIntPrefixStep(zCounts, i);
      tot := tot + zCounts[i];
    }
    assert zCounts[..n] == zCounts;
    SumIntPrefixMono(zCounts, 0);

    splits := seq(workers + 1, _ => 0);
    var si := 1;
    var splitWidth := Quot(tot, workers);
    if splitWidth * workers < tot {
      splitWidth := splitWidth + 1;
    }
    CeilingShare(tot, workers, splitWidth);
    var target := splitWidth;

    var sum := 0;
    for i := 0 to n
      invariant sum == SumInt(zCounts[..i])
      invariant 1 <= si <= workers
      invariant si * splitWidth <= target
      invariant sum <= target
      invariant |splits| == workers + 1 && splits[0] == 0
      invariant forall a, b :: 0 <= a <= b < si ==> splits[a] <= splits[b]
      invariant forall a :: 0 <= a < si ==> splits[a] <= i
    {
      SumIntPrefixStep(zCounts, i);
      SumIntPrefixMono(zCounts, i + 1);
      sum := sum + zCounts[i];
      if sum > target {
        CursorBelowWorkers(si, workers, splitWidth, target, sum, tot);
        splits := splits[si := i];
        var t0 := target;
        while sum > target
          invariant t0 <= target
          invariant target == t0 || t0 + splitWidth <= target
          decreases sum - target
        {
          target := target + splitWidth;
        }
        assert (si + 1) * splitWidth == si * splitWidth + splitWidth;
        si := si + 1;
      }
    }

    cursor := si;
    while si < |splits|
      invariant cursor <= si <= workers + 1
      invariant |splits| == workers + 1 && splits[0] == 0
      invariant forall a, b :: 0 <= a <= b < si ==> splits[a] <= splits[b]
      invariant forall a :: 0 <= a < si ==> splits[a] <= n
      invariant forall w :: cursor <= w < si ==> splits[w] == n
    {
      splits := splits[si := n];
      si := si + 1;
    }
  }

  /** The rounded-up share: splitWidth = ceil(tot / workers) covers the
      total in `workers` steps, and is positive when the total is. */
  lemma CeilingShare(tot: int, workers: int, splitWidth: int)
    requires 0 <= tot && 1 <= workers
    requires splitWidth == if (tot / workers) * workers < tot then tot / workers + 1 else tot / workers
    ensures 0 <= splitWidth
    ensures tot <= workers * splitWidth
    ensures 0 < tot ==> 0 < splitWidth
  {
    var q := tot / workers;
    assert q * workers + tot % workers == tot;
    assert (q + 1) * workers == q * workers + workers;
  }

  /** The split cursor stays below `workers` at every write: the running
      sum exceeds si steps of the share but never the total, which is at
      most `workers` steps. */
  lemma CursorBelowWorkers(si: int, workers: int, splitWidth: int, target: int, sum: int, tot: int)
    requires 1 <= si && 0 <= splitWidth
    requires si * splitWidth <= target < sum <= tot <= workers * splitWidth
    ensures si < workers
    ensures 0 < splitWidth
  {
    if workers <= si {
      MulLe(workers, si, splitWidth);
    }
  }

  /** `zSplit`: `workers` lists of layers, together holding every layer with
      a positive count exactly once, in increasing order. */
  method ZSplit(zCounts: seq<int>, workers: int) returns (splitIdxs: seq<seq<int>>)
    requires 1 <= workers
    requires forall i :: 0 <= i < |zCounts| ==> 0 <= zCounts[i]
    ensures |splitIdxs| == workers
    ensures Flatten(splitIdxs) == Positives(zCounts, 0, |zCounts|)
    ensures Increasing(Flatten(splitIdxs))
    ensures forall w, j :: 0 <= w < workers && j in splitIdxs[w] ==> 0 <= j < |zCounts| && zCounts[j] > 0
    ensures forall j :: 0 <= j < |zCounts| && zCounts[j] > 0 ==> exists w :: 0 <= w < workers && j in splitIdxs[w]
    ensures forall w1, w2, j :: 0 <= w1 < workers && 0 <= w2 < workers && j in splitIdxs[w1] && j in splitIdxs[w2] ==> w1 == w2
  {
    var splits, cursor := ZSplitPoints(zCounts, workers);
    splitIdxs := Parts(zCounts, splits, workers);
    FlattenParts(zCounts, splits, workers);
    PositivesIncreasing(zCounts, 0, |zCounts|);
    PartsMembers(zCounts, splits, workers);
    PartsPartition(zCounts, splits, workers);
  }
}
