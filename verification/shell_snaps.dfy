/** The shell driver's `binBySnap`: halo IDs grouped by the snapshot they
    belong to, each group listing its IDs, and their positions in the
    input, in input order. */
module ShellSnaps {
  import opened Results

  datatype SnapError = IdsTooShort

  /** The positions of snapshot s in `snaps`, in increasing order. */
  function IndicesOf(snaps: seq<int>, s: int): (idx: seq<int>)
    ensures forall k :: 0 <= k < |idx| ==> 0 <= idx[k] < |snaps| && snaps[idx[k]] == s
  {
    if |snaps| == 0 then []
    else IndicesOf(snaps[..|snaps| - 1], s) + (if snaps[|snaps| - 1] == s then [|snaps| - 1] else [])
  }

  /** A position is listed for s exactly when its snapshot is s. */
  lemma {:induction false} IndicesOfMembers(snaps: seq<int>, s: int, i: int)
    ensures i in IndicesOf(snaps, s) <==> 0 <= i < |snaps| && snaps[i] == s
  {
    if |snaps| > 0 {
      var front := snaps[..|snaps| - 1];
      IndicesOfMembers(front, s, i);
      if 0 <= i < |snaps| - 1 {
        assert front[i] == snaps[i];
      }
    }
  }

  /** The positions are listed in increasing order. */
  lemma {:induction false} IndicesOfIncreasing(snaps: seq<int>, s: int)
    ensures forall a, b :: 0 <= a < b < |IndicesOf(snaps, s)| ==> IndicesOf(snaps, s)[a] < IndicesOf(snaps, s)[b]
  {
    if |snaps| > 0 {
      IndicesOfIncreasing(snaps[..|snaps| - 1], s);
    }
  }

  /** A snapshot that does not occur has no positions. */
  lemma {:induction false} IndicesOfAbsent(snaps: seq<int>, s: int)
    requires s !in snaps
    ensures IndicesOf(snaps, s) == []
  {
    if |snaps| > 0 {
      var front := snaps[..|snaps| - 1];
      assert forall j :: 0 <= j < |front| ==> front[j] == snaps[j];
      IndicesOfAbsent(front, s);
    }
  }

  /** Extending the scanned prefix by one position. */
  lemma IndicesOfStep(snaps: seq<int>, i: int, s: int)
    requires 0 <= i < |snaps|
    ensures IndicesOf(snaps[..i + 1], s) == IndicesOf(snaps[..i], s) + (if snaps[i] == s then [i] else [])
  {
    assert snaps[..i + 1][..i] == snaps[..i];
  }

  /** The groups after scanning the first n positions: one key per snapshot
      seen, the group of s lists the positions of s, and its IDs are the
      IDs at those positions. */
  ghost predicate Binned(snaps: seq<int>, ids: seq<int>, n: int, snapBins: map<int, seq<int>>, idxBins: map<int, seq<int>>)
    requires 0 <= n <= |snaps| && n <= |ids|
  {
    && (forall s :: s in idxBins <==> s in snaps[..n])
    && (forall s :: s in snapBins <==> s in snaps[..n])
    && (forall s :: s in idxBins ==> idxBins[s] == IndicesOf(snaps[..n], s))
    && (forall s :: s in idxBins && s in snapBins ==>
          |snapBins[s]| == |idxBins[s]| &&
          forall k :: 0 <= k < |idxBins[s]| ==> snapBins[s][k] == ids[idxBins[s][k]])
  }

  /** The group of s, empty when s has none yet (appending to a missing
      map entry starts from the empty list). */
  function Group(m: map<int, seq<int>>, s: int): seq<int>
  {
    if s in m then m[s] else []
  }

  /** One step of the scan keeps the groups right. */
  lemma BinnedStep(snaps: seq<int>, ids: seq<int>, i: int, snapBins: map<int, seq<int>>, idxBins: map<int, seq<int>>)
    requires 0 <= i < |snaps| <= |ids|
    requires Binned(snaps, ids, i, snapBins, idxBins)
    ensures Binned(snaps, ids, i + 1,
                   snapBins[snaps[i] := Group(snapBins, snaps[i]) + [ids[i]]],
                   idxBins[snaps[i] := Group(idxBins, snaps[i]) + [i]])
  {
    var snap := snaps[i];
    var sb := snapBins[snap := Group(snapBins, snap) + [ids[i]]];
    var ib := idxBins[snap := Group(idxBins, snap) + [i]];
    assert snaps[..i + 1] == snaps[..i] + [snap];
    forall s | s in ib
      ensures ib[s] == IndicesOf(snaps[..i + 1], s)
    {
      IndicesOfStep(snaps, i, s);
      if s !in idxBins {
        IndicesOfAbsent(snaps[..i], s);
      }
    }
    forall s | s in ib && s in sb
      ensures |sb[s]| == |ib[s]|
      ensures forall k :: 0 <= k < |ib[s]| ==> sb[s][k] == ids[ib[s][k]]
    {
    }
  }

  /** `binBySnap`. Every position reads the ID at the same position, so IDs
      shorter than the snapshot list fail where the source indexes past
      their end. */
  method BinBySnap(snaps: seq<int>, ids: seq<int>)
    returns (r: Result<(map<int, seq<int>>, map<int, seq<int>>), SnapError>)
    ensures r.Failure? <==> |ids| < |snaps|
    ensures r.Success? ==> Binned(snaps, ids, |snaps|, r.value.0, r.value.1)
  {
    if |ids| < |snaps| {
      return Failure(IdsTooShort);
    }
    var snapBins: map<int, seq<int>> := map[];
    var idxBins: map<int, seq<int>> := map[];
    for i := 0 to |snaps|
      invariant Binned(snaps, ids, i, snapBins, idxBins)
    {
      var snap := snaps[i];
      BinnedStep(snaps, ids, i, snapBins, idxBins);
      snapBins := snapBins[snap := Group(snapBins, snap) + [ids[i]]];
      idxBins := idxBins[snap := Group(idxBins, snap) + [i]];
    }
    assert snaps[..|snaps|] == snaps;
    return Success((snapBins, idxBins));
  }

  /** Every position lands in the group of its own snapshot, and only
      there; each group lists its positions in increasing order. */
  lemma BinnedPartition(snaps: seq<int>, ids: seq<int>, snapBins: map<int, seq<int>>, idxBins: map<int, seq<int>>, i: int, s: int)
    requires |snaps| <= |ids|
    requires Binned(snaps, ids, |snaps|, snapBins, idxBins)
    requires s in idxBins
    ensures i in idxBins[s] <==> 0 <= i < |snaps| && snaps[i] == s
    ensures forall a, b :: 0 <= a < b < |idxBins[s]| ==> idxBins[s][a] < idxBins[s][b]
  {
    assert snaps[..|snaps|] == snaps;
    IndicesOfMembers(snaps, s, i);
    IndicesOfIncreasing(snaps, s);
  }
}
