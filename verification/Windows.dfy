/** Counting instants in an interval, and the spacing that bounds such counts. */
module Windows {

  ghost predicate Sorted(ts: seq<int>) {
    forall i, j :: 0 <= i <= j < |ts| ==> ts[i] <= ts[j]
  }

  /** Any `k + 1` successive instants, the last at or after `start`, span more than `w`. */
  ghost predicate Spaced(ts: seq<int>, k: nat, w: int, start: int) {
    forall i :: 0 <= i < |ts| - k && ts[i + k] >= start ==> ts[i + k] - ts[i] > w
  }

  /** How many instants lie in the closed interval from `lo` to `hi`. */
  function CountIn(ts: seq<int>, lo: int, hi: int): nat {
    if ts == [] then 0
    else CountIn(ts[..|ts| - 1], lo, hi) + (if lo <= ts[|ts| - 1] <= hi then 1 else 0)
  }

  lemma CountInSnoc(ts: seq<int>, t: int, lo: int, hi: int)
    ensures CountIn(ts + [t], lo, hi) == CountIn(ts, lo, hi) + (if lo <= t <= hi then 1 else 0)
  {
    assert (ts + [t])[..|ts|] == ts;
  }

  lemma {:induction false} CountInSuffix(ts: seq<int>, n: nat, lo: int, hi: int)
    requires n <= |ts| && forall i :: 0 <= i < n ==> ts[i] < lo
    ensures CountIn(ts, lo, hi) == CountIn(ts[n..], lo, hi) <= |ts| - n
  {
    if n < |ts| {
      var m := |ts| - 1;
      assert ts[n..][..m - n] == ts[..m][n..];
      CountInSuffix(ts[..m], n, lo, hi);
    } else if ts != [] {
      CountInSuffix(ts[..n - 1], n - 1, lo, hi);
    }
  }

  lemma {:induction false} CountInAll(ts: seq<int>, lo: int, hi: int)
    requires forall i :: 0 <= i < |ts| ==> lo <= ts[i] <= hi
    ensures CountIn(ts, lo, hi) == |ts|
  {
    if ts != [] { CountInAll(ts[..|ts| - 1], lo, hi); }
  }

  /** Spacing bounds the count in every closed interval of length `w`. */
  lemma {:induction false} SpacedBoundsCount(ts: seq<int>, k: nat, w: int, start: int, lo: int, hi: int)
    requires k > 0 && Sorted(ts) && Spaced(ts, k, w, start)
    requires hi - lo <= w
    requires forall i :: 0 <= i < |ts| && lo <= ts[i] <= hi ==> ts[i] >= start
    ensures CountIn(ts, lo, hi) <= k
  {
    if ts != [] {
      var last := |ts| - 1;
      if lo <= ts[last] <= hi {
        if k <= last {
          assert ts[(last - k) + k] >= start;
          assert forall i :: 0 <= i <= last - k ==> ts[i] <= ts[last - k] < lo;
          CountInSuffix(ts, last - k + 1, lo, hi);
        } else {
          CountInSuffix(ts, 0, lo, hi);
        }
      } else {
        SpacedBoundsCount(ts[..last], k, w, start, lo, hi);
      }
    }
  }
}
