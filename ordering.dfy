/**
 * The ordering engine: an in-place Lomuto quicksort of the keys, the
 * reconciliation pass that maps every original position to a position of the
 * sorted copy, and `SortAdvanced`, which runs both and re-checks the order.
 * The comparator of the original is only ever instantiated with `<`, so the
 * model sorts naturals by `<`.
 */
module Ordering {
  import opened Wrappers
  import opened Field

  /** What `SortAdvanced` returns: the sorted copy and, per original position, its sorted position. */
  datatype SortResult = SortResult(sorted: seq<FieldElement>, sortIndices: seq<nat>)

  /** The panic of the reconciliation pass: "Arrays do not contain equivalent values". */
  datatype ShuffleError = ArraysNotEquivalent

  predicate Sorted(s: seq<nat>) {
    forall i, j :: 0 <= i < j < |s| ==> s[i] <= s[j]
  }

  predicate Distinct(s: seq<nat>) {
    forall i, j :: 0 <= i < j < |s| ==> s[i] != s[j]
  }

  /**
   * `idx` is the shuffle the reconciliation pass computes for `lhs` against
   * `rhs`: position `i` of `lhs` is sent to a position of `rhs` holding the
   * same value, no position is used twice, and equal values keep their
   * relative order. For two sequences of the same length this is the same as
   * every position being sent to the first match not claimed by an earlier
   * one (`ShuffleFirstUnclaimed`).
   */
  predicate IsShuffle(lhs: seq<nat>, rhs: seq<nat>, idx: seq<nat>) {
    |idx| == |lhs| &&
    (forall i :: 0 <= i < |idx| ==> idx[i] < |rhs| && rhs[idx[i]] == lhs[i]) &&
    (forall i, k :: 0 <= i < k < |idx| ==> idx[i] != idx[k]) &&
    (forall i, k :: 0 <= i < k < |idx| && lhs[i] == lhs[k] ==> idx[i] < idx[k])
  }

  /** `r` is what a correct `SortAdvanced` returns for `input`. */
  predicate IsSortOf(input: seq<FieldElement>, r: SortResult) {
    |r.sorted| == |input| && Sorted(r.sorted) && multiset(r.sorted) == multiset(input) &&
    IsShuffle(input, r.sorted, r.sortIndices)
  }

  // ---------------------------------------------------------------------------
  // Quicksort
  // ---------------------------------------------------------------------------

  /** Exchanges `a[i]` and `a[j]`, both inside the segment `a[low..high]`. */
  method Swap(a: array<FieldElement>, i: nat, j: nat, ghost low: nat, ghost high: nat)
    requires low <= i <= high < a.Length && low <= j <= high
    modifies a
    ensures a[i] == old(a[j]) && a[j] == old(a[i])
    ensures forall k :: 0 <= k < a.Length && k != i && k != j ==> a[k] == old(a[k])
    ensures multiset(a[low..high + 1]) == old(multiset(a[low..high + 1]))
  {
    ghost var seg := a[low..high + 1];
    a[i], a[j] := a[j], a[i];
    assert a[low..high + 1] == seg[i - low := seg[j - low]][j - low := seg[i - low]];
  }

  /**
   * Lomuto partition of `a[low..high]` around the pivot `a[high]`: returns the
   * pivot's final position.
   */
  method Partition(a: array<FieldElement>, low: nat, high: nat) returns (p: nat)
    requires low <= high < a.Length
    modifies a
    ensures low <= p <= high
    ensures a[p] == old(a[high])
    ensures forall k :: low <= k < p ==> a[k] < a[p]
    ensures forall k :: p < k <= high ==> a[p] <= a[k]
    ensures forall k :: 0 <= k < a.Length && (k < low || high < k) ==> a[k] == old(a[k])
    ensures multiset(a[low..high + 1]) == old(multiset(a[low..high + 1]))
  {
    var pivot := high;
    var i := low;
    for j := low to high
      invariant low <= i <= j
      invariant a[pivot] == old(a[high])
      invariant forall k :: low <= k < i ==> a[k] < a[pivot]
      invariant forall k :: i <= k < j ==> a[pivot] <= a[k]
      invariant forall k :: 0 <= k < a.Length && (k < low || high < k) ==> a[k] == old(a[k])
      invariant multiset(a[low..high + 1]) == old(multiset(a[low..high + 1]))
    {
      if a[j] < a[pivot] {
        Swap(a, i, j, low, high);
        i := i + 1;
      }
    }
    Swap(a, i, pivot, low, high);
    p := i;
  }

  /** Sorts `a[low..high]` in place; a range with `low >= high` is left alone. */
  method QuicksortRecursive(a: array<FieldElement>, low: nat, high: nat)
    requires low <= high + 1 && high < a.Length
    modifies a
    ensures forall i, j :: low <= i < j <= high ==> a[i] <= a[j]
    ensures multiset(a[low..high + 1]) == old(multiset(a[low..high + 1]))
    ensures forall k :: 0 <= k < a.Length && (k < low || high < k) ==> a[k] == old(a[k])
    decreases high + 1 - low
  {
    if low < high {
      var p := Partition(a, low, high);
      ghost var a1 := a[..];
      if p > 0 {
        QuicksortRecursive(a, low, p - 1);
      }
      ghost var a2 := a[..];
      if p < high {
        QuicksortRecursive(a, p + 1, high);
      }
      ghost var a3 := a[..];
      PartitionedSegmentSorted(a1, a2, a3, low, p, high);
      PartitionedSegmentPermuted(a1, a2, a3, low, p, high);
    }
  }

  /** Sorting both sides of a partitioned segment sorts the segment. */
  lemma PartitionedSegmentSorted(a1: seq<FieldElement>, a2: seq<FieldElement>, a3: seq<FieldElement>,
                                 low: nat, p: nat, high: nat)
    requires low <= p <= high < |a1| == |a2| == |a3|
    requires forall k :: low <= k < p ==> a1[k] < a1[p]
    requires forall k :: p < k <= high ==> a1[p] <= a1[k]
    requires forall i, j :: low <= i < j < p ==> a2[i] <= a2[j]
    requires multiset(a2[low..p]) == multiset(a1[low..p])
    requires forall k :: p <= k < |a1| ==> a2[k] == a1[k]
    requires forall i, j :: p < i < j <= high ==> a3[i] <= a3[j]
    requires multiset(a3[p + 1..high + 1]) == multiset(a2[p + 1..high + 1])
    requires forall k :: 0 <= k <= p ==> a3[k] == a2[k]
    ensures forall i, j :: low <= i < j <= high ==> a3[i] <= a3[j]
  {
    forall k | low <= k < p
      ensures a3[k] < a1[p]
    {
      assert a3[k] == a2[low..p][k - low];
      assert a3[k] in multiset(a1[low..p]);
    }
    forall k | p < k <= high
      ensures a1[p] <= a3[k]
    {
      assert a3[k] == a3[p + 1..high + 1][k - p - 1];
      assert a3[k] in multiset(a2[p + 1..high + 1]);
    }
  }

  /** Permuting both sides of a segment in place permutes the segment. */
  lemma PartitionedSegmentPermuted(a1: seq<FieldElement>, a2: seq<FieldElement>, a3: seq<FieldElement>,
                                   low: nat, p: nat, high: nat)
    requires low <= p <= high < |a1| == |a2| == |a3|
    requires multiset(a2[low..p]) == multiset(a1[low..p])
    requires forall k :: p <= k < |a1| ==> a2[k] == a1[k]
    requires multiset(a3[p + 1..high + 1]) == multiset(a2[p + 1..high + 1])
    requires forall k :: 0 <= k <= p ==> a3[k] == a2[k]
    ensures multiset(a3[low..high + 1]) == multiset(a1[low..high + 1])
  {
    SegmentSplit(a1, low, p, high);
    SegmentSplit(a2, low, p, high);
    SegmentSplit(a3, low, p, high);
    assert a3[low..p] == a2[low..p];
    assert a2[p + 1..high + 1] == a1[p + 1..high + 1];
  }

  /** A segment's multiset is that of the part left of `p`, `s[p]`, and the part right of it. */
  lemma SegmentSplit(s: seq<FieldElement>, low: nat, p: nat, high: nat)
    requires low <= p <= high < |s|
    ensures multiset(s[low..high + 1]) == multiset(s[low..p]) + multiset{s[p]} + multiset(s[p + 1..high + 1])
  {
    assert s[low..high + 1] == s[low..p] + [s[p]] + s[p + 1..high + 1];
  }

  /** Sorts the whole array in place. */
  method Quicksort(a: array<FieldElement>)
    modifies a
    ensures Sorted(a[..])
    ensures multiset(a[..]) == old(multiset(a[..]))
  {
    ghost var before := a[..];
    if a.Length > 1 {
      QuicksortRecursive(a, 0, a.Length - 1);
      assert before[0..a.Length] == before;
      assert a[0..a.Length] == a[..];
    }
  }

  /** The sorted order of a multiset is unique: the sort's output is a function of its input. */
  lemma {:induction false} SortedUnique(a: seq<FieldElement>, b: seq<FieldElement>)
    requires Sorted(a) && Sorted(b) && multiset(a) == multiset(b)
    ensures a == b
  {
    assert |a| == |multiset(a)| == |multiset(b)| == |b|;
    if |a| > 0 {
      assert a[0] in multiset(b);
      assert b[0] in multiset(a);
      assert a[0] == b[0];
      assert a == [a[0]] + a[1..];
      assert b == [b[0]] + b[1..];
      assert multiset(a[1..]) == multiset(a) - multiset{a[0]};
      assert multiset(b[1..]) == multiset(b) - multiset{b[0]};
      SortedUnique(a[1..], b[1..]);
    }
  }

  // ---------------------------------------------------------------------------
  // Reconciliation of original and sorted positions
  // ---------------------------------------------------------------------------

  /** The multiset of the elements of `s` whose mask bit is set. */
  ghost function Picked(s: seq<FieldElement>, mask: seq<bool>): multiset<FieldElement>
    requires |s| == |mask|
  {
    if |s| == 0 then multiset{}
    else Picked(s[..|s| - 1], mask[..|s| - 1]) + (if mask[|s| - 1] then multiset{s[|s| - 1]} else multiset{})
  }

  lemma {:induction false} PickedIncluded(s: seq<FieldElement>, mask: seq<bool>)
    requires |s| == |mask|
    ensures Picked(s, mask) <= multiset(s)
  {
    if |s| > 0 {
      PickedIncluded(s[..|s| - 1], mask[..|s| - 1]);
      assert s == s[..|s| - 1] + [s[|s| - 1]];
    }
  }

  /** When every occurrence of `v` is masked, all of them are picked. */
  lemma {:induction false} PickedEveryOccurrence(s: seq<FieldElement>, mask: seq<bool>, v: FieldElement)
    requires |s| == |mask|
    requires forall j :: 0 <= j < |s| && s[j] == v ==> mask[j]
    ensures Picked(s, mask)[v] == multiset(s)[v]
  {
    if |s| > 0 {
      PickedEveryOccurrence(s[..|s| - 1], mask[..|s| - 1], v);
      assert s == s[..|s| - 1] + [s[|s| - 1]];
    }
  }

  /** Setting one clear mask bit picks exactly one more element. */
  lemma {:induction false} PickedClaim(s: seq<FieldElement>, mask: seq<bool>, j: nat)
    requires |s| == |mask| && j < |s| && !mask[j]
    ensures Picked(s, mask[j := true]) == Picked(s, mask) + multiset{s[j]}
  {
    var n := |s| - 1;
    if j < n {
      assert mask[j := true][..n] == mask[..n][j := true];
      PickedClaim(s[..n], mask[..n], j);
    } else {
      assert mask[j := true][..n] == mask[..n];
    }
  }

  lemma SubmultisetOfSameSize(a: multiset<FieldElement>, b: multiset<FieldElement>)
    requires a <= b && |a| == |b|
    ensures a == b
  {
    assert b == a + (b - a);
    assert |b - a| == 0;
  }

  /** No position of `rhs` before `j` is both unclaimed and equal to `v`. */
  ghost predicate NoFreeMatchBefore(rhs: seq<FieldElement>, mask: seq<bool>, v: FieldElement, j: nat)
    requires |mask| == |rhs| && j <= |rhs|
  {
    forall l :: 0 <= l < j ==> mask[l] || rhs[l] != v
  }

  lemma NoFreeMatchStep(rhs: seq<FieldElement>, mask: seq<bool>, v: FieldElement, j: nat)
    requires |mask| == |rhs| && j < |rhs|
    ensures NoFreeMatchBefore(rhs, mask, v, j) && (mask[j] || rhs[j] != v) ==> NoFreeMatchBefore(rhs, mask, v, j + 1)
  {
  }

  /** `p` is the first unclaimed position of `rhs` that holds `v`. */
  ghost predicate FirstFreeMatch(rhs: seq<FieldElement>, mask: seq<bool>, v: FieldElement, p: nat)
    requires |mask| == |rhs|
  {
    p < |rhs| && !mask[p] && rhs[p] == v && NoFreeMatchBefore(rhs, mask, v, p)
  }

  /**
   * The state of the reconciliation after the positions in `claimed` have
   * been assigned: they form a shuffle of the prefix of `lhs`, the mask marks
   * each of them, every match skipped on the way to a claimed position is
   * masked, and the masked elements of `rhs` are those of the prefix.
   */
  ghost predicate Reconciled(lhs: seq<FieldElement>, rhs: seq<FieldElement>, claimed: seq<nat>, mask: seq<bool>)
    requires |claimed| <= |lhs| && |mask| == |rhs|
  {
    IsShuffle(lhs[..|claimed|], rhs, claimed) &&
    (forall k :: 0 <= k < |claimed| ==> mask[claimed[k]]) &&
    (forall k, j :: 0 <= k < |claimed| && 0 <= j < claimed[k] && rhs[j] == lhs[k] ==> mask[j]) &&
    multiset(lhs[..|claimed|]) == Picked(rhs, mask)
  }

  /** Nothing is reconciled before the first round. */
  lemma ReconcileStart(lhs: seq<FieldElement>, rhs: seq<FieldElement>, mask: seq<bool>)
    requires |mask| == |rhs| && forall j :: 0 <= j < |mask| ==> !mask[j]
    ensures Reconciled(lhs, rhs, [], mask)
  {
    PickedNone(rhs, mask);
  }

  /** Claiming the first free match of the next value is one more round of the reconciliation. */
  lemma ClaimStep(lhs: seq<FieldElement>, rhs: seq<FieldElement>, claimed: seq<nat>, mask: seq<bool>, p: nat)
    requires |claimed| < |lhs| && |mask| == |rhs|
    requires Reconciled(lhs, rhs, claimed, mask)
    requires FirstFreeMatch(rhs, mask, lhs[|claimed|], p)
    ensures Reconciled(lhs, rhs, claimed + [p], mask[p := true])
  {
    var i := |claimed|;
    var next := claimed + [p];
    var mask' := mask[p := true];
    assert next[..i] == claimed;
    assert lhs[..i + 1] == lhs[..i] + [lhs[i]];
    forall k | 0 <= k < i
      ensures claimed[k] != p
    {
      assert mask[claimed[k]];
    }
    forall k | 0 <= k < i && lhs[k] == lhs[i]
      ensures claimed[k] < p
    {
      assert rhs[p] == lhs[k];
    }
    assert IsShuffle(lhs[..i + 1], rhs, next);
    forall k, j | 0 <= k < i + 1 && 0 <= j < next[k] && rhs[j] == lhs[k]
      ensures mask'[j]
    {
      if k < i {
        assert mask[j];
      }
    }
    PickedClaim(rhs, mask, p);
  }

  /** After the last round the claimed positions are a shuffle and the two sides permutations. */
  lemma ReconcileDone(lhs: seq<FieldElement>, rhs: seq<FieldElement>, claimed: seq<nat>, mask: seq<bool>)
    requires |claimed| == |lhs| == |rhs| == |mask|
    requires Reconciled(lhs, rhs, claimed, mask)
    ensures IsShuffle(lhs, rhs, claimed)
    ensures multiset(lhs) == multiset(rhs)
  {
    assert lhs[..|claimed|] == lhs;
    PickedIncluded(rhs, mask);
    SubmultisetOfSameSize(multiset(lhs), multiset(rhs));
  }

  /**
   * For every position of `lhs`, claims the first unclaimed position of `rhs`
   * holding an equal value; fails when some value of `lhs` has no unclaimed
   * match left, which happens exactly when the two are not permutations of
   * each other.
   */
  method GetShuffleIndices(lhs: seq<FieldElement>, rhs: seq<FieldElement>) returns (r: Result<seq<nat>, ShuffleError>)
    requires |lhs| == |rhs|
    ensures r.Success? <==> multiset(lhs) == multiset(rhs)
    ensures r.Success? ==> IsShuffle(lhs, rhs, r.value)
  {
    var n := |lhs|;
    var shuffleIndices: seq<nat> := seq(n, _ => 0);
    var shuffleMask: seq<bool> := seq(n, _ => false);
    ReconcileStart(lhs, rhs, shuffleMask);
    for i := 0 to n
      invariant |shuffleIndices| == n && |shuffleMask| == n
      invariant Reconciled(lhs, rhs, shuffleIndices[..i], shuffleMask)
    {
      var found := false;
      ghost var claimed := shuffleIndices[..i];
      ghost var mask0 := shuffleMask;
      for j := 0 to n
        invariant |shuffleIndices| == n && |shuffleMask| == n
        invariant shuffleIndices[..i] == claimed
        invariant !found ==> shuffleMask == mask0 && NoFreeMatchBefore(rhs, mask0, lhs[i], j)
        invariant found ==> FirstFreeMatch(rhs, mask0, lhs[i], shuffleIndices[i])
        invariant found ==> shuffleMask == mask0[shuffleIndices[i] := true]
      {
        NoFreeMatchStep(rhs, mask0, lhs[i], j);
        if !shuffleMask[j] && !found && lhs[i] == rhs[j] {
          found := true;
          shuffleIndices := shuffleIndices[i := j];
          shuffleMask := shuffleMask[j := true];
        }
      }
      if !found {
        UnmatchedValue(lhs, rhs, mask0, i);
        return Failure(ArraysNotEquivalent);
      }
      ClaimStep(lhs, rhs, claimed, mask0, shuffleIndices[i]);
      assert shuffleIndices[..i + 1] == claimed + [shuffleIndices[i]];
    }
    assert shuffleIndices[..n] == shuffleIndices;
    ReconcileDone(lhs, rhs, shuffleIndices, shuffleMask);
    r := Success(shuffleIndices);
  }

  /** A value of `lhs` whose every occurrence in `rhs` is already picked occurs more often in `lhs`. */
  lemma UnmatchedValue(lhs: seq<FieldElement>, rhs: seq<FieldElement>, mask: seq<bool>, i: nat)
    requires |lhs| == |rhs| == |mask| && i < |lhs|
    requires multiset(lhs[..i]) == Picked(rhs, mask)
    requires NoFreeMatchBefore(rhs, mask, lhs[i], |rhs|)
    ensures multiset(lhs)[lhs[i]] > multiset(rhs)[lhs[i]]
  {
    var v := lhs[i];
    assert Picked(rhs, mask)[v] == multiset(rhs)[v] by {
      PickedEveryOccurrence(rhs, mask, v);
    }
    CountPastPrefix(lhs, i);
  }

  /** `s[i]` occurs in `s` more often than in the prefix before it. */
  lemma CountPastPrefix(s: seq<FieldElement>, i: nat)
    requires i < |s|
    ensures multiset(s)[s[i]] > multiset(s[..i])[s[i]]
  {
    assert s == s[..i] + [s[i]] + s[i + 1..];
  }

  lemma {:induction false} PickedNone(s: seq<FieldElement>, mask: seq<bool>)
    requires |s| == |mask| && forall j :: 0 <= j < |mask| ==> !mask[j]
    ensures Picked(s, mask) == multiset{}
  {
    if |s| > 0 {
      PickedNone(s[..|s| - 1], mask[..|s| - 1]);
    }
  }

  /** The positions `idx[0..m]` as a set. */
  ghost function Image(idx: seq<nat>, m: nat): set<nat>
    requires m <= |idx|
  {
    set k | 0 <= k < m :: idx[k]
  }

  lemma {:induction false} ImageSize(idx: seq<nat>, m: nat)
    requires m <= |idx| && forall i, k :: 0 <= i < k < |idx| ==> idx[i] != idx[k]
    ensures |Image(idx, m)| == m
  {
    if m > 0 {
      ImageSize(idx, m - 1);
      assert Image(idx, m) == Image(idx, m - 1) + {idx[m - 1]};
      assert idx[m - 1] !in Image(idx, m - 1);
    }
  }

  /** The positions below `n`. */
  ghost function Below(n: nat): set<nat> {
    if n == 0 then {} else Below(n - 1) + {n - 1}
  }

  lemma {:induction false} BelowSize(n: nat)
    ensures |Below(n)| == n
    ensures forall x: nat :: x in Below(n) <==> x < n
  {
    if n > 0 {
      BelowSize(n - 1);
      assert n - 1 !in Below(n - 1);
    }
  }

  /** An injective sequence of `n` positions below `n` uses every position below `n`. */
  lemma Preimage(idx: seq<nat>, j: nat) returns (k: nat)
    requires forall i :: 0 <= i < |idx| ==> idx[i] < |idx|
    requires forall i, k :: 0 <= i < k < |idx| ==> idx[i] != idx[k]
    requires j < |idx|
    ensures k < |idx| && idx[k] == j
  {
    var n := |idx|;
    var image := Image(idx, n);
    var below := Below(n);
    ImageSize(idx, n);
    BelowSize(n);
    assert image <= below;
    assert below == image + (below - image);
    assert |below - image| == 0;
    assert j in image;
    k :| 0 <= k < n && idx[k] == j;
  }

  /**
   * The shuffle of two sequences of the same length sends every position to
   * the first match in `rhs` that no earlier position has claimed.
   */
  lemma ShuffleFirstUnclaimed(lhs: seq<FieldElement>, rhs: seq<FieldElement>, idx: seq<nat>, i: nat, j: nat)
    requires |lhs| == |rhs| && IsShuffle(lhs, rhs, idx)
    requires i < |lhs| && j < idx[i] && rhs[j] == lhs[i]
    ensures j in idx[..i]
  {
    var k := Preimage(idx, j);
    assert lhs[k] == lhs[i];
    assert k < i;
    assert idx[..i][k] == j;
  }

  /** The reconciliation is deterministic: at most one shuffle satisfies `IsShuffle`. */
  lemma ShuffleUnique(lhs: seq<FieldElement>, rhs: seq<FieldElement>, x: seq<nat>, y: seq<nat>)
    requires |lhs| == |rhs| && IsShuffle(lhs, rhs, x) && IsShuffle(lhs, rhs, y)
    ensures x == y
  {
    ShufflePrefixUnique(lhs, rhs, x, y, |lhs|);
    assert x == x[..|lhs|] && y == y[..|lhs|];
  }

  lemma {:induction false} ShufflePrefixUnique(lhs: seq<FieldElement>, rhs: seq<FieldElement>, x: seq<nat>, y: seq<nat>, m: nat)
    requires |lhs| == |rhs| && IsShuffle(lhs, rhs, x) && IsShuffle(lhs, rhs, y) && m <= |lhs|
    ensures x[..m] == y[..m]
  {
    if m > 0 {
      var i := m - 1;
      ShufflePrefixUnique(lhs, rhs, x, y, i);
      ShuffleStepAtMost(lhs, rhs, x, y, i);
      ShuffleStepAtMost(lhs, rhs, y, x, i);
      assert x[..m] == x[..i] + [x[i]];
      assert y[..m] == y[..i] + [y[i]];
    }
  }

  /** Two shuffles that agree before `i`: the second sends `i` no further than the first. */
  lemma ShuffleStepAtMost(lhs: seq<FieldElement>, rhs: seq<FieldElement>, x: seq<nat>, y: seq<nat>, i: nat)
    requires |lhs| == |rhs| && IsShuffle(lhs, rhs, x) && IsShuffle(lhs, rhs, y)
    requires i < |lhs| && x[..i] == y[..i]
    ensures y[i] <= x[i]
  {
    var k := Preimage(y, x[i]);
    assert lhs[k] == lhs[i];
    forall t | 0 <= t < i
      ensures x[t] == y[t]
    {
      assert x[..i][t] == y[..i][t];
    }
  }

  /**
   * Sorts a copy of `input` and reconciles it with the original order. The
   * reconciliation cannot fail, since the sorted copy is a permutation, and
   * the final order check ("Array not properly sorted") cannot fire.
   */
  method SortAdvanced(input: seq<FieldElement>) returns (r: SortResult)
    requires |input| >= 1
    ensures IsSortOf(input, r)
  {
    var sorted := new FieldElement[|input|](i requires 0 <= i < |input| => input[i]);
    assert sorted[..] == input;
    Quicksort(sorted);
    var shuffle := GetShuffleIndices(input, sorted[..]);
    for i := 0 to |input| - 1 {
      assert !(sorted[i + 1] < sorted[i]);
    }
    r := SortResult(sorted[..], shuffle.value);
  }
}
