/**
 * Where the value of each input key belongs. `create` stores
 * `values[idx[q]]` in the slot of sorted position `q`, where `idx` sends
 * input positions to sorted positions; the slot of sorted position `q`
 * belongs to the input position that `idx` sends to `q`. The two agree
 * whenever `idx` is its own inverse; `PlacementCounterexample` exhibits a
 * three-key input on which a key reads another key's value; `IntendedLayout`
 * scatters each value to its key's sorted position instead, and every key
 * then reads its own value back.
 */
module Placement {
  import opened Field
  import opened Ordering
  import opened SparseArrays
  import opened TableProperties

  /** The first `m` input values written to the slots their positions are sent to; `dflt` elsewhere. */
  function Scatter<T>(values: seq<T>, idx: seq<nat>, dflt: T, m: nat): (col: seq<T>)
    requires m <= |idx| == |values|
    requires forall i :: 0 <= i < |idx| ==> idx[i] < |values|
    ensures |col| == |values|
  {
    if m == 0 then seq(|values|, _ => dflt)
    else Scatter(values, idx, dflt, m - 1)[idx[m - 1] := values[m - 1]]
  }

  /** With no position sent twice, slot `idx[i]` ends up holding `values[i]`. */
  lemma {:induction false} ScatterAt<T>(values: seq<T>, idx: seq<nat>, dflt: T, m: nat, i: nat)
    requires m <= |idx| == |values|
    requires forall i :: 0 <= i < |idx| ==> idx[i] < |values|
    requires forall i, k :: 0 <= i < k < |idx| ==> idx[i] != idx[k]
    requires i < m
    ensures Scatter(values, idx, dflt, m)[idx[i]] == values[i]
  {
    if i < m - 1 {
      ScatterAt(values, idx, dflt, m - 1, i);
      assert idx[i] != idx[m - 1];
    }
  }

  /** The value column with each input value in the slot of its key's sorted position. */
  function IntendedTableValues<T>(keys: seq<FieldElement>, values: seq<T>, sortIndices: seq<nat>,
                                  maximum: FieldElement, dflt: T): (vs: seq<T>)
    requires |keys| == |values| == |sortIndices| >= 1
    requires forall i :: 0 <= i < |sortIndices| ==> sortIndices[i] < |values|
    ensures |vs| == |keys| + 3 && vs[0] == dflt
    ensures vs[1] == if keys[0] == 0 then values[0] else dflt
    ensures forall q :: 0 <= q < |keys| ==> vs[q + 2] == Scatter(values, sortIndices, dflt, |keys|)[q]
  {
    var n := |keys|;
    [dflt] +
    [if keys[0] == 0 then values[0] else dflt] +
    Scatter(values, sortIndices, dflt, n) +
    [if keys[n - 1] == maximum then values[n - 1] else dflt]
  }

  /** In the intended value column, the slot of input position `i`'s sorted position holds `values[i]`. */
  lemma IntendedSlot<T>(keys: seq<FieldElement>, values: seq<T>, idx: seq<nat>,
                        maximum: FieldElement, dflt: T, i: nat)
    requires |keys| == |values| == |idx| >= 1
    requires forall i :: 0 <= i < |idx| ==> idx[i] < |values|
    requires forall i, k :: 0 <= i < k < |idx| ==> idx[i] != idx[k]
    requires i < |keys|
    ensures IntendedTableValues(keys, values, idx, maximum, dflt)[idx[i] + 2] == values[i]
  {
    ScatterAt(values, idx, dflt, |keys|, i);
  }

  /** The table `create` evidently means to build: same keys, values scattered to their keys. */
  function IntendedLayout<T>(keys: seq<FieldElement>, values: seq<T>, size: FieldElement, dflt: T,
                             sorting: SortResult): (t: SparseArray<T>)
    requires |keys| == |values| >= 1 && size >= 1 && IsSortOf(keys, sorting)
    ensures t.maximum == size - 1 && |t.keys| == |keys| + 2 && |t.values| == |keys| + 3
  {
    SparseArray(TableKeys(sorting.sorted, size - 1),
                IntendedTableValues(keys, values, sorting.sortIndices, size - 1, dflt),
                size - 1)
  }

  /**
   * The correction touches the value column only: both tables have the same
   * keys, maximum, default slot and boundary slots.
   */
  lemma IntendedDiffersInValuesOnly<T>(keys: seq<FieldElement>, values: seq<T>, size: FieldElement, dflt: T,
                                       sorting: SortResult)
    requires |keys| == |values| >= 1 && size >= 1 && IsSortOf(keys, sorting)
    ensures var a := Layout(keys, values, size, dflt, sorting);
            var b := IntendedLayout(keys, values, size, dflt, sorting);
            a.keys == b.keys && a.maximum == b.maximum &&
            a.values[0] == b.values[0] && a.values[1] == b.values[1] &&
            a.values[|keys| + 2] == b.values[|keys| + 2]
  {
  }

  /** The intended table answers every index that is not a key with the default. */
  lemma IntendedLookupHole<T>(keys: seq<FieldElement>, values: seq<T>, size: FieldElement, dflt: T,
                              sorting: SortResult, index: FieldElement)
    requires |keys| == |values| >= 1 && IsSortOf(keys, sorting)
    requires BoundsError(keys, size).None?
    requires index !in keys
    ensures var t := IntendedLayout(keys, values, size, dflt, sorting);
            t.Valid() && t.Lookup(index) == dflt
  {
    var t := IntendedLayout(keys, values, size, dflt, sorting);
    assert t.Valid() by {
      TableKeysSorted(keys, sorting.sorted, size);
    }
    assert index !in sorting.sorted by {
      assert index !in multiset(sorting.sorted);
    }
    assert index == 0 ==> keys[0] != 0;
    ColumnLookupHole(t, sorting.sorted, dflt, index);
  }

  /** With distinct keys, every key of the intended table reads its own value back. */
  lemma IntendedLookupRoundTrip<T>(keys: seq<FieldElement>, values: seq<T>, size: FieldElement, dflt: T,
                                   sorting: SortResult, i: nat)
    requires |keys| == |values| >= 1 && IsSortOf(keys, sorting)
    requires BoundsError(keys, size).None?
    requires Distinct(keys) && i < |keys|
    ensures var t := IntendedLayout(keys, values, size, dflt, sorting);
            t.Valid() && t.Lookup(keys[i]) == values[i]
  {
    var t := IntendedLayout(keys, values, size, dflt, sorting);
    assert t.Valid() by {
      TableKeysSorted(keys, sorting.sorted, size);
    }
    KeyBelowMaximum(keys, size, i);
    SortedDistinct(keys, sorting.sorted);
    ColumnRoundTrip(t, keys, values, sorting.sorted, sorting.sortIndices, dflt, i);
  }

  /** The round trip on the columns alone, away from the sort's other facts. */
  lemma ColumnRoundTrip<T>(t: SparseArray<T>, keys: seq<FieldElement>, values: seq<T>,
                           sorted: seq<FieldElement>, idx: seq<nat>, dflt: T, i: nat)
    requires |keys| == |values| == |sorted| == |idx| >= 1
    requires forall i :: 0 <= i < |idx| ==> idx[i] < |values|
    requires forall i, k :: 0 <= i < k < |idx| ==> idx[i] != idx[k]
    requires t.Valid() && t.keys == TableKeys(sorted, t.maximum)
    requires t.values == IntendedTableValues(keys, values, idx, t.maximum, dflt)
    requires Distinct(sorted) && i < |keys| && sorted[idx[i]] == keys[i] && keys[i] <= t.maximum
    ensures t.Lookup(keys[i]) == values[i]
  {
    IntendedSlot(keys, values, idx, t.maximum, dflt, i);
    ColumnLookupKey(t, sorted, idx[i]);
  }

  const CycleKeys: seq<FieldElement> := [3, 1, 2]
  const CycleValues: seq<nat> := [10, 20, 30]

  /**
   * Keys `[3, 1, 2]` with values `[10, 20, 30]`: sorting sends the positions
   * to `[2, 0, 1]`, a cycle of three, and the table `create` builds answers
   * key 1 with 30, the value of key 2, where the intended table answers 20.
   */
  lemma PlacementCounterexample(sorting: SortResult)
    requires IsSortOf(CycleKeys, sorting)
    ensures var t := Layout(CycleKeys, CycleValues, 4, 0, sorting);
            t.Valid() && t.Lookup(1) == 30
    ensures var t := IntendedLayout(CycleKeys, CycleValues, 4, 0, sorting);
            t.Valid() && t.Lookup(1) == 20
  {
    CycleSort(sorting);
    CycleBounds();
    LookupKey(CycleKeys, CycleValues, 4, 0, sorting, 1);
    IntendedLookupRoundTrip(CycleKeys, CycleValues, 4, 0, sorting, 1);
  }

  const CycleSorted: seq<FieldElement> := [1, 2, 3]
  const CycleShuffle: seq<nat> := [2, 0, 1]

  /** The only sort of `[3, 1, 2]`: sorted `[1, 2, 3]`, positions sent to `[2, 0, 1]`. */
  lemma CycleSort(sorting: SortResult)
    requires IsSortOf(CycleKeys, sorting)
    ensures sorting.sorted == CycleSorted && sorting.sortIndices == CycleShuffle
  {
    var sorted, idx := sorting.sorted, sorting.sortIndices;
    CycleOrder();
    SortedUnique(sorted, CycleSorted);
    assert |idx| == 3;
    assert idx[0] == 2 by { assert sorted[idx[0]] == 3; }
    assert idx[1] == 0 by { assert sorted[idx[1]] == 1; }
    assert idx[2] == 1 by { assert sorted[idx[2]] == 2; }
  }

  lemma CycleOrder()
    ensures Sorted(CycleSorted) && multiset(CycleSorted) == multiset(CycleKeys)
  {
    assert multiset(CycleSorted) == multiset(CycleKeys);
  }

  /** `[3, 1, 2]` with size 4 passes every bound check and has distinct keys. */
  lemma CycleBounds()
    ensures BoundsError(CycleKeys, 4).None? && Distinct(CycleKeys)
  {
    assert Min(CycleKeys) == 1 && Max(CycleKeys) == 3;
  }
}
