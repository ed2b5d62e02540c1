/**
 * What a table built by `Create` answers: the default for every index that
 * is not a key, and for a key the value stored in the slot the layout gives
 * it. The value slots follow the sort's shuffle directly; when the keys are
 * distinct and the shuffle is its own inverse, every key gets its own value
 * back. For repeated keys no lemma here states what a key reads.
 */
module TableProperties {
  import opened Wrappers
  import opened Field
  import opened Ordering
  import opened SparseArrays

  /** The shuffle undoes itself, as it does whenever sorting only swaps pairs of keys. */
  predicate SelfInverse(idx: seq<nat>) {
    forall j :: 0 <= j < |idx| ==> idx[j] < |idx| && idx[idx[j]] == j
  }

  lemma {:induction false} DistinctAtMostOnce(s: seq<FieldElement>, x: FieldElement)
    requires Distinct(s)
    ensures multiset(s)[x] <= 1
  {
    if |s| > 0 {
      var rest := s[1..];
      assert s == [s[0]] + rest;
      forall i, j | 0 <= i < j < |rest|
        ensures rest[i] != rest[j]
      {
        assert s[i + 1] != s[j + 1];
      }
      DistinctAtMostOnce(rest, x);
      if s[0] == x {
        forall k | 0 <= k < |rest|
          ensures rest[k] != x
        {
          assert s[0] != s[k + 1];
        }
        assert x !in multiset(rest);
      }
    }
  }

  lemma TwoOccurrences(s: seq<FieldElement>, a: nat, b: nat)
    requires a < b < |s| && s[a] == s[b]
    ensures multiset(s)[s[a]] >= 2
  {
    assert s == s[..b] + [s[b]] + s[b + 1..];
    assert s[..b][a] == s[a];
    assert s[a] in multiset(s[..b]);
  }

  /** Sorting distinct keys yields distinct keys. */
  lemma SortedDistinct(keys: seq<FieldElement>, sorted: seq<FieldElement>)
    requires Distinct(keys) && multiset(sorted) == multiset(keys)
    ensures Distinct(sorted)
  {
    forall a, b | 0 <= a < b < |sorted|
      ensures sorted[a] != sorted[b]
    {
      if sorted[a] == sorted[b] {
        TwoOccurrences(sorted, a, b);
        DistinctAtMostOnce(keys, sorted[a]);
      }
    }
  }

  /**
   * In `[0] ++ sorted` with `sorted` free of repeats, the last entry equal to
   * `sorted[q]` is the one at position `q + 1`.
   */
  lemma SortedKeyPosition(sorted: seq<FieldElement>, q: nat)
    requires Distinct(sorted) && q < |sorted|
    ensures LastIndexOf([0] + sorted, sorted[q]) == Some(q + 1)
  {
    var s := [0] + sorted;
    LastIndexOfMeaning(s, sorted[q]);
    assert s[q + 1] == sorted[q];
    forall k | q + 1 < k < |s|
      ensures s[k] != sorted[q]
    {
      assert sorted[q] != sorted[k - 1];
    }
  }

  /** A lookup below the maximum reads the slot after the last matching key. */
  lemma LookupAt<T>(t: SparseArray<T>, sorted: seq<FieldElement>, x: FieldElement, p: nat)
    requires t.Valid() && t.keys == TableKeys(sorted, t.maximum) && x <= t.maximum
    requires LastIndexOf([0] + sorted, x) == Some(p)
    ensures t.Lookup(x) == t.values[p + 1]
  {
  }

  /** A lookup of an index matching no key reads the default slot. */
  lemma LookupMiss<T>(t: SparseArray<T>, sorted: seq<FieldElement>, x: FieldElement)
    requires t.Valid() && t.keys == TableKeys(sorted, t.maximum)
    requires LastIndexOf([0] + sorted, x).None?
    ensures t.Lookup(x) == t.values[0]
  {
  }

  /** An index that is not a sorted key matches only the leading 0, if anything. */
  lemma HolePosition(sorted: seq<FieldElement>, x: FieldElement)
    requires x !in sorted
    ensures LastIndexOf([0] + sorted, x) == if x == 0 then Some(0) else None
  {
    var s := [0] + sorted;
    LastIndexOfMeaning(s, x);
    forall k | 0 < k < |s|
      ensures s[k] != x
    {
      assert s[k] == sorted[k - 1];
    }
    if x != 0 {
      assert x !in s;
    }
  }

  /**
   * On a table whose key column is `[0] ++ sorted ++ [maximum]`, an index
   * that is not among `sorted` reads the default, provided the default sits
   * in slot 0 and, for index 0, in slot 1.
   */
  lemma ColumnLookupHole<T>(t: SparseArray<T>, sorted: seq<FieldElement>, dflt: T, index: FieldElement)
    requires t.Valid() && t.keys == TableKeys(sorted, t.maximum)
    requires index !in sorted && t.values[0] == dflt
    requires index == 0 ==> t.values[1] == dflt
    ensures t.Lookup(index) == dflt
  {
    HolePosition(sorted, index);
    if index <= t.maximum {
      if index == 0 {
        LookupAt(t, sorted, index, 0);
      } else {
        LookupMiss(t, sorted, index);
      }
    }
  }

  /**
   * On a table whose key column is `[0] ++ sorted ++ [maximum]` with
   * `sorted` free of repeats, the key at sorted position `q` reads slot `q + 2`.
   */
  lemma ColumnLookupKey<T>(t: SparseArray<T>, sorted: seq<FieldElement>, q: nat)
    requires t.Valid() && t.keys == TableKeys(sorted, t.maximum)
    requires Distinct(sorted) && q < |sorted| && sorted[q] <= t.maximum
    ensures t.Lookup(sorted[q]) == t.values[q + 2]
  {
    SortedKeyPosition(sorted, q);
    LookupAt(t, sorted, sorted[q], q + 1);
  }

  /** Every key of inputs that pass the bound checks is at most the maximum. */
  lemma KeyBelowMaximum(keys: seq<FieldElement>, size: FieldElement, i: nat)
    requires |keys| >= 1 && BoundsError(keys, size).None? && i < |keys|
    ensures keys[i] <= size - 1
  {
    BoundsCheckComplete(keys, size);
    assert keys[i] in keys;
  }

  /**
   * A table built from inputs that pass the bound checks answers every index
   * that is not a key with the default: above the maximum, at 0 when 0 is not
   * a key, and at every hole below the maximum.
   */
  lemma LookupHole<T>(keys: seq<FieldElement>, values: seq<T>, size: FieldElement, dflt: T,
                      sorting: SortResult, index: FieldElement)
    requires |keys| == |values| >= 1 && IsSortOf(keys, sorting)
    requires BoundsError(keys, size).None?
    requires index !in keys
    ensures var t := Layout(keys, values, size, dflt, sorting);
            t.Valid() && t.Lookup(index) == dflt
  {
    var t := Layout(keys, values, size, dflt, sorting);
    assert t.Valid() by {
      LayoutValid(keys, values, size, dflt, sorting);
    }
    assert index !in sorting.sorted by {
      assert index !in multiset(sorting.sorted);
    }
    assert index == 0 ==> keys[0] != 0;
    ColumnLookupHole(t, sorting.sorted, dflt, index);
  }

  /**
   * With distinct keys, looking up input key `keys[i]` yields the input value
   * at position `idx[idx[i]]` of the sort's shuffle `idx`: the slot of
   * sorted position `q` holds `values[idx[q]]`.
   */
  lemma LookupKey<T>(keys: seq<FieldElement>, values: seq<T>, size: FieldElement, dflt: T,
                     sorting: SortResult, i: nat)
    requires |keys| == |values| >= 1 && IsSortOf(keys, sorting)
    requires BoundsError(keys, size).None?
    requires Distinct(keys) && i < |keys|
    ensures var t := Layout(keys, values, size, dflt, sorting);
            var idx := sorting.sortIndices;
            t.Valid() && idx[i] < |keys| && t.Lookup(keys[i]) == values[idx[idx[i]]]
  {
    var t := Layout(keys, values, size, dflt, sorting);
    var idx := sorting.sortIndices;
    var q := idx[i];
    assert t.Valid() by {
      LayoutValid(keys, values, size, dflt, sorting);
    }
    assert Distinct(sorting.sorted) by {
      SortedDistinct(keys, sorting.sorted);
    }
    KeyBelowMaximum(keys, size, i);
    assert sorting.sorted[q] == keys[i];
    ColumnLookupKey(t, sorting.sorted, q);
  }

  /**
   * A lookup never reads the last value slot: the final entry written by
   * `create` (the value of a key equal to the maximum) can be replaced by
   * anything without changing any answer.
   */
  lemma FinalValueUnread<T>(t: SparseArray<T>, v: T, index: FieldElement)
    requires t.Valid()
    ensures var u := SparseArray(t.keys, t.values[|t.values| - 1 := v], t.maximum);
            u.Valid() && u.Lookup(index) == t.Lookup(index)
  {
  }

  /**
   * When the shuffle is its own inverse (every key already in place, or only
   * pairs of keys exchanged), every key of a table with distinct keys looks
   * up its own value.
   */
  lemma LookupRoundTrip<T>(keys: seq<FieldElement>, values: seq<T>, size: FieldElement, dflt: T,
                           sorting: SortResult, i: nat)
    requires |keys| == |values| >= 1 && IsSortOf(keys, sorting)
    requires BoundsError(keys, size).None?
    requires Distinct(keys) && SelfInverse(sorting.sortIndices) && i < |keys|
    ensures var t := Layout(keys, values, size, dflt, sorting);
            t.Valid() && t.Lookup(keys[i]) == values[i]
  {
    LookupKey(keys, values, size, dflt, sorting, i);
  }
}
