/**
 * The sparse table builder: `Create` lays out `keys = [0] ++ sorted ++ [maximum]`
 * and the `values` slots, validates the field-modulus bounds, and `Get`
 * answers a point query by binary search. The table is immutable once built,
 * so it is a value; `Create` fills its slots in local arrays.
 */
module SparseArrays {
  import opened Wrappers
  import opened Field
  import opened Ordering

  /** The three bound checks of `create`, in the order they are made. */
  datatype CreateError =
    | SizeIsZero                  // `size - 1` underflows the unsigned big integer
    | KeyExceedsFieldModulus      // "Key exceeds field modulus"
    | MaximumExceedsFieldModulus  // "Maximum exceeds field modulus"
    | KeyExceedsMaximum           // "Key exceeds maximum"

  function Min(s: seq<FieldElement>): (m: FieldElement)
    requires |s| > 0
    ensures m in s && forall i :: 0 <= i < |s| ==> m <= s[i]
  {
    if |s| == 1 then s[0]
    else
      var rest := Min(s[1..]);
      assert forall i :: 1 <= i < |s| ==> s[i] == s[1..][i - 1];
      if s[0] <= rest then s[0] else rest
  }

  function Max(s: seq<FieldElement>): (m: FieldElement)
    requires |s| > 0
    ensures m in s && forall i :: 0 <= i < |s| ==> s[i] <= m
  {
    if |s| == 1 then s[0]
    else
      var rest := Max(s[1..]);
      assert forall i :: 1 <= i < |s| ==> s[i] == s[1..][i - 1];
      if s[0] >= rest then s[0] else rest
  }

  /**
   * The last position of `s` holding `x`, if any. The lookup's binary search
   * is proved to agree with this linear reading of the table.
   */
  function LastIndexOf(s: seq<FieldElement>, x: FieldElement): (r: Option<nat>)
    ensures r.Some? ==> r.value < |s|
  {
    if |s| == 0 then None
    else if s[|s| - 1] == x then Some(|s| - 1)
    else LastIndexOf(s[..|s| - 1], x)
  }

  /** `LastIndexOf` finds `x` exactly when it occurs, and then its last occurrence. */
  lemma {:induction false} LastIndexOfMeaning(s: seq<FieldElement>, x: FieldElement)
    ensures LastIndexOf(s, x).None? <==> x !in s
    ensures LastIndexOf(s, x).Some? ==>
              var p := LastIndexOf(s, x).value;
              s[p] == x && forall k :: p < k < |s| ==> s[k] != x
  {
    if |s| > 0 && s[|s| - 1] != x {
      LastIndexOfMeaning(s[..|s| - 1], x);
      assert s == s[..|s| - 1] + [s[|s| - 1]];
    }
  }

  /**
   * The table: `keys` holds N+2 entries, `values` N+3; `values[0]` is the
   * default returned for every index without an entry, and `values[p + 1]`
   * belongs to `keys[p]`.
   */
  datatype SparseArray<T> = SparseArray(keys: seq<FieldElement>, values: seq<T>, maximum: FieldElement)
  {
    /** The shape and ordering every table built by `Create` has. */
    predicate Valid() {
      |keys| >= 3 && |values| == |keys| + 1 &&
      keys[0] == 0 && keys[|keys| - 1] == maximum && Sorted(keys) &&
      maximum < FieldModulus
    }

    /**
     * What a lookup means: the default above `maximum`; otherwise the value
     * of the last of `keys[0..N]` equal to `index`, or the default when there
     * is none. The final key (`maximum`) is never consulted.
     */
    function Lookup(index: FieldElement): T
      requires Valid()
    {
      if index > maximum then values[0]
      else match LastIndexOf(keys[..|keys| - 1], index)
        case None => values[0]
        case Some(p) => values[p + 1]
    }

    /** Binary search over `keys[0..N]` for the greatest key at most `index`. */
    method Get(index: FieldElement) returns (v: T)
      requires Valid()
      ensures index > maximum ==> v == values[0]
      ensures v == Lookup(index)
    {
      if index > maximum {
        return values[0];
      }
      var n := |keys| - 2;
      var left := 0;
      var right := n + 1;
      while left + 1 < right
        invariant 0 <= left < right <= n + 1
        invariant keys[left] <= index
        invariant right == n + 1 || index < keys[right]
      {
        var mid := (left + right) / 2;
        if keys[mid] <= index {
          left := mid;
        } else {
          right := mid;
        }
      }
      SearchResult(this, index, left);
      if keys[left] == index {
        v := values[left + 1];
      } else {
        v := values[0];
      }
    }

    /** The declared upper bound of the index domain, which bounds every key. */
    function GetMaximum(): (m: FieldElement)
      requires Valid()
      ensures m == keys[|keys| - 1] && m < FieldModulus
      ensures forall i :: 0 <= i < |keys| ==> keys[i] <= m
    {
      maximum
    }
  }

  /**
   * Where the binary search stops decides the lookup: an exact match at the
   * stopping position, or no entry for `index` at all.
   */
  lemma SearchResult<T>(t: SparseArray<T>, index: FieldElement, left: nat)
    requires t.Valid() && index <= t.maximum && left < |t.keys| - 1 && t.keys[left] <= index
    requires left == |t.keys| - 2 || index < t.keys[left + 1]
    ensures t.Lookup(index) == if t.keys[left] == index then t.values[left + 1] else t.values[0]
  {
    var searched := t.keys[..|t.keys| - 1];
    SortedPrefix(t.keys, |t.keys| - 1);
    LastIndexOfSorted(searched, index, left);
  }

  lemma SortedPrefix(s: seq<FieldElement>, k: nat)
    requires Sorted(s) && k <= |s|
    ensures Sorted(s[..k])
  {
    forall i, j | 0 <= i < j < k
      ensures s[..k][i] <= s[..k][j]
    {
      assert s[i] <= s[j];
    }
  }

  /**
   * In a sorted sequence, a position `p` whose entry is at most `x` and whose
   * successor (if any) exceeds `x` is the last occurrence of `x`, or `x` does
   * not occur at all.
   */
  lemma LastIndexOfSorted(s: seq<FieldElement>, x: FieldElement, p: nat)
    requires Sorted(s) && p < |s| && s[p] <= x
    requires p == |s| - 1 || x < s[p + 1]
    ensures LastIndexOf(s, x) == if s[p] == x then Some(p) else None
  {
    LastIndexOfMeaning(s, x);
    forall k | p < k < |s|
      ensures x < s[k]
    {
      assert s[p + 1] <= s[k];
    }
    if s[p] != x {
      forall k | 0 <= k <= p
        ensures s[k] != x
      {
        assert s[k] <= s[p];
      }
    }
  }

  /**
   * The failures of `create`, in the order they happen: `size - 1` below
   * zero, then the smallest key against the modulus, then the maximum against
   * the modulus, then the largest key against the maximum.
   */
  function BoundsError(keys: seq<FieldElement>, size: FieldElement): (r: Option<CreateError>)
    requires |keys| >= 1
    ensures r == Some(SizeIsZero) <==> size == 0
    ensures r == Some(KeyExceedsFieldModulus) ==> forall k :: k in keys ==> k >= FieldModulus
    ensures r == Some(MaximumExceedsFieldModulus) ==>
              size - 1 >= FieldModulus && exists k :: k in keys && k < FieldModulus
    ensures r == Some(KeyExceedsMaximum) ==>
              size - 1 < FieldModulus && exists k :: k in keys && k > size - 1
  {
    if size == 0 then Some(SizeIsZero)
    else if Min(keys) >= FieldModulus then Some(KeyExceedsFieldModulus)
    else if size - 1 >= FieldModulus then Some(MaximumExceedsFieldModulus)
    else if Max(keys) > size - 1 then Some(KeyExceedsMaximum)
    else None
  }

  /**
   * Although only the smallest key is compared with the modulus, passing all
   * the checks means exactly that the domain is non-empty, every key and the
   * maximum are below the modulus and every key is at most the maximum.
   */
  lemma BoundsCheckComplete(keys: seq<FieldElement>, size: FieldElement)
    requires |keys| >= 1
    ensures BoundsError(keys, size).None? <==>
              1 <= size && size - 1 < FieldModulus &&
              forall k :: k in keys ==> k < FieldModulus && k <= size - 1
  {
    if BoundsError(keys, size).None? {
      forall k | k in keys
        ensures k < FieldModulus && k <= size - 1
      {
        assert k <= Max(keys);
      }
    } else if 1 <= size && size - 1 < FieldModulus {
      assert Min(keys) in keys;
      assert Max(keys) in keys;
    }
  }

  /** The `values` slots as `create` writes them. */
  function TableValues<T>(keys: seq<FieldElement>, values: seq<T>, sortIndices: seq<nat>,
                          maximum: FieldElement, dflt: T): (vs: seq<T>)
    requires |keys| == |values| == |sortIndices| >= 1
    requires forall i :: 0 <= i < |sortIndices| ==> sortIndices[i] < |values|
    ensures |vs| == |keys| + 3 && vs[0] == dflt
    ensures vs[1] == if keys[0] == 0 then values[0] else dflt
    ensures forall q :: 0 <= q < |keys| ==> vs[q + 2] == values[sortIndices[q]]
    ensures vs[|keys| + 2] == if keys[|keys| - 1] == maximum then values[|keys| - 1] else dflt
  {
    var n := |keys|;
    [dflt] +
    [if keys[0] == 0 then values[0] else dflt] +
    seq(n, i requires 0 <= i < n => values[sortIndices[i]]) +
    [if keys[n - 1] == maximum then values[n - 1] else dflt]
  }

  /** The `keys` slots as `create` writes them: `[0] ++ sorted ++ [maximum]`. */
  function TableKeys(sorted: seq<FieldElement>, maximum: FieldElement): (ks: seq<FieldElement>)
    ensures |ks| == |sorted| + 2 && ks[0] == 0 && ks[|ks| - 1] == maximum
    ensures ks[..|sorted| + 1] == [0] + sorted
  {
    assert ([0] + sorted + [maximum])[..|sorted| + 1] == [0] + sorted;
    [0] + sorted + [maximum]
  }

  /** The table `create` builds from its inputs and the ordering engine's result. */
  function Layout<T>(keys: seq<FieldElement>, values: seq<T>, size: FieldElement, dflt: T,
                     sorting: SortResult): (t: SparseArray<T>)
    requires |keys| == |values| >= 1 && size >= 1 && IsSortOf(keys, sorting)
    ensures |t.keys| == |keys| + 2 && |t.values| == |keys| + 3
  {
    assert |sorting.sorted| == |multiset(sorting.sorted)| == |keys|;
    SparseArray(TableKeys(sorting.sorted, size - 1),
                TableValues(keys, values, sorting.sortIndices, size - 1, dflt),
                size - 1)
  }

  /** A sorted permutation starts at the smallest key and ends at the largest. */
  lemma SortedEnds(keys: seq<FieldElement>, sorted: seq<FieldElement>)
    requires |keys| >= 1 && Sorted(sorted) && multiset(sorted) == multiset(keys)
    ensures |sorted| == |keys|
    ensures sorted[0] == Min(keys) && sorted[|sorted| - 1] == Max(keys)
  {
    assert |sorted| == |multiset(sorted)| == |keys|;
    assert Min(keys) in multiset(sorted) && Max(keys) in multiset(sorted);
    var lo :| 0 <= lo < |sorted| && sorted[lo] == Min(keys);
    var hi :| 0 <= hi < |sorted| && sorted[hi] == Max(keys);
    assert sorted[0] <= sorted[lo] && sorted[hi] <= sorted[|sorted| - 1];
    assert sorted[0] in multiset(keys) && sorted[|sorted| - 1] in multiset(keys);
    assert sorted[0] in keys && sorted[|sorted| - 1] in keys;
  }

  /** Every table that passes the bound checks is well formed. */
  lemma LayoutValid<T>(keys: seq<FieldElement>, values: seq<T>, size: FieldElement, dflt: T,
                       sorting: SortResult)
    requires |keys| == |values| >= 1 && size >= 1 && IsSortOf(keys, sorting)
    requires BoundsError(keys, size).None?
    ensures Layout(keys, values, size, dflt, sorting).Valid()
  {
    TableKeysSorted(keys, sorting.sorted, size);
  }

  /** The bound checks make `[0] ++ sorted ++ [size - 1]` a sorted key column. */
  lemma TableKeysSorted(keys: seq<FieldElement>, sorted: seq<FieldElement>, size: FieldElement)
    requires |keys| >= 1 && size >= 1 && BoundsError(keys, size).None?
    requires Sorted(sorted) && multiset(sorted) == multiset(keys)
    ensures size - 1 < FieldModulus && Sorted(TableKeys(sorted, size - 1))
  {
    SortedEnds(keys, sorted);
    BracketedSorted(sorted, size - 1);
  }

  /** Bracketing a sorted sequence by 0 and an upper bound of it keeps it sorted. */
  lemma BracketedSorted(sorted: seq<FieldElement>, maximum: FieldElement)
    requires Sorted(sorted) && |sorted| >= 1 && sorted[|sorted| - 1] <= maximum
    ensures Sorted(TableKeys(sorted, maximum))
  {
    var ks := TableKeys(sorted, maximum);
    var n := |sorted|;
    forall i, j | 0 <= i < j < |ks|
      ensures ks[i] <= ks[j]
    {
      if 0 < i && j < n + 1 {
        assert ks[i] == sorted[i - 1] && ks[j] == sorted[j - 1];
      } else if 0 < i && i - 1 < n - 1 {
        assert ks[i] == sorted[i - 1] <= sorted[n - 1];
      }
    }
  }

  /**
   * Fills the key and value columns of a table from the sorted keys and the
   * positions they came from, as `create` does before its bound checks.
   */
  method FillTable<T>(keys: seq<FieldElement>, values: seq<T>, sorted: seq<FieldElement>,
                      sortIndices: seq<nat>, maximum: FieldElement, dflt: T)
    returns (t: SparseArray<T>)
    requires |keys| == |values| == |sorted| == |sortIndices| >= 1
    requires forall i :: 0 <= i < |sortIndices| ==> sortIndices[i] < |values|
    ensures t.keys == TableKeys(sorted, maximum) && t.maximum == maximum
    ensures t.values == TableValues(keys, values, sortIndices, maximum, dflt)
  {
    var n := |keys|;
    var resultKeys := new FieldElement[n + 2](_ => 0);
    var resultValues := new T[n + 3](_ => dflt);

    resultKeys[0] := 0;
    for i := 0 to n
      modifies resultKeys
      invariant resultKeys[0] == 0
      invariant forall k :: 0 <= k < i ==> resultKeys[k + 1] == sorted[k]
    {
      resultKeys[i + 1] := sorted[i];
    }
    resultKeys[n + 1] := maximum;

    for i := 0 to n
      modifies resultValues
      invariant forall k :: 0 <= k < i ==> resultValues[k + 2] == values[sortIndices[k]]
    {
      resultValues[i + 2] := values[sortIndices[i]];
    }

    resultValues[0] := dflt;
    var initialValue := if keys[0] == 0 then values[0] else dflt;
    resultValues[1] := initialValue;
    var finalValue := if keys[n - 1] == maximum then values[n - 1] else dflt;
    resultValues[n + 2] := finalValue;

    KeysColumn(resultKeys[..], sorted, maximum);
    ValuesColumn(resultValues[..], keys, values, sortIndices, maximum, dflt);
    t := SparseArray(resultKeys[..], resultValues[..], maximum);
  }

  /** A key column filled slot by slot is the column `TableKeys` describes. */
  lemma KeysColumn(col: seq<FieldElement>, sorted: seq<FieldElement>, maximum: FieldElement)
    requires |col| == |sorted| + 2 && col[0] == 0 && col[|col| - 1] == maximum
    requires forall k :: 0 <= k < |sorted| ==> col[k + 1] == sorted[k]
    ensures col == TableKeys(sorted, maximum)
  {
    var ks := TableKeys(sorted, maximum);
    forall k | 0 <= k < |col|
      ensures col[k] == ks[k]
    {
      if 0 < k < |col| - 1 {
        assert col[(k - 1) + 1] == sorted[k - 1];
      }
    }
  }

  /** A value column filled slot by slot is the column `TableValues` describes. */
  lemma ValuesColumn<T>(col: seq<T>, keys: seq<FieldElement>, values: seq<T>, sortIndices: seq<nat>,
                        maximum: FieldElement, dflt: T)
    requires |keys| == |values| == |sortIndices| >= 1
    requires forall i :: 0 <= i < |sortIndices| ==> sortIndices[i] < |values|
    requires |col| == |keys| + 3 && col[0] == dflt
    requires col[1] == if keys[0] == 0 then values[0] else dflt
    requires forall q :: 0 <= q < |keys| ==> col[q + 2] == values[sortIndices[q]]
    requires col[|keys| + 2] == if keys[|keys| - 1] == maximum then values[|keys| - 1] else dflt
    ensures col == TableValues(keys, values, sortIndices, maximum, dflt)
  {
    var vs := TableValues(keys, values, sortIndices, maximum, dflt);
    forall k | 0 <= k < |col|
      ensures col[k] == vs[k]
    {
      if 2 <= k < |keys| + 2 {
        assert col[(k - 2) + 2] == values[sortIndices[k - 2]];
      }
    }
  }

  /**
   * On a sorted permutation of the keys, the checks `create` makes on the
   * first and last sorted key are exactly the checks of `BoundsError`.
   */
  lemma SortedBoundsError(keys: seq<FieldElement>, sorted: seq<FieldElement>, size: FieldElement)
    requires |keys| >= 1 && size >= 1
    requires Sorted(sorted) && multiset(sorted) == multiset(keys)
    ensures |sorted| == |keys|
    ensures BoundsError(keys, size) ==
              if !(sorted[0] < FieldModulus) then Some(KeyExceedsFieldModulus)
              else if !(size - 1 < FieldModulus) then Some(MaximumExceedsFieldModulus)
              else if !(size - 1 >= sorted[|sorted| - 1]) then Some(KeyExceedsMaximum)
              else None
  {
    SortedEnds(keys, sorted);
  }

  /**
   * Builds the table for `keys[i] -> values[i]` over the index domain
   * `[0, size)`, with `dflt` for every index without an entry; fails with the
   * first bound check that does not hold.
   */
  method Create<T>(keys: seq<FieldElement>, values: seq<T>, size: FieldElement, dflt: T)
    returns (r: Result<SparseArray<T>, CreateError>, ghost sorting: SortResult)
    requires |keys| == |values| >= 1
    ensures size >= 1 ==> IsSortOf(keys, sorting)
    ensures r.Failure? <==> BoundsError(keys, size).Some?
    ensures r.Failure? ==> r.error == BoundsError(keys, size).value
    ensures r.Success? ==>
              size >= 1 && IsSortOf(keys, sorting) &&
              r.value == Layout(keys, values, size, dflt, sorting) && r.value.Valid()
  {
    if size == 0 {
      sorting := SortResult([], []);
      r := Failure(SizeIsZero);
      return;
    }
    var maximum := size - 1;
    var sorted := SortAdvanced(keys);
    sorting := sorted;
    SortedIndices(keys, sorting);
    var t := FillTable(keys, values, sorted.sorted, sorted.sortIndices, maximum, dflt);
    assert t == Layout(keys, values, size, dflt, sorting);
    var err := CheckBounds(keys, sorted.sorted, size);
    if err.Some? {
      r := Failure(err.value);
    } else {
      LayoutValid(keys, values, size, dflt, sorting);
      r := Success(t);
    }
  }

  /** A correct sort result has one in-range position per key. */
  lemma SortedIndices(keys: seq<FieldElement>, sorting: SortResult)
    requires IsSortOf(keys, sorting)
    ensures |sorting.sorted| == |sorting.sortIndices| == |keys|
    ensures forall i :: 0 <= i < |sorting.sortIndices| ==> sorting.sortIndices[i] < |keys|
  {
  }

  /**
   * The bound checks `create` makes on the sorted keys, in its order: the
   * first sorted key against the modulus, then the maximum against the
   * modulus, then the last sorted key against the maximum.
   */
  method CheckBounds(keys: seq<FieldElement>, sorted: seq<FieldElement>, size: FieldElement)
    returns (err: Option<CreateError>)
    requires |keys| >= 1 && size >= 1
    requires Sorted(sorted) && multiset(sorted) == multiset(keys)
    ensures err == BoundsError(keys, size)
  {
    SortedBoundsError(keys, sorted, size);
    var maximum := size - 1;
    if !(sorted[0] < FieldModulus) {
      err := Some(KeyExceedsFieldModulus);
    } else if !(maximum < FieldModulus) {
      err := Some(MaximumExceedsFieldModulus);
    } else if !(maximum >= sorted[|sorted| - 1]) {
      err := Some(KeyExceedsMaximum);
    } else {
      err := None;
    }
  }
}
