/**
 * The scenarios the original's own tests exercise, stated as lemmas about the
 * model: lookups in a four-key table, the boundary keys 0 and 2^32 - 1, the
 * error raised for a maximum beyond the field, and the Noir text of a table.
 */
module Examples {
  import opened Wrappers
  import opened Field
  import opened Ordering
  import opened SparseArrays
  import opened TableProperties
  import opened NoirText

  // ---------------------------------------------------------------------------
  // Four keys out of order, size 100
  // ---------------------------------------------------------------------------

  const LookupKeys: seq<FieldElement> := [1, 99, 7, 5]
  const LookupValues: seq<int> := [123, 101112, 789, 456]

  /** Sorting `[1, 99, 7, 5]` can only give `[1, 5, 7, 99]`. */
  lemma LookupSorted(sorting: SortResult)
    requires IsSortOf(LookupKeys, sorting)
    ensures sorting.sorted == [1, 5, 7, 99]
  {
    LookupOrder();
    SortedUnique(sorting.sorted, LookupSortedKeys);
  }

  const LookupSortedKeys: seq<FieldElement> := [1, 5, 7, 99]

  lemma LookupOrder()
    ensures Sorted(LookupSortedKeys) && multiset(LookupSortedKeys) == multiset(LookupKeys)
  {
    assert multiset(LookupSortedKeys) == multiset(LookupKeys);
  }

  /** The shuffle that exchanges the second and fourth positions. */
  const LookupShuffle: seq<nat> := [0, 3, 2, 1]

  /** Sorting `[1, 99, 7, 5]` sends the positions to `[0, 3, 2, 1]`, a shuffle that is its own inverse. */
  lemma LookupSelfInverse(sorting: SortResult)
    requires IsSortOf(LookupKeys, sorting)
    ensures sorting.sortIndices == LookupShuffle && SelfInverse(sorting.sortIndices)
  {
    LookupSorted(sorting);
    var sorted, idx := sorting.sorted, sorting.sortIndices;
    assert |idx| == 4;
    assert idx[0] == 0 by { assert sorted[idx[0]] == 1; }
    assert idx[1] == 3 by { assert sorted[idx[1]] == 99; }
    assert idx[2] == 2 by { assert sorted[idx[2]] == 7; }
    assert idx[3] == 1 by { assert sorted[idx[3]] == 5; }
    assert idx == LookupShuffle;
    LookupShuffleInverse();
  }

  lemma LookupShuffleInverse()
    ensures SelfInverse(LookupShuffle)
  {
  }

  /** The keys pass every check with size 100. */
  lemma LookupBounds()
    ensures BoundsError(LookupKeys, 100).None?
  {
    assert Min(LookupKeys) == 1 && Max(LookupKeys) == 99;
  }

  lemma LookupDistinct()
    ensures Distinct(LookupKeys)
  {
  }

  /** Every key reads back its own value: 1 gives 123, 99 gives 101112, 7 gives 789, 5 gives 456. */
  lemma SparseLookupKeys(sorting: SortResult)
    requires IsSortOf(LookupKeys, sorting)
    ensures var t := Layout(LookupKeys, LookupValues, 100, 0, sorting);
            t.Valid() && forall i :: 0 <= i < |LookupKeys| ==> t.Lookup(LookupKeys[i]) == LookupValues[i]
  {
    LookupBounds();
    LookupDistinct();
    LookupSelfInverse(sorting);
    LayoutValid(LookupKeys, LookupValues, 100, 0, sorting);
    forall i | 0 <= i < 4
      ensures Layout(LookupKeys, LookupValues, 100, 0, sorting).Lookup(LookupKeys[i]) == LookupValues[i]
    {
      LookupRoundTrip(LookupKeys, LookupValues, 100, 0, sorting, i);
    }
  }

  /** Every other index below 100 reads the default. */
  lemma SparseLookupHoles(sorting: SortResult)
    requires IsSortOf(LookupKeys, sorting)
    ensures var t := Layout(LookupKeys, LookupValues, 100, 0, sorting);
            t.Valid() && forall i: FieldElement :: i < 100 && i !in LookupKeys ==> t.Lookup(i) == 0
  {
    LookupBounds();
    LayoutValid(LookupKeys, LookupValues, 100, 0, sorting);
    forall i: FieldElement | i < 100 && i !in LookupKeys
      ensures Layout(LookupKeys, LookupValues, 100, 0, sorting).Lookup(i) == 0
    {
      LookupHole(LookupKeys, LookupValues, 100, 0, sorting, i);
    }
  }

  // ---------------------------------------------------------------------------
  // Errors for a maximum beyond the field
  // ---------------------------------------------------------------------------

  /** Size one past the modulus: the maximum equals the modulus and is rejected. */
  lemma MaximumOverflowExample()
    ensures BoundsError([1, 5, 7, 99999], FieldModulus + 1) == Some(MaximumExceedsFieldModulus)
  {
    assert Min([1, 5, 7, 99999]) == 1;
  }

  /**
   * A key of 2^256 - 1 beyond the modulus still yields the maximum's error:
   * only the smallest key is checked against the modulus, and before the maximum.
   */
  lemma BoundaryOverflowExample()
    ensures var big := 115792089237316195423570985008687907853269984665640564039457584007913129639935;
            big >= FieldModulus &&
            BoundsError([0, 5, 7, big], FieldModulus + 1) == Some(MaximumExceedsFieldModulus)
  {
    assert Min([0, 5, 7, 115792089237316195423570985008687907853269984665640564039457584007913129639935]) == 0;
  }

  // ---------------------------------------------------------------------------
  // The boundary keys 0 and 2^32 - 1, size 2^32
  // ---------------------------------------------------------------------------

  const BoundaryKeys: seq<FieldElement> := [0, 99999, 7, 4294967295]
  const BoundaryValues: seq<nat> := [123, 101112, 789, 456]
  const BoundarySize: FieldElement := 4294967296

  /** Sorting the boundary keys exchanges the middle pair of positions. */
  lemma BoundarySorted(sorting: SortResult)
    requires IsSortOf(BoundaryKeys, sorting)
    ensures sorting.sorted == [0, 7, 99999, 4294967295]
  {
    BoundaryOrder();
    SortedUnique(sorting.sorted, BoundarySortedKeys);
  }

  const BoundarySortedKeys: seq<FieldElement> := [0, 7, 99999, 4294967295]

  lemma BoundaryOrder()
    ensures Sorted(BoundarySortedKeys) && multiset(BoundarySortedKeys) == multiset(BoundaryKeys)
  {
    assert multiset(BoundarySortedKeys) == multiset(BoundaryKeys);
  }

  /** The shuffle that exchanges the middle pair of positions. */
  const BoundaryShuffle: seq<nat> := [0, 2, 1, 3]

  /** Sorting the boundary keys exchanges the middle pair of positions, a shuffle that is its own inverse. */
  lemma BoundarySelfInverse(sorting: SortResult)
    requires IsSortOf(BoundaryKeys, sorting)
    ensures sorting.sortIndices == BoundaryShuffle && SelfInverse(sorting.sortIndices)
  {
    BoundarySorted(sorting);
    var sorted, idx := sorting.sorted, sorting.sortIndices;
    assert |idx| == 4;
    assert idx[0] == 0 by { assert sorted[idx[0]] == 0; }
    assert idx[1] == 2 by { assert sorted[idx[1]] == 99999; }
    assert idx[2] == 1 by { assert sorted[idx[2]] == 7; }
    assert idx[3] == 3 by { assert sorted[idx[3]] == 4294967295; }
    assert idx == BoundaryShuffle;
    BoundaryShuffleInverse();
  }

  lemma BoundaryShuffleInverse()
    ensures SelfInverse(BoundaryShuffle)
  {
  }

  /** The boundary keys pass every check; the last key is the maximum. */
  lemma BoundaryBounds()
    ensures BoundsError(BoundaryKeys, BoundarySize).None?
  {
    assert Min(BoundaryKeys) == 0;
    assert Max(BoundaryKeys) == 4294967295;
  }

  lemma BoundaryDistinct()
    ensures Distinct(BoundaryKeys)
  {
  }

  /** Keys 0 and 2^32 - 1 read their own values; 2^32 - 2 reads the default. */
  lemma BoundaryLookups(sorting: SortResult)
    requires IsSortOf(BoundaryKeys, sorting)
    ensures var t := Layout(BoundaryKeys, BoundaryValues, BoundarySize, 0, sorting);
            t.Valid() && (forall i :: 0 <= i < |BoundaryKeys| ==> t.Lookup(BoundaryKeys[i]) == BoundaryValues[i]) &&
            t.Lookup(4294967294) == 0
  {
    BoundaryKeyLookups(sorting);
    BoundaryHole(sorting);
  }

  /** Every boundary key reads back its own value. */
  lemma BoundaryKeyLookups(sorting: SortResult)
    requires IsSortOf(BoundaryKeys, sorting)
    ensures var t := Layout(BoundaryKeys, BoundaryValues, BoundarySize, 0, sorting);
            t.Valid() && forall i :: 0 <= i < |BoundaryKeys| ==> t.Lookup(BoundaryKeys[i]) == BoundaryValues[i]
  {
    BoundaryBounds();
    BoundaryDistinct();
    BoundarySelfInverse(sorting);
    LayoutValid(BoundaryKeys, BoundaryValues, BoundarySize, 0, sorting);
    forall i | 0 <= i < 4
      ensures Layout(BoundaryKeys, BoundaryValues, BoundarySize, 0, sorting).Lookup(BoundaryKeys[i]) == BoundaryValues[i]
    {
      LookupRoundTrip(BoundaryKeys, BoundaryValues, BoundarySize, 0, sorting, i);
    }
  }

  lemma BoundaryGap()
    ensures 4294967294 !in BoundaryKeys
  {
    assert BoundaryKeys == [0, 99999, 7, 4294967295];
  }

  /** 2^32 - 2, between the last two sorted keys, reads the default. */
  lemma BoundaryHole(sorting: SortResult)
    requires IsSortOf(BoundaryKeys, sorting)
    ensures var t := Layout(BoundaryKeys, BoundaryValues, BoundarySize, 0, sorting);
            t.Valid() && t.Lookup(4294967294) == 0
  {
    BoundaryBounds();
    BoundaryGap();
    LookupHole(BoundaryKeys, BoundaryValues, BoundarySize, 0, sorting, 4294967294);
  }

  // ---------------------------------------------------------------------------
  // The Noir text of the boundary table
  // ---------------------------------------------------------------------------

  /** The keys as the original's test expects them listed. */
  const BoundaryKeysListing: string :=
    "0x00000000" + ", " + ("0x00000000" + ", " + ("0x00000007" + ", " + ("0x0001869f" + ", " +
    ("0xffffffff" + ", " + "0xffffffff"))))

  /** The values as the original's test expects them listed. */
  const BoundaryValuesListing: string :=
    "0x00000000" + ", " + ("0x0000007b" + ", " + ("0x0000007b" + ", " + ("0x00000315" + ", " +
    ("0x00018af8" + ", " + ("0x000001c8" + ", " + "0x000001c8")))))

  /** The text the original's test expects, split where the template inserts its parts. */
  const BoundaryText: string :=
    "let " + "table" + ": SparseArray<" + "4" + ", " + "Field" + "> = SparseArray {\n    keys: [" +
    BoundaryKeysListing +
    "],\n    values: [" +
    BoundaryValuesListing +
    ("],\n    maximum: " + "0xffffffff" + "\n};")

  /** The table `create` builds from the boundary keys. */
  const BoundaryArray: SparseArray<nat> :=
    SparseArray([0, 0, 7, 99999, 4294967295, 4294967295], [0, 123, 123, 789, 101112, 456, 456], 4294967295)

  /** The table `create` builds from the boundary keys, slot by slot. */
  lemma BoundaryTable(sorting: SortResult)
    requires IsSortOf(BoundaryKeys, sorting)
    ensures Layout(BoundaryKeys, BoundaryValues, BoundarySize, 0, sorting) == BoundaryArray
  {
    BoundarySorted(sorting);
    BoundarySelfInverse(sorting);
    BoundaryColumns();
  }

  /** The two columns for the sorted boundary keys and their shuffle. */
  lemma BoundaryColumns()
    ensures TableKeys(BoundarySortedKeys, 4294967295) == BoundaryArray.keys
    ensures TableValues(BoundaryKeys, BoundaryValues, BoundaryShuffle, 4294967295, 0) == BoundaryArray.values
  {
  }

  lemma HexSmall()
    ensures Hex(0) == "0x00000000" && Hex(7) == "0x00000007" && Hex(123) == "0x0000007b"
  {
    assert Digits(0, 16) == "0" && Digits(7, 16) == "7";
    assert Digits(123, 16) == "7b";
    assert PadLeft("0", 8, '0') == "00000000";
    assert PadLeft("7", 8, '0') == "00000007";
    assert PadLeft("7b", 8, '0') == "0000007b";
  }

  lemma HexMiddle()
    ensures Hex(456) == "0x000001c8" && Hex(789) == "0x00000315"
  {
    assert Digits(1, 16) == "1" && Digits(3, 16) == "3";
    assert Digits(28, 16) == "1c" && Digits(49, 16) == "31";
    assert Digits(456, 16) == "1c8" && Digits(789, 16) == "315";
    assert PadLeft("1c8", 8, '0') == "000001c8";
    assert PadLeft("315", 8, '0') == "00000315";
  }

  lemma Hex99999()
    ensures Hex(99999) == "0x0001869f"
  {
    assert Digits(1, 16) == "1";
    assert Digits(24, 16) == "18";
    assert Digits(390, 16) == "186";
    assert Digits(6249, 16) == "1869";
    assert Digits(99999, 16) == "1869f";
    assert PadLeft("1869f", 8, '0') == "0001869f";
  }

  lemma Hex101112()
    ensures Hex(101112) == "0x00018af8"
  {
    assert Digits(1, 16) == "1";
    assert Digits(24, 16) == "18";
    assert Digits(394, 16) == "18a";
    assert Digits(6319, 16) == "18af";
    assert Digits(101112, 16) == "18af8";
    assert PadLeft("18af8", 8, '0') == "00018af8";
  }

  lemma HexU32Max()
    ensures Hex(4294967295) == "0xffffffff"
  {
    assert Digits(15, 16) == "f";
    assert Digits(255, 16) == "ff";
    assert Digits(4095, 16) == "fff";
    assert Digits(65535, 16) == "ffff";
    assert Digits(1048575, 16) == "fffff";
    assert Digits(16777215, 16) == "ffffff";
    assert Digits(268435455, 16) == "fffffff";
    assert Digits(4294967295, 16) == "ffffffff";
  }

  /** The keys of the boundary table, each in the form `0x%08x`. */
  const BoundaryKeysHex: seq<string> :=
    ["0x00000000", "0x00000000", "0x00000007", "0x0001869f", "0xffffffff", "0xffffffff"]

  /** The values of the boundary table, each in the form `0x%08x`. */
  const BoundaryValuesHex: seq<string> :=
    ["0x00000000", "0x0000007b", "0x0000007b", "0x00000315", "0x00018af8", "0x000001c8", "0x000001c8"]

  lemma BoundaryKeysHexAll()
    ensures HexAll(BoundaryArray.keys) == BoundaryKeysHex
  {
    HexSmall();
    Hex99999();
    HexU32Max();
    HexAllOf(BoundaryArray.keys, BoundaryKeysHex);
  }

  lemma BoundaryValuesHexAll()
    ensures HexAll(BoundaryArray.values) == BoundaryValuesHex
  {
    HexSmall();
    HexMiddle();
    Hex101112();
    HexAllOf(BoundaryArray.values, BoundaryValuesHex);
  }

  lemma BoundaryKeysJoin()
    ensures Join(BoundaryKeysHex, ", ") == BoundaryKeysListing
  {
  }

  lemma BoundaryValuesJoin()
    ensures Join(BoundaryValuesHex, ", ") == BoundaryValuesListing
  {
  }

  lemma BoundaryKeysText()
    ensures ListText(BoundaryArray.keys) == BoundaryKeysListing
  {
    BoundaryKeysHexAll();
    BoundaryKeysJoin();
  }

  lemma BoundaryValuesText()
    ensures ListText(BoundaryArray.values) == BoundaryValuesListing
  {
    BoundaryValuesHexAll();
    BoundaryValuesJoin();
  }

  /** Every value of the boundary table fits in 32 bits. */
  lemma BoundaryValuesU32()
    ensures AllU32(BoundaryArray.values)
  {
    var vs := BoundaryArray.values;
    assert vs == [0, 123, 123, 789, 101112, 456, 456];
    forall k | 0 <= k < |vs|
      ensures vs[k] < U32Limit
    {
    }
  }

  /** The default header of a four-entry table. */
  lemma BoundaryHeader()
    ensures Header("table", 4, "Field") ==
            "let " + "table" + ": SparseArray<" + "4" + ", " + "Field" + "> = SparseArray {\n    keys: ["
  {
    assert Digits(4, 10) == "4";
  }

  /** The footer of a table whose maximum is `0xffffffff`. */
  lemma BoundaryFooter()
    ensures Footer(4294967295) == "],\n    maximum: " + "0xffffffff" + "\n};"
  {
    HexU32Max();
  }

  /** The boundary table's columns print as the original's test expects. */
  lemma BoundaryArrayText()
    ensures ToNoirString(BoundaryArray, None, None) == Success(BoundaryText)
  {
    BoundaryValuesU32();
    BoundaryHeader();
    BoundaryKeysText();
    BoundaryValuesText();
    BoundaryFooter();
  }

  /** The boundary table prints as the Noir binding `table` of four `Field` entries. */
  lemma BoundaryNoirText(sorting: SortResult)
    requires IsSortOf(BoundaryKeys, sorting)
    ensures ToNoirString(Layout(BoundaryKeys, BoundaryValues, BoundarySize, 0, sorting), None, None) ==
            Success(BoundaryText)
  {
    BoundaryTable(sorting);
    BoundaryArrayText();
  }
}
