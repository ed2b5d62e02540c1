# Sparse array over field-element keys

This project models the comptime builder of the `sparse_array` Noir library
(`comptime/src/lib.rs`). From N keys and N values, plus a declared index
domain `[0, size)`, the builder produces a table of N+2 keys and N+3 values
that answers point queries by binary search. Keys are natural numbers that
must lie below the library's modulus, the BN254 base-field prime. Every index without an entry reads a default. The table can
print itself as a Noir `let` binding.

The model is split into these modules:

- `Field` (`field.dfy`): the field element type and the modulus.
- `Ordering` (`ordering.dfy`): the ordering engine. It holds the in-place
  Lomuto quicksort on an `array`, the reconciliation pass that maps original
  positions to sorted positions (`GetShuffleIndices`), and `SortAdvanced`,
  which runs both and re-checks the order.
- `SparseArrays` (`sparse_array.dfy`): the table and its builder.
  - The table is a datatype, since it never changes after construction.
  - `Create` fills local arrays slot by slot and returns a `Result` whose
    failures are the builder's panics, in the builder's order.
  - `Get` is the binary search. It is proved equal to `Lookup`, a
    declarative reading of a query.
- `TableProperties` (`table_properties.dfy`): what a built table answers.
  These facts cover every hole, and every key of a key set without repeats
  together with its round trip.
- `Placement` (`placement.dfy`): the value placement as written, against a
  corrected placement (see "## Findings").
- `NoirText` (`noir_text.dfy`): `to_noir_string`, with `0x%08x` hexadecimal
  formatting, its round trip and the failure on values that do not fit in
  32 bits.
- `Examples` (`examples.dfy`): the scenarios of the library's own tests,
  proved about the model. One of them is the exact expected Noir text.

Panics become `Failure` values. The ordering engine's internal panics
("Arrays do not contain equivalent values", "Array not properly sorted") are
proved unreachable from the builder. `T::default()` is a parameter `dflt`.

The code places the values at `comptime/src/lib.rs:71`: slot `i + 2` gets
`values[sort_indices[i]]`, where `sort_indices` sends each original position
to its sorted position (`lib.rs:209`). The library's own tests expect every
key to read back the value it was paired with (`lib.rs:279-282`, `319-322`,
`385-388`). That holds only when the shuffle is its own inverse, which it is
for every key set those tests use. `Create` models the placement as written.
`Placement` models the placement that meets the tests' expectation, where
each value goes to its own key's sorted slot, and proves the round trip for
every shuffle (see "## Findings").

## Model

| member | source | states |
|---|---|---|
| Ordering.Swap | comptime/src/lib.rs:230 | exchanges two entries of the segment; every other entry and the segment's multiset are unchanged |
| Ordering.Partition | comptime/src/lib.rs:219-236 | the pivot (the last entry) ends at the returned index; everything before it is smaller and everything after it is at least as large; the segment is permuted and the rest of the array is untouched |
| Ordering.QuicksortRecursive | comptime/src/lib.rs:238-253 | the segment `[low, high]` ends sorted and permuted; entries outside it are untouched |
| Ordering.Quicksort | comptime/src/lib.rs:255-259 | the whole array ends sorted and is a permutation of its old contents |
| Ordering.SortedUnique | comptime/src/lib.rs:171-195 | two sorted sequences with the same multiset are equal, so the sorted copy depends only on the input |
| Ordering.GetShuffleIndices | comptime/src/lib.rs:197-217 | succeeds exactly when the two sequences are permutations of each other; on success every position goes to an equal value, no target is used twice, and equal values keep their relative order |
| Ordering.ClaimStep | comptime/src/lib.rs:206-211 | claiming the first unclaimed match keeps the reconciliation invariant (claimed prefix, mask and picked multiset agree) |
| Ordering.UnmatchedValue | comptime/src/lib.rs:213 | when no unclaimed match is left, the value occurs more often on the left than on the right, so "Arrays do not contain equivalent values" means the multisets differ |
| Ordering.ShuffleFirstUnclaimed | comptime/src/lib.rs:206-211 | in a shuffle, every earlier match of a position's value is claimed by an earlier position: each position takes the first unclaimed match |
| Ordering.ShuffleUnique | comptime/src/lib.rs:197-217 | there is only one shuffle between two sequences, so the reconciliation's result is determined by its inputs |
| Ordering.SortAdvanced | comptime/src/lib.rs:171-195 | returns a sorted permutation of the input and the shuffle from the input to it; neither internal panic can happen |
| SparseArrays.SparseArray.Get | comptime/src/lib.rs:138-164 | above the maximum it returns the default; otherwise it returns the value of the last key at most the index when that key equals it, and the default if not (`Lookup`) |
| SparseArrays.SparseArray.GetMaximum | comptime/src/lib.rs:166-168 | the maximum is the last key, bounds every key and lies below the modulus |
| SparseArrays.BoundsError | comptime/src/lib.rs:50-102 | the first failure of `create`: `SizeIsZero` exactly when `size` is 0 (the subtraction at :50); "Key exceeds field modulus" only when every key is at least the modulus; "Maximum exceeds field modulus" only when `size - 1` is and some key is below it; "Key exceeds maximum" only when `size - 1` is below the modulus and some key is above it |
| SparseArrays.SearchResult | comptime/src/lib.rs:146-163 | where the binary search stops decides the answer: an exact match there, or no entry for the index at all |
| SparseArrays.LastIndexOfMeaning | comptime/src/lib.rs:160-163 | the found position holds the index and no later key does; none is found exactly when the index is not a key |
| SparseArrays.BoundsCheckComplete | comptime/src/lib.rs:93-102 | comparing only the smallest key with the modulus and the largest with the maximum is the same as requiring every key and the maximum below the modulus and every key at most the maximum |
| SparseArrays.TableKeys | comptime/src/lib.rs:62-67 | the key column is `0`, the sorted keys, then the maximum |
| SparseArrays.TableValues | comptime/src/lib.rs:69-91 | the value column has N+3 slots: the default, then the initial value (the first key's value when it is 0), then `values[sortIndices[q]]` per sorted position, then the final value (the last key's value when it is the maximum) |
| SparseArrays.Layout | comptime/src/lib.rs:53-91 | the table `create` returns: keys `TableKeys(sorted, size - 1)`, values `TableValues` over the sort's shuffle, maximum `size - 1`; N+2 keys and N+3 values (its meaning is stated by `LayoutValid` and the `TableProperties` lemmas) |
| SparseArrays.FillTable | comptime/src/lib.rs:52-91 | the slot-by-slot loops build exactly the columns `TableKeys` and `TableValues` describe |
| SparseArrays.SortedBoundsError | comptime/src/lib.rs:93-102 | on a sorted permutation, the three checks on the first and last sorted key select the same error as `BoundsError` |
| SparseArrays.CheckBounds | comptime/src/lib.rs:93-102 | the checks, made in the source's order, return the first failing one, which is `BoundsError` |
| SparseArrays.TableKeysSorted | comptime/src/lib.rs:62-67 | when the checks pass, the key column is sorted and the maximum is below the modulus |
| SparseArrays.LayoutValid | comptime/src/lib.rs:45-105 | when the checks pass, the built table is well formed: N+2 sorted keys from 0 to the maximum, N+3 values |
| SparseArrays.Create | comptime/src/lib.rs:45-105 | fails exactly when a bound check fails, with that check's error (a zero size first); otherwise returns the table laid out from the sorted keys and their shuffle, and that table is well formed |
| TableProperties.SortedDistinct | comptime/src/lib.rs:60 | sorting distinct keys leaves them distinct |
| TableProperties.ColumnLookupKey | comptime/src/lib.rs:62-67 | with distinct keys, the key at sorted position q reads value slot q+2 |
| TableProperties.LookupHole | comptime/src/lib.rs:138-164 | every index that is not a key reads the default, index 0 included |
| TableProperties.LookupKey | comptime/src/lib.rs:69-72 | with distinct keys, key i reads `values[idx[idx[i]]]`, where `idx` is the sort's shuffle |
| TableProperties.FinalValueUnread | comptime/src/lib.rs:85-91 | a lookup never reads the last value slot: replacing it leaves every answer of a well-formed table unchanged |
| TableProperties.LookupRoundTrip | comptime/src/lib.rs:69-72 | with distinct keys and a shuffle that is its own inverse, every key reads back its own value |
| Placement.ScatterAt | comptime/src/lib.rs:69-72 | with an injective shuffle, writing each value to its key's sorted position puts value i at position `idx[i]` |
| Placement.IntendedSlot | comptime/src/lib.rs:69-72 | in the corrected value column, the slot of key i's sorted position holds value i |
| Placement.IntendedDiffersInValuesOnly | comptime/src/lib.rs:61-91 | the corrected table has the same keys, maximum, default, initial and final slots as the as-written one |
| Placement.IntendedLookupHole | comptime/src/lib.rs:138-164 | in the corrected table every non-key index still reads the default |
| Placement.IntendedLookupRoundTrip | comptime/src/lib.rs:69-72 | in the corrected table every one of distinct keys reads back its own value, for every shuffle |
| Placement.PlacementCounterexample | comptime/src/lib.rs:69-72 | for keys `[3, 1, 2]`, values `[10, 20, 30]` and size 4, the built table answers key 1 with 30, where the corrected table answers 20 |
| NoirText.DigitsRoundTrip | comptime/src/lib.rs:114 | reading back the digits of n in any base from 2 to 16 gives n |
| NoirText.Digits | comptime/src/lib.rs:114 | the lowercase digits of n in a base from 2 to 16: at least one digit, every character a digit of the base, and no leading zero unless n is 0 |
| NoirText.DigitsLength | comptime/src/lib.rs:114 | n has at most k digits exactly when n is below base^k |
| NoirText.PadLeft | comptime/src/lib.rs:114 | padding keeps the text as a suffix, fills the front with the pad character and reaches the width |
| NoirText.Hex | comptime/src/lib.rs:114 | `0x` followed by the lowercase hexadecimal digits, zero-padded to eight, as the `format!` call writes a number; no contract of its own, its form, round trip and width are stated by `HexForm`, `HexRoundTrip` and `HexLength` |
| NoirText.HexForm | comptime/src/lib.rs:114 | the text is `0x` followed by at least eight hexadecimal digits |
| NoirText.HexRoundTrip | comptime/src/lib.rs:114 | the digits after `0x` read back as the number |
| NoirText.HexLength | comptime/src/lib.rs:114 | exactly eight digits when the number fits in 32 bits; a longer text has no leading zero |
| NoirText.Join | comptime/src/lib.rs:111-123 | the items with the separator between neighbours; the joined text starts with the first item (offsets of every item: `JoinEntries`) |
| NoirText.ListText | comptime/src/lib.rs:111-123 | the `map(format!).collect().join(", ")` of a column as `Join` over `Hex` of each number; no contract of its own, its layout and read-back are stated by `ListTextLayout` and `ListTextEntry` |
| NoirText.JoinEntries | comptime/src/lib.rs:115-116 | joining ten-character items with `", "` takes 12n-2 characters, with item k at offset 12k |
| NoirText.ListTextLayout | comptime/src/lib.rs:111-123 | a list of 32-bit numbers prints as 12n-2 characters with entry k at offset 12k |
| NoirText.ListTextEntry | comptime/src/lib.rs:111-123 | the eight digits of entry k read back as the k-th number |
| NoirText.ToNoirString | comptime/src/lib.rs:107-136 | fails exactly when some value (default slots included) does not fit in 32 bits; otherwise returns the binding template with the name, N, the generic, the keys, the values and the maximum |
| NoirText.NoirStringDefaults | comptime/src/lib.rs:125-126 | leaving the names out is the same as naming the table `table` and the type `Field` |
| Examples.SparseLookupKeys | comptime/src/lib.rs:273-282 | keys 1, 99, 7, 5 read 123, 101112, 789, 456 |
| Examples.SparseLookupHoles | comptime/src/lib.rs:284-301 | every other index below 100 reads 0 |
| Examples.MaximumOverflowExample | comptime/src/lib.rs:326-335 | size one past the modulus fails with "Maximum exceeds field modulus" |
| Examples.BoundaryOverflowExample | comptime/src/lib.rs:337-351 | a key of 2^256 - 1 still yields the maximum's error, because only the smallest key is checked first |
| Examples.BoundaryLookups | comptime/src/lib.rs:304-324 | with keys 0 and 2^32 - 1 each key reads its value, and 2^32 - 2 reads 0 |
| Examples.BoundaryTable | comptime/src/lib.rs:404-414 | the boundary keys build the columns `[0, 0, 7, 99999, 2^32-1, 2^32-1]` and `[0, 123, 123, 789, 101112, 456, 456]` |
| Examples.BoundaryNoirText | comptime/src/lib.rs:403-425 | that table prints as exactly the text the test expects |

## Left out

- The `lazy_static` initialisation, `BigUint` string parsing and the test helper `field` are not modelled: the modulus and the keys are natural numbers.
- The const-generic array bounds (`[(); N as usize]: Sized`) are not modelled: sequence lengths are stated in `requires`.
- The comparison closure of `sort_advanced` is not modelled as a parameter: it is only ever `<`, so the model sorts by `<`.
- `Create` and `SortAdvanced` require at least one key: for N = 0 the original indexes `keys[N - 1]` and computes `N - 1` on an unsigned type, which does not build or underflows.
- A zero `size` is an error (`SizeIsZero`): the original's unsigned subtraction `size - 1` panics before any check.
- `Get` returns a copy of the value, where the original returns a reference into the table.
- NoirText.ToNoirString: values are natural numbers. The `to_string().parse::<u32>()` round trip is modelled as "the value is below 2^32", so negative values of a signed type are not covered, and neither are other value types.
- NoirText.ToNoirString: it requires a key column of at least two entries, which every table built by `Create` has (it prints N as the column length minus two).
- The `println!` of the test and the commented-out randomised tests are I/O only and are not modelled.
- The test with a structured value type (`F`, lib.rs lines 366-400) is covered by the generic `TableProperties.LookupRoundTrip` and `LookupHole`, not restated for that type.
- TableProperties.LookupKey: it requires distinct keys. The source accepts repeated keys; a repeated key then reads the slot after its last sorted occurrence, as `Lookup` defines it, and no lemma states which input value that slot holds.
- `Placement.IntendedLayout` is the corrected table definition. `SparseArrays.Create` keeps the placement as written, so the rest of the model describes what the code does.

## Findings

| source | as written | input that shows it | evidently intended | confidence | as-written member | corrected member |
|---|---|---|---|---|---|---|
| comptime/src/lib.rs:69-72 | `result.values[i + 2] = values[sorted.sort_indices[i]]` uses `sort_indices`, which sends original positions to sorted positions, as if it sent sorted positions to original ones; this is only right when that shuffle is its own inverse | keys `[3, 1, 2]`, values `[10, 20, 30]`, size 4: `get(1)` returns 30, the value of key 2 | write value i to the slot of its sorted position, `values[sort_indices[i] + 2] = values[i]`, so that every key reads its own value | not executed | Placement.PlacementCounterexample | Placement.IntendedLookupRoundTrip |
