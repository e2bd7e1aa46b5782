# datatable query pipeline, in Dafny

The `App` component of ramony/datatable (`src/App.jsx`) shows a JSON dataset as a table. This
project models the component's query pipeline:

- The free-text filter over all columns, case-insensitive, with falsy cells searched as the empty text.
- The single-column sort. It compares numbers when both cells convert to numbers and strings otherwise. Descending order swaps the operands.
- Paging at 100 rows per page, and `totalPages`.
- The copy text of a double-clicked cell: the listed fields joined by single backslashes.
- `sizeFormat`, which shows a byte count in B, KB, MB or GB.
- The React state cells and the handlers that change them.

Modules, one per concern of the component:

- `Values` (`values.dfy`): cell values (`Num`, `Str`, `Missing` for `undefined`) and the JavaScript coercions the code applies to them:
  - `String(v)`, `Number(v)` and `v || ''`
  - `toLowerCase`, modelled as a fixed map on the Latin capitals
  - `includes`
  - `localeCompare`, modelled as ordering by character code
- `Table` (`table.dfy`): headers and the dataset.
- `Search` (`search.dfy`): the filter, `Search.Filter` (src/App.jsx:129-141).
- `Ordering` (`ordering.dfy`): the comparator, `Ordering.Compare` (src/App.jsx:144-158).
- `StableSort` (`stable_sort.dfy`): a generic stable sort.
  - `InsertionSorted` is its reference definition.
  - `InsertionSort` sorts an array in place and is proved to compute it.
  - For a comparator that is a total preorder on the elements, the reference result is sorted, a permutation of the input and stable.
  - It is the only sequence with those three properties (`StableSortIsUnique`). So whatever algorithm a conforming `Array.prototype.sort` uses (section 23.1.3.30 of ECMA-262, 2023 edition, requires it to be stable), the result is the reference result.
- `Pipeline` (`pipeline.dfy`): `processedData`, whose value is `Pipeline.Processed` (src/App.jsx:126-162). `ProcessRows` copies the filter result into a fresh array and sorts that array in place when a sort column is set.
- `Paging` (`paging.dfy`): `slice` with JavaScript's negative-index rules, the page of rows `Paging.Paginate` (src/App.jsx:165-168), and `Math.ceil` in `Paging.TotalPages` (src/App.jsx:171-173).
- `Copy` (`copy.dfy`): the copy text `Copy.CopyText` (src/App.jsx:112-116), and `split` as the inverse of `join`.
- `Format` (`format.dfy`): `sizeFormat` as `Format.SizeFormat` (src/App.jsx:41-50).
- `App` (`app.dfy`): class `TableApp`. It holds the state cells `tableData`, `orderBy`, `order`, `searchText`, `debouncedSearchText` and `page`, with one method per handler.

A newly selected sort column starts in ascending order: `isAsc` is false for a column other than the current one, so the order becomes `'asc'` (`src/App.jsx:107-108`). `TableApp.RequestSort` models this, through `NextOrder`.

## Model

| member | source | states |
|---|---|---|
| Values.SearchText | src/App.jsx:137 | `String(v \|\| '')` is empty exactly for a falsy cell (0, "" or undefined); a non-empty search text is `String(v)` |
| Values.JoinText | src/App.jsx:116 | `join` renders a cell as "" exactly when it is undefined or the empty string (0 renders as "0"); any other cell as `String(v)` |
| Values.NumberOfString | src/App.jsx:148-149 | `Number(String(n)) == n` for every integer: the numeric reading of a printed number is that number |
| Values.LowerChar | src/App.jsx:132 | a capital becomes the small letter at the same place in the alphabet; every other character is left alone |
| Values.ToLower | src/App.jsx:132 | lowercasing keeps the length, leaves no capital, leaves a text without capitals unchanged, and lowers character by character |
| Values.ToLowerIdempotent | src/App.jsx:132 | lowercasing twice is lowercasing once |
| Values.ContainsIffOccurs | src/App.jsx:138 | `includes` holds exactly when the needle occurs at some offset of the text |
| Values.LexCompare | src/App.jsx:156-157 | string comparison yields -1, 0 or 1 |
| Values.LexCompareAntisymmetric | src/App.jsx:156-157 | swapping the strings negates the comparison |
| Values.LexCompareZeroIffEqual | src/App.jsx:156-157 | strings compare equal exactly when they are equal |
| Values.LexCompareTransitive | src/App.jsx:156-157 | string order is transitive |
| Values.ProperPrefixOfTails | src/App.jsx:156-157 | after a common first character, being a proper prefix is decided by the tails |
| Values.SmallerAtFirstDifferenceOfTails | src/App.jsx:156-157 | after a common first character, the first difference is decided by the tails |
| Values.LexCompareNegativeIff | src/App.jsx:156-157 | `a` sorts before `b` exactly when `a` is a proper prefix of `b` or has the smaller character at the first difference |
| Table.HeaderIds | src/App.jsx:133 | `headers.map(h => h.id)`: one id per header, in order |
| Search.AnyFieldMatchesIff | src/App.jsx:136-139 | `some` holds exactly when one of the fields' lowercased text contains the lowercased query |
| Search.KeptIndicesBelow | src/App.jsx:135-140 | every position the filter keeps is the position of a record |
| Search.KeptIndicesIncreasing | src/App.jsx:135-140 | the kept positions are strictly increasing: the filter keeps the records' order |
| Search.KeptIndexMembership | src/App.jsx:135-140 | position `i` is kept exactly when some column of its row matches the query |
| Search.KeptIndicesMembership | src/App.jsx:135-140 | a position is kept exactly when some column of its row matches the query |
| Search.KeptSpec | src/App.jsx:129-141 | all positions for an empty search text; otherwise exactly the positions of matching rows; in range and increasing either way |
| Search.FilterIsSubsequence | src/App.jsx:129-141 | the filter result is the records at the `Kept` positions, in order: an order-preserving subsequence |
| Search.FilterEmptySearch | src/App.jsx:129-131 | an empty committed search text keeps every record in its order |
| Search.FilterMembership | src/App.jsx:129-141 | a row is in the result exactly when it is a record and (the search is empty or some column matches) |
| Search.FilterSubMultiset | src/App.jsx:129-141 | the result never holds a record more often than the records do |
| Search.NarrowingSearch | src/App.jsx:131-140 | when the old query occurs in the new one, re-filtering the old result gives the new result |
| Search.FilterIdempotent | src/App.jsx:131-140 | filtering the result again by the same text changes nothing |
| Search.FilterIgnoresCase | src/App.jsx:132-138 | the result does not depend on the case of the query |
| Search.CellFoundByOwnText | src/App.jsx:132-138 | a cell that is not falsy matches a query equal to its own text |
| Search.FalsyNeverMatches | src/App.jsx:137 | a falsy cell never matches a non-empty query (0 is not found by "0") |
| Ordering.AscendingIsNumeric | src/App.jsx:148-152 | when both cells are numbers, ascending order is numeric order, with ties exactly at equal numbers |
| Ordering.AscendingIsTextual | src/App.jsx:151-156 | when a cell is not a number, ascending order is string order, with ties exactly at equal texts |
| Ordering.DescReversesAsc | src/App.jsx:152-157 | descending is the negation of ascending, which is ascending with the rows swapped, in both branches |
| Ordering.CompareAntisymmetric | src/App.jsx:144-158 | swapping the rows negates the comparison |
| Ordering.CompareTransitive | src/App.jsx:144-158 | on a uniform column the comparator is transitive |
| Ordering.CompareTotalPreorder | src/App.jsx:144-158 | on a column whose cells are all numbers, or all not numbers, the comparator is a total preorder |
| Ordering.NineBeforeTen | src/App.jsx:148-152 | "9" sorts before "10" ascending (and after it descending), although "10" precedes "9" as text |
| Ordering.MixedCycle | src/App.jsx:148-157 | 10 sorts before "1a" and "1a" before 9 as text, but 9 before 10 as numbers |
| Ordering.MixedColumnNotTransitive | src/App.jsx:148-157 | with 10, "1a" and 9 in one column the comparator is not a total preorder |
| StableSort.InsertPos | src/App.jsx:144 | the insertion point lies within the scanned prefix |
| StableSort.InsertPermutes | src/App.jsx:144 | inserting adds exactly the inserted element |
| StableSort.InsertionSortedPermutes | src/App.jsx:144 | sorting yields a permutation of its input |
| StableSort.InsertKeepsSorted | src/App.jsx:144 | under a total preorder, inserting into a sorted sequence keeps it sorted |
| StableSort.InsertionSortedIsSorted | src/App.jsx:144 | under a total preorder the result is sorted |
| StableSort.InsertEquivPart | src/App.jsx:144 | under a total preorder, inserting appends the element to its own class and leaves the other classes alone |
| StableSort.NotPreorderOfCycle | src/App.jsx:144 | a comparison cycle `x <= y <= z < x` rules out a total preorder |
| StableSort.InsertionSortedIsStable | src/App.jsx:144 | under a total preorder, each class of equal-comparing elements keeps its input order |
| StableSort.StableSortIsUnique | src/App.jsx:144 | under a total preorder, any sorted, stable permutation of the input is the reference result |
| StableSort.InsertAt | src/App.jsx:144 | moving one element left past the greater ones turns the array's prefix into `Insert` of it, and leaves the rest alone |
| StableSort.InsertionSort | src/App.jsx:144 | the in-place sort leaves the array holding the reference result of its old contents |
| Pipeline.ProcessRows | src/App.jsx:126-162 | the filtered copy, sorted in place when `orderBy` is set, is the reference result; the dataset is not changed |
| Pipeline.ProcessedPermutes | src/App.jsx:143-159 | sorting neither adds nor drops filtered rows |
| Pipeline.ProcessedMembership | src/App.jsx:129-159 | a row is shown exactly when it is a record that passes the search |
| Pipeline.UnsortedKeepsOrder | src/App.jsx:143 | with `orderBy` empty, the rows keep the filter's order |
| Pipeline.ProcessedSortedStable | src/App.jsx:143-159 | when the comparator is a total preorder on the filtered rows, the rows are sorted by it, and equal-key rows keep their relative order |
| Pipeline.AnyStableSortAgrees | src/App.jsx:143-159 | when the comparator is a total preorder on the filtered rows, any sorted, stable permutation of them equals the model's result |
| Pipeline.UniformColumnSortedStable | src/App.jsx:143-159 | on a column whose cells are all numbers, or all not numbers, the rows are sorted and stable |
| Paging.TotalPages | src/App.jsx:171-173 | `Math.ceil(n / 100)`: the least number of pages of 100 holding `n` rows |
| Paging.PageContents | src/App.jsx:165-168 | page `p >= 1` holds the rows at positions `[(p-1)*100, min(p*100, n))` |
| Paging.PageSize | src/App.jsx:165-168 | no page holds more than 100 rows |
| Paging.PageNonEmptyIff | src/App.jsx:165-173 | page `p >= 1` has rows exactly when `p <= totalPages`; a page beyond the range is empty |
| Paging.FullPages | src/App.jsx:165-173 | every page before the last holds exactly 100 rows |
| Paging.PageZeroEmpty | src/App.jsx:165-168 | page 0 is empty |
| Paging.NegativePage | src/App.jsx:165-168 | a negative page takes its bounds from the end of the rows, as `slice` does |
| Paging.TotalPagesExamples | src/App.jsx:171-173 | 0 rows give 0 pages, 100 give 1, 101 give 2 and 250 give 3 |
| Paging.PagesUpToPrefix | src/App.jsx:165-168 | pages `1..k` in sequence are the first `min(100k, n)` rows |
| Paging.PagesCoverRows | src/App.jsx:165-173 | pages `1..totalPages` in sequence are exactly the rows |
| Copy.SplitNoSeparator | src/App.jsx:116 | a text without a backslash is a single piece |
| Copy.SplitAtSeparator | src/App.jsx:116 | a first piece without a backslash, then a backslash, splits into that piece followed by the pieces of the rest |
| Copy.SplitJoin | src/App.jsx:116 | splitting the join of one or more backslash-free parts gives back exactly those parts |
| Copy.CopyTextCases | src/App.jsx:113-116 | a header without `copyFields` copies nothing; an empty list (truthy) copies "" |
| Copy.CopyTextSplits | src/App.jsx:116 | when at least one field is listed and no copied value contains a backslash, the copy text splits at its backslashes into the listed fields' values, in order |
| Copy.MissingFieldEmptyPiece | src/App.jsx:116 | when no copied value contains a backslash, the piece of a field the record lacks is "", not "undefined" |
| Copy.MissingFieldCopiesEmpty | src/App.jsx:116 | `{a: "x"}` with `copyFields` `["a", "b", "a"]` copies `x\\x`: the missing `b` gives an empty piece |
| Format.SizeUnit | src/App.jsx:41-50 | the unit is one of B, KB, MB and GB |
| Format.UnitIsLargestPower | src/App.jsx:42-48 | bytes exactly below 1024; otherwise the size is at least one unit and, below GB, under 1024 units |
| Format.HundredthsRounds | src/App.jsx:45-49 | the shown hundredths are the nearest integer to `100 * size / 1024^k`, halves rounded up |
| Format.ShownValueRange | src/App.jsx:44-49 | above bytes the shown number is at least 1.00, and at most 1024.00 in KB and MB |
| Format.FixedTextReadsBack | src/App.jsx:45-49 | the shown text is digits, a point and two digits, reading back as the hundredths |
| Format.SizeFormatBytes | src/App.jsx:42-43 | 500 gives "500 B" |
| Format.SizeFormatKilobytes | src/App.jsx:44-45 | 2048 gives "2.00 KB" and 1536 gives "1.50 KB" |
| Format.SizeFormatRoundsUpToUnit | src/App.jsx:44-45 | 1048575, one byte short of a megabyte, gives "1024.00 KB" |
| App.ClickTwiceRestores | src/App.jsx:106-110 | two clicks on the sorted column restore its order |
| App.NewColumnAscendingThenDescending | src/App.jsx:106-110 | a newly chosen column sorts ascending, then descending on the next click |
| App.TableApp.constructor | src/App.jsx:62-68 | no data, no sort column, descending, empty raw and committed search, page 1 |
| App.TableApp.LoadSucceeded | src/App.jsx:73-77 | stores the data; when there are headers the sort column becomes the last header's id, otherwise `orderBy` is unchanged; nothing else changes |
| App.TableApp.LoadFailed | src/App.jsx:79-83 | falls back to the dataset without headers or records; nothing else changes |
| App.TableApp.ChangeSearch | src/App.jsx:94-96 | typing sets only the raw search text |
| App.TableApp.CommitSearch | src/App.jsx:86-92 | the debounced commit sets the committed text and page 1; nothing else changes |
| App.TableApp.ClearSearch | src/App.jsx:100-104 | empties the raw and committed text and goes to page 1; the data and sort stay |
| App.TableApp.RequestSort | src/App.jsx:106-110 | the clicked column becomes `orderBy` with the `NextOrder` order; the page and search are unchanged |
| App.TableApp.ChangePage | src/App.jsx:122-124 | sets the page; nothing else changes |
| App.TableApp.ProcessedData | src/App.jsx:126-162 | no rows before the data arrives, otherwise the filtered, sorted copy |
| App.TableApp.PaginatedData | src/App.jsx:165-168 | the current page of the shown rows |
| App.TableApp.PageCount | src/App.jsx:171-173 | `ceil(n / 100)` for the shown rows |
| App.StaleCommitAfterClear | src/App.jsx:86-104 | typing "abc", clearing, and then the pending commit firing leaves the box empty while the rows are filtered by "abc" |

## Left out

- Fetching and parsing the data file (`src/App.jsx:70-84`) is I/O. The load outcome is a parameter of `LoadSucceeded` and `LoadFailed`, and the console message is dropped.
- A loaded file is assumed to carry `headers` and `data` arrays (a `Dataset`). The code tests `data.headers` before choosing the sort column (`src/App.jsx:75`), but a file without `headers` makes `tableData.headers.map` throw (`src/App.jsx:133`); that failure is not modelled.
- The `debounce` helper (`src/App.jsx:24-34`) is timer-based. Only its effect is modelled: `CommitSearch` with the latest typed value. Which values are superseded within the 300 ms window is not modelled. The clear handler (`src/App.jsx:100-104`) does not cancel a pending commit, so a commit that fires after a clear filters by the old text while the box is empty; the model keeps this behaviour (`App.StaleCommitAfterClear`).
- The clipboard write and the snackbar (`src/App.jsx:117-119`, `344-350`) are browser APIs and UI. `Copy.CopyText` gives the text that would be written, and `snackbarOpen` is not a field of the model.
- JSX rendering (`src/App.jsx:175-352`) is presentation, and so is the formatter dispatch at `src/App.jsx:320`.
- `dateFormat` (`src/App.jsx:53-59`) depends on JavaScript `Date` and the local time zone.
- Values: every number is an integer.
  - Fractional numbers, NaN and infinities are not cells of the model.
  - `aNum - bNum` is exact integer subtraction. For cells within ±2^53 the double difference can round once the gap exceeds 2^53, but its sign always matches the exact difference, and `sort` reads only the sign.
  - Integer cells beyond ±2^53 are not modelled faithfully: the parsed double is a different integer, and `String(n)` then prints other digits, in exponent form from 1e21 on, while the model keeps every integer exact.
  - `null` and boolean cells are not modelled.
- Values.ParseNumber: reads "", an optional sign followed by digits, and nothing else as a number. The rest of JavaScript's numeric string syntax is not modelled: whitespace trimming, decimals, exponents, hexadecimal and "Infinity".
- Values.LowerChar: maps only A-Z. Unicode case mapping is not modelled.
- Values.LexCompare: compares by character code. Locale collation in `localeCompare` is not modelled.
- Pipeline.ProcessedSortedStable: sortedness and stability are proved only when the comparator is a total preorder on the filtered rows, which covers every column whose cells all take the same branch of the comparator (`UniformColumnSortedStable`). On a mixed column the comparator can fail to be transitive (`Ordering.MixedColumnNotTransitive`), and ECMA-262 then leaves the resulting order implementation-defined.
- StableSort.InsertionSort: the engine's sort algorithm is not modelled. Insertion sort stands for it, justified by `StableSortIsUnique`, which holds under a total preorder.
- Format.SizeFormat: takes an integer size. A size that is not an integer, or a string cell coerced by `<` and `+`, is not modelled. `toFixed(2)` is modelled as exact rounding of `size / 1024^k`. That division is exact in doubles for sizes below 2^53, and larger sizes are not modelled.
- App.TableApp.ChangePage: accepts any integer, as the handler does. The pager only offers pages 1 to `totalPages`.
