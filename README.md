# BinaryColumnBase — a verified model

`BinaryColumnBase` (main.cpp) stores a column of variable-length byte strings
as two vectors: `_offsets`, an `int32_t` vector with one entry more than there
are rows, and `_bytes`, all rows one after the other. Row `i` is the byte range
`[_offsets[i], _offsets[i+1])`. The class can be constructed empty, `reset`
to empty, filled with `n` rows of equal length (`gen`), asked for a sorted
random sample of its row numbers (`gen_indexes`), and grown by
`append_selective`, which appends chosen rows of another column in two passes:
first the offsets, then a `memcpy` per row.

The project has three modules:

- `ColumnLayout` (layout.dfy) describes the layout on values:
  - the column invariant `WellFormed`: offsets start at 0, never decrease, and end at the buffer length, which fits an `int32_t`;
  - `Decode`, the rows a layout holds;
  - `Offsets` and `Concat`, the layout of a list of rows;
  - `Gather`, rows picked by an index list;
  - `Resize`, `std::vector::resize`.

  Its lemmas show that `Decode` and `Offsets`/`Concat` are inverse to each other.
- `Sorting` (sorting.dfy) holds the insertion sort that stands for `std::sort`, and proves that sorting distinct values gives a strictly ascending sequence.
- `BinaryColumn` (binary_column.dfy) holds the class.
  - Its fields are `seq`s that the methods reassign, as the C++ resizes its vectors.
  - The random-permutation array of `gen_indexes` is an `array`.
  - `append_selective`'s two loops are separate methods, proved against the layout functions.

The central result is the contract of `AppendSelective`. When the method returns, the column is still well formed. Its rows are the old rows followed by source rows `indexes[from]`, …, `indexes[from+size-1]`, in that order. Both old vectors are unchanged prefixes of the new ones. A `size` of 0 changes nothing. A distinct source column is left untouched.

## Model

| member | source | states |
|---|---|---|
| ColumnLayout.Decode | main.cpp:13-14 | a well-formed layout of N+1 offsets holds N rows, and row i is exactly offsets[i+1] - offsets[i] bytes long |
| ColumnLayout.Resize | main.cpp:26-27 | `resize` yields the requested length, keeps the existing prefix and pads with the fill value |
| ColumnLayout.DecodeEncode | main.cpp:13-14 | any list of rows whose total size fits an int32 has a well-formed offsets/bytes layout, and decoding that layout gives back exactly the rows |
| ColumnLayout.EncodeDecode | main.cpp:13-14 | every well-formed offsets/bytes pair is the layout of its own decoded rows, so the two vectors and the row list determine each other |
| ColumnLayout.DecodeAppend | main.cpp:61-79 | a layout that keeps an old layout as its prefix, and whose new rows are given byte ranges, decodes to the old rows followed by those new rows |
| ColumnLayout.OffsetsSnoc | main.cpp:68 | appending one row to a row list keeps every earlier offset and adds one entry: the previous total plus the new row's length |
| ColumnLayout.ConcatAppend | main.cpp:13-14 | the byte buffer of two row lists is the buffer of the first followed by that of the second |
| ColumnLayout.ConcatDecodePrefix | main.cpp:13-14 | the first j decoded rows laid end to end are exactly the bytes before offsets[j] |
| ColumnLayout.PrefixSumMonotone | main.cpp:65-70 | running totals of non-negative row lengths never decrease, so none exceeds the final byte size |
| ColumnLayout.StepsMonotone | main.cpp:65-70 | offsets that were ascending up to the old row count, then advanced by non-negative lengths, are ascending throughout |
| Sorting.Insert | main.cpp:49 | inserting into an ascending sequence keeps it ascending and adds exactly the new element to its multiset |
| Sorting.Sort | main.cpp:49 | the sorted result is ascending and a permutation of the input |
| Sorting.DistinctIffSingleOccurrences | main.cpp:43-49 | a sequence has no repeated value if and only if every value occurs at most once in its multiset (both directions) |
| Sorting.SortDistinctIsStrict | main.cpp:49 | sorting values with no repetition gives a strictly ascending sequence |
| BinaryColumn.UniformLayout | main.cpp:25-32 | the offsets i * avglen with a buffer of n * avglen bytes form a well-formed layout of n rows, each avglen bytes long |
| BinaryColumn.SelectiveAppendLayout | main.cpp:56-80 | if the grown layout keeps the old one as a prefix, and each new row k holds the bytes of source row sel[k], then it decodes to the old rows followed by the gathered source rows |
| BinaryColumn.SelectionOf | main.cpp:66-67 | each index of `indexes[from..from+size)` names a source row, and each such row has a non-negative length |
| BinaryColumn.OffsetsWithin | main.cpp:71-78 | every offset of a well-formed column lies between 0 and the buffer size, so each memcpy destination range is inside the buffer |
| BinaryColumn.ShuffleTail | main.cpp:43-48 | the swap loop picks min(m, n) entries, and they are the last entries of the array read from the back; the array stays a permutation of 0..n-1, so no value is picked twice |
| BinaryColumn.BinaryColumnBase.constructor | main.cpp:15-17 | a new column has offsets [0], no bytes and no rows, and is well formed |
| BinaryColumn.BinaryColumnBase.Reset | main.cpp:19-23 | whatever the column held, afterwards it has offsets [0], no bytes and no rows; the result does not depend on the old state, so a second reset changes nothing |
| BinaryColumn.BinaryColumnBase.Gen | main.cpp:25-32 | offsets[i] == i * avglen for 0 <= i <= n, the buffer holds avglen * n bytes, and the column is well formed with n rows of avglen bytes each (given that n * avglen fits an int32) |
| BinaryColumn.BinaryColumnBase.GenIndexes | main.cpp:34-50 | returns min(m, n) row numbers, all below the row count n, in strictly ascending order (hence distinct) |
| BinaryColumn.BinaryColumnBase.CopyInto | main.cpp:77-78 | `memcpy` puts the len source bytes at dst and leaves every other byte of the buffer as it was |
| BinaryColumn.BinaryColumnBase.FillOffsets | main.cpp:65-70 | each new offset is the previous one plus the length of source row indexes[from + i], including zero-length rows; offsets up to the old row count are untouched; the returned running total is the last offset |
| BinaryColumn.BinaryColumnBase.GrowOffsets | main.cpp:61-71 | the offset pass adds `size` entries. Each new entry is the previous one plus the selected source row's length. Old offsets and old bytes stay as they were. The buffer is resized to the last offset, and the column invariant is kept |
| BinaryColumn.BinaryColumnBase.CopyRows | main.cpp:73-79 | after the copy pass, the byte range of new row k equals the bytes of source row sel[k]; bytes before the old end and the buffer length are unchanged |
| BinaryColumn.BinaryColumnBase.AppendRows | main.cpp:61-79 | both passes together keep the invariant and keep the old offsets and bytes as prefixes; new row r + k holds exactly the bytes of source row indexes[from + k] |
| BinaryColumn.BinaryColumnBase.AppendSelective | main.cpp:56-80 | the column stays well formed, and its rows are the old rows followed by the source rows `indexes[from..from+size)`. The offsets grow by `size` and the old offsets and bytes are prefixes. `size == 0` changes nothing, and a distinct source column is unchanged |

## Left out

- The benchmark harness and the global columns it uses (main.cpp:82-111) are not modelled: they only time the class.
- `std::srand(seed)` and `std::rand()` become the parameter `draw` of `GenIndexes`: `draw(c)` is the value of the c-th call. The seed is dropped, since the mapping from a seed to a stream belongs to the C library.
- BinaryColumn.BinaryColumnBase.GenIndexes: states nothing about which rows are picked, nor their probabilities. It states only the count, the range, and strict order.
- `std::sort` is modelled by an insertion sort. Any ascending permutation is the same sequence, so the result is the same; the running time is not.
- BinaryColumn.BinaryColumnBase.Gen: does not state the byte contents (the value-initialised zero fill of `resize`). It requires n * avglen <= INT32_MAX. Beyond that, the C++ truncates `size_t` products into `int32_t` offsets, which the model does not follow.
- BinaryColumn.BinaryColumnBase.GenIndexes: requires at most 2^31 - 1 rows, because the C++ loop counters are `int`. With 2^31 rows, both the fill loop's `++i` and the swap loop's `i + 1` would overflow.
- BinaryColumn.BinaryColumnBase.AppendSelective: requires that the index slice is inside `indexes` and that each index names a source row. It also requires that the appended bytes keep the buffer size within INT32_MAX. In the C++ a violation of any of these is an out-of-bounds read or a signed overflow with undefined behaviour, not a reported error.
- The offset pass starts its running total from `_bytes.size()` in the C++. The model starts it from the last offset, which equals the buffer size under the column invariant.
- `append_selective` reads `src` through references while it writes this column. The model reads the source vectors once on entry, which gives the same values even when `src` is this column, since the call only reads prefixes it never rewrites. The aliasing itself is not modelled.
- The cost of a single `resize` per vector, and the in-memory representation behind `data()`, are not modelled.
