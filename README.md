# NumSharp core in Dafny

A model of the core of NumSharp, a small C# numerical library, with proofs about it. The model
covers four parts of the library.

- **The n-dimensional array** (`ArrayWrapper`) is a flat buffer of numbers viewed through a
  row-major shape:
  - the shape setter and its `-1` placeholder;
  - the constructors and the conversions;
  - reshaping, and the public and private indexers;
  - the flat-index helpers (`GetIndex`, `GetRange`, `GetIndexes`, `GetIndexFromBroadcast`);
  - broadcasting and the element-wise arithmetic operators;
  - `Sum` over axes, with its two odometer loops.
- **The labelled table** (`DataType`):
  - its header and the name-to-column map that setting the header builds;
  - projection onto named columns;
  - `Describe`, with the `RowCalculators` dispatch and the per-column statistics:
    - count, mean, standard deviation, minimum and maximum;
    - median and quartiles, picked from the sorted column.
- **Rendering a table**: `ToString`, `GetTable` and `GetCenterString`.
- **The text-to-table step of `Pandas.ReadCsv`**.

Module layout:

| file | module | contents |
|---|---|---|
| `wrappers.dfy` | `Wrappers` | `Option`, `Result` and the exceptions the code throws, as `Error` values |
| `arith.dfy` | `Arith` | division and multiplication facts the index proofs use |
| `shapes.dfy` | `Shapes` | row-major offsets and coordinates, the shape setter's resolution, broadcasting, as pure functions with their lemmas |
| `axes.dfy` | `Axes` | summed and kept dimensions, merged multi-indices, the odometer that `Sum` runs |
| `arrays.dfy` | `Arrays` | class `ArrayWrapper`: an `array<real>` buffer and a shape, with imperative methods proved against the `Shapes` and `Axes` functions |
| `sums.dfy` | `Sums` | `Sum` checked against row and column totals of matrices, and where each total is stored |
| `stats.dfy` | `Statistics` | the column statistics and the name dispatch |
| `tables.dfy` | `DataTypes` | the table value, projection, `Describe` |
| `strings.dfy` | `Strings` | concatenation of a list of strings |
| `render.dfy` | `Rendering` | column widths, centring, the table text |
| `pandas.dfy` | `Pandas` | splitting a text into token lines and reading them as a table |

Numbers are `real`. A statistic that the source computes as a floating-point `0 / 0` is the value
`NaN` of the datatype `Num`. Several operations become parameters of the model:

- the square root;
- the formatting of a number as text;
- the parsing of a token as a number;
- the line terminator.

Every exception the source throws on the modelled paths is a `Failure` carrying an `Error`.

## Model

| member | source | states |
|---|---|---|
| Shapes.ResolvedCovers | NumSharp/ArrayWrapper.cs:13-42 | every shape the setter accepts for a buffer has non-negative dimensions whose product divides the buffer length, and is 0 only for an empty buffer |
| Shapes.ResolvedPlaceholderCovers | NumSharp/ArrayWrapper.cs:24-40 | with a buffer and one `-1` placeholder, the placeholder becomes the buffer length over the product of the other dimensions and the shape then covers the buffer exactly |
| Shapes.ResolvedWithoutShape | NumSharp/ArrayWrapper.cs:15-19 | without a shape, a buffer becomes one dimension of its own length; an empty buffer makes the setter divide by zero |
| Shapes.ResolvedWithoutBuffer | NumSharp/ArrayWrapper.cs:22-41 | without a buffer an accepted shape is kept unchanged, has no negative dimension, and its product is the setter's running product, the size of the new buffer |
| Shapes.ResolveValidShape | NumSharp/ArrayWrapper.cs:13-42 | a shape the setter accepted resolves to itself against any buffer its product divides |
| Shapes.ResolveExamples | NumSharp/ArrayWrapper.cs:13-42 | worked cases: a smaller divisor shape is kept as it is, a placeholder is inferred, two placeholders or a placeholder without a buffer are refused |
| Arrays.ArrayWrapper.SetShape | NumSharp/ArrayWrapper.cs:13-42 | the setter's loop, divisibility check and placeholder fill return exactly the resolved shape or the exception |
| Arrays.ArrayWrapper.Create | NumSharp/ArrayWrapper.cs:46-51 | the first constructor keeps the given buffer itself (aliased) or allocates a zero-filled one of the shape's size; it fails exactly when the setter throws |
| Arrays.ArrayWrapper.FromShape | NumSharp/ArrayWrapper.cs:54-58 | the shape-only constructor succeeds exactly when there is no placeholder, giving a zero-filled buffer of the shape's size |
| Arrays.ArrayWrapper.FromArray | NumSharp/ArrayWrapper.cs:62-63 | a bare buffer becomes a one-dimensional array over it; an empty buffer divides by zero |
| Arrays.ArrayWrapper.FromScalar | NumSharp/ArrayWrapper.cs:65-66 | a number becomes a shape-`[1]` array holding it, and converting back gives the number |
| Arrays.ArrayWrapper.ToScalar | NumSharp/ArrayWrapper.cs:68-72 | conversion to a number succeeds exactly on a single-element buffer, giving that element; otherwise an invalid-operation failure |
| Arrays.ArrayWrapper.Reshape | NumSharp/ArrayWrapper.cs:86-92 | a fresh copy of the buffer under the resolved new shape, or the setter's failure; the original is not changed |
| Arrays.ArrayWrapper.ReshapeRoundTrip | NumSharp/ArrayWrapper.cs:86-92 | reshaping to another accepted shape and back restores the shape and every element |
| Arrays.ArrayWrapper.GetIndex | NumSharp/ArrayWrapper.cs:203-210 | the Horner loop gives the row-major offset of the index prefix within the leading dimensions; more indices than dimensions fail |
| Arrays.ArrayWrapper.GetRange | NumSharp/ArrayWrapper.cs:212-222 | the range of a prefix is the prefix's offset times the size of the remaining dimensions, up to the next block |
| Shapes.SliceElement | NumSharp/ArrayWrapper.cs:212-222 | element `d` of the block a prefix `c` selects is element `c + d` of the whole array |
| Arrays.ArrayWrapper.Get | NumSharp/ArrayWrapper.cs:134-139 | too many indices fail; a full index reads one element as a shape-`[1]` array; a prefix copies out its block under the remaining dimensions, failing when the block runs past the buffer or is empty |
| Arrays.ArrayWrapper.At | NumSharp/ArrayWrapper.cs:141-143 | the private getter reads one buffer element, failing outside the buffer |
| Arrays.ArrayWrapper.SetAt | NumSharp/ArrayWrapper.cs:141-144 | the private setter overwrites exactly one buffer element, and fails without change outside the buffer |
| Arrays.ArrayWrapper.GetIndexes | NumSharp/ArrayWrapper.cs:158-168 | the loop fills the array with the coordinates of the flat index, last dimension first |
| Shapes.OffsetUnflatten | NumSharp/ArrayWrapper.cs:158-168 | flattening the coordinates of an index gives the index back, modulo the element count |
| Shapes.UnflattenOffset | NumSharp/ArrayWrapper.cs:158-168 | the coordinates of the offset of an in-bounds multi-index, plus any whole multiple of the element count, are that multi-index |
| Shapes.OffsetBounds | NumSharp/ArrayWrapper.cs:203-210 | an in-bounds multi-index has an offset below the element count |
| Arrays.ArrayWrapper.BroadcastShape | NumSharp/ArrayWrapper.cs:186-201 | the loop from the last dimension returns the broadcast shape, or fails at an incompatible pair |
| Shapes.BroadcastSymmetric | NumSharp/ArrayWrapper.cs:186-201 | broadcasting does not depend on the order of the operands |
| Shapes.BroadcastSelf | NumSharp/ArrayWrapper.cs:186-201 | a shape broadcast with itself is itself |
| Shapes.BroadcastExamples | NumSharp/ArrayWrapper.cs:186-201 | `[3]` and `[2, 3]` broadcast to `[2, 3]`; `[2, 3]` and `[4]` do not broadcast |
| Shapes.AlignedFits | NumSharp/ArrayWrapper.cs:192-197 | each operand fits the broadcast shape: aligned from the end, its dimensions are 1 or equal, and the broadcast shape is positive |
| Arrays.ArrayWrapper.GetIndexFromBroadcast | NumSharp/ArrayWrapper.cs:170-184 | the push loop and the pop loop together compute the operand index of the broadcast specification |
| Arrays.ArrayWrapper.PopCombine | NumSharp/ArrayWrapper.cs:178-182 | popping the reduced coordinates and combining them by Horner's rule gives their row-major offset |
| Shapes.BroadcastIndexCoordinates | NumSharp/ArrayWrapper.cs:170-184 | for an operand that fits the output shape, the index read is inside the operand; its coordinates are 0 on the operand's size-1 axes and the output's coordinates elsewhere |
| Shapes.BroadcastIndexIdentity | NumSharp/ArrayWrapper.cs:170-184 | an operand with the output's own shape is read at the output index itself |
| Shapes.BroadcastIndexExample | NumSharp/ArrayWrapper.cs:170-184 | for `[3] + [2, 3]`, output element `(i, j)` reads `a[j]` and `b[i, j]` |
| Arrays.OperandError | NumSharp/ArrayWrapper.cs:149-153 | the element-wise loop's first element raises no exception exactly when both shapes are positive and both buffers are non-empty |
| Arrays.ElementwiseAt | NumSharp/ArrayWrapper.cs:147-156 | the output element at any in-bounds coordinates combines each operand's element at those coordinates aligned to its shape |
| Arrays.ElementwiseStep | NumSharp/ArrayWrapper.cs:151-153 | output element `i` combines the operand elements at the flat indices `GetIndexFromBroadcast` computes, and both reads are inside the buffers |
| Arrays.ElementwiseExample | NumSharp/ArrayWrapper.cs:147-156 | `[1, 2, 3] + [[10, 20, 30], [40, 50, 60]]` is `[[11, 22, 33], [41, 52, 63]]` |
| Arrays.ArrayWrapper.OperateInto | NumSharp/ArrayWrapper.cs:151-153 | the loop leaves the element-wise buffer in the result array |
| Arrays.ArrayWrapper.DoOperator | NumSharp/ArrayWrapper.cs:147-156 | the broadcast failure, the first exception of the loop, or a fresh array of the broadcast shape holding the element-wise results |
| Arrays.ArrayWrapper.Add | NumSharp/ArrayWrapper.cs:80-81 | `operator +` is the element-wise sum under broadcasting |
| Arrays.ArrayWrapper.Subtract | NumSharp/ArrayWrapper.cs:83-84 | `operator -` is the element-wise difference under broadcasting |
| Arrays.ArrayWrapper.Multiply | NumSharp/ArrayWrapper.cs:74-75 | `operator *` is the element-wise product under broadcasting |
| Arrays.SumError | NumSharp/ArrayWrapper.cs:96-108 | `Sum` raises no exception exactly when some axis is given, every axis is a dimension, a dimension is kept and the buffer is not empty |
| Arrays.SumOf | NumSharp/ArrayWrapper.cs:94-132 | `Sum` fails exactly as `SumError` says; otherwise it holds one total per kept multi-index |
| Arrays.Totals | NumSharp/ArrayWrapper.cs:101-129 | the result holds, for each kept multi-index in row-major order, the total of the slice it selects |
| Arrays.ArrayWrapper.Extremes | NumSharp/ArrayWrapper.cs:97-99 | the least and the greatest axis, the ones `Array.Sort` leaves at the two ends |
| Arrays.ArrayWrapper.Sum | NumSharp/ArrayWrapper.cs:94-132 | a fresh array over the kept dimensions whose buffer is the totals of `SumOf`, or its failure; by `Sums.WrittenSlotAgrees` this is the source's result when the kept dimensions are the leading ones or only one is kept |
| Arrays.ArrayWrapper.SumInto | NumSharp/ArrayWrapper.cs:103-129 | the outer loop fills the result buffer with the totals of every kept multi-index |
| Arrays.ArrayWrapper.SumRound | NumSharp/ArrayWrapper.cs:105-128 | one outer round stores the slice total at the kept multi-index's slot and steps the kept coordinates on |
| Arrays.ArrayWrapper.SliceTotal | NumSharp/ArrayWrapper.cs:105-118 | the inner loop adds up the whole slice the kept coordinates select, and the reset leaves the running multi-index where it started |
| Arrays.ArrayWrapper.SliceRound | NumSharp/ArrayWrapper.cs:108-116 | one inner round adds the element at the running multi-index and steps the summed coordinates on |
| Arrays.ArrayWrapper.Advance | NumSharp/ArrayWrapper.cs:110-128 | the carry loop leaves the odometer's next multi-index of the chosen kind and does not touch the other coordinates |
| Axes.IncLead | NumSharp/ArrayWrapper.cs:110-116 | a step of the odometer counts one further in mixed radix |
| Axes.LeadFirst | NumSharp/ArrayWrapper.cs:103-106 | the first coordinate stays below its dimension exactly until every multi-index has been visited (the loops' exit test) |
| Axes.GatherMerge | NumSharp/ArrayWrapper.cs:120 | reading one kind of coordinate back from a merged multi-index gives the coordinates merged in |
| Sums.SumRows | NumSharp/ArrayWrapper.cs:94-132 | `Sum(1)` of an `r` by `c` matrix is the vector of its row totals |
| Sums.SumColumns | NumSharp/ArrayWrapper.cs:94-132 | `Sum(0)` of an `r` by `c` matrix is the vector of its column totals |
| Sums.WrittenSlotsCollide | NumSharp/ArrayWrapper.cs:120 | as written, two kept multi-indices of a 2 by 2 by 3 array summed over its middle axis are stored in the same slot, and one slot is never written |
| Sums.WrittenSlotOutside | NumSharp/ArrayWrapper.cs:120 | as written, summing the first axis of a 1 by 5 by 2 array stores the first four kept multi-indices inside the 10-element result, then sends the fifth, (2, 0), to slot 10, where the private indexer throws IndexOutOfRange |
| Sums.WrittenSlotAgrees | NumSharp/ArrayWrapper.cs:120 | when the kept dimensions are the leading ones, or only one dimension is kept, the source's slot equals the kept multi-index's offset in the result, so there the model's `Sum` stores where the source does |
| Sums.KeptSlotsDistinct | NumSharp/ArrayWrapper.cs:120 | corrected: a kept multi-index's offset in the result's own dimensions lies inside the result, and different multi-indices get different slots |
| Sums.KeptSlotsCovered | NumSharp/ArrayWrapper.cs:120-128 | corrected: every slot of the result is the offset of exactly one kept multi-index, so the outer loop fills them all |
| Arrays.ArrayWrapper.Store | NumSharp/ArrayWrapper.cs:120 | corrected: a total is written to the offset of the kept coordinates in the result's own shape, and nothing else changes |
| DataTypes.HelperOf | NumSharp/DataType.cs:25-34 | the map's keys are exactly the header's names |
| DataTypes.HelperLastOccurrence | NumSharp/DataType.cs:32-33 | each name is mapped to its last occurrence in the header |
| DataTypes.BuildHelper | NumSharp/DataType.cs:30-33 | the init loop builds the map of the header |
| DataTypes.Table | NumSharp/DataType.cs:25-37 | a table as an object initializer builds it: the header, its map, the rows and the labels |
| DataTypes.PickRow | NumSharp/DataType.cs:44 | a projected row succeeds exactly when every key is in the map and its column is in the row; it holds those cells in key order; the first bad key decides the failure |
| DataTypes.PickRows | NumSharp/DataType.cs:44 | every row is projected in order, and the first row that fails decides |
| DataTypes.ProjectSpec | NumSharp/DataType.cs:39-46 | a projection is a table over the keys with one row per row, each cell from the last column of that name; a missing key fails once there is a row; a table without rows never looks its keys up |
| Statistics.UnknownStatistic | NumSharp/DataType.cs:9-20 | a name the dispatch does not hold fails with a key-not-found failure naming it |
| Statistics.CountSameForEveryColumn | NumSharp/DataType.cs:75 | the count is the number of rows for every column and never fails |
| Statistics.Minimum | NumSharp/DataType.cs:77 | the minimum is a value of the column and bounds it from below |
| Statistics.Maximum | NumSharp/DataType.cs:79 | the maximum is a value of the column and bounds it from above |
| Statistics.Extremes | NumSharp/DataType.cs:77-79 | over a readable non-empty column the minimum and maximum bound every cell; over no rows both fail |
| Statistics.Column | NumSharp/DataType.cs:127 | a column can be read exactly when every row reaches it; it then holds each row's cell |
| Statistics.MeanIsTotalOverCount | NumSharp/DataType.cs:81 | the mean is the column total over the count; with no rows it is undefined |
| Statistics.SquaredDeviationNonNegative | NumSharp/DataType.cs:86 | the sum of squared deviations is never negative |
| Statistics.StdOfSample | NumSharp/DataType.cs:83-87 | with at least two rows the deviation is the root of the squared deviations over one less than the count, a non-negative number |
| Statistics.SortedData | NumSharp/DataType.cs:127 | the sorted column is ascending and a permutation of the column |
| Statistics.InsertSorted | NumSharp/DataType.cs:127 | inserting into an ascending sequence keeps it ascending |
| Statistics.InsertPermutes | NumSharp/DataType.cs:127 | inserting adds exactly the one value |
| Statistics.Midpoint | NumSharp/DataType.cs:100 | the average of two entries of the sorted column, or an index failure when either is outside it |
| Statistics.MedianIndices | NumSharp/DataType.cs:103-107 | for a non-empty column the median reads one middle index when the count is odd and two neighbours when it is even |
| Statistics.Quartile1Indices | NumSharp/DataType.cs:94-97 | the first quartile reads two indices inside the column from two values on, and index 1 for a single value |
| Statistics.Quartile3Indices | NumSharp/DataType.cs:118-121 | the third quartile reads two indices inside the column exactly when there are 3 values or at least 5 |
| Statistics.TwelveIndices | NumSharp/DataType.cs:94-121 | with twelve values the median averages indices 5 and 6, the first quartile 3 and 4, the third quartile 9 and 10 |
| Statistics.MedianDefined | NumSharp/DataType.cs:103-110 | the median of a readable column with rows is defined; for an odd count it is the middle value of the sorted column |
| Statistics.QuartilesDefined | NumSharp/DataType.cs:89-125 | over a readable column the first quartile is defined exactly from two rows on, and the third exactly on three rows or from five on, so one, two or four rows make it read past the end |
| DataTypes.DescribeRow | NumSharp/DataType.cs:61-64 | the inner loop computes one statistic for each column, left to right, and stops at the first failure |
| DataTypes.Describe | NumSharp/DataType.cs:53-73 | the default names when none is given, then one row per name in row-major order; the result is exactly `DescribeOf` |
| DataTypes.CellsSpec | NumSharp/DataType.cs:63-64 | a row succeeds exactly when every one of its cells does, and then holds them in order |
| DataTypes.StatRowsCells | NumSharp/DataType.cs:59-65 | the rows succeed exactly when every row does, and then hold them in order |
| DataTypes.DescribeSucceeds | NumSharp/DataType.cs:53-73 | `Describe` succeeds exactly when every statistic asked for succeeds on every column |
| DataTypes.DescribeSpec | NumSharp/DataType.cs:53-73 | a successful `Describe` is a valid table under the same header, one row per name labelled with the names, each cell the statistic of its column |
| DataTypes.DescribeNamesSpec | NumSharp/DataType.cs:55-64 | without names the eight defaults are used; an unknown name fails once there is a column, and is never looked up when there is none |
| Rendering.DigitsValue | NumSharp/DataType.cs:150 | the decimal text of a natural number reads back as that number |
| Rendering.DigitsMonotone | NumSharp/DataType.cs:150 | a smaller number has no longer decimal text |
| Rendering.IntStringValue | NumSharp/DataType.cs:50 | the text of any integer, with a minus sign for a negative one, reads back as that integer |
| Rendering.CenterString | NumSharp/DataType.cs:177-181 | a string no longer than the width is padded to exactly the width; a longer one is returned unchanged |
| Rendering.CenterLayout | NumSharp/DataType.cs:177-181 | the padded string is the string between two runs of spaces, the right run equal to the left or one longer |
| Rendering.ColumnMax | NumSharp/DataType.cs:151-156 | the measuring loop's result is the longest of the header name and the cells' texts, and equals one of them |
| Rendering.Widths | NumSharp/DataType.cs:149-159 | the label column is the length of the last row index plus 4, and each data column its longest text plus 2 |
| Rendering.MeasureColumn | NumSharp/DataType.cs:153-155 | the loop over the rows succeeds exactly when every row reaches the column, and then leaves the column's longest text and changes no other width |
| Rendering.MeasureColumns | NumSharp/DataType.cs:150-156 | the measuring loops succeed exactly when every row reaches every column, and then leave every column's longest text |
| Rendering.AddMargins | NumSharp/DataType.cs:158-159 | every width grows by 2, and nothing else changes |
| Rendering.Layout | NumSharp/DataType.cs:149-159 | the widths are the specification's widths exactly when every row reaches every column; otherwise the layout fails |
| Rendering.AppendFields | NumSharp/DataType.cs:161-170 | a line is its first field centred in the label column, then a tab and each cell centred in its column |
| Rendering.WriteRow | NumSharp/DataType.cs:166-172 | the line of a row is its label and cells centred, then the line terminator |
| Rendering.WriteLines | NumSharp/DataType.cs:161-174 | the text is the header line followed by one line per row; fewer labels than rows fail |
| Rendering.GetTable | NumSharp/DataType.cs:145-175 | the table text is exactly `TableOf`: the laid-out lines, or an index failure |
| Rendering.ToString | NumSharp/DataType.cs:48-51 | the table's own labels are used, or the row indices when it has none |
| Rendering.TableLines | NumSharp/DataType.cs:145-175 | a table text is its header line and one line per row, each ending with the line terminator |
| Rendering.FieldsLength | NumSharp/DataType.cs:161-172 | when every field fits its column, a line is exactly as wide as the columns and their tabs |
| Rendering.IndexRowFits | NumSharp/DataType.cs:150-170 | a row labelled with its index fits the widths |
| Rendering.DefaultLayout | NumSharp/DataType.cs:145-175 | with the row indices as labels every line of the table has the same length |
| Rendering.CenteredTabs | NumSharp/DataType.cs:177-181 | centring adds no tab |
| Rendering.FieldsTabs | NumSharp/DataType.cs:161-172 | a line of tab-free fields holds exactly one tab per data column |
| Rendering.TableTabs | NumSharp/DataType.cs:161-172 | with tab-free names, labels and cells every line has exactly one tab per header column |
| Rendering.DefaultLabelsTabFree | NumSharp/DataType.cs:50 | the row indices used as labels hold no tab |
| Pandas.Split | NumSharp/Pandas.cs:23-24 | the pieces are not empty and hold no separator, every character comes from the text, and the pieces end to end are the text without its separators |
| Pandas.SplitJoin | NumSharp/Pandas.cs:23-24 | splitting pieces joined by single separators gives the same pieces back, when none is empty or holds the separator |
| Pandas.SplitTrailing | NumSharp/Pandas.cs:23 | a separator at the end adds no piece |
| Pandas.TokenLines | NumSharp/Pandas.cs:23-24 | one token list per non-empty line, each the line split at tabs |
| Pandas.TokensClean | NumSharp/Pandas.cs:23-24 | no token is empty or holds a tab or a line feed |
| Pandas.ParseRow | NumSharp/Pandas.cs:29 | a row reads exactly when every token parses, holding their values; otherwise the failure names a token that does not parse |
| Pandas.ParseRows | NumSharp/Pandas.cs:29 | all rows read exactly when each does, holding them in order; otherwise the failure is some row's failure |
| Pandas.ReadCsvEmpty | NumSharp/Pandas.cs:28 | reading fails for want of a header exactly when the text has no non-empty line |
| Pandas.ReadCsvSuccess | NumSharp/Pandas.cs:23-30 | a read table is valid and has no labels; its header is the first line's tokens and each row is the next line's tokens read as numbers |
| Pandas.ReadCsvFailure | NumSharp/Pandas.cs:29 | a failed read of a non-empty text names a token of a row that does not parse |
| Pandas.Example | NumSharp/Pandas.cs:23-30 | a text with a header line and three rows of two tokens, ending in a line feed, reads as header `a`, `b` and three rows of two numbers |

## Left out

- Reading the file or downloading it (`Pandas.cs` lines 9-21) is left out, because it is I/O. The model starts from the text.
- Pandas.ReadCsv: the `separators` parameter is ignored, as in the source. `double.Parse` is the parameter `parse`.
- Floating point is not modelled: numbers are `real`, so there is no rounding, overflow or infinity. A `0 / 0` is modelled by `NaN` where the statistics produce it.
- Integer width is not modelled. The source's 32-bit `int` offsets and products never overflow in the model.
- `operator /` is left out. Division by a zero element gives an infinity or `NaN` in the source, and `real` has no counterpart.
- Rendering.CenterString, Rendering.ColumnMax and Rendering.Widths measure text with `|s|`, which counts Unicode scalar values. The source's `Length` counts UTF-16 code units. A character outside the Basic Multilingual Plane is 1 wide in the model and 2 in the source, which changes every pad computed from it.
- The formatting of numbers (`ToString(CultureInfo.InvariantCulture)`), the square root and the line terminator (`AppendLine`) are parameters.
  - Only the lengths and the tab-freeness of formatted numbers enter the proofs.
  - `AppendFormat` reading braces in a formatted cell as format items is not modelled. Cells are taken to hold no braces.
- Arrays.ArrayWrapper.DoOperator: the exceptions of the element-wise loop are checked before the loop.
  - They all arise on its first element, before anything is written.
  - A zero dimension in a shape, or an empty operand, raises them.
- Arrays.ArrayWrapper.Sum: requires positive dimensions and distinct axes.
  - A zero dimension makes the source's odometers stop early on an empty slice, which is not modelled.
  - With a repeated axis the source never terminates, and the model does not capture this. In `Sum(1, 1)` of a 2 by 3 array, for example, the carry at NumSharp/ArrayWrapper.cs:113-115 bumps `curIndex[1]` from 3 to 4 and then resets it to 0. So the test at line 106 holds forever.
  - The failures its loops raise at their first step are checked before the loops. Nothing is written before them.
  - The method does not sort the caller's axis array in place (the source does). It only uses its least and greatest entries.
- Arrays.ArrayWrapper.Sum stores each total at the kept coordinates' offset in the result, not at the slot the source computes (see Findings).
- The running multi-index of `Sum` (`curIndex`) is a `seq` that the loops reassign, not an `int[]`.
- The loops of `Sum`, `GetIndexFromBroadcast`, `GetTable` and `Describe` are split into methods of their own:
  - `SumInto`, `SumRound`, `SliceTotal`, `SliceRound`, `Advance`;
  - `PopCombine`;
  - `Layout`, `MeasureColumns`, `MeasureColumn`, `AddMargins`, `WriteLines`, `WriteRow`, `AppendFields`;
  - `DescribeRow`.
- The stack of `GetIndexFromBroadcast` is a sequence that `PopCombine` reads from its end.
- Shapes.Unflatten gives some coordinate for a non-positive dimension, where the source would divide by zero. It is only used with positive dimensions.
- The `Shape` setter is private and only called from the constructors, so setting a new shape on an existing array is not modelled. The shape array the caller passes is not aliased either.
- The `Describe` result buffers are built as sequences row by row, not as a jagged array of pre-sized rows.
- Statistics.StdOf: with no rows the source gives `-0.0`, from the root of `0 / -1`. The model gives the root of `0` from the parameter.
- Rendering.CenterString: the width is a `nat`. In the source, a negative width throws in `PadLeft`, and `GetTable` never passes one.
- Rendering.ColumnMax skips rows too short for the column. It is only used when every row reaches every column; otherwise `GetTable` fails before writing.

## Findings

| source | as written | input that shows it | evidently intended | confidence | as-written member | corrected member |
|---|---|---|---|---|---|---|
| NumSharp/ArrayWrapper.cs:120 | each total of `Sum` is stored at `GetIndex` of the kept coordinates, which reads them in the radices of the summed array's leading dimensions, not the result's dimensions | `Sum(1)` of a 2 by 2 by 3 array: kept `(0, 2)` and `(1, 0)` both go to slot 2 and slot 5 stays 0; `Sum(0)` of a 1 by 5 by 2 array: kept `(2, 0)`, the fifth visited, goes to slot 10 of a 10-element result, so the call throws IndexOutOfRange | each total stored at the kept coordinates' row-major offset in the result's own shape, so every total lands in its own slot | not executed | Sums.WrittenSlotsCollide | Sums.KeptSlotsDistinct |
