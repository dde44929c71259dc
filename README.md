# CICIDS label clean-up, modelled in Dafny

`temp.py` prepares the CICIDS-2017 "Thursday morning web attacks" CSV for
training. It defines an encoding helper `_to_utf8`, which the script itself
never calls. The script then removes all-NaN rows and renames three labels.
This project models all three:

- **`_to_utf8`** copies a latin1 file into a UTF-8 temporary file. It reads
  blocks of at most `blocksize` characters (1048576 by default) until a read
  comes back empty. Then it renames the temporary file over the original.
  `utf8_copy.dfy` covers this copy loop. A `Reader` class stands for the
  decoded source and a `Writer` class for the target. `CopyBlocks` is the
  `while True` loop. `ToUtf8` gives the text that ends up in the file.
- **All-NaN row removal** (lines 25-28). `table.dfy` models the table as a
  header plus a sequence of rows (the datatype `Frame`). A row holds one optional cell per column,
  and `None` stands for NaN. The code follows pandas' mask pipeline:
  - `IsNaAll` is `df.isna().all(axis=1)`.
  - `Not` is `~`.
  - `Select` is boolean indexing.
  - `RemovedCount` is the number printed on line 25.
  - `DropAllAbsent` is the new frame of line 28.
- **`_renaming_class_label`** (lines 30-36). `labels.dfy` holds the
  three-entry dictionary, as its items in insertion order. It also holds the
  per-entry `Series.replace` (`ReplaceInPlace`, on an array) and the loop over
  the entries (`RenamingClassLabel`, on the `Label` column as an array). The
  loop is proved equal to one per-cell lookup (`CanonicalLabels`).
  `RenameClassLabelInTable` applies this to a whole table. It fails when the
  table has no `Label` column.

Edge cases of the code that the model keeps:

- A codec reader's `read(0)` returns nothing. So `_to_utf8(..., blocksize=0)`
  copies nothing, and after the rename the file is empty. A negative
  `blocksize` reads everything in one go. The source has no guard against
  either case. The model keeps both and has no `blocksize > 0` precondition.
- `df.Label` raises `AttributeError` when the column is missing; there is no
  dedicated missing-column error. The model returns
  `Failure(MissingColumn("Label"))`, and nothing is changed.
- A row with no cells counts as all-NaN, because pandas' `all` of an empty
  row is true.
- Absent cells and numeric cells never equal a string key. So the `Label`
  replacement leaves them as they are.

## Model

| member | source | states |
|---|---|---|
| `Table.IsNaAll` | temp.py:25 | the mask `df.isna().all(axis=1)` has one entry per row; entry i is `AllAbsent(rows[i])` by definition, and `SelectNaAllCounts` and `DropAllAbsentKeepsExactly` give its meaning |
| `Table.Not` | temp.py:28 | `~mask` has the mask's length; entry i is the negation of entry i by definition |
| `Table.Select` | temp.py:25-28 | boolean indexing returns no more elements than it is given, and only elements it is given; what it returns at each position is stated by `SelectAt` |
| `Table.RemovedCount` | temp.py:25 | the printed count is at most the number of rows; `RemovedCountMatchesFilter` says which count it is |
| `Table.DropAllAbsent` | temp.py:28 | the filtered frame keeps the header, and a rectangular frame stays rectangular |
| `Table.DropAllAbsentKeepsExactly` | temp.py:28 | output row k is input row `KeptIndices(t)[k]`; the kept indices increase; an index is kept iff its row has a present cell (order kept, cells unchanged) |
| `Table.DropAllAbsentMembership` | temp.py:28 | a row is in the result iff it was in the table and is not all NaN |
| `Table.DropAllAbsentLeavesNoEmptyRow` | temp.py:28 | no row of the result is all NaN |
| `Table.DropAllAbsentIdentity` | temp.py:28 | a table with no all-NaN row, the empty table among them, comes back unchanged |
| `Table.DropAllAbsentIdempotent` | temp.py:28 | filtering a second time changes nothing |
| `Table.RemovedCountMatchesFilter` | temp.py:25-28 | the count printed on line 25 is the number of all-NaN rows, and it equals the row count minus the rows line 28 keeps |
| `Table.SelectNaAllCounts` | temp.py:25 | indexing by the all-NaN mask yields as many rows as there are all-NaN rows |
| `Table.SelectAt` | temp.py:28 | boolean indexing puts the input at the k-th true mask position into output position k |
| `Table.PositionsExact` | temp.py:28 | the true positions of a mask are listed exactly once each, in increasing order |
| `Table.PositionsMembership` | temp.py:28 | an index is among a mask's true positions iff the mask is true there |
| `Table.PositionsIncreasing` | temp.py:28 | a mask's true positions are listed in increasing order |
| `Table.SelectComplement` | temp.py:25-28 | the selections by a mask and by its negation have sizes adding up to the row count, and together hold every row exactly as often as the table does (multiset union) |
| `Table.SelectAll` | temp.py:28 | an all-true mask selects every row |
| `Labels.LabelEntries` | temp.py:31-33 | the dictionary literal as its three items in insertion order; a constant with no contract of its own, whose content `LabelsContents` and `LabelsWellFormed` state |
| `Labels.LabelsWellFormed` | temp.py:31-33 | the three malformed spellings are distinct, and no canonical spelling is also a malformed one |
| `Labels.LabelsContents` | temp.py:31-33 | the dictionary maps each of the three `\x96` spellings to its canonical spelling and has no other key |
| `Labels.ToMapKeys` | temp.py:31-33 | with distinct keys, the dictionary has exactly the entries' keys, each mapped to its entry's value |
| `Labels.ToMapOfItems` | temp.py:31-33 | an entry list with distinct keys holding exactly a dictionary's items denotes that dictionary |
| `Labels.ReplaceAll` | temp.py:36 | one `Series.replace` over the column keeps the column's length; which cells change is stated by `ReplaceInPlace` and `ApplyInOrderAt` |
| `Labels.ReplaceInPlace` | temp.py:36 | `Series.replace(old, new, inplace=True)` rewrites exactly the cells equal to `old`, by exact string equality, and nothing else |
| `Labels.RenamingClassLabel` | temp.py:30-36 | after the loop over the entries, every `Label` cell holds the single lookup of its original value |
| `Labels.ApplyCellIsLookup` | temp.py:35-36 | for one cell, replacing entry by entry in order equals one dictionary lookup, when keys are distinct and no value is a key |
| `Labels.ApplyInOrderAt` | temp.py:35-36 | the column-wide replacements act on each cell independently and keep the column's length |
| `Labels.SequentialIsLookup` | temp.py:35-36 | for a whole column, sequential replacement equals per-cell lookup |
| `Labels.AnyOrderIsLookup` | temp.py:31-36 | any order of the dictionary's three items gives the same column |
| `Labels.CanonicalCases` | temp.py:31-36 | each malformed spelling becomes its partner; every other cell (other strings, near misses, numbers, NaN) is unchanged |
| `Labels.CanonicalLabelsIdempotent` | temp.py:30-36 | running the renaming a second time changes nothing |
| `Labels.IndexOf` | temp.py:36 | `df.Label` finds the first column named `Label` |
| `Labels.RenameClassLabelInTable` | temp.py:30-36 | the call fails iff there is no `Label` column; otherwise header and row count are kept, `Label` cells are canonicalised, and every other cell is unchanged |
| `Utf8Copy.Reader.constructor` | temp.py:7 | the reader starts at the beginning of the decoded text |
| `Utf8Copy.Reader.Read` | temp.py:10 | `read(size)` consumes and returns the next `min(size, remaining)` characters, or everything left when `size` is negative |
| `Utf8Copy.Writer.constructor` | temp.py:8 | the target file opened for writing starts empty |
| `Utf8Copy.Writer.Write` | temp.py:13 | `write` appends its argument to the file |
| `Utf8Copy.CopyStep` | temp.py:10-13 | one turn of the loop appends a non-empty read of at most `blocksize` characters, so the chunks written so far plus what is left still make up the source text |
| `Utf8Copy.CopyBlocks` | temp.py:9-13 | the target receives the whole remaining source text (nothing when `blocksize` is 0), and the returned chunks, each non-empty and of at most `blocksize` characters, concatenate to what was written |
| `Utf8Copy.ToUtf8` | temp.py:5-16 | the file ends up holding its original text unless `blocksize` is 0, and that text is the concatenation of bounded non-empty chunks |

## Left out

- Decoding from latin1 and encoding to UTF-8 (temp.py:7-8) are library codec calls. The model works on decoded characters, so byte-level faithfulness is not modelled.
- `os.rename` of the temporary file over the original (temp.py:16) is file-system I/O. `Utf8Copy.ToUtf8` returns the new file contents instead of renaming anything.
- `pd.read_csv` with `skipinitialspace=True` and `on_bad_lines="skip"` (temp.py:22) is a library CSV parser. The model starts from an already parsed table.
- The module-level dataset path (temp.py:20) and the `print` on line 25 are I/O. The count is only the value `Table.RemovedCount`.
- Floating-point cells are a library type. The model abstracts numbers as integers. Only presence and string equality matter to the modelled code.
- Pandas' view/copy semantics of `inplace=True` on a filtered frame (temp.py:28, 36) belong to the library. The model assumes the replacement takes effect on the `Label` column.
- `Labels.RenameClassLabelInTable` treats the frame as a value. It copies the `Label` column into an array, runs the in-place loop on that array and rebuilds the rows. So it does not model aliasing between the frame and its column object.
- Boolean indexing on line 28 keeps each surviving row's original index label, and the model has no row index. With the default RangeIndex that `read_csv` gives, those labels are exactly `Table.KeptIndices`.
- Duplicate column names cannot come out of `read_csv`, so the model does not treat them. `Labels.IndexOf` takes the first match.
