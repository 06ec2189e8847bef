# Feature loader of the morphology aligner, in Dafny

The aligner estimates which morphological segment of a word encodes which
grammatical feature. Its input includes a feature table: a CSV file whose
header row names the features, one per column, up to a column called
`cell_value`, which holds the word form. Each data row is one analysis of its
word. `get_word_to_features` reads that table into a map from each word to the
list of its feature assignments. An assignment maps a feature name to the value
in that row. Only non-blank cells are kept. The lists follow row order.

This project models that loader and proves what it computes.

- `text.dfy`, module `Text`: whitespace stripping of a cell (`str.strip()`).
  The file is opened in binary mode under Python 2, so a cell is a byte string
  and `strip()` removes exactly the six C-locale whitespace bytes: space, tab,
  line feed, vertical tab, form feed and carriage return. `IsWhitespace` is
  that set.
- `align.dfy`, module `Align`:
  - the header row: `IndexOf` (`list.index`) and `ParseHeader`;
  - one data row: `RowAssignment`, the dictionary comprehension;
  - the grouping, written as reference definitions: `WordColumn`,
    `Positions`, `AssignmentsFor` and `Grouped`;
  - the whole result, as pure functions: `Load` and `LoadTable`;
  - the loader itself, `GetWordToFeatures`. It is a method whose loop
    appends to a map as the source's `defaultdict(list)` loop does. It is
    proved equal to `LoadTable`.

The input is the table the CSV reader yields: a sequence of rows, each row a
sequence of cells. The source's exceptions are the cases of `Error`:
- `EmptyTable`: there is no header row (`next(reader)` raises).
- `NoWordColumn`: no header cell is `cell_value` (`index` raises).
- `ShortRow(i)`: table row `i` has no cell in the word column. Rows are counted
  with the header as row 0. Only the first such row is reported, because the
  source's loop stops there and its partial map is lost.

A feature file's header is meant to end with `cell_value`. The code only
looks for the first `cell_value` cell and ignores any columns after it. The
model follows the code: later columns may exist, and they never contribute
(`RowAssignmentReadsFeatureColumnsOnly`).

## Model

| member | source | states |
|---|---|---|
| `Text.IsWhitespace` | align.py:23 | definition: the six bytes `strip()` removes from a byte string (space, tab, line feed, vertical tab, form feed, carriage return) |
| `Text.IsBlank` | align.py:23 | definition: a cell is blank iff every character is whitespace; by `Strip`'s contract, exactly the cells whose `strip()` is empty |
| `Text.LeadingWhitespace` | align.py:23 | counts the whitespace a cell starts with: every character it covers is whitespace, and the next character, if any, is not |
| `Text.TrailingWhitespace` | align.py:23 | counts the whitespace a cell ends with: every character it covers is whitespace, and the character before them, if any, is not |
| `Text.Strip` | align.py:23 | `strip()` is empty iff the cell is blank, so the test `if line[i].strip()` fails exactly on blank cells; otherwise it starts and ends with a non-whitespace character |
| `Text.StripIsSlice` | align.py:23 | `strip()` is the contiguous slice of the cell after its leading whitespace, and every character outside that slice is whitespace |
| `Text.StripIdempotent` | align.py:23 | stripping a stripped cell changes nothing |
| `Align.IndexOf` | align.py:12 | `index` yields None iff the name is absent; otherwise it yields the first position holding the name |
| `Align.ParseHeader` | align.py:11-14 | fails with `NoWordColumn` iff no header cell is `cell_value`; otherwise the word column is the first `cell_value` column and the feature names are exactly the header cells before it, in order, none of them `cell_value` |
| `Align.RowAssignment` | align.py:21-24 | a name is a key iff one of its feature columns holds a non-blank cell; its value is the raw, unstripped cell of the last such column, so with a repeated header name the later non-blank column wins |
| `Align.RowAssignmentKeysAndValues` | align.py:21-24 | every key of an assignment is a feature name of the header, and no stored value is blank |
| `Align.RowAssignmentReadsFeatureColumnsOnly` | align.py:21-23 | two rows that agree on the feature columns give the same assignment: the word column and any columns after it never contribute |
| `Align.RowAssignmentDistinctFeatures` | align.py:21-24 | with no repeated feature name, a feature is present iff its own cell is non-blank, and its value is that cell |
| `Align.FirstShortRow` | align.py:19-20 | finds the first row with no cell in the word column, with all rows before it long enough; None iff every row is long enough |
| `Align.WordColumn` | align.py:19-20 | the word cells `line[index_of_words]` of the data rows: one per row, in row order, each the row's cell in the word column |
| `Align.AssignmentsFor` | align.py:17-25 | reference definition of one word's list in the result: the assignments of the rows holding that word, in row order; its properties are in `AssignmentsForInRowOrder`, `AssignmentsForCount`, `AssignmentsForNonEmpty` and `AssignmentsForEmpty` |
| `Align.Grouped` | align.py:17-25 | reference definition of the `defaultdict(list)` result: each word of the word column mapped to its `AssignmentsFor` list; its properties are in `GroupedAppend` and `LoadGroupsByWord` |
| `Align.Positions` | align.py:19-25 | the indices of the rows holding a given word, strictly increasing, and every such row index is among them |
| `Align.AssignmentsForEmpty` | align.py:17-25 | a word that is not in the word column gets no assignments |
| `Align.GroupedAppend` | align.py:25 | adding one row to the table appends that row's assignment to its word's list, creating the list if needed (the `defaultdict` append), and leaves every other word unchanged |
| `Align.AssignmentsForInRowOrder` | align.py:19-25 | the k-th assignment of a word is the assignment of the k-th row holding that word |
| `Align.AssignmentsForCount` | align.py:19-25 | a word's list has one entry per row whose word column holds that word: its length is that word's count in the word column |
| `Align.AssignmentsForNonEmpty` | align.py:17-25 | every word of the table has at least one assignment |
| `Align.Load` | align.py:11-25 | fails with `NoWordColumn` iff the header lacks `cell_value`; succeeds iff, in addition, every data row reaches the word column; a `ShortRow` error names the first row that does not |
| `Align.LoadTable` | align.py:9-11 | fails with `EmptyTable` iff the table has no header row |
| `Align.GetWordToFeatures` | align.py:7-27 | the loop over the data rows returns exactly `LoadTable` of the table: the same error, or the same map |
| `Align.LoadGroupsByWord` | align.py:17-25 | the result's words are exactly the word-column values; each word's list is non-empty, has one entry per row of that word, and follows row order |
| `Align.LoadKeysAreFeatures` | align.py:14-24 | every key in every returned assignment is a header cell before the word column, never `cell_value` itself, and every stored value is non-blank |
| `Align.HeaderOnlyIsEmpty` | align.py:17-19 | a header with `cell_value` and no data rows gives the empty map |
| `Align.CatsExample` | align.py:7-27 | the table `number,cell_value` / `sg,cat` / `pl,cats` loads as `cat: [{number: sg}]`, `cats: [{number: pl}]` |
| `Align.RepeatedFeatureExample` | align.py:21-24 | for a header that repeats `case`, the later non-blank cell wins, a blank later cell does not overwrite, and the value keeps its surrounding whitespace |
| `Align.ShortRowExample` | align.py:19-20 | a data row without a word cell stops the loader with `ShortRow` naming that row, even though a later row is well formed |

## Left out

- Opening the file and CSV tokenising (align.py:8-9) are left out: they are file I/O and the CSV reader's quoting and dialect rules. The model starts from the rows the reader yields.
- The command-line entry point (align.py:30-34) is left out. It parses arguments and prints the map as JSON.
- `defaultdict` behaviour outside the loader is left out: the caller gets a `defaultdict`, and looking up a missing word there would insert an empty list. The model returns a plain map. Inside the loader only appends happen, so no word maps to an empty list.
- Byte strings are modelled as `string`. Only the six ASCII whitespace characters count as whitespace; no other character does.
- The rest of the aligner is not part of this model: the co-occurrence counter, the segment filters (root removal, frequency threshold, allomorph mutual information), the normalisers and the report writer. None of their source is among the files modelled here, and the normalisers compute with floating-point division and logarithms.
