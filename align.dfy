/**
 The feature loader `get_word_to_features` of the morphology aligner.

 A feature table is a header row followed by data rows. The header names the
 features, one per column, up to the column called `cell_value`, which holds the
 word form. Every data row is one feature assignment of its word: the features
 whose cell in that row is not blank, mapped to the cell's text. The loader
 returns, for each word, its assignments in row order.

 The table is what the CSV reader yields: a sequence of rows, each a sequence of
 cells. Reading and tokenising the file is not modelled.
 */
module Align {
  import opened Text

  type Row = seq<string>

  /** One analysis of a word: feature name to feature value. */
  type Assignment = map<string, string>

  /** The loader's result: word to its assignments, in row order. */
  type WordToFeatures = map<string, seq<Assignment>>

  /** The name of the column that holds the word form. */
  const CellValue: string := "cell_value"

  datatype Option<T> = None | Some(value: T)

  /** The ways the loader fails. Each is an exception in the source. */
  datatype Error =
    | EmptyTable          // there is no header row (`next(reader)` raises StopIteration)
    | NoWordColumn        // the header has no `cell_value` column (`list.index` raises ValueError)
    | ShortRow(row: nat)  // table row `row` has no cell in the word column (IndexError)

  datatype Result<T> = Ok(value: T) | Err(error: Error)

  /** What the header row tells the loader: the position of the word column and
      the feature names, which are the header cells before it. */
  datatype Header = Header(wordColumn: nat, features: seq<string>) {
    predicate Valid() {
      |features| == wordColumn
    }
  }

  // ---------------------------------------------------------------------------
  // The header row
  // ---------------------------------------------------------------------------

  /** `row.index(name)`: the position of the first cell equal to `name`, or
      None when no cell is. */
  function IndexOf(row: Row, name: string): (r: Option<nat>)
    ensures r.None? <==> name !in row
    ensures r.Some? ==> r.value < |row| && row[r.value] == name && name !in row[..r.value]
  {
    if |row| == 0 then None
    else if row[0] == name then Some(0)
    else
      match IndexOf(row[1..], name)
      case None => None
      case Some(k) =>
        assert row[..k + 1] == [row[0]] + row[1..][..k];
        Some(k + 1)
  }

  /** Reads the header row. It fails exactly when no column is named
      `cell_value`; otherwise the word column is the first such column and the
      feature names are the header cells before it, in header order (so
      `cell_value` is never a feature name). */
  function ParseHeader(firstRow: Row): (r: Result<Header>)
    ensures r.Err? <==> CellValue !in firstRow
    ensures r.Err? ==> r.error == NoWordColumn
    ensures r.Ok? ==> r.value.Valid()
    ensures r.Ok? ==> r.value.wordColumn < |firstRow| && firstRow[r.value.wordColumn] == CellValue
    ensures r.Ok? ==> r.value.features == firstRow[..r.value.wordColumn] && CellValue !in r.value.features
  {
    match IndexOf(firstRow, CellValue)
    case None => Err(NoWordColumn)
    case Some(k) => Ok(Header(k, firstRow[..k]))
  }

  // ---------------------------------------------------------------------------
  // One data row
  // ---------------------------------------------------------------------------

  /** Some feature column named `f` holds a non-blank cell. */
  ghost predicate HasNonBlankColumn(features: seq<string>, line: Row, f: string)
    requires |features| <= |line|
  {
    exists j :: 0 <= j < |features| && features[j] == f && !IsBlank(line[j])
  }

  /** Column `i` is the last non-blank column among the feature columns that
      carry the same feature name as column `i`. */
  predicate LastNonBlank(features: seq<string>, line: Row, i: int)
    requires |features| <= |line|
  {
    && 0 <= i < |features|
    && !IsBlank(line[i])
    && forall j :: i < j < |features| && features[j] == features[i] ==> IsBlank(line[j])
  }

  /** The dictionary comprehension that turns a data row into an assignment,
      visiting the feature columns left to right. A feature name is a key
      exactly when one of its columns holds a non-blank cell; its value is the
      cell as written (unstripped), taken from the last such column when the
      header repeats the name. */
  function RowAssignment(features: seq<string>, line: Row): (a: Assignment)
    requires |features| <= |line|
    ensures forall f :: f in a <==> HasNonBlankColumn(features, line, f)
    ensures forall i :: LastNonBlank(features, line, i) ==> features[i] in a && a[features[i]] == line[i]
  {
    if |features| == 0 then map[]
    else
      var n := |features| - 1;
      var prefix := RowAssignment(features[..n], line);
      RowAssignmentStep(features, line, prefix);
      if IsBlank(line[n]) then prefix else prefix[features[n] := line[n]]
  }

  /** One more column of the comprehension: the cell is stored under its
      feature name when it is non-blank, overwriting an earlier value. */
  lemma RowAssignmentStep(features: seq<string>, line: Row, prefix: Assignment)
    requires 0 < |features| <= |line|
    requires forall f :: f in prefix <==> HasNonBlankColumn(features[..|features| - 1], line, f)
    requires forall i :: LastNonBlank(features[..|features| - 1], line, i) ==>
               features[..|features| - 1][i] in prefix && prefix[features[..|features| - 1][i]] == line[i]
    ensures var n := |features| - 1;
            var a := if IsBlank(line[n]) then prefix else prefix[features[n] := line[n]];
            && (forall f :: f in a <==> HasNonBlankColumn(features, line, f))
            && (forall i :: LastNonBlank(features, line, i) ==> features[i] in a && a[features[i]] == line[i])
  {
  }

  /** A name has a non-blank column among the first n + 1 columns iff it has one
      among the first n, or column n carries it and is non-blank. */
  lemma HasNonBlankColumnStep(features: seq<string>, line: Row, f: string)
    requires 0 < |features| <= |line|
    ensures var n := |features| - 1;
            (HasNonBlankColumn(features, line, f) <==>
               HasNonBlankColumn(features[..n], line, f) || (features[n] == f && !IsBlank(line[n])))
  {
  }

  /** Only feature names of the header are keys, and no stored value is blank. */
  lemma RowAssignmentKeysAndValues(features: seq<string>, line: Row, f: string)
    requires |features| <= |line|
    requires f in RowAssignment(features, line)
    ensures f in features && !IsBlank(RowAssignment(features, line)[f])
  {
    var a := RowAssignment(features, line);
    var j :| 0 <= j < |features| && features[j] == f && !IsBlank(line[j]);
    LastNonBlankExists(features, line, j);
  }

  /** Every non-blank column is followed, among the columns of the same name,
      by a last non-blank one. */
  lemma {:induction false} LastNonBlankExists(features: seq<string>, line: Row, j: int)
    requires |features| <= |line|
    requires 0 <= j < |features| && !IsBlank(line[j])
    ensures exists i :: j <= i && LastNonBlank(features, line, i) && features[i] == features[j]
    decreases |features| - j
  {
    if !LastNonBlank(features, line, j) {
      var k :| j < k < |features| && features[k] == features[j] && !IsBlank(line[k]);
      LastNonBlankExists(features, line, k);
    }
  }

  /** The columns from the word column on never contribute to an assignment:
      two rows that agree on the feature columns give the same assignment. */
  lemma {:induction false} RowAssignmentReadsFeatureColumnsOnly(features: seq<string>, line1: Row, line2: Row)
    requires |features| <= |line1| && |features| <= |line2|
    requires line1[..|features|] == line2[..|features|]
    ensures RowAssignment(features, line1) == RowAssignment(features, line2)
  {
    if |features| > 0 {
      var n := |features| - 1;
      assert line1[..n] == line1[..|features|][..n];
      assert line2[..n] == line2[..|features|][..n];
      assert line1[n] == line1[..|features|][n];
      assert line2[n] == line2[..|features|][n];
      RowAssignmentReadsFeatureColumnsOnly(features[..n], line1, line2);
    }
  }

  /** With no repeated feature name, a feature is present exactly when its own
      cell is non-blank, and its value is that cell. */
  lemma RowAssignmentDistinctFeatures(features: seq<string>, line: Row, i: nat)
    requires |features| <= |line|
    requires forall j, k :: 0 <= j < k < |features| ==> features[j] != features[k]
    requires i < |features|
    ensures features[i] in RowAssignment(features, line) <==> !IsBlank(line[i])
    ensures !IsBlank(line[i]) ==> RowAssignment(features, line)[features[i]] == line[i]
  {
    var a := RowAssignment(features, line);
    if features[i] in a {
      var j :| 0 <= j < |features| && features[j] == features[i] && !IsBlank(line[j]);
      assert j == i;
    }
    if !IsBlank(line[i]) {
      assert LastNonBlank(features, line, i);
    }

  }

  // ---------------------------------------------------------------------------
  // Grouping the data rows by word
  // ---------------------------------------------------------------------------

  /** Every row has a cell in column `col`. */
  predicate RowsLongEnough(rows: seq<Row>, col: nat) {
    forall j :: 0 <= j < |rows| ==> |rows[j]| > col
  }

  /** The first row without a cell in column `col`, or None when every row has one. */
  function FirstShortRow(rows: seq<Row>, col: nat): (r: Option<nat>)
    ensures r.None? <==> RowsLongEnough(rows, col)
    ensures r.Some? ==> r.value < |rows| && |rows[r.value]| <= col && RowsLongEnough(rows[..r.value], col)
  {
    if |rows| == 0 then None
    else if |rows[0]| <= col then Some(0)
    else
      match FirstShortRow(rows[1..], col)
      case None => None
      case Some(k) =>
        assert rows[..k + 1] == [rows[0]] + rows[1..][..k];
        Some(k + 1)
  }

  /** The word column of the rows, top to bottom. */
  function WordColumn(rows: seq<Row>, col: nat): (ws: seq<string>)
    requires RowsLongEnough(rows, col)
    ensures |ws| == |rows|
    ensures forall j :: 0 <= j < |rows| ==> ws[j] == rows[j][col]
  {
    if |rows| == 0 then []
    else
      var n := |rows| - 1;
      WordColumn(rows[..n], col) + [rows[n][col]]
  }

  lemma WordColumnAppend(rows: seq<Row>, col: nat, line: Row)
    requires RowsLongEnough(rows, col) && |line| > col
    ensures RowsLongEnough(rows + [line], col)
    ensures WordColumn(rows + [line], col) == WordColumn(rows, col) + [line[col]]
  {

  }

  /** The indices of the rows whose word column holds `w`, in increasing order:
      exactly those indices, each once. */
  function Positions(rows: seq<Row>, col: nat, w: string): (ps: seq<nat>)
    requires RowsLongEnough(rows, col)
    ensures forall k :: 0 <= k < |ps| ==> ps[k] < |rows| && rows[ps[k]][col] == w
    ensures forall k, l :: 0 <= k < l < |ps| ==> ps[k] < ps[l]
    ensures forall j :: 0 <= j < |rows| && rows[j][col] == w ==> j in ps
  {
    if |rows| == 0 then []
    else
      var n := |rows| - 1;
      var ps := Positions(rows[..n], col, w);
      if rows[n][col] == w then ps + [n] else ps
  }

  /** The assignments the table gives word `w`: one per row whose word column
      holds `w`, in row order. */
  function AssignmentsFor(h: Header, rows: seq<Row>, w: string): seq<Assignment>
    requires h.Valid() && RowsLongEnough(rows, h.wordColumn)
  {
    if |rows| == 0 then []
    else
      var n := |rows| - 1;
      AssignmentsFor(h, rows[..n], w)
        + if rows[n][h.wordColumn] == w then [RowAssignment(h.features, rows[n])] else []
  }

  /** The grouping the loader computes: each word of the word column mapped to
      its assignments. */
  function Grouped(h: Header, rows: seq<Row>): WordToFeatures
    requires h.Valid() && RowsLongEnough(rows, h.wordColumn)
  {
    map w | w in WordColumn(rows, h.wordColumn) :: AssignmentsFor(h, rows, w)
  }

  /** A word outside the word column has no assignments. */
  lemma {:induction false} AssignmentsForEmpty(h: Header, rows: seq<Row>, w: string)
    requires h.Valid() && RowsLongEnough(rows, h.wordColumn)
    requires w !in WordColumn(rows, h.wordColumn)
    ensures AssignmentsFor(h, rows, w) == []
  {
    if |rows| > 0 {
      var n := |rows| - 1;
      assert rows[..n] + [rows[n]] == rows;
      WordColumnAppend(rows[..n], h.wordColumn, rows[n]);
      AssignmentsForEmpty(h, rows[..n], w);
    }
  }

  /** Appending one row to the table appends its assignment to its word's list
      and leaves every other word as it was (the `defaultdict` append). */
  lemma GroupedAppend(h: Header, rows: seq<Row>, line: Row)
    requires h.Valid() && RowsLongEnough(rows, h.wordColumn) && |line| > h.wordColumn
    ensures RowsLongEnough(rows + [line], h.wordColumn)
    ensures var w := line[h.wordColumn];
            var g := Grouped(h, rows);
            Grouped(h, rows + [line])
              == g[w := (if w in g then g[w] else []) + [RowAssignment(h.features, line)]]
  {
    var col := h.wordColumn;
    WordColumnAppend(rows, col, line);
    var w := line[col];
    var g := Grouped(h, rows);
    var g' := Grouped(h, rows + [line]);
    var expected := g[w := (if w in g then g[w] else []) + [RowAssignment(h.features, line)]];
    assert g'.Keys == expected.Keys;
    forall v | v in g'.Keys ensures g'[v] == expected[v] {
      GroupedAppendAt(h, rows, line, v);
    }
    MapsAgree(g', expected);
  }

  /** Two maps with the same keys and the same value at every key are equal. */
  lemma MapsAgree<K, V>(m1: map<K, V>, m2: map<K, V>)
    requires m1.Keys == m2.Keys
    requires forall k :: k in m1 ==> m1[k] == m2[k]
    ensures m1 == m2
  {
  }

  /** GroupedAppend, one word at a time. */
  lemma GroupedAppendAt(h: Header, rows: seq<Row>, line: Row, v: string)
    requires h.Valid() && RowsLongEnough(rows, h.wordColumn) && |line| > h.wordColumn
    requires RowsLongEnough(rows + [line], h.wordColumn)
    requires v in WordColumn(rows + [line], h.wordColumn)
    ensures var w := line[h.wordColumn];
            var g := Grouped(h, rows);
            AssignmentsFor(h, rows + [line], v)
              == if v == w then (if w in g then g[w] else []) + [RowAssignment(h.features, line)] else g[v]
  {
    var w := line[h.wordColumn];
    WordColumnAppend(rows, h.wordColumn, line);
    assert (rows + [line])[..|rows|] == rows;
    if v !in WordColumn(rows, h.wordColumn) {
      AssignmentsForEmpty(h, rows, v);
    }
  }

  /** Order preservation: the k-th assignment of `w` is the assignment of the
      k-th row whose word is `w`. */
  lemma {:induction false} AssignmentsForInRowOrder(h: Header, rows: seq<Row>, w: string)
    requires h.Valid() && RowsLongEnough(rows, h.wordColumn)
    ensures var ps := Positions(rows, h.wordColumn, w);
            var s := AssignmentsFor(h, rows, w);
            |s| == |ps| && forall k :: 0 <= k < |s| ==> s[k] == RowAssignment(h.features, rows[ps[k]])
  {
    if |rows| > 0 {
      var n := |rows| - 1;
      AssignmentsForInRowOrder(h, rows[..n], w);
      var ps := Positions(rows[..n], h.wordColumn, w);
      var s0 := AssignmentsFor(h, rows[..n], w);
      forall k | 0 <= k < |ps| ensures rows[..n][ps[k]] == rows[ps[k]] { }
      if rows[n][h.wordColumn] == w {
        assert Positions(rows, h.wordColumn, w) == ps + [n];
        assert AssignmentsFor(h, rows, w) == s0 + [RowAssignment(h.features, rows[n])];
      } else {
        assert Positions(rows, h.wordColumn, w) == ps;
        assert AssignmentsFor(h, rows, w) == s0;
      }
    }
  }

  /** Each row contributes exactly one assignment to its word: the length of a
      word's list is the number of rows whose word column holds that word. */
  lemma {:induction false} AssignmentsForCount(h: Header, rows: seq<Row>, w: string)
    requires h.Valid() && RowsLongEnough(rows, h.wordColumn)
    ensures |AssignmentsFor(h, rows, w)| == multiset(WordColumn(rows, h.wordColumn))[w]
  {
    if |rows| > 0 {
      var n := |rows| - 1;
      AssignmentsForCount(h, rows[..n], w);
      assert WordColumn(rows, h.wordColumn)
          == WordColumn(rows[..n], h.wordColumn) + [rows[n][h.wordColumn]];
    }
  }

  /** Every word of the table has at least one assignment. */
  lemma AssignmentsForNonEmpty(h: Header, rows: seq<Row>, w: string)
    requires h.Valid() && RowsLongEnough(rows, h.wordColumn)
    requires w in WordColumn(rows, h.wordColumn)
    ensures |AssignmentsFor(h, rows, w)| > 0
  {

  }

  // ---------------------------------------------------------------------------
  // The whole loader
  // ---------------------------------------------------------------------------

  /** What the loader returns for a header row and the data rows below it.
      A row index in an error counts the header as row 0. */
  function Load(firstRow: Row, rows: seq<Row>): (r: Result<WordToFeatures>)
    ensures r == Err(NoWordColumn) <==> CellValue !in firstRow
    ensures r.Ok? <==> CellValue in firstRow && RowsLongEnough(rows, IndexOf(firstRow, CellValue).value)
    ensures r.Err? ==> r.error != EmptyTable
    ensures r.Err? && r.error.ShortRow? ==>
              var col := IndexOf(firstRow, CellValue).value;
              && 0 < r.error.row <= |rows|
              && |rows[r.error.row - 1]| <= col
              && RowsLongEnough(rows[..r.error.row - 1], col)
  {
    match ParseHeader(firstRow)
    case Err(e) => Err(e)
    case Ok(h) =>
      match FirstShortRow(rows, h.wordColumn)
      case Some(k) => Err(ShortRow(k + 1))
      case None => Ok(Grouped(h, rows))
  }

  /** What the loader returns for a whole table. */
  function LoadTable(table: seq<Row>): (r: Result<WordToFeatures>)
    ensures r == Err(EmptyTable) <==> table == []
  {
    if |table| == 0 then Err(EmptyTable) else Load(table[0], table[1..])
  }

  /** The loop's view of FirstShortRow: a short row after long ones is the first. */
  lemma FirstShortRowAt(rows: seq<Row>, col: nat, i: nat)
    requires i < |rows| && RowsLongEnough(rows[..i], col) && |rows[i]| <= col
    ensures FirstShortRow(rows, col) == Some(i)
  {
  }

  /** The loop's view of GroupedAppend: row `i` extends the grouping of the rows before it. */
  lemma GroupedStep(h: Header, rows: seq<Row>, i: nat)
    requires h.Valid() && i < |rows| && RowsLongEnough(rows[..i], h.wordColumn) && |rows[i]| > h.wordColumn
    ensures RowsLongEnough(rows[..i + 1], h.wordColumn)
    ensures var w := rows[i][h.wordColumn];
            var g := Grouped(h, rows[..i]);
            Grouped(h, rows[..i + 1])
              == g[w := (if w in g then g[w] else []) + [RowAssignment(h.features, rows[i])]]
  {
    GroupedAppend(h, rows[..i], rows[i]);
    assert rows[..i] + [rows[i]] == rows[..i + 1];
  }

  /** `get_word_to_features`: reads the header, then walks the data rows in
      order, appending each row's assignment to its word's list, and stops at
      the first row too short to have a word. */
  method GetWordToFeatures(table: seq<Row>) returns (r: Result<WordToFeatures>)
    ensures r == LoadTable(table)
  {
    if |table| == 0 {
      return Err(EmptyTable);
    }
    var firstRow := table[0];
    var rows := table[1..];
    var header := ParseHeader(firstRow);
    if header.Err? {
      return Err(header.error);
    }
    var h := header.value;
    var indexOfWords := h.wordColumn;
    var wordToFeatures: WordToFeatures := map[];
    var i := 0;
    while i < |rows|
      invariant 0 <= i <= |rows|
      invariant RowsLongEnough(rows[..i], indexOfWords)
      invariant wordToFeatures == Grouped(h, rows[..i])
    {
      var line := rows[i];
      if |line| <= indexOfWords {
        FirstShortRowAt(rows, indexOfWords, i);
        return Err(ShortRow(i + 1));
      }
      var word := line[indexOfWords];
      var assignment := RowAssignment(h.features, line);
      var existing := if word in wordToFeatures then wordToFeatures[word] else [];
      GroupedStep(h, rows, i);
      wordToFeatures := wordToFeatures[word := existing + [assignment]];
      i := i + 1;
    }
    assert rows[..i] == rows;
    return Ok(wordToFeatures);
  }

  // ---------------------------------------------------------------------------
  // Properties of the loader's result
  // ---------------------------------------------------------------------------

  /** The words of the result are exactly the values of the word column, each
      with a non-empty list whose length is the number of its rows, and whose
      order is the order of its rows. */
  lemma LoadGroupsByWord(firstRow: Row, rows: seq<Row>, w: string)
    requires Load(firstRow, rows).Ok?
    ensures var h := ParseHeader(firstRow).value;
            var m := Load(firstRow, rows).value;
            && RowsLongEnough(rows, h.wordColumn)
            && (w in m <==> exists j :: 0 <= j < |rows| && rows[j][h.wordColumn] == w)
            && (w in m ==> |m[w]| > 0 && |m[w]| == multiset(WordColumn(rows, h.wordColumn))[w])
            && (w in m ==>
                  var ps := Positions(rows, h.wordColumn, w);
                  |m[w]| == |ps| && forall k :: 0 <= k < |ps| ==> m[w][k] == RowAssignment(h.features, rows[ps[k]]))
  {
    var h := ParseHeader(firstRow).value;
    if w in WordColumn(rows, h.wordColumn) {
      AssignmentsForNonEmpty(h, rows, w);
      AssignmentsForCount(h, rows, w);
      AssignmentsForInRowOrder(h, rows, w);
    }
  }

  /** Every assignment in the result uses only feature names of the header,
      that is, names of columns before the word column, and stores no blank
      value. */
  lemma LoadKeysAreFeatures(firstRow: Row, rows: seq<Row>, w: string, k: nat, f: string)
    requires Load(firstRow, rows).Ok?
    requires w in Load(firstRow, rows).value && k < |Load(firstRow, rows).value[w]|
    requires f in Load(firstRow, rows).value[w][k]
    ensures var col := IndexOf(firstRow, CellValue).value;
            f in firstRow[..col] && f != CellValue
    ensures !IsBlank(Load(firstRow, rows).value[w][k][f])
  {
    var h := ParseHeader(firstRow).value;
    AssignmentsForInRowOrder(h, rows, w);
    var ps := Positions(rows, h.wordColumn, w);
    RowAssignmentKeysAndValues(h.features, rows[ps[k]], f);
  }

  /** A table with a header and no data rows gives the empty map. */
  lemma HeaderOnlyIsEmpty(firstRow: Row)
    requires CellValue in firstRow
    ensures Load(firstRow, []) == Ok(map[])
  {

  }

  /** The worked example of the feature file `number,cell_value` with the rows
      `sg,cat` and `pl,cats`. */
  lemma CatsExample()
    ensures LoadTable([["number", "cell_value"], ["sg", "cat"], ["pl", "cats"]])
         == Ok(map["cat" := [map["number" := "sg"]], "cats" := [map["number" := "pl"]]])
  {
    var table := [["number", "cell_value"], ["sg", "cat"], ["pl", "cats"]];
    assert IndexOf(table[0], CellValue) == Some(1);
    assert table[0][..1] == ["number"];
    assert ParseHeader(table[0]) == Ok(Header(1, ["number"]));
    assert FirstShortRow(table[1..], 1) == None;
    CatsGrouped();
  }

  /** The grouping step of CatsExample: the second row adds a new word. */
  lemma CatsGrouped()
    ensures Grouped(Header(1, ["number"]), [["sg", "cat"], ["pl", "cats"]])
         == map["cat" := [map["number" := "sg"]], "cats" := [map["number" := "pl"]]]
  {
    var h := Header(1, ["number"]);
    var r0, r1 := ["sg", "cat"], ["pl", "cats"];
    CatsAssignments();
    CatsGroupedFirst();
    var g1 := map["cat" := [map["number" := "sg"]]];
    assert "cats" != "cat" by { assert |"cats"| != |"cat"|; }
    assert "cats" !in g1;
    GroupedAppend(h, [r0], r1);
    assert [r0] + [r1] == [r0, r1];
    assert [] + [map["number" := "pl"]] == [map["number" := "pl"]];
    assert Grouped(h, [r0, r1]) == g1["cats" := [map["number" := "pl"]]];
  }

  /** The grouping of the first row of CatsExample. */
  lemma CatsGroupedFirst()
    ensures Grouped(Header(1, ["number"]), [["sg", "cat"]]) == map["cat" := [map["number" := "sg"]]]
  {
    var h := Header(1, ["number"]);
    var r0 := ["sg", "cat"];
    CatsAssignments();
    assert WordColumn([], 1) == [];
    assert Grouped(h, []) == map[];
    GroupedAppend(h, [], r0);
    assert [] + [r0] == [r0];
    assert [] + [map["number" := "sg"]] == [map["number" := "sg"]];
  }

  /** The row assignments of CatsExample. */
  lemma CatsAssignments()
    ensures RowAssignment(["number"], ["sg", "cat"]) == map["number" := "sg"]
    ensures RowAssignment(["number"], ["pl", "cats"]) == map["number" := "pl"]
  {
    assert !IsBlank("sg") by { assert !IsWhitespace("sg"[0]); }
    assert !IsBlank("pl") by { assert !IsWhitespace("pl"[0]); }
    assert ["number"][..0] == [];
  }

  /** A repeated feature name keeps the value of its last non-blank column,
      and values are stored as written, surrounding whitespace included. */
  lemma RepeatedFeatureExample()
    ensures RowAssignment(["case", "case"], ["nom", "acc", "w"]) == map["case" := "acc"]
    ensures RowAssignment(["case", "case"], [" nom ", "\t", "w"]) == map["case" := " nom "]
  {
    var features := ["case", "case"];
    assert features[..1] == ["case"] && features[..1][..0] == [];
    assert !IsBlank("nom") by { assert !IsWhitespace("nom"[0]); }
    assert !IsBlank("acc") by { assert !IsWhitespace("acc"[0]); }
    assert !IsBlank(" nom ") by { assert !IsWhitespace(" nom "[1]); }
    assert IsBlank("\t");
  }

  /** A data row without a word cell stops the loader with an error that names
      the row, even when later rows are well formed. */
  lemma ShortRowExample()
    ensures LoadTable([["number", "cell_value"], ["sg"], ["pl", "cats"]]) == Err(ShortRow(1))
  {

  }
}
