/** Reading a project from a spreadsheet matrix and writing one back: seven
    metadata rows (language codes, then file name and directory for Android,
    iOS and Flutter), then one row per key; column 0 holds the keys. */
module ExcelParser {
  import opened Wrappers
  import opened Types

  /** A sheet as an array of rows of text cells. */
  type Row = seq<string>
  type Matrix = seq<Row>

  const RowHeader: nat := 0
  const RowAndroidFile: nat := 1
  const RowAndroidPath: nat := 2
  const RowIosFile: nat := 3
  const RowIosPath: nat := 4
  const RowFlutterFile: nat := 5
  const RowFlutterPath: nat := 6
  const RowDataStart: nat := 7

  const InsufficientRows: string := "Invalid Excel format: Insufficient metadata rows."

  /** `row[i] || ''`: a cell past the end of a row reads as empty. */
  function Cell(row: Row, i: nat): string {
    if i < |row| then row[i] else ""
  }

  // ---------------------------------------------------------------- parsing

  /** The header positions `1 <= i < n` that name a language, in order. */
  function HeaderIndices(header: Row, n: nat): (idx: seq<nat>)
    requires n <= |header|
    ensures forall t :: 0 <= t < |idx| ==> 1 <= idx[t] < n && header[idx[t]] != ""
    ensures forall t, u :: 0 <= t < u < |idx| ==> idx[t] < idx[u]
    ensures forall i :: 1 <= i < n && header[i] != "" ==> i in idx
  {
    if n <= 1 then []
    else HeaderIndices(header, n - 1) + (if header[n - 1] != "" then [n - 1] else [])
  }

  /** The metadata of the column at sheet position `i`. */
  function ColumnAt(m: Matrix, i: nat): ColumnMetadata
    requires |m| >= RowDataStart
  {
    ColumnMetadata(Cell(m[RowHeader], i), Cell(m[RowAndroidFile], i), Cell(m[RowAndroidPath], i),
                   Cell(m[RowIosFile], i), Cell(m[RowIosPath], i), Cell(m[RowFlutterFile], i), Cell(m[RowFlutterPath], i))
  }

  function ColumnsAt(m: Matrix, idx: seq<nat>): seq<ColumnMetadata>
    requires |m| >= RowDataStart
  {
    seq(|idx|, t requires 0 <= t < |idx| => ColumnAt(m, idx[t]))
  }

  lemma ColumnsAtSnoc(m: Matrix, idx: seq<nat>, i: nat)
    requires |m| >= RowDataStart
    ensures ColumnsAt(m, idx + [i]) == ColumnsAt(m, idx) + [ColumnAt(m, i)]
  {
  }

  /** Every position after the key column whose header cell is not empty. */
  function Columns(m: Matrix): seq<ColumnMetadata>
    requires |m| >= RowDataStart
  {
    ColumnsAt(m, HeaderIndices(m[RowHeader], |m[RowHeader]|))
  }

  /** The positions `1, 2, ..., n`. */
  function Positional(n: nat): seq<nat> {
    seq(n, t => t + 1)
  }

  /** A row's values: column by column, the language takes the cell at that
      column's position, a later column of the same language overriding. */
  function CellValues(cols: seq<ColumnMetadata>, pos: seq<nat>, rowData: Row): map<string, string>
    requires |pos| == |cols|
  {
    if cols == [] then map[]
    else
      var n := |cols| - 1;
      CellValues(cols[..n], pos[..n], rowData)[cols[n].langCode := Cell(rowData, pos[n])]
  }

  /** The rows whose key cell is not empty. */
  function KeyedRows(rows: seq<Row>): seq<Row> {
    if rows == [] then []
    else KeyedRows(rows[..|rows| - 1]) + (if Cell(rows[|rows| - 1], 0) != "" then [rows[|rows| - 1]] else [])
  }

  function ParseRow(cols: seq<ColumnMetadata>, pos: seq<nat>, rowData: Row): TranslationRow
    requires |pos| == |cols|
  {
    TranslationRow(Cell(rowData, 0), CellValues(cols, pos, rowData))
  }

  function ParseRows(cols: seq<ColumnMetadata>, pos: seq<nat>, rows: seq<Row>): seq<TranslationRow>
    requires |pos| == |cols|
  {
    if rows == [] then []
    else
      var last := rows[|rows| - 1];
      ParseRows(cols, pos, rows[..|rows| - 1]) + (if Cell(last, 0) != "" then [ParseRow(cols, pos, last)] else [])
  }

  /** The project `parseExcel` resolves with, or the error it rejects with.
      Values are read by a column's place in the list of named columns, not
      by its position in the sheet. */
  function ParseMatrix(m: Matrix): (r: Result<Project>)
    ensures r.Err? <==> |m| < RowDataStart
    ensures r.Err? ==> r.message == InsufficientRows
  {
    if |m| < RowDataStart then Err(InsufficientRows)
    else
      var cols := Columns(m);
      Ok(Project(cols, ParseRows(cols, Positional(|cols|), m[RowDataStart..])))
  }

  /** `parseExcel`, from the matrix the workbook library returns. */
  method ParseExcel(rawData: Matrix) returns (r: Result<Project>)
    ensures r == ParseMatrix(rawData)
  {
    if |rawData| < RowDataStart {
      return Err(InsufficientRows);
    }
    var columns := ReadColumns(rawData);
    ghost var pos := Positional(|columns|);
    var rows: seq<TranslationRow> := [];
    for i := RowDataStart to |rawData|
      invariant rows == ParseRows(columns, pos, rawData[RowDataStart..i])
    {
      assert rawData[RowDataStart..i + 1][..i - RowDataStart] == rawData[RowDataStart..i];
      var rowData := rawData[i];
      var key := Cell(rowData, 0);
      if key == "" {
        continue;
      }
      var values := ReadValues(columns, rowData);
      rows := rows + [TranslationRow(key, values)];
    }
    assert rawData[RowDataStart..] == rawData[RowDataStart..|rawData|];
    return Ok(Project(columns, rows));
  }

  /** The column loop of `parseExcel`. */
  method ReadColumns(rawData: Matrix) returns (columns: seq<ColumnMetadata>)
    requires |rawData| >= RowDataStart
    ensures columns == Columns(rawData)
  {
    var headerRow := rawData[RowHeader];
    columns := [];
    if |headerRow| > 0 {
      for i := 1 to |headerRow|
        invariant columns == ColumnsAt(rawData, HeaderIndices(headerRow, i))
      {
        ColumnStep(rawData, i);
        var langCode := headerRow[i];
        if langCode == "" {
          continue;
        }
        columns := columns + [ColumnMetadata(langCode, Cell(rawData[RowAndroidFile], i), Cell(rawData[RowAndroidPath], i),
                                             Cell(rawData[RowIosFile], i), Cell(rawData[RowIosPath], i),
                                             Cell(rawData[RowFlutterFile], i), Cell(rawData[RowFlutterPath], i))];
      }
    }
  }

  /** One header position more: a named one adds its column, a blank one nothing. */
  lemma ColumnStep(m: Matrix, i: nat)
    requires |m| >= RowDataStart && 1 <= i < |m[RowHeader]|
    ensures var header := m[RowHeader];
      ColumnsAt(m, HeaderIndices(header, i + 1))
        == ColumnsAt(m, HeaderIndices(header, i)) + (if header[i] == "" then [] else [ColumnAt(m, i)])
  {
    var header := m[RowHeader];
    var idx := HeaderIndices(header, i);
    if header[i] == "" {
      assert HeaderIndices(header, i + 1) == idx + [];
      assert idx + [] == idx;
    } else {
      assert HeaderIndices(header, i + 1) == idx + [i];
      ColumnsAtSnoc(m, idx, i);
    }
  }

  /** The inner loop of `parseExcel`: the `index`-th named column takes the
      cell at position `index + 1`. */
  method ReadValues(columns: seq<ColumnMetadata>, rowData: Row) returns (values: map<string, string>)
    ensures values == CellValues(columns, Positional(|columns|), rowData)
  {
    ghost var pos := Positional(|columns|);
    values := map[];
    for index := 0 to |columns|
      invariant values == CellValues(columns[..index], pos[..index], rowData)
    {
      assert columns[..index + 1][..index] == columns[..index];
      assert pos[..index + 1][..index] == pos[..index];
      values := values[columns[index].langCode := Cell(rowData, index + 1)];
    }
    assert columns[..|columns|] == columns && pos[..|columns|] == pos;
  }

  // ---------------------------------------------------------------- laws

  /** The metadata rows alone give the columns and no data. */
  lemma MetadataOnly(m: Matrix)
    requires |m| == RowDataStart
    ensures ParseMatrix(m) == Ok(Project(Columns(m), []))
  {
  }

  /** Every named header position after the key column gives a column with
      the metadata of that sheet position, and every column comes from one. */
  lemma ColumnsLaw(m: Matrix)
    requires |m| >= RowDataStart
    ensures forall i :: 1 <= i < |m[RowHeader]| && m[RowHeader][i] != "" ==> ColumnAt(m, i) in Columns(m)
    ensures forall c :: c in Columns(m) ==> c.langCode != "" && exists i :: 1 <= i < |m[RowHeader]| && c == ColumnAt(m, i)
  {
    ColumnsCoverHeader(m);
    ColumnsFromHeader(m);
  }

  lemma ColumnsCoverHeader(m: Matrix)
    requires |m| >= RowDataStart
    ensures forall i :: 1 <= i < |m[RowHeader]| && m[RowHeader][i] != "" ==> ColumnAt(m, i) in Columns(m)
  {
    var header := m[RowHeader];
    var idx := HeaderIndices(header, |header|);
    forall i | 1 <= i < |header| && header[i] != "" ensures ColumnAt(m, i) in Columns(m) {
      var t :| 0 <= t < |idx| && idx[t] == i;
      assert Columns(m)[t] == ColumnAt(m, i);
    }
  }

  lemma ColumnsFromHeader(m: Matrix)
    requires |m| >= RowDataStart
    ensures forall c :: c in Columns(m) ==> c.langCode != "" && exists i :: 1 <= i < |m[RowHeader]| && c == ColumnAt(m, i)
  {
    var header := m[RowHeader];
    var idx := HeaderIndices(header, |header|);
    forall c | c in Columns(m) ensures c.langCode != "" && exists i :: 1 <= i < |header| && c == ColumnAt(m, i) {
      var t :| 0 <= t < |idx| && Columns(m)[t] == c;
      assert c == ColumnAt(m, idx[t]);
    }
  }

  /** A row holds a language exactly when some column has that code, and then
      the cell at the position of the last such column. */
  lemma {:induction false} CellValuesLaw(cols: seq<ColumnMetadata>, pos: seq<nat>, rowData: Row, lang: string)
    requires |pos| == |cols|
    ensures lang in CellValues(cols, pos, rowData) <==> exists t :: 0 <= t < |cols| && cols[t].langCode == lang
    ensures forall t :: (0 <= t < |cols| && cols[t].langCode == lang
                        && (forall u :: t < u < |cols| ==> cols[u].langCode != lang)) ==>
              CellValues(cols, pos, rowData)[lang] == Cell(rowData, pos[t])
  {
    CellValuesDomain(cols, pos, rowData, lang);
    forall t | (0 <= t < |cols| && cols[t].langCode == lang
               && (forall u :: t < u < |cols| ==> cols[u].langCode != lang))
      ensures CellValues(cols, pos, rowData)[lang] == Cell(rowData, pos[t])
    {
      CellValuesLast(cols, pos, rowData, t);
    }
  }

  lemma {:induction false} CellValuesDomain(cols: seq<ColumnMetadata>, pos: seq<nat>, rowData: Row, lang: string)
    requires |pos| == |cols|
    ensures lang in CellValues(cols, pos, rowData) <==> exists t :: 0 <= t < |cols| && cols[t].langCode == lang
  {
    if cols != [] {
      var n := |cols| - 1;
      var initC, initP := cols[..n], pos[..n];
      CellValuesDomain(initC, initP, rowData, lang);
      if lang in CellValues(cols, pos, rowData) && cols[n].langCode != lang {
        var t :| 0 <= t < n && initC[t].langCode == lang;
        assert cols[t].langCode == lang;
      }
      if exists t :: 0 <= t < |cols| && cols[t].langCode == lang {
        var t :| 0 <= t < |cols| && cols[t].langCode == lang;
        if t < n {
          assert initC[t].langCode == lang;
        }
      }
    }
  }

  lemma {:induction false} CellValuesLast(cols: seq<ColumnMetadata>, pos: seq<nat>, rowData: Row, t: nat)
    requires |pos| == |cols| && t < |cols|
    requires forall u :: t < u < |cols| ==> cols[u].langCode != cols[t].langCode
    ensures cols[t].langCode in CellValues(cols, pos, rowData)
    ensures CellValues(cols, pos, rowData)[cols[t].langCode] == Cell(rowData, pos[t])
  {
    var n := |cols| - 1;
    if t < n {
      var initC, initP := cols[..n], pos[..n];
      assert initC[t] == cols[t] && initP[t] == pos[t];
      assert forall u :: t < u < n ==> initC[u] == cols[u];
      CellValuesLast(initC, initP, rowData, t);
    }
  }

  /** The data rows are the rows with a key, in order, each parsed alone:
      rows without a key are skipped, nothing else is. */
  lemma {:induction false} ParseRowsLaw(cols: seq<ColumnMetadata>, pos: seq<nat>, rows: seq<Row>)
    requires |pos| == |cols|
    ensures var keyed := KeyedRows(rows);
      ParseRows(cols, pos, rows) == seq(|keyed|, i requires 0 <= i < |keyed| => ParseRow(cols, pos, keyed[i]))
    ensures forall r :: r in KeyedRows(rows) ==> r in rows && Cell(r, 0) != ""
    ensures forall r :: r in rows && Cell(r, 0) != "" ==> r in KeyedRows(rows)
  {
    if rows != [] {
      var init := rows[..|rows| - 1];
      ParseRowsLaw(cols, pos, init);
      assert rows == init + [rows[|rows| - 1]];
    }
  }

  // ---------------------------------------------------------------- blank header cells

  /** Values read by sheet position instead: each language from the cell
      under its own header. */
  function ParseMatrixByHeader(m: Matrix): (r: Result<Project>)
    ensures r.Err? <==> |m| < RowDataStart
  {
    if |m| < RowDataStart then Err(InsufficientRows)
    else
      var idx := HeaderIndices(m[RowHeader], |m[RowHeader]|);
      var cols := ColumnsAt(m, idx);
      Ok(Project(cols, ParseRows(cols, idx, m[RowDataStart..])))
  }

  /** With a blank header cell between the key column and a language, the
      language takes the cell under the blank header. */
  lemma BlankHeaderShift(m: Matrix, lang: string, key: string, x: string, y: string)
    requires |m| == RowDataStart + 1 && m[RowDataStart] == [key, x, y] && key != ""
    requires |m[RowHeader]| == 3 && m[RowHeader][1] == "" && m[RowHeader][2] == lang && lang != ""
    ensures ParseMatrix(m) == Ok(Project([ColumnAt(m, 2)], [TranslationRow(key, map[lang := x])]))
    ensures ParseMatrixByHeader(m) == Ok(Project([ColumnAt(m, 2)], [TranslationRow(key, map[lang := y])]))
  {
    var header := m[RowHeader];
    assert HeaderIndices(header, 1) == [];
    assert HeaderIndices(header, 2) == [];
    assert HeaderIndices(header, 3) == [2];
    var col := ColumnAt(m, 2);
    assert col.langCode == lang;
    assert Columns(m) == [col];
    var row := [key, x, y];
    assert m[RowDataStart..] == [row];
    assert Positional(1) == [1];
    ParseSingleRow(col, 1, row);
    ParseSingleRow(col, 2, row);
  }

  lemma ParseSingleRow(col: ColumnMetadata, p: nat, row: Row)
    requires Cell(row, 0) != ""
    ensures ParseRows([col], [p], [row]) == [TranslationRow(Cell(row, 0), map[col.langCode := Cell(row, p)])]
  {
    assert [row][..0] == [];
    assert [col][..0] == [] && [p][..0] == [];
    assert CellValues([col], [p], row) == map[][col.langCode := Cell(row, p)];
  }

  /** The smallest instance: header `Key, (blank), en`, one row `k, x, y`;
      `en` reads `x`, where the cell under its header holds `y`. */
  lemma BlankHeaderShiftsValues()
    ensures var m := [["Key", "", "en"], [], [], [], [], [], [], ["k", "x", "y"]];
      ParseMatrix(m).Ok? && ParseMatrix(m).value.data == [TranslationRow("k", map["en" := "x"])]
      && ParseMatrixByHeader(m).Ok? && ParseMatrixByHeader(m).value.data == [TranslationRow("k", map["en" := "y"])]
  {
    var m := [["Key", "", "en"], [], [], [], [], [], [], ["k", "x", "y"]];
    BlankHeaderShift(m, "en", "k", "x", "y");
  }

  /** Reading by sheet position, every language of every data row holds the
      cell under the last header that names it. */
  lemma ByHeaderReadsOwnColumn(m: Matrix, r: nat, i: nat)
    requires RowDataStart <= r < |m| && Cell(m[r], 0) != ""
    requires 1 <= i < |m[RowHeader]| && m[RowHeader][i] != ""
    requires forall j :: i < j < |m[RowHeader]| ==> m[RowHeader][j] != m[RowHeader][i]
    ensures ParseMatrixByHeader(m).Ok?
    ensures var p := ParseMatrixByHeader(m).value;
      var row := ParseRow(p.columns, HeaderIndices(m[RowHeader], |m[RowHeader]|), m[r]);
      row in p.data && m[RowHeader][i] in row.values && row.values[m[RowHeader][i]] == Cell(m[r], i)
  {
    var header := m[RowHeader];
    var idx := HeaderIndices(header, |header|);
    var cols := ColumnsAt(m, idx);
    var rows := m[RowDataStart..];
    assert m[r] in rows by {
      assert m[r] == rows[r - RowDataStart];
    }
    ParsedRowIn(cols, idx, rows, m[r]);
    var t := LastColumnFor(m, idx, i);
    CellValuesLaw(cols, idx, m[r], header[i]);
  }

  lemma ParsedRowIn(cols: seq<ColumnMetadata>, pos: seq<nat>, rows: seq<Row>, r: Row)
    requires |pos| == |cols| && r in rows && Cell(r, 0) != ""
    ensures ParseRow(cols, pos, r) in ParseRows(cols, pos, rows)
  {
    ParseRowsLaw(cols, pos, rows);
    var keyed := KeyedRows(rows);
    var k :| 0 <= k < |keyed| && keyed[k] == r;
    assert ParseRows(cols, pos, rows)[k] == ParseRow(cols, pos, r);
  }

  lemma LastColumnFor(m: Matrix, idx: seq<nat>, i: nat) returns (t: nat)
    requires |m| >= RowDataStart
    requires idx == HeaderIndices(m[RowHeader], |m[RowHeader]|)
    requires 1 <= i < |m[RowHeader]| && m[RowHeader][i] != ""
    requires forall j :: i < j < |m[RowHeader]| ==> m[RowHeader][j] != m[RowHeader][i]
    ensures t < |idx| && idx[t] == i
    ensures ColumnsAt(m, idx)[t].langCode == m[RowHeader][i]
    ensures forall u :: t < u < |idx| ==> ColumnsAt(m, idx)[u].langCode != m[RowHeader][i]
  {
    t :| 0 <= t < |idx| && idx[t] == i;
    forall u | t < u < |idx| ensures ColumnsAt(m, idx)[u].langCode != m[RowHeader][i] {
      assert idx[t] < idx[u];
    }
  }

  // ---------------------------------------------------------------- writing

  /** The labels in column 0 of the metadata rows. */
  const KeyLabel: string := "Android / iOS Key / Flutter key"
  const AndroidFileLabel: string := "[Android File]"
  const AndroidPathLabel: string := "[Android Path]"
  const IosFileLabel: string := "[iOS File]"
  const IosPathLabel: string := "[iOS Path]"
  const FlutterFileLabel: string := "[Flutter File]"
  const FlutterPathLabel: string := "[Flutter Path]"

  /** The label of metadata row `k`. */
  function Label(k: nat): string {
    if k == RowHeader then KeyLabel
    else if k == RowAndroidFile then AndroidFileLabel
    else if k == RowAndroidPath then AndroidPathLabel
    else if k == RowIosFile then IosFileLabel
    else if k == RowIosPath then IosPathLabel
    else if k == RowFlutterFile then FlutterFileLabel
    else FlutterPathLabel
  }

  /** The field of a column that metadata row `k` holds. */
  function Field(c: ColumnMetadata, k: nat): string {
    if k == RowHeader then c.langCode
    else if k == RowAndroidFile then c.androidFile
    else if k == RowAndroidPath then c.androidPath
    else if k == RowIosFile then c.iosFile
    else if k == RowIosPath then c.iosPath
    else if k == RowFlutterFile then c.flutterFile
    else c.flutterPath
  }

  /** The seven metadata rows: a label, then one cell per column. */
  function MetadataRows(cols: seq<ColumnMetadata>): Matrix {
    seq(RowDataStart, k requires 0 <= k < RowDataStart =>
      [Label(k)] + seq(|cols|, i requires 0 <= i < |cols| => Field(cols[i], k)))
  }

  /** A data row: the key, then each column's text or the empty cell. */
  function DataRow(cols: seq<ColumnMetadata>, item: TranslationRow): Row {
    [item.key] + seq(|cols|, t requires 0 <= t < |cols| => ValueOr(item, cols[t].langCode))
  }

  function ExcelMatrix(p: Project): Matrix {
    MetadataRows(p.columns) + seq(|p.data|, i requires 0 <= i < |p.data| => DataRow(p.columns, p.data[i]))
  }

  /** `generateExcelBuffer`, up to the matrix handed to the workbook library. */
  method GenerateExcelMatrix(project: Project) returns (matrix: Matrix)
    ensures matrix == ExcelMatrix(project)
  {
    var columns, data := project.columns, project.data;
    matrix := MetadataRows(columns);
    for i := 0 to |data|
      invariant matrix == ExcelMatrix(Project(columns, data[..i]))
    {
      var item := data[i];
      var row: Row := [item.key];
      for t := 0 to |columns|
        invariant row == [item.key] + seq(t, u requires 0 <= u < t => ValueOr(item, columns[u].langCode))
      {
        row := row + [ValueOr(item, columns[t].langCode)];
      }
      assert row == DataRow(columns, item);
      assert data[..i + 1][..i] == data[..i];
      matrix := matrix + [row];
    }
    assert data[..|data|] == data;
  }

  /** The values a row reads back as: every language of the columns, with
      its text or the empty string. */
  function FilledValues(cols: seq<ColumnMetadata>, item: TranslationRow): map<string, string> {
    map l | l in Langs(cols) :: ValueOr(item, l)
  }

  /** A row as it reads back: its key and every language of the columns. */
  function FilledRow(cols: seq<ColumnMetadata>, item: TranslationRow): TranslationRow {
    TranslationRow(item.key, FilledValues(cols, item))
  }

  function FilledRows(cols: seq<ColumnMetadata>, data: seq<TranslationRow>): seq<TranslationRow> {
    seq(|data|, i requires 0 <= i < |data| => FilledRow(cols, data[i]))
  }

  lemma {:induction false} CellValuesFilled(cols: seq<ColumnMetadata>, pos: seq<nat>, rowData: Row, item: TranslationRow)
    requires |pos| == |cols|
    requires forall t :: 0 <= t < |cols| ==> Cell(rowData, pos[t]) == ValueOr(item, cols[t].langCode)
    ensures CellValues(cols, pos, rowData) == FilledValues(cols, item)
  {
    if cols != [] {
      var n := |cols| - 1;
      var initC, initP := cols[..n], pos[..n];
      assert forall t :: 0 <= t < n ==> initC[t] == cols[t] && initP[t] == pos[t];
      CellValuesFilled(initC, initP, rowData, item);
      CellValuesFilledStep(cols, pos, rowData, item);
    } else {
      assert Langs(cols) == [];
      assert FilledValues(cols, item) == map[];
    }
  }

  /** The step of the induction above: one more column, whose cell holds its text. */
  lemma CellValuesFilledStep(cols: seq<ColumnMetadata>, pos: seq<nat>, rowData: Row, item: TranslationRow)
    requires |pos| == |cols| && cols != []
    requires Cell(rowData, pos[|cols| - 1]) == ValueOr(item, cols[|cols| - 1].langCode)
    requires CellValues(cols[..|cols| - 1], pos[..|cols| - 1], rowData) == FilledValues(cols[..|cols| - 1], item)
    ensures CellValues(cols, pos, rowData) == FilledValues(cols, item)
  {
    var n := |cols| - 1;
    var initC := cols[..n];
    var l := cols[n].langCode;
    assert cols == initC + [cols[n]];
    FilledSnoc(initC, cols[n], item);
  }

  lemma FilledSnoc(cols: seq<ColumnMetadata>, c: ColumnMetadata, item: TranslationRow)
    ensures FilledValues(cols + [c], item) == FilledValues(cols, item)[c.langCode := ValueOr(item, c.langCode)]
  {
    assert Langs(cols + [c]) == Langs(cols) + [c.langCode];
    assert forall l :: l in Langs(cols + [c]) <==> l in Langs(cols) || l == c.langCode;
  }

  lemma {:induction false} HeaderIndicesAllNamed(header: Row, n: nat)
    requires 1 <= n <= |header|
    requires forall i :: 1 <= i < n ==> header[i] != ""
    ensures HeaderIndices(header, n) == Positional(n - 1)
  {
    if n > 1 {
      HeaderIndicesAllNamed(header, n - 1);
      assert Positional(n - 1) == Positional(n - 2) + [n - 1];
    }
  }

  /** Round trip: when every column names a language and every row has a
      key, reading back the generated matrix gives the same columns and the
      same keys in the same order, each row holding every language of the
      columns (the empty string where it had no text). */
  lemma ExcelRoundTrip(p: Project)
    requires forall c :: c in p.columns ==> c.langCode != ""
    requires forall row :: row in p.data ==> row.key != ""
    ensures ParseMatrix(ExcelMatrix(p)) ==
      Ok(Project(p.columns, FilledRows(p.columns, p.data)))
  {
    MatrixLayout(p);
    ReadBack(ExcelMatrix(p), p);
  }

  lemma ReadBack(m: Matrix, p: Project)
    requires forall c :: c in p.columns ==> c.langCode != ""
    requires forall row :: row in p.data ==> row.key != ""
    requires Layout(m, p)
    ensures ParseMatrix(m) ==
      Ok(Project(p.columns, FilledRows(p.columns, p.data)))
  {
    ColumnsOfLayout(m, p.columns);
    var rows := m[RowDataStart..];
    assert |rows| == |p.data|;
    forall i | 0 <= i < |rows| ensures rows[i] == DataRow(p.columns, p.data[i]) {
      assert rows[i] == m[RowDataStart + i];
    }
    DataRowsRead(p.columns, p.data, rows);
    assert ParseMatrix(m) == Ok(Project(p.columns, ParseRows(p.columns, Positional(|p.columns|), rows)));
  }

  /** The shape of a generated matrix: metadata row `k` holds field `k` of
      column `t` at position `t + 1`, and row `7 + i` is item `i`'s data row. */
  predicate Layout(m: Matrix, p: Project) {
    && |m| == RowDataStart + |p.data|
    && (forall k :: 0 <= k < RowDataStart ==> |m[k]| == |p.columns| + 1)
    && (forall k, t :: 0 <= k < RowDataStart && 0 <= t < |p.columns| ==> m[k][t + 1] == Field(p.columns[t], k))
    && forall i :: 0 <= i < |p.data| ==> m[RowDataStart + i] == DataRow(p.columns, p.data[i])
  }

  lemma MatrixLayout(p: Project)
    ensures Layout(ExcelMatrix(p), p)
  {
  }

  lemma ColumnsOfLayout(m: Matrix, cols: seq<ColumnMetadata>)
    requires |m| >= RowDataStart
    requires forall c :: c in cols ==> c.langCode != ""
    requires forall k :: 0 <= k < RowDataStart ==> |m[k]| == |cols| + 1
    requires forall k, t :: 0 <= k < RowDataStart && 0 <= t < |cols| ==> m[k][t + 1] == Field(cols[t], k)
    ensures Columns(m) == cols
  {
    var header := m[RowHeader];
    forall i | 1 <= i < |header| ensures header[i] != "" {
      assert header[i] == Field(cols[i - 1], RowHeader);
      assert cols[i - 1] in cols;
    }
    HeaderIndicesAllNamed(header, |header|);
    PositionalColumns(m, cols);
  }

  lemma PositionalColumns(m: Matrix, cols: seq<ColumnMetadata>)
    requires |m| >= RowDataStart
    requires forall k :: 0 <= k < RowDataStart ==> |m[k]| == |cols| + 1
    requires forall k, t :: 0 <= k < RowDataStart && 0 <= t < |cols| ==> m[k][t + 1] == Field(cols[t], k)
    ensures ColumnsAt(m, Positional(|cols|)) == cols
  {
    forall t | 0 <= t < |cols| ensures ColumnAt(m, t + 1) == cols[t] {
      MetadataCells(m, cols, t);
    }
  }

  lemma MetadataCells(m: Matrix, cols: seq<ColumnMetadata>, t: nat)
    requires |m| >= RowDataStart && t < |cols|
    requires forall k :: 0 <= k < RowDataStart ==> |m[k]| == |cols| + 1
    requires forall k, u :: 0 <= k < RowDataStart && 0 <= u < |cols| ==> m[k][u + 1] == Field(cols[u], k)
    ensures ColumnAt(m, t + 1) == cols[t]
  {
    assert m[RowHeader][t + 1] == Field(cols[t], RowHeader);
    assert m[RowAndroidFile][t + 1] == Field(cols[t], RowAndroidFile);
    assert m[RowAndroidPath][t + 1] == Field(cols[t], RowAndroidPath);
    assert m[RowIosFile][t + 1] == Field(cols[t], RowIosFile);
    assert m[RowIosPath][t + 1] == Field(cols[t], RowIosPath);
    assert m[RowFlutterFile][t + 1] == Field(cols[t], RowFlutterFile);
    assert m[RowFlutterPath][t + 1] == Field(cols[t], RowFlutterPath);
  }

  lemma {:induction false} DataRowsRead(cols: seq<ColumnMetadata>, data: seq<TranslationRow>, rows: seq<Row>)
    requires forall row :: row in data ==> row.key != ""
    requires |rows| == |data| && forall i :: 0 <= i < |rows| ==> rows[i] == DataRow(cols, data[i])
    ensures ParseRows(cols, Positional(|cols|), rows) == FilledRows(cols, data)
  {
    if rows != [] {
      var n := |rows| - 1;
      DataRowsRead(cols, data[..n], rows[..n]);
      var item := data[n];
      assert item in data;
      DataRowRead(cols, item);
      var pos := Positional(|cols|);
      assert ParseRows(cols, pos, rows) == ParseRows(cols, pos, rows[..n]) + [ParseRow(cols, pos, rows[n])];
      assert FilledRows(cols, data) == FilledRows(cols, data[..n]) + [FilledRow(cols, item)];
    }
  }

  /** A generated data row reads back as its key and every column's text. */
  lemma DataRowRead(cols: seq<ColumnMetadata>, item: TranslationRow)
    requires item.key != ""
    ensures var row := DataRow(cols, item);
      Cell(row, 0) != "" && ParseRow(cols, Positional(|cols|), row) == FilledRow(cols, item)
  {
    CellValuesFilled(cols, Positional(|cols|), DataRow(cols, item), item);
  }

  /** A column with an empty language code writes a blank header cell, so the
      generated matrix does not read back: the next column's text is lost.
      Read by header position, the text survives. */
  lemma EmptyLangCodeLosesText()
    ensures var blank := ColumnMetadata("", "", "", "", "", "", "");
      var en := ColumnMetadata("en", "", "", "", "", "", "");
      var p := Project([blank, en], [TranslationRow("k", map["en" := "hello"])]);
      ParseMatrix(ExcelMatrix(p)).Ok?
      && ParseMatrix(ExcelMatrix(p)).value.data == [TranslationRow("k", map["en" := ""])]
      && ParseMatrixByHeader(ExcelMatrix(p)).Ok?
      && ParseMatrixByHeader(ExcelMatrix(p)).value.data == [TranslationRow("k", map["en" := "hello"])]
  {
    var blank := ColumnMetadata("", "", "", "", "", "", "");
    var en := ColumnMetadata("en", "", "", "", "", "", "");
    var item := TranslationRow("k", map["en" := "hello"]);
    var p := Project([blank, en], [item]);
    var m := ExcelMatrix(p);
    MatrixLayout(p);
    assert m[RowHeader][1] == Field(blank, RowHeader) && m[RowHeader][2] == Field(en, RowHeader);
    assert ValueOr(item, "") == "" && ValueOr(item, "en") == "hello";
    assert m[RowDataStart] == DataRow(p.columns, item);
    BlankHeaderShift(m, "en", "k", "", "hello");
  }
}
