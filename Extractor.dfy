/** The detail-page extractor of src/crawler.py: the value of one cell
    (`_get_element_value`), key-value tables (`_parse_table`), record grids
    (`_parse_grid`) and the section scan of `extract_detail_info`. The page is
    given as the plain data the DOM queries would return. */
module Extractor {
  import opened Wrappers
  import opened Text
  import opened Dict

  // ---------------------------------------------------------------------------
  // One cell

  /** What the cell's first `<select>` gives: none present, the text of the
      selected option, or no selected option (the script's `options[-1].text`
      then raises). */
  datatype Select = NoSelect | Chosen(text: string) | NoChosenOption

  /** A `td`: its select, the `value` attribute of its first input that is not a
      button, submit or hidden field (`None` when there is no such input or it
      has no value), and its inner text. */
  datatype Cell = Cell(select: Select, inputValue: Option<string>, innerText: string)

  const ChoosePrompt := "선택"

  /** `_get_element_value`: the chosen option's text when it is non-empty and is
      not a "선택" prompt, else a non-empty input value, else the inner text, each
      cleaned. A failing select script ends the lookup with "". */
  function ElementValue(cell: Cell): string {
    if cell.select.NoChosenOption? then ""
    else if cell.select.Chosen? && cell.select.text != "" && !Contains(cell.select.text, ChoosePrompt) then
      CleanText(cell.select.text)
    else if cell.inputValue.Some? && cell.inputValue.value != "" then CleanText(cell.inputValue.value)
    else CleanText(cell.innerText)
  }

  /** The value is always clean text. */
  lemma ElementValueClean(cell: Cell)
    ensures CleanText(ElementValue(cell)) == ElementValue(cell)
  {
    CleanTextIdempotent(if cell.select.Chosen? then cell.select.text else "");
    CleanTextIdempotent(if cell.inputValue.Some? then cell.inputValue.value else "");
    CleanTextIdempotent(cell.innerText);
  }

  /** The source the value is taken from, in order of precedence. */
  lemma ElementValuePrecedence(cell: Cell)
    ensures cell.select.NoChosenOption? ==> ElementValue(cell) == ""
    ensures cell.select.Chosen? && cell.select.text != "" && !Contains(cell.select.text, ChoosePrompt)
      ==> ElementValue(cell) == CleanText(cell.select.text)
    ensures !cell.select.NoChosenOption?
      && !(cell.select.Chosen? && cell.select.text != "" && !Contains(cell.select.text, ChoosePrompt))
      && cell.inputValue.Some? && cell.inputValue.value != ""
      ==> ElementValue(cell) == CleanText(cell.inputValue.value)
    ensures !cell.select.NoChosenOption?
      && !(cell.select.Chosen? && cell.select.text != "" && !Contains(cell.select.text, ChoosePrompt))
      && !(cell.inputValue.Some? && cell.inputValue.value != "")
      ==> ElementValue(cell) == CleanText(cell.innerText)
    ensures ElementValue(cell) != "" ==>
      ElementValue(cell) in {CleanText(cell.innerText)}
        + (if cell.select.Chosen? then {CleanText(cell.select.text)} else {})
        + (if cell.inputValue.Some? then {CleanText(cell.inputValue.value)} else {})
  {
  }

  /** A chosen option made only of whitespace wins over the input and the text,
      and yields "". */
  lemma BlankChoiceHidesInput(text: string, input: Option<string>, inner: string)
    requires text != "" && forall k :: 0 <= k < |text| ==> IsSpace(text[k])
    ensures ElementValue(Cell(Chosen(text), input, inner)) == ""
  {
    BlankContainsNoWord(text, ChoosePrompt);
    CleanTextOfBlank(text);
  }

  // ---------------------------------------------------------------------------
  // Tables

  /** One `tr` of a `table.w2tb`: the inner texts of its `th`s and its `td`s. */
  datatype TableRow = TableRow(ths: seq<string>, tds: seq<Cell>)

  function Min(a: nat, b: nat): nat {
    if a < b then a else b
  }

  /** The label-value pairs of one row, `th[j]` with `td[j]`, for as many as both have. */
  function RowPairs(row: TableRow): seq<(string, string)> {
    seq(Min(|row.ths|, |row.tds|), j requires 0 <= j < Min(|row.ths|, |row.tds|) =>
      (CleanText(row.ths[j]), ElementValue(row.tds[j])))
  }

  /** The pairs of all rows in reading order. */
  function TablePairs(rows: seq<TableRow>): seq<(string, string)> {
    if rows == [] then [] else TablePairs(rows[..|rows| - 1]) + RowPairs(rows[|rows| - 1])
  }

  /** The dictionary `_parse_table` returns. */
  function TableSpec(rows: seq<TableRow>): Dict<string> {
    PutPairs([], TablePairs(rows), {})
  }

  /** `_parse_table`: for each row and each `j < min(#th, #td)`, store the cleaned
      label with the cell's value when the label is non-empty. */
  method ParseTable(rows: seq<TableRow>) returns (data: Dict<string>)
    ensures data == TableSpec(rows)
  {
    data := [];
    for i := 0 to |rows|
      invariant data == PutPairs([], TablePairs(rows[..i]), {})
    {
      assert rows[..i + 1][..i] == rows[..i];
      PutPairsAppend([], TablePairs(rows[..i]), RowPairs(rows[i]), {});
      data := PutAll(data, RowPairs(rows[i]), {});
    }
    assert rows[..|rows|] == rows;
  }

  /** The labels of one row: the cleaned `th` texts that have a `td` beside them. */
  lemma RowLabels(row: TableRow, k: string)
    ensures k in Keys(RowPairs(row)) <==> exists j :: 0 <= j < Min(|row.ths|, |row.tds|) && CleanText(row.ths[j]) == k
  {
    var pairs := RowPairs(row);
    assert forall j :: 0 <= j < |pairs| ==> Keys(pairs)[j] == CleanText(row.ths[j]);
  }

  /** The labels in reading order are those of the rows. */
  lemma {:induction false} TablePairsLabels(rows: seq<TableRow>, k: string)
    ensures k in Keys(TablePairs(rows)) <==> exists i :: 0 <= i < |rows| && k in Keys(RowPairs(rows[i]))
    decreases |rows|
  {
    if rows != [] {
      var n := |rows| - 1;
      var init := rows[..n];
      TablePairsLabels(init, k);
      KeysAppend(TablePairs(init), RowPairs(rows[n]));
      assert forall i :: 0 <= i < n ==> init[i] == rows[i];
    }
  }

  /** The keys of a parsed table: exactly the non-empty cleaned labels that have a
      `td` beside them, each once. */
  lemma TableKeys(rows: seq<TableRow>, k: string)
    ensures k in Keys(TableSpec(rows)) <==>
      k != "" && exists i, j :: 0 <= i < |rows| && 0 <= j < Min(|rows[i].ths|, |rows[i].tds|)
                               && CleanText(rows[i].ths[j]) == k
    ensures UniqueKeys(TableSpec(rows))
  {
    var pairs := TablePairs(rows);
    PutPairsKeys([], pairs, {}, k);
    KeysMember(pairs, k);
    TablePairsLabels(rows, k);
    if exists i :: 0 <= i < |rows| && k in Keys(RowPairs(rows[i])) {
      var i :| 0 <= i < |rows| && k in Keys(RowPairs(rows[i]));
      RowLabels(rows[i], k);
    }
    if exists i, j :: 0 <= i < |rows| && 0 <= j < Min(|rows[i].ths|, |rows[i].tds|) && CleanText(rows[i].ths[j]) == k {
      var i, j :| 0 <= i < |rows| && 0 <= j < Min(|rows[i].ths|, |rows[i].tds|) && CleanText(rows[i].ths[j]) == k;
      RowLabels(rows[i], k);
    }
    PutPairsUnique([], pairs, {});
  }

  /** A repeated label keeps the value of its last occurrence in reading order. */
  lemma TableLastWins(rows: seq<TableRow>, k: string) returns (t: nat)
    requires k != "" && exists t :: 0 <= t < |TablePairs(rows)| && TablePairs(rows)[t].0 == k
    ensures t < |TablePairs(rows)| && TablePairs(rows)[t].0 == k
    ensures forall u :: t < u < |TablePairs(rows)| ==> TablePairs(rows)[u].0 != k
    ensures Get(TableSpec(rows), k) == Some(TablePairs(rows)[t].1)
  {
    t := PutPairsLastWins([], TablePairs(rows), {}, k);
  }

  /** Every stored label and value is already clean text. */
  lemma TableEntriesClean(rows: seq<TableRow>)
    ensures forall e :: e in TableSpec(rows) ==> CleanText(e.0) == e.0 && CleanText(e.1) == e.1
  {
    PutPairsEntries([], TablePairs(rows), {});
    TablePairsClean(rows);
  }

  lemma {:induction false} TablePairsClean(rows: seq<TableRow>)
    ensures forall e :: e in TablePairs(rows) ==> CleanText(e.0) == e.0 && CleanText(e.1) == e.1
    decreases |rows|
  {
    if rows != [] {
      var n := |rows| - 1;
      TablePairsClean(rows[..n]);
      var row := rows[n];
      forall e | e in RowPairs(row) ensures CleanText(e.0) == e.0 && CleanText(e.1) == e.1 {
        var j :| 0 <= j < |RowPairs(row)| && RowPairs(row)[j] == e;
        CleanTextIdempotent(row.ths[j]);
        ElementValueClean(row.tds[j]);
      }
    }
  }

  // ---------------------------------------------------------------------------
  // Grids

  /** A body `tr` of a grid: its inner text and its `td`s. */
  datatype GridRow = GridRow(text: string, cells: seq<Cell>)

  /** A `div.w2grid`: the `th` texts of its first `thead tr` (`None` when there is
      no header row) and the rows of its `tbody` (`None` when there is none). */
  datatype Grid = Grid(header: Option<seq<string>>, body: Option<seq<GridRow>>)

  const NoDataText := "데이터가 없음"

  /** Column labels that carry no data: row numbers, check boxes, previews. */
  const SkippedColumns: set<string> := {"No", "NO", "선택", "미리보기"}

  function CleanAll(texts: seq<string>): seq<string> {
    seq(|texts|, k requires 0 <= k < |texts| => CleanText(texts[k]))
  }

  function GridHeaders(g: Grid): seq<string> {
    if g.header.Some? then CleanAll(g.header.value) else []
  }

  /** Header `j` with the value of cell `j`, for as many as both have. */
  function CellPairs(headers: seq<string>, cells: seq<Cell>): seq<(string, string)> {
    seq(Min(|headers|, |cells|), j requires 0 <= j < Min(|headers|, |cells|) => (headers[j], ElementValue(cells[j])))
  }

  /** The record of one body row: its kept columns, a repeated header overwriting. */
  function RowRecord(headers: seq<string>, row: GridRow): Dict<string> {
    PutPairs([], CellPairs(headers, row.cells), SkippedColumns)
  }

  /** Some pair with a kept label has a non-empty value. */
  predicate HasValue(pairs: seq<(string, string)>, skip: set<string>) {
    exists q :: 0 <= q < |pairs| && Kept(pairs[q].0, skip) && pairs[q].1 != ""
  }

  /** Some kept column of the row has a non-empty value (the `has_data` flag). */
  predicate RowHasData(headers: seq<string>, row: GridRow) {
    HasValue(CellPairs(headers, row.cells), SkippedColumns)
  }

  /** A body row the grid parse keeps. */
  predicate KeepsRow(headers: seq<string>, row: GridRow) {
    !Contains(row.text, NoDataText) && RowHasData(headers, row)
  }

  function GridRowsSpec(headers: seq<string>, rows: seq<GridRow>): seq<Dict<string>> {
    if rows == [] then []
    else
      var row := rows[|rows| - 1];
      GridRowsSpec(headers, rows[..|rows| - 1]) + (if KeepsRow(headers, row) then [RowRecord(headers, row)] else [])
  }

  /** The list `_parse_grid` returns. */
  function GridSpec(g: Grid): seq<Dict<string>> {
    var headers := GridHeaders(g);
    if headers == [] || g.body.None? then [] else GridRowsSpec(headers, g.body.value)
  }

  /** The inner loop of `_parse_grid` over one body row's header-value pairs:
      write each kept column into the record and note whether one of the values
      written was non-empty. */
  method FillRecord(pairs: seq<(string, string)>, skip: set<string>) returns (rowData: Dict<string>, hasData: bool)
    ensures rowData == PutPairs([], pairs, skip)
    ensures hasData <==> HasValue(pairs, skip)
  {
    rowData := [];
    hasData := false;
    for j := 0 to |pairs|
      invariant rowData == PutPairs([], pairs[..j], skip)
      invariant hasData <==> HasValue(pairs[..j], skip)
    {
      var (key, val) := pairs[j];
      assert pairs[..j + 1] == pairs[..j] + [pairs[j]];
      PutPairsSnoc([], pairs[..j], pairs[j], skip);
      assert HasValue(pairs[..j + 1], skip) <==> HasValue(pairs[..j], skip) || (Kept(key, skip) && val != "") by {
        assert forall q :: 0 <= q < j ==> pairs[..j + 1][q] == pairs[..j][q];
      }
      if key == "" || key in skip {
        continue;
      }
      rowData := Put(rowData, key, val);
      if val != "" {
        hasData := true;
      }
    }
    assert pairs[..|pairs|] == pairs;
  }

  /** `_parse_grid`: collect the cleaned headers; with none, or without a body,
      return `[]`; otherwise build one record per body row that is not a
      "no data" row and has a non-empty value in a kept column. */
  method ParseGrid(g: Grid) returns (dataList: seq<Dict<string>>)
    ensures dataList == GridSpec(g)
  {
    dataList := [];
    var headers: seq<string> := [];
    if g.header.Some? {
      var ths := g.header.value;
      for t := 0 to |ths|
        invariant headers == CleanAll(ths[..t])
      {
        headers := headers + [CleanText(ths[t])];
      }
      assert ths[..|ths|] == ths;
    }
    assert headers == GridHeaders(g);
    if headers == [] || g.body.None? {
      return;
    }
    var rows := g.body.value;
    for i := 0 to |rows|
      invariant dataList == GridRowsSpec(headers, rows[..i])
    {
      assert rows[..i + 1][..i] == rows[..i];
      var row := rows[i];
      if Contains(row.text, NoDataText) {
        continue;
      }
      var rowData, hasData := FillRecord(CellPairs(headers, row.cells), SkippedColumns);
      if hasData {
        dataList := dataList + [rowData];
      }
    }
    assert rows[..|rows|] == rows;
  }

  /** The records are those of the kept rows: a record is in the list exactly when
      some kept row yields it, and there are never more records than rows. */
  lemma GridRowsMembers(headers: seq<string>, rows: seq<GridRow>, r: Dict<string>)
    ensures r in GridRowsSpec(headers, rows) <==>
      exists i :: 0 <= i < |rows| && KeepsRow(headers, rows[i]) && r == RowRecord(headers, rows[i])
    ensures |GridRowsSpec(headers, rows)| <= |rows|
  {
    if r in GridRowsSpec(headers, rows) {
      GridRowsSound(headers, rows, r);
    }
    if exists i :: 0 <= i < |rows| && KeepsRow(headers, rows[i]) && r == RowRecord(headers, rows[i]) {
      var i :| 0 <= i < |rows| && KeepsRow(headers, rows[i]) && r == RowRecord(headers, rows[i]);
      GridRowsComplete(headers, rows, i);
    }
    GridRowsLength(headers, rows);
  }

  lemma {:induction false} GridRowsSound(headers: seq<string>, rows: seq<GridRow>, r: Dict<string>)
    requires r in GridRowsSpec(headers, rows)
    ensures exists i :: 0 <= i < |rows| && KeepsRow(headers, rows[i]) && r == RowRecord(headers, rows[i])
    decreases |rows|
  {
    var n := |rows| - 1;
    var init := rows[..n];
    if r in GridRowsSpec(headers, init) {
      GridRowsSound(headers, init, r);
      var i :| 0 <= i < |init| && KeepsRow(headers, init[i]) && r == RowRecord(headers, init[i]);
      assert rows[i] == init[i];
    } else {
      assert KeepsRow(headers, rows[n]) && r == RowRecord(headers, rows[n]);
    }
  }

  lemma {:induction false} GridRowsComplete(headers: seq<string>, rows: seq<GridRow>, i: nat)
    requires i < |rows| && KeepsRow(headers, rows[i])
    ensures RowRecord(headers, rows[i]) in GridRowsSpec(headers, rows)
    decreases |rows|
  {
    var n := |rows| - 1;
    if i < n {
      var init := rows[..n];
      assert init[i] == rows[i];
      GridRowsComplete(headers, init, i);
    }
  }

  lemma {:induction false} GridRowsLength(headers: seq<string>, rows: seq<GridRow>)
    ensures |GridRowsSpec(headers, rows)| <= |rows|
    decreases |rows|
  {
    if rows != [] {
      GridRowsLength(headers, rows[..|rows| - 1]);
    }
  }

  /** Every record's labels are distinct, kept header labels, and its values are
      clean text. */
  lemma GridRecordShape(headers: seq<string>, row: GridRow)
    ensures UniqueKeys(RowRecord(headers, row))
    ensures forall e :: e in RowRecord(headers, row) ==>
      Kept(e.0, SkippedColumns) && e.0 in headers && CleanText(e.1) == e.1
  {
    var pairs := CellPairs(headers, row.cells);
    PutPairsUnique([], pairs, SkippedColumns);
    PutPairsEntries([], pairs, SkippedColumns);
    forall e | e in RowRecord(headers, row)
      ensures Kept(e.0, SkippedColumns) && e.0 in headers && CleanText(e.1) == e.1
    {
      var j :| 0 <= j < |pairs| && pairs[j] == e;
      assert e.0 == headers[j];
      ElementValueClean(row.cells[j]);
      var k := e.0;
      PutPairsKeys([], pairs, SkippedColumns, k);
      assert k in Keys(RowRecord(headers, row)) by {
        var t :| 0 <= t < |RowRecord(headers, row)| && RowRecord(headers, row)[t] == e;
        assert Keys(RowRecord(headers, row))[t] == k;
      }
    }
  }

  /** A header row without labels, or a grid without a body, yields no records. */
  lemma GridWithoutHeadersOrBody(g: Grid)
    requires g.header.None? || g.header == Some([]) || g.body.None?
    ensures GridSpec(g) == []
  {
  }

  /** The `has_data` flag looks at the values written, not the values kept: with
      the header "A" twice and the values "x" and "", the row is kept and its one
      field is `A: ""`. */
  lemma DuplicateHeaderKeepsEmptyRecord()
    ensures var g := Grid(Some(["A", "A"]), Some([GridRow("x", [Cell(NoSelect, Some("x"), ""), Cell(NoSelect, None, "")])]));
      GridSpec(g) == [[("A", "")]]
  {
    var cx, ce := Cell(NoSelect, Some("x"), ""), Cell(NoSelect, None, "");
    var g := Grid(Some(["A", "A"]), Some([GridRow("x", [cx, ce])]));
    var row := GridRow("x", [cx, ce]);
    assert StripLeading("A") == "A" && StripTrailing("A") == "A";
    assert ReplaceChar("A", '\n', ' ') == "A" && DeleteChar("A", '\r') == "A";
    assert CleanText("A") == "A";
    assert StripLeading("x") == "x" && StripTrailing("x") == "x";
    assert ReplaceChar("x", '\n', ' ') == "x" && DeleteChar("x", '\r') == "x";
    assert ElementValue(cx) == "x";
    assert ElementValue(ce) == "";
    var headers := ["A", "A"];
    assert GridHeaders(g) == headers;
    var pairs := CellPairs(headers, [cx, ce]);
    assert pairs == [("A", "x"), ("A", "")];
    assert !Contains("x", NoDataText);
    assert RowHasData(headers, row) by {
      assert Kept(pairs[0].0, SkippedColumns) && pairs[0].1 != "";
    }
    assert pairs[..1] == [("A", "x")] && pairs[..1][..0] == [];
    assert PutPairs([], pairs[..1], SkippedColumns) == [("A", "x")];
    assert RowRecord(headers, row) == [("A", "")];
    assert [row][..0] == [];
  }

  // ---------------------------------------------------------------------------
  // Sections of the detail page

  /** The `div` following a section's `dfbox`. */
  datatype ContentBox = ContentBox(visible: bool, hasGrid: bool, hasTable: bool, text: string, grid: Grid, table: seq<TableRow>)

  /** A `.df_tit` title with its content box (`None` when there is none). An
      `Unreadable` section is one whose DOM queries raise. */
  datatype Section = Section(titleVisible: bool, titleText: string, box: Option<ContentBox>) | Unreadable

  datatype Body = TableBody(fields: Dict<string>) | GridBody(records: seq<Dict<string>>)

  /** `{"sections": {...}, "files": [...]}`. */
  datatype Detail = Detail(sections: Dict<Body>, files: seq<Dict<string>>)

  /** What the scan does with one section. */
  datatype Route = Skip | ToFiles(records: seq<Dict<string>>) | ToSection(name: string, body: Body)

  predicate IsCalendar(text: string) {
    (Contains(text, "Sunday") && Contains(text, "Monday")) || (Contains(text, "일요일") && Contains(text, "월요일"))
  }

  predicate IsSearchForm(text: string) {
    Contains(text, "검색") && Contains(text, "초기화")
  }

  const FileMarker := "파일"

  /** A visible, non-empty title over a visible box that holds a grid or a table,
      and that is neither a calendar nor a search form. */
  predicate IsDataSection(s: Section) {
    s.Section? && s.titleVisible && CleanText(s.titleText) != ""
    && s.box.Some? && s.box.value.visible && (s.box.value.hasGrid || s.box.value.hasTable)
    && !IsCalendar(s.box.value.text) && !IsSearchForm(s.box.value.text)
  }

  /** A data section's grid is preferred to its table; a grid under a title that
      mentions "파일" is the attachment list. */
  function RouteOf(s: Section): Route {
    if !IsDataSection(s) then Skip
    else
      var name := CleanText(s.titleText);
      var box := s.box.value;
      if box.hasGrid then
        if Contains(name, FileMarker) then ToFiles(GridSpec(box.grid)) else ToSection(name, GridBody(GridSpec(box.grid)))
      else ToSection(name, TableBody(TableSpec(box.table)))
  }

  /** What each route means: only data sections are stored; attachment grids go to
      `files`; a section is stored under its cleaned, non-empty title, as a grid
      when the box has one and as a table otherwise. */
  lemma RouteOfShape(s: Section)
    ensures RouteOf(s).Skip? <==> !IsDataSection(s)
    ensures RouteOf(s).ToFiles? ==> (s.box.value.hasGrid && Contains(CleanText(s.titleText), FileMarker)
      && RouteOf(s).records == GridSpec(s.box.value.grid))
    ensures RouteOf(s).ToSection? ==> RouteOf(s).name == CleanText(s.titleText) && RouteOf(s).name != ""
    ensures RouteOf(s).ToSection? && RouteOf(s).body.GridBody? ==>
      !Contains(RouteOf(s).name, FileMarker) && RouteOf(s).body.records == GridSpec(s.box.value.grid)
    ensures RouteOf(s).ToSection? && RouteOf(s).body.TableBody? ==>
      !s.box.value.hasGrid && RouteOf(s).body.fields == TableSpec(s.box.value.table)
  {
  }

  /** How many sections the scan gets through: all up to the first unreadable one. */
  function ReadableCount(ss: seq<Section>): (n: nat)
    ensures n <= |ss|
    ensures forall i :: 0 <= i < n ==> ss[i].Section?
    ensures n < |ss| ==> ss[n].Unreadable?
  {
    if ss == [] || ss[0].Unreadable? then 0 else 1 + ReadableCount(ss[1..])
  }

  function Routes(ss: seq<Section>): seq<Route> {
    seq(|ss|, i requires 0 <= i < |ss| => RouteOf(ss[i]))
  }

  /** The `sections[name] = ...` assignments of these routes, in order. */
  function SectionPairs(rs: seq<Route>): seq<(string, Body)> {
    if rs == [] then []
    else
      var r := rs[|rs| - 1];
      SectionPairs(rs[..|rs| - 1]) + (if r.ToSection? then [(r.name, r.body)] else [])
  }

  /** `files` after these routes: the records of the last attachment grid. */
  function FilesOf(rs: seq<Route>): seq<Dict<string>> {
    if rs == [] then []
    else
      var r := rs[|rs| - 1];
      if r.ToFiles? then r.records else FilesOf(rs[..|rs| - 1])
  }

  function Collect(rs: seq<Route>): Detail {
    Detail(PutPairs([], SectionPairs(rs), {}), FilesOf(rs))
  }

  /** The detail the scan returns: the routes of the readable sections, collected. */
  function DetailOf(ss: seq<Section>): Detail {
    Collect(Routes(ss[..ReadableCount(ss)]))
  }

  /** The section scan of `extract_detail_info`; one `try` guards the whole loop,
      so an unreadable section ends the scan with what was collected. */
  method ExtractDetailInfo(ss: seq<Section>) returns (detail: Detail)
    ensures detail == DetailOf(ss)
  {
    detail := Detail([], []);
    var i := 0;
    while i < |ss| && ss[i].Section?
      invariant i <= ReadableCount(ss)
      invariant detail == Collect(Routes(ss[..i]))
      decreases |ss| - i
    {
      ReadableCountStep(ss, i);
      var s := ss[i];
      ghost var before := Routes(ss[..i]);
      RoutesSnoc(ss, i);
      assert Routes(ss[..i + 1]) == before + [RouteOf(s)];
      CollectSnoc(before, RouteOf(s));
      RouteOfShape(s);
      if !s.titleVisible {
        i := i + 1;
        continue;
      }
      var name := CleanText(s.titleText);
      if name == "" || s.box.None? || !s.box.value.visible {
        i := i + 1;
        continue;
      }
      var box := s.box.value;
      if !(box.hasGrid || box.hasTable) || IsCalendar(box.text) || IsSearchForm(box.text) {
        i := i + 1;
        continue;
      }
      assert IsDataSection(s);
      if box.hasGrid {
        var gridData := ParseGrid(box.grid);
        if Contains(name, FileMarker) {
          detail := detail.(files := gridData);
        } else {
          detail := detail.(sections := Put(detail.sections, name, GridBody(gridData)));
        }
      } else {
        var tableData := ParseTable(box.table);
        detail := detail.(sections := Put(detail.sections, name, TableBody(tableData)));
      }
      i := i + 1;
    }
    assert i == ReadableCount(ss);
  }

  lemma ReadableCountStep(ss: seq<Section>, i: nat)
    requires i < |ss| && ss[i].Section? && i <= ReadableCount(ss)
    ensures i < ReadableCount(ss)
  {
  }

  lemma RoutesSnoc(ss: seq<Section>, i: nat)
    requires i < |ss|
    ensures Routes(ss[..i + 1]) == Routes(ss[..i]) + [RouteOf(ss[i])]
  {
    assert forall k :: 0 <= k < i ==> ss[..i + 1][k] == ss[..i][k];
  }

  /** One more route: a stored section is assigned, an attachment grid replaces
      `files`, a skipped section changes nothing. */
  lemma CollectSnoc(rs: seq<Route>, r: Route)
    requires r.ToSection? ==> r.name != ""
    ensures Collect(rs + [r]) == match r
      case Skip => Collect(rs)
      case ToFiles(records) => Collect(rs).(files := records)
      case ToSection(name, body) => Collect(rs).(sections := Put(Collect(rs).sections, name, body))
  {
    assert (rs + [r])[..|rs|] == rs;
    if r.ToSection? {
      assert SectionPairs(rs + [r]) == SectionPairs(rs) + [(r.name, r.body)];
      assert FilesOf(rs + [r]) == FilesOf(rs);
      PutPairsSnoc([], SectionPairs(rs), (r.name, r.body), {});
    } else {
      assert SectionPairs(rs + [r]) == SectionPairs(rs) + [];
      assert SectionPairs(rs) + [] == SectionPairs(rs);
    }
  }

  // Properties of the scan

  /** Attachments: `files` holds the records of the last attachment grid, or is
      empty when there was none. */
  lemma {:induction false} FilesAreLastAttachmentGrid(rs: seq<Route>) returns (i: int)
    ensures -1 <= i < |rs|
    ensures i == -1 ==> FilesOf(rs) == [] && forall j :: 0 <= j < |rs| ==> !rs[j].ToFiles?
    ensures i >= 0 ==> (rs[i].ToFiles? && FilesOf(rs) == rs[i].records
      && forall j :: i < j < |rs| ==> !rs[j].ToFiles?)
    decreases |rs|
  {
    if rs == [] {
      i := -1;
    } else {
      var n := |rs| - 1;
      if rs[n].ToFiles? {
        i := n;
      } else {
        i := FilesAreLastAttachmentGrid(rs[..n]);
        assert forall j :: 0 <= j < n ==> rs[..n][j] == rs[j];
      }
    }
  }

  lemma {:induction false} SectionPairsNames(rs: seq<Route>, k: string)
    ensures k in Keys(SectionPairs(rs)) <==> exists i :: 0 <= i < |rs| && rs[i].ToSection? && rs[i].name == k
    decreases |rs|
  {
    if rs != [] {
      var n := |rs| - 1;
      var init := rs[..n];
      SectionPairsNames(init, k);
      assert forall i :: 0 <= i < n ==> init[i] == rs[i];
      var r := rs[n];
      var b: seq<(string, Body)> := if r.ToSection? then [(r.name, r.body)] else [];
      KeysAppend(SectionPairs(init), b);
      assert Keys(b) == if r.ToSection? then [r.name] else [];
    }
  }

  /** The stored names: each readable data section that is not an attachment grid
      contributes its cleaned title, once; a title given twice keeps the later
      section. */
  lemma DetailSectionNames(ss: seq<Section>, k: string)
    ensures k in Keys(DetailOf(ss).sections) <==>
      exists i :: 0 <= i < ReadableCount(ss) && RouteOf(ss[i]).ToSection? && RouteOf(ss[i]).name == k
    ensures UniqueKeys(DetailOf(ss).sections)
  {
    var read := ss[..ReadableCount(ss)];
    var rs := Routes(read);
    var pairs := SectionPairs(rs);
    PutPairsKeys([], pairs, {}, k);
    KeysMember(pairs, k);
    SectionPairsNames(rs, k);
    PutPairsUnique([], pairs, {});
    if k in Keys(pairs) {
      var i :| 0 <= i < |rs| && rs[i].ToSection? && rs[i].name == k;
      assert rs[i] == RouteOf(ss[i]);
      RouteOfShape(ss[i]);
    }
    if exists i :: 0 <= i < ReadableCount(ss) && RouteOf(ss[i]).ToSection? && RouteOf(ss[i]).name == k {
      var i :| 0 <= i < ReadableCount(ss) && RouteOf(ss[i]).ToSection? && RouteOf(ss[i]).name == k;
      assert rs[i] == RouteOf(ss[i]);
      RouteOfShape(ss[i]);
    }
  }

  /** Over routes that never store under an empty name, the body stored under a
      name is the one of the last route to that name. */
  lemma {:induction false} SectionLastWins(rs: seq<Route>, k: string) returns (i: nat)
    requires forall j :: 0 <= j < |rs| && rs[j].ToSection? ==> rs[j].name != ""
    requires exists j :: 0 <= j < |rs| && rs[j].ToSection? && rs[j].name == k
    ensures i < |rs| && rs[i].ToSection? && rs[i].name == k
    ensures forall j :: i < j < |rs| ==> !(rs[j].ToSection? && rs[j].name == k)
    ensures Get(Collect(rs).sections, k) == Some(rs[i].body)
    decreases |rs|
  {
    var n := |rs| - 1;
    var init, r := rs[..n], rs[n];
    assert rs == init + [r];
    CollectSnoc(init, r);
    if r.ToSection? && r.name == k {
      i := n;
      PutGet(Collect(init).sections, k, r.body, k);
    } else {
      var j :| 0 <= j < |rs| && rs[j].ToSection? && rs[j].name == k;
      assert init[j] == rs[j];
      i := SectionLastWins(init, k);
      assert init[i] == rs[i];
      if r.ToSection? {
        PutGet(Collect(init).sections, r.name, r.body, k);
      }
    }
  }

  /** A title given to several readable data sections keeps the body of the last
      one. */
  lemma DetailLastSectionWins(ss: seq<Section>, k: string) returns (i: nat)
    requires exists j :: 0 <= j < ReadableCount(ss) && RouteOf(ss[j]).ToSection? && RouteOf(ss[j]).name == k
    ensures i < ReadableCount(ss) && RouteOf(ss[i]).ToSection? && RouteOf(ss[i]).name == k
    ensures forall j :: i < j < ReadableCount(ss) ==> !(RouteOf(ss[j]).ToSection? && RouteOf(ss[j]).name == k)
    ensures Get(DetailOf(ss).sections, k) == Some(RouteOf(ss[i]).body)
  {
    var rs := Routes(ss[..ReadableCount(ss)]);
    assert forall j :: 0 <= j < |rs| ==> rs[j] == RouteOf(ss[j]);
    forall j | 0 <= j < |rs| && rs[j].ToSection?
      ensures rs[j].name != ""
    {
      RouteOfShape(ss[j]);
    }
    var j :| 0 <= j < ReadableCount(ss) && RouteOf(ss[j]).ToSection? && RouteOf(ss[j]).name == k;
    assert rs[j] == RouteOf(ss[j]);
    i := SectionLastWins(rs, k);
  }

  /** `files` is the attachment grid of the last readable section that has one. */
  lemma DetailFiles(ss: seq<Section>) returns (i: int)
    ensures -1 <= i < ReadableCount(ss)
    ensures i == -1 ==> (DetailOf(ss).files == []
      && forall j :: 0 <= j < ReadableCount(ss) ==> !RouteOf(ss[j]).ToFiles?)
    ensures i >= 0 ==> (RouteOf(ss[i]).ToFiles? && DetailOf(ss).files == GridSpec(ss[i].box.value.grid)
      && forall j :: i < j < ReadableCount(ss) ==> !RouteOf(ss[j]).ToFiles?)
  {
    var read := ss[..ReadableCount(ss)];
    var rs := Routes(read);
    i := FilesAreLastAttachmentGrid(rs);
    assert forall j :: 0 <= j < |rs| ==> rs[j] == RouteOf(ss[j]);
    if i >= 0 {
      RouteOfShape(ss[i]);
    }
  }

  /** Nothing after an unreadable section reaches the result. */
  lemma ScanStopsAtUnreadable(pre: seq<Section>, post: seq<Section>)
    ensures DetailOf(pre + [Unreadable] + post) == DetailOf(pre)
  {
    var ss := pre + [Unreadable] + post;
    ReadablePrefix(pre, [Unreadable] + post);
    assert ss == pre + ([Unreadable] + post);
    var n := ReadableCount(pre);
    assert ss[..n] == pre[..n];
  }

  lemma {:induction false} ReadablePrefix(pre: seq<Section>, post: seq<Section>)
    requires post != [] && post[0].Unreadable?
    ensures ReadableCount(pre + post) == ReadableCount(pre)
    decreases |pre|
  {
    if pre == [] {
      assert pre + post == post;
    } else {
      assert (pre + post)[1..] == pre[1..] + post;
      if pre[0].Section? {
        ReadablePrefix(pre[1..], post);
      }
    }
  }
}
