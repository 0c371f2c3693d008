/** `_html_table_to_markdown_rapid` (utils/embedding.py) as the imperative
    code it is: lists built by appending, `rowspan_tracker` as an array updated
    in place, `col_idx` advanced by while loops, and `markdown` accumulated.
    Each phase is proved against its function in TableSpec. */
module TableMarkdown {
  import opened Wrappers
  import opened TableSpec
  import opened TableFacts

  /** One row of phase 1: every cell appended `colspan` times with its text
      and rowspan. `ok` is false where a span attribute is not an integer. */
  method FlattenRowLoop(row: seq<HtmlCell>) returns (ok: bool, cells: seq<FlatCell>)
    ensures ok == RowParses(row)
    ensures ok ==> cells == FlattenRow(row)
  {
    cells := [];
    var j := 0;
    while j < |row|
      invariant 0 <= j <= |row|
      invariant RowParses(row[..j]) && cells == FlattenRow(row[..j])
    {
      var cell := row[j];
      if cell.rowspan.NotAnInteger? || cell.colspan.NotAnInteger? {
        assert !CellParses(row[j]);
        return false, [];
      }
      var rowspan, colspan := cell.rowspan.n, cell.colspan.n;
      ghost var before := cells;
      var k := 0;
      while k < colspan
        invariant 0 <= k && (colspan > 0 ==> k <= colspan) && (colspan <= 0 ==> k == 0)
        invariant cells == before + Copies(FlatCell(cell.text, rowspan), k)
      {
        cells := cells + [FlatCell(cell.text, rowspan)];
        k := k + 1;
        assert Copies(FlatCell(cell.text, rowspan), k)
            == Copies(FlatCell(cell.text, rowspan), k - 1) + [FlatCell(cell.text, rowspan)];
      }
      assert Copies(FlatCell(cell.text, rowspan), k) == Copies(FlatCell(cell.text, rowspan), colspan);
      assert row[..j + 1][..j] == row[..j];
      j := j + 1;
    }
    assert row[..j] == row;
    ok := true;
  }

  /** Phase 1: every row flattened in turn, tracking `max_cols`. A span
      attribute that is not an integer makes `int(...)` raise. */
  method ExpandColspans(rows: seq<seq<HtmlCell>>) returns (ok: bool, flat: seq<seq<FlatCell>>, maxCols: nat)
    ensures ok == SpansParse(rows)
    ensures ok ==> flat == FlattenRows(rows) && maxCols == MaxWidth(flat)
  {
    flat, maxCols := [], 0;
    var i := 0;
    while i < |rows|
      invariant 0 <= i <= |rows| && |flat| == i
      invariant forall k :: 0 <= k < i ==> RowParses(rows[k]) && flat[k] == FlattenRow(rows[k])
      invariant maxCols == MaxWidth(flat)
    {
      var rowOk, cells := FlattenRowLoop(rows[i]);
      if !rowOk {
        return false, [], 0;
      }
      flat := flat + [cells];
      assert flat[..|flat| - 1] == flat[..i];
      maxCols := if |cells| > maxCols then |cells| else maxCols;
      i := i + 1;
    }
    assert forall k :: 0 <= k < |rows| ==> flat[k] == FlattenRows(rows)[k];
    ok := true;
  }

  /** The `while col_idx < max_cols and rowspan_tracker[col_idx] > 0` loop:
      a placeholder for every covered column, each covering count lowered by one. */
  method SkipCoveredInPlace(tracker: array<int>, row: seq<GridCell>, col: nat, ghost maxCols: nat)
    returns (row': seq<GridCell>, col': nat)
    requires tracker.Length == maxCols
    modifies tracker
    ensures RowState(row', col', tracker[..]) == SkipCovered(RowState(row, col, old(tracker[..])), maxCols)
  {
    row', col' := row, col;
    while col' < tracker.Length && tracker[col'] > 0
      invariant SkipCovered(RowState(row, col, old(tracker[..])), maxCols)
             == SkipCovered(RowState(row', col', tracker[..]), maxCols)
      decreases tracker.Length - col'
    {
      row' := row' + [Placeholder];
      tracker[col'] := tracker[col'] - 1;
      col' := col' + 1;
    }
  }

  /** The trailing `while col_idx < max_cols` loop: a placeholder for each
      covered column, "" for the others. */
  method PadInPlace(tracker: array<int>, row: seq<GridCell>, col: nat, ghost maxCols: nat)
    returns (row': seq<GridCell>, col': nat)
    requires tracker.Length == maxCols
    modifies tracker
    ensures RowState(row', col', tracker[..]) == PadRow(RowState(row, col, old(tracker[..])), maxCols)
  {
    row', col' := row, col;
    while col' < tracker.Length
      invariant PadRow(RowState(row, col, old(tracker[..])), maxCols) == PadRow(RowState(row', col', tracker[..]), maxCols)
      decreases tracker.Length - col'
    {
      if tracker[col'] > 0 {
        row' := row' + [Placeholder];
        tracker[col'] := tracker[col'] - 1;
      } else {
        row' := row' + [Filled("")];
      }
      col' := col' + 1;
    }
  }

  /** One iteration of the row loop of phase 2: skip covered columns before
      each cell, record rowspans in `tracker`, then pad up to `max_cols`.
      `ok` is false where writing the tracker raises IndexError. */
  method ExpandRowInPlace(tracker: array<int>, cells: seq<FlatCell>, maxCols: nat) returns (ok: bool, expandedRow: seq<GridCell>)
    requires tracker.Length == maxCols
    modifies tracker
    ensures ExpandRow(cells, old(tracker[..]), maxCols) == if ok then Some((expandedRow, tracker[..])) else None
  {
    ghost var t0 := tracker[..];
    expandedRow := [];
    var col: nat := 0;
    var c := 0;
    while c < |cells|
      invariant 0 <= c <= |cells|
      invariant PlaceCells(RowState([], 0, t0), cells, maxCols)
             == PlaceCells(RowState(expandedRow, col, tracker[..]), cells[c..], maxCols)
    {
      var cell := cells[c];
      assert cells[c..][1..] == cells[c + 1..];
      expandedRow, col := SkipCoveredInPlace(tracker, expandedRow, col, maxCols);
      expandedRow := expandedRow + [Filled(cell.text)];
      if cell.rowspan > 1 {
        if col >= maxCols {
          return false, expandedRow;
        }
        tracker[col] := cell.rowspan - 1;
      }
      col := col + 1;
      c := c + 1;
    }
    expandedRow, col := PadInPlace(tracker, expandedRow, col, maxCols);
    ok := true;
  }

  /** `acc` followed by the rows still to come, or the failure among them. */
  function Prepend(acc: seq<seq<GridCell>>, rest: Option<seq<seq<GridCell>>>): Option<seq<seq<GridCell>>>
  {
    match rest
    case None => None
    case Some(r) => Some(acc + r)
  }

  lemma PrependTwice(acc: seq<seq<GridCell>>, row: seq<GridCell>, rest: Option<seq<seq<GridCell>>>)
    ensures Prepend(acc, Prepend([row], rest)) == Prepend(acc + [row], rest)
  {
    if rest.Some? {
      assert acc + ([row] + rest.value) == (acc + [row]) + rest.value;
    }
  }

  /** Phase 2: `rowspan_tracker = [0] * max_cols`, then every row expanded in
      turn against the tracker the previous rows left. */
  method ExpandRowspans(flat: seq<seq<FlatCell>>, maxCols: nat) returns (grid: Option<seq<seq<GridCell>>>)
    ensures grid == ExpandRows(flat, Zeros(maxCols), maxCols)
  {
    var tracker := new int[maxCols](_ => 0);
    assert tracker[..] == Zeros(maxCols);
    var expanded: seq<seq<GridCell>> := [];
    var r := 0;
    assert flat[0..] == flat;
    if ExpandRows(flat, tracker[..], maxCols).Some? {
      assert [] + ExpandRows(flat, tracker[..], maxCols).value == ExpandRows(flat, tracker[..], maxCols).value;
    }
    while r < |flat|
      invariant 0 <= r <= |flat| && tracker.Length == maxCols
      invariant ExpandRows(flat, Zeros(maxCols), maxCols) == Prepend(expanded, ExpandRows(flat[r..], tracker[..], maxCols))
    {
      assert flat[r..][1..] == flat[r + 1..];
      ghost var before := tracker[..];
      var ok, row := ExpandRowInPlace(tracker, flat[r], maxCols);
      if !ok {
        assert ExpandRows(flat[r..], before, maxCols) == None;
        return None;
      }
      assert ExpandRows(flat[r..], before, maxCols) == Prepend([row], ExpandRows(flat[r + 1..], tracker[..], maxCols));
      PrependTwice(expanded, row, ExpandRows(flat[r + 1..], tracker[..], maxCols));
      expanded := expanded + [row];
      r := r + 1;
    }
    assert expanded + [] == expanded;
    grid := Some(expanded);
  }

  /** Phase 3: the header and separator lines when the header is non-empty,
      then one line per body row. */
  method RenderGrid(grid: seq<seq<GridCell>>) returns (markdown: string)
    requires grid != []
    ensures markdown == RenderMarkdown(grid)
  {
    var headers := grid[0];
    markdown := "";
    if headers != [] {
      markdown := markdown + RowLine(headers);
      markdown := markdown + SeparatorLine(headers);
    }
    var r := 1;
    while r < |grid|
      invariant 1 <= r <= |grid|
      invariant markdown + BodyLines(grid[r..]) == RenderMarkdown(grid)
    {
      assert grid[r..][1..] == grid[r + 1..];
      markdown := markdown + RowLine(grid[r]);
      r := r + 1;
    }
  }

  /** The converter: every exception branch returns "". */
  method HtmlTableToMarkdown(t: HtmlTable) returns (markdown: string)
    ensures markdown == TableToMarkdown(t)
    ensures ConversionFails(t) ==> markdown == ""
  {
    if t.NoTable? {
      return "";
    }
    var ok, flat, maxCols := ExpandColspans(t.rows);
    if !ok {
      return "";
    }
    var grid := ExpandRowspans(flat, maxCols);
    if grid.None? || grid.value == [] {
      return "";
    }
    markdown := RenderGrid(grid.value);
  }
}
