/** The HTML-table to Markdown conversion of `_html_table_to_markdown_rapid`
    (utils/embedding.py), as functions: the three phases (colspan expansion,
    rowspan expansion over a tracker, Markdown rendering), the error branches
    that make the converter return "", and what each phase guarantees. */
module TableSpec {
  import opened Wrappers
  import opened Text

  // ---------------------------------------------------------------------------
  // Input: the table as the HTML parser delivers it
  // ---------------------------------------------------------------------------

  /** A rowspan/colspan attribute after `int(...)`: a number, or text that
      `int` rejects (which raises ValueError). A missing attribute reads as Span(1). */
  datatype SpanAttr = Span(n: int) | NotAnInteger

  /** One <td>/<th> element: its stripped text and its two span attributes. */
  datatype HtmlCell = HtmlCell(text: string, rowspan: SpanAttr, colspan: SpanAttr)

  /** The result of looking for the <table> element: none, or its <tr> rows. */
  datatype HtmlTable = NoTable | Table(rows: seq<seq<HtmlCell>>)

  /** A `{'text': ..., 'rowspan': ...}` record produced by phase 1. */
  datatype FlatCell = FlatCell(text: string, rowspan: int)

  /** A slot of the expanded grid: a cell text (padding is Filled("")) or the
      None placeholder for a column covered by a cell above. */
  datatype GridCell = Filled(text: string) | Placeholder

  // ---------------------------------------------------------------------------
  // Phase 1: colspan expansion and the column count
  // ---------------------------------------------------------------------------

  predicate CellParses(c: HtmlCell)
  {
    c.rowspan.Span? && c.colspan.Span?
  }

  predicate RowParses(row: seq<HtmlCell>)
  {
    forall j :: 0 <= j < |row| ==> CellParses(row[j])
  }

  /** No span attribute of the table makes `int(...)` raise. */
  predicate SpansParse(rows: seq<seq<HtmlCell>>)
  {
    forall i :: 0 <= i < |rows| ==> RowParses(rows[i])
  }

  /** `for _ in range(n): cells.append(c)`: n copies, none when n <= 0. */
  function Copies(c: FlatCell, n: int): (r: seq<FlatCell>)
    ensures |r| == if n > 0 then n else 0
    ensures forall i :: 0 <= i < |r| ==> r[i] == c
    decreases n
  {
    if n <= 0 then [] else [c] + Copies(c, n - 1)
  }

  /** The number of columns a cell occupies after phase 1. */
  function Width(c: HtmlCell): nat
    requires CellParses(c)
  {
    if c.colspan.n > 0 then c.colspan.n else 0
  }

  /** The number of columns a whole row occupies after phase 1. */
  function TotalWidth(row: seq<HtmlCell>): nat
    requires RowParses(row)
  {
    if row == [] then 0 else TotalWidth(row[..|row| - 1]) + Width(row[|row| - 1])
  }

  /** The `cells` list phase 1 builds from one row. */
  function FlattenRow(row: seq<HtmlCell>): seq<FlatCell>
    requires RowParses(row)
  {
    if row == [] then []
    else
      var last := row[|row| - 1];
      FlattenRow(row[..|row| - 1]) + Copies(FlatCell(last.text, last.rowspan.n), last.colspan.n)
  }

  /** The `rows` list phase 1 builds. */
  function FlattenRows(rows: seq<seq<HtmlCell>>): seq<seq<FlatCell>>
    requires SpansParse(rows)
  {
    seq(|rows|, i requires 0 <= i < |rows| => FlattenRow(rows[i]))
  }

  /** `max_cols` after phase 1. */
  function MaxWidth(flat: seq<seq<FlatCell>>): nat
  {
    if flat == [] then 0
    else
      var w := MaxWidth(flat[..|flat| - 1]);
      if |flat[|flat| - 1]| > w then |flat[|flat| - 1]| else w
  }

  /** Phase 1 emits, for every cell k of a row, exactly `colspan` copies of its
      text and rowspan, at the positions after the copies of the cells before
      it, and nothing else. */
  lemma {:induction false} FlattenRowAt(row: seq<HtmlCell>, k: int, m: int)
    requires RowParses(row)
    requires 0 <= k < |row| && 0 <= m < Width(row[k])
    ensures |FlattenRow(row)| == TotalWidth(row)
    ensures TotalWidth(row[..k]) + m < |FlattenRow(row)|
    ensures FlattenRow(row)[TotalWidth(row[..k]) + m] == FlatCell(row[k].text, row[k].rowspan.n)
  {
    var init := row[..|row| - 1];
    assert RowParses(init);
    FlattenRowLength(init);
    if k == |row| - 1 {
      assert row[..k] == init;
    } else {
      assert init[..k] == row[..k];
      FlattenRowAt(init, k, m);
      TotalWidthPrefix(init, k);
    }
  }

  lemma {:induction false} FlattenRowLength(row: seq<HtmlCell>)
    requires RowParses(row)
    ensures |FlattenRow(row)| == TotalWidth(row)
  {
    if row != [] {
      var init := row[..|row| - 1];
      assert RowParses(init);
      FlattenRowLength(init);
    }
  }

  /** The widths of a prefix never exceed those of the whole row. */
  lemma {:induction false} TotalWidthPrefix(row: seq<HtmlCell>, k: int)
    requires RowParses(row) && 0 <= k <= |row|
    ensures RowParses(row[..k]) && TotalWidth(row[..k]) <= TotalWidth(row)
    decreases |row|
  {
    assert RowParses(row[..k]);
    if k < |row| {
      var init := row[..|row| - 1];
      assert init[..k] == row[..k];
      TotalWidthPrefix(init, k);
    } else {
      assert row[..k] == row;
    }
  }

  /** `max_cols` is the length of the longest flattened row, or 0 for no rows. */
  lemma {:induction false} MaxWidthIsMaximum(flat: seq<seq<FlatCell>>)
    ensures forall i :: 0 <= i < |flat| ==> |flat[i]| <= MaxWidth(flat)
    ensures flat == [] ==> MaxWidth(flat) == 0
    ensures flat != [] ==> exists i :: 0 <= i < |flat| && |flat[i]| == MaxWidth(flat)
  {
    if flat != [] {
      var init := flat[..|flat| - 1];
      MaxWidthIsMaximum(init);
      if MaxWidth(flat) == |flat[|flat| - 1]| {
        assert |flat[|flat| - 1]| == MaxWidth(flat);
      } else {
        var i :| 0 <= i < |init| && |init[i]| == MaxWidth(init);
        assert |flat[i]| == MaxWidth(flat);
      }
    }
  }

  // ---------------------------------------------------------------------------
  // Phase 2: rowspan expansion
  // ---------------------------------------------------------------------------

  /** The loop state of phase 2 while one row is expanded: `expanded_row`,
      `col_idx` and the contents of `rowspan_tracker`. */
  datatype RowState = RowState(row: seq<GridCell>, col: nat, tracker: seq<int>)

  /** `rowspan_tracker = [0] * max_cols`. */
  function Zeros(n: nat): (r: seq<int>)
    ensures |r| == n && forall j :: 0 <= j < n ==> r[j] == 0
  {
    seq(n, _ => 0)
  }

  /** The inner while loop: a None placeholder for every covered column,
      decrementing that column's tracker entry. */
  function SkipCovered(st: RowState, maxCols: nat): (r: RowState)
    requires |st.tracker| == maxCols
    ensures |r.tracker| == maxCols
    decreases maxCols - st.col
  {
    if st.col < maxCols && st.tracker[st.col] > 0 then
      SkipCovered(RowState(st.row + [Placeholder], st.col + 1,
                           st.tracker[st.col := st.tracker[st.col] - 1]), maxCols)
    else st
  }

  /** One iteration of `for cell in row`: skip covered columns, append the
      text, record a rowspan above one in the tracker. Writing the tracker at
      a column at or beyond `max_cols` raises IndexError (None here). */
  function PlaceCell(st: RowState, cell: FlatCell, maxCols: nat): (r: Option<RowState>)
    requires |st.tracker| == maxCols
    ensures r.Some? ==> |r.value.tracker| == maxCols
  {
    var s := SkipCovered(st, maxCols);
    if cell.rowspan > 1 then
      if s.col < maxCols then
        Some(RowState(s.row + [Filled(cell.text)], s.col + 1, s.tracker[s.col := cell.rowspan - 1]))
      else None
    else Some(RowState(s.row + [Filled(cell.text)], s.col + 1, s.tracker))
  }

  /** The remaining iterations of `for cell in row`. */
  function PlaceCells(st: RowState, cells: seq<FlatCell>, maxCols: nat): (r: Option<RowState>)
    requires |st.tracker| == maxCols
    ensures r.Some? ==> |r.value.tracker| == maxCols
    decreases |cells|
  {
    if cells == [] then Some(st)
    else match PlaceCell(st, cells[0], maxCols)
      case None => None
      case Some(s) => PlaceCells(s, cells[1..], maxCols)
  }

  /** The trailing while loop: placeholders for covered columns, "" for the
      others, up to `max_cols`. */
  function PadRow(st: RowState, maxCols: nat): (r: RowState)
    requires |st.tracker| == maxCols
    ensures |r.tracker| == maxCols
    decreases maxCols - st.col
  {
    if st.col < maxCols then
      if st.tracker[st.col] > 0 then
        PadRow(RowState(st.row + [Placeholder], st.col + 1,
                        st.tracker[st.col := st.tracker[st.col] - 1]), maxCols)
      else PadRow(RowState(st.row + [Filled("")], st.col + 1, st.tracker), maxCols)
    else st
  }

  /** One row of phase 2: the expanded row and the tracker after it. */
  function ExpandRow(cells: seq<FlatCell>, tracker: seq<int>, maxCols: nat): (r: Option<(seq<GridCell>, seq<int>)>)
    requires |tracker| == maxCols
    ensures r.Some? ==> |r.value.1| == maxCols
  {
    match PlaceCells(RowState([], 0, tracker), cells, maxCols)
    case None => None
    case Some(s) =>
      var p := PadRow(s, maxCols);
      Some((p.row, p.tracker))
  }

  /** The remaining rows of phase 2, starting from the given tracker. */
  function ExpandRows(rows: seq<seq<FlatCell>>, tracker: seq<int>, maxCols: nat): Option<seq<seq<GridCell>>>
    requires |tracker| == maxCols
    decreases |rows|
  {
    if rows == [] then Some([])
    else match ExpandRow(rows[0], tracker, maxCols)
      case None => None
      case Some(res) =>
        match ExpandRows(rows[1..], res.1, maxCols)
        case None => None
        case Some(rest) => Some([res.0] + rest)
  }

  // ---------------------------------------------------------------------------
  // Phase 3: rendering
  // ---------------------------------------------------------------------------

  /** `cell if cell else ''`: a placeholder renders as the empty string. */
  function CellText(c: GridCell): string
  {
    if c.Filled? then c.text else ""
  }

  /** `'| ' + ' | '.join(parts) + ' |\n'`. */
  function RenderLine(parts: seq<string>): string
  {
    "| " + Join(" | ", parts) + " |\n"
  }

  function RowLine(row: seq<GridCell>): string
  {
    RenderLine(seq(|row|, j requires 0 <= j < |row| => CellText(row[j])))
  }

  /** `'-' * (len(h) if h else 3)`. */
  function DashSegment(h: GridCell): string
  {
    Repeat('-', if h.Filled? && h.text != "" then |h.text| else 3)
  }

  function SeparatorLine(header: seq<GridCell>): string
  {
    RenderLine(seq(|header|, j requires 0 <= j < |header| => DashSegment(header[j])))
  }

  /** The lines of the body rows, in order. */
  function BodyLines(rows: seq<seq<GridCell>>): string
  {
    if rows == [] then "" else RowLine(rows[0]) + BodyLines(rows[1..])
  }

  /** Phase 3 for a grid with at least one row: header and separator lines
      when the first row is non-empty, then one line per remaining row. */
  function RenderMarkdown(grid: seq<seq<GridCell>>): string
    requires grid != []
  {
    (if grid[0] != [] then RowLine(grid[0]) + SeparatorLine(grid[0]) else "")
    + BodyLines(grid[1..])
  }

  /** The whole converter: "" when there is no table, when a span attribute
      is not an integer, when a rowspan is recorded past `max_cols`, and when
      there are no rows (`expanded_rows[0]` raises). */
  function TableToMarkdown(t: HtmlTable): string
  {
    match t
    case NoTable => ""
    case Table(rows) =>
      if !SpansParse(rows) then ""
      else
        var flat := FlattenRows(rows);
        var w := MaxWidth(flat);
        match ExpandRows(flat, Zeros(w), w)
        case None => ""
        case Some(grid) => if grid == [] then "" else RenderMarkdown(grid)
  }
}
