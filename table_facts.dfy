/** What the rowspan expansion and the rendering of `_html_table_to_markdown_rapid`
    guarantee, proved about the functions of TableSpec. */
module TableFacts {
  import opened Wrappers
  import opened Text
  import opened TableSpec

  // ---------------------------------------------------------------------------
  // Reading an expanded row back
  // ---------------------------------------------------------------------------

  /** The texts of a grid row with its None placeholders removed. */
  function Values(row: seq<GridCell>): seq<string>
  {
    if row == [] then []
    else Values(row[..|row| - 1]) + (if row[|row| - 1].Filled? then [row[|row| - 1].text] else [])
  }

  lemma ValuesAppend(row: seq<GridCell>, c: GridCell)
    ensures Values(row + [c]) == Values(row) + (if c.Filled? then [c.text] else [])
  {
    assert (row + [c])[..|row|] == row;
  }

  /** The texts of phase-1 cells, in order. */
  function Texts(cells: seq<FlatCell>): seq<string>
  {
    seq(|cells|, k requires 0 <= k < |cells| => cells[k].text)
  }

  lemma TextsCons(cells: seq<FlatCell>)
    requires cells != []
    ensures Texts(cells) == [cells[0].text] + Texts(cells[1..])
  {
  }

  lemma ConcatAssoc<T>(a: seq<T>, b: seq<T>, c: seq<T>)
    ensures a + b + c == a + (b + c)
  {
  }

  /** `vals` is `texts` followed by nothing but "" padding. */
  predicate TextsThenPadding(vals: seq<string>, texts: seq<string>)
  {
    |vals| >= |texts| && vals[..|texts|] == texts
    && forall i :: |texts| <= i < |vals| ==> vals[i] == ""
  }

  // ---------------------------------------------------------------------------
  // The invariant of one row's expansion
  // ---------------------------------------------------------------------------

  /** The state `st` of a row being expanded from the tracker `t0` it started
      with: every append went with `col_idx += 1`; a visited column below
      `max_cols` holds a placeholder exactly when its entry was positive, and
      that entry has then gone down by one; unvisited entries are untouched;
      no entry is negative. */
  ghost predicate Consistent(st: RowState, t0: seq<int>, maxCols: nat)
  {
    && |t0| == maxCols && |st.tracker| == maxCols && |st.row| == st.col
    && (forall j :: 0 <= j < maxCols ==> t0[j] >= 0)
    && (forall j :: 0 <= j < maxCols ==> st.tracker[j] >= 0)
    && (forall j :: 0 <= j < st.col ==> (st.row[j].Placeholder? <==> j < maxCols && t0[j] > 0))
    && (forall j :: 0 <= j < st.col && j < maxCols && t0[j] > 0 ==> st.tracker[j] == t0[j] - 1)
    && (forall j :: st.col <= j < maxCols ==> st.tracker[j] == t0[j])
  }

  /** One append with `col_idx += 1` keeps the state consistent when the
      appended slot agrees with the column's starting entry. */
  lemma StepKeeps(st: RowState, c: GridCell, tracker: seq<int>, t0: seq<int>, maxCols: nat)
    requires Consistent(st, t0, maxCols)
    requires |tracker| == maxCols
    requires forall j :: 0 <= j < maxCols && j != st.col ==> tracker[j] == st.tracker[j]
    requires st.col < maxCols ==>
      && tracker[st.col] >= 0
      && (c.Placeholder? <==> t0[st.col] > 0)
      && (t0[st.col] > 0 ==> tracker[st.col] == t0[st.col] - 1)
    requires st.col >= maxCols ==> c.Filled?
    ensures Consistent(RowState(st.row + [c], st.col + 1, tracker), t0, maxCols)
  {
    var row := st.row + [c];
    assert forall j :: 0 <= j < st.col ==> row[j] == st.row[j];
    forall j | 0 <= j < maxCols
      ensures tracker[j] >= 0
    {
      if j != st.col {
        assert tracker[j] == st.tracker[j];
      }
    }
  }

  lemma {:induction false} SkipCoveredKeeps(st: RowState, t0: seq<int>, maxCols: nat)
    requires Consistent(st, t0, maxCols)
    ensures var s := SkipCovered(st, maxCols);
      && Consistent(s, t0, maxCols) && Values(s.row) == Values(st.row) && s.col >= st.col
      && (s.col < maxCols ==> t0[s.col] == 0)
    decreases maxCols - st.col
  {
    if st.col < maxCols && st.tracker[st.col] > 0 {
      var next := RowState(st.row + [Placeholder], st.col + 1,
                           st.tracker[st.col := st.tracker[st.col] - 1]);
      ValuesAppend(st.row, Placeholder);
      StepKeeps(st, Placeholder, next.tracker, t0, maxCols);
      SkipCoveredKeeps(next, t0, maxCols);
    }
  }

  lemma PlaceCellKeeps(st: RowState, cell: FlatCell, t0: seq<int>, maxCols: nat)
    requires Consistent(st, t0, maxCols)
    ensures match PlaceCell(st, cell, maxCols)
      case Some(s) => Consistent(s, t0, maxCols) && Values(s.row) == Values(st.row) + [cell.text]
      case None => cell.rowspan > 1 && SkipCovered(st, maxCols).col >= maxCols
  {
    var s := SkipCovered(st, maxCols);
    SkipCoveredKeeps(st, t0, maxCols);
    ValuesAppend(s.row, Filled(cell.text));
    if cell.rowspan > 1 && s.col < maxCols {
      StepKeeps(s, Filled(cell.text), s.tracker[s.col := cell.rowspan - 1], t0, maxCols);
    } else if cell.rowspan <= 1 {
      StepKeeps(s, Filled(cell.text), s.tracker, t0, maxCols);
    }
  }

  lemma {:induction false} PlaceCellsKeeps(st: RowState, cells: seq<FlatCell>, t0: seq<int>, maxCols: nat)
    requires Consistent(st, t0, maxCols)
    requires PlaceCells(st, cells, maxCols).Some?
    ensures Consistent(PlaceCells(st, cells, maxCols).value, t0, maxCols)
    decreases |cells|
  {
    if cells != [] {
      var s := PlaceCell(st, cells[0], maxCols).value;
      assert Consistent(s, t0, maxCols) by {
        PlaceCellKeeps(st, cells[0], t0, maxCols);
      }
      assert PlaceCells(st, cells, maxCols) == PlaceCells(s, cells[1..], maxCols);
      PlaceCellsKeeps(s, cells[1..], t0, maxCols);
    }
  }

  /** Without placeholders, the placed row gains exactly the cells' texts. */
  lemma {:induction false} PlaceCellsValues(st: RowState, cells: seq<FlatCell>, t0: seq<int>, maxCols: nat)
    requires Consistent(st, t0, maxCols)
    requires PlaceCells(st, cells, maxCols).Some?
    ensures Values(PlaceCells(st, cells, maxCols).value.row) == Values(st.row) + Texts(cells)
    decreases |cells|
  {
    if cells == [] {
      assert Texts(cells) == [];
    } else {
      var s := PlaceCell(st, cells[0], maxCols).value;
      assert Consistent(s, t0, maxCols) && Values(s.row) == Values(st.row) + [cells[0].text] by {
        PlaceCellKeeps(st, cells[0], t0, maxCols);
      }
      assert PlaceCells(st, cells, maxCols) == PlaceCells(s, cells[1..], maxCols);
      PlaceCellsValues(s, cells[1..], t0, maxCols);
      TextsCons(cells);
      ConcatAssoc(Values(st.row), [cells[0].text], Texts(cells[1..]));
    }
  }

  /** Placing cells fails only at a cell with rowspan above one. */
  lemma {:induction false} PlaceCellsFails(st: RowState, cells: seq<FlatCell>, maxCols: nat)
    requires |st.tracker| == maxCols
    requires PlaceCells(st, cells, maxCols).None?
    ensures exists k :: 0 <= k < |cells| && cells[k].rowspan > 1
    decreases |cells|
  {
    if PlaceCell(st, cells[0], maxCols).None? {
      assert cells[0].rowspan > 1;
    } else {
      var s := PlaceCell(st, cells[0], maxCols).value;
      PlaceCellsFails(s, cells[1..], maxCols);
      var k :| 0 <= k < |cells[1..]| && cells[1..][k].rowspan > 1;
      assert cells[k + 1].rowspan > 1;
    }
  }

  lemma {:induction false} PadRowKeeps(st: RowState, t0: seq<int>, maxCols: nat)
    requires Consistent(st, t0, maxCols)
    ensures var p := PadRow(st, maxCols);
      && Consistent(p, t0, maxCols)
      && p.col == (if st.col < maxCols then maxCols else st.col)
      && TextsThenPadding(Values(p.row), Values(st.row))
    decreases maxCols - st.col
  {
    if st.col < maxCols {
      var c := if st.tracker[st.col] > 0 then Placeholder else Filled("");
      var tracker := if st.tracker[st.col] > 0 then st.tracker[st.col := st.tracker[st.col] - 1] else st.tracker;
      var next := RowState(st.row + [c], st.col + 1, tracker);
      assert PadRow(st, maxCols) == PadRow(next, maxCols);
      StepKeeps(st, c, tracker, t0, maxCols);
      PadRowKeeps(next, t0, maxCols);
      ValuesAppend(st.row, c);
      PaddingTrans(Values(PadRow(next, maxCols).row), Values(next.row), Values(st.row));
    } else {
      assert Values(st.row)[..|Values(st.row)|] == Values(st.row);
    }
  }

  /** Padding after padding is padding. */
  lemma PaddingTrans(a: seq<string>, b: seq<string>, c: seq<string>)
    requires TextsThenPadding(a, b)
    requires b == c || b == c + [""]
    ensures TextsThenPadding(a, c)
  {
    assert a[..|c|] == a[..|b|][..|c|];
    forall i | |c| <= i < |a|
      ensures a[i] == ""
    {
      if i < |b| {
        assert a[i] == a[..|b|][i];
      }
    }
  }

  // ---------------------------------------------------------------------------
  // One row of phase 2
  // ---------------------------------------------------------------------------

  /** Expanding one row from a tracker with no negative entry: it fails only
      if some cell has rowspan > 1; otherwise the row is at least `max_cols`
      wide, holds a None placeholder exactly at the columns below `max_cols`
      whose entry was positive, each such entry went down by exactly one, no
      entry is negative, and without its placeholders the row is the cell
      texts in order followed only by "" padding. */
  lemma ExpandRowFacts(cells: seq<FlatCell>, t0: seq<int>, maxCols: nat)
    requires |t0| == maxCols && forall j :: 0 <= j < maxCols ==> t0[j] >= 0
    ensures match ExpandRow(cells, t0, maxCols)
      case None => exists k :: 0 <= k < |cells| && cells[k].rowspan > 1
      case Some(res) =>
        && |res.0| >= maxCols
        && (forall j :: 0 <= j < |res.0| ==> (res.0[j].Placeholder? <==> j < maxCols && t0[j] > 0))
        && (forall j :: 0 <= j < maxCols && t0[j] > 0 ==> res.1[j] == t0[j] - 1)
        && (forall j :: 0 <= j < maxCols ==> res.1[j] >= 0)
        && TextsThenPadding(Values(res.0), Texts(cells))
  {
    var st0 := RowState([], 0, t0);
    assert Consistent(st0, t0, maxCols);
    match PlaceCells(st0, cells, maxCols)
    case None =>
      PlaceCellsFails(st0, cells, maxCols);
    case Some(s) =>
      PlaceCellsKeeps(st0, cells, t0, maxCols);
      PlaceCellsValues(st0, cells, t0, maxCols);
      PadRowKeeps(s, t0, maxCols);
      assert Values(st0.row) == [];
  }

  // ---------------------------------------------------------------------------
  // What the tracker records for uncovered columns
  // ---------------------------------------------------------------------------

  /** The tracker entry a cell leaves in its column: `rowspan - 1` when the
      rowspan is above one, otherwise the column stays at 0. */
  function Carry(c: FlatCell): int
  {
    if c.rowspan > 1 then c.rowspan - 1 else 0
  }

  /** The carry of the k-th placed cell, or 0 for a padding column. */
  function CarryAt(placed: seq<FlatCell>, k: nat): int
  {
    if k < |placed| then Carry(placed[k]) else 0
  }

  /** Every visited, uncovered column below `max_cols` holds the carry of the
      cell that landed there: the k-th non-placeholder slot is the k-th cell. */
  ghost predicate Carries(st: RowState, t0: seq<int>, placed: seq<FlatCell>, maxCols: nat)
  {
    && Consistent(st, t0, maxCols)
    && forall j :: 0 <= j < st.col && j < maxCols && t0[j] == 0 ==>
         st.tracker[j] == CarryAt(placed, |Values(st.row[..j])|)
  }

  lemma CarriesAppend(st: RowState, next: RowState, t0: seq<int>, placed: seq<FlatCell>, maxCols: nat)
    requires Carries(st, t0, placed, maxCols) && Consistent(next, t0, maxCols)
    requires next.col == st.col + 1 && |next.row| == |st.row| + 1 && next.row[..st.col] == st.row
    requires forall j :: 0 <= j < st.col && j < maxCols ==> next.tracker[j] == st.tracker[j]
    ensures forall j :: 0 <= j < st.col && j < maxCols && t0[j] == 0 ==>
      next.tracker[j] == CarryAt(placed, |Values(next.row[..j])|)
  {
    forall j | 0 <= j < st.col && j < maxCols && t0[j] == 0
      ensures next.tracker[j] == CarryAt(placed, |Values(next.row[..j])|)
    {
      assert next.row[..j] == st.row[..j];
    }
  }

  lemma {:induction false} SkipCoveredCarries(st: RowState, t0: seq<int>, placed: seq<FlatCell>, maxCols: nat)
    requires Carries(st, t0, placed, maxCols)
    ensures Carries(SkipCovered(st, maxCols), t0, placed, maxCols)
    decreases maxCols - st.col
  {
    SkipCoveredKeeps(st, t0, maxCols);
    if st.col < maxCols && st.tracker[st.col] > 0 {
      var next := RowState(st.row + [Placeholder], st.col + 1,
                           st.tracker[st.col := st.tracker[st.col] - 1]);
      ValuesAppend(st.row, Placeholder);
      StepKeeps(st, Placeholder, next.tracker, t0, maxCols);
      assert next.row[..st.col] == st.row;
      CarriesAppend(st, next, t0, placed, maxCols);
      assert Carries(next, t0, placed, maxCols);
      SkipCoveredCarries(next, t0, placed, maxCols);
    }
  }

  lemma PlaceCellCarries(st: RowState, cell: FlatCell, t0: seq<int>, placed: seq<FlatCell>, maxCols: nat)
    requires Carries(st, t0, placed, maxCols) && |Values(st.row)| == |placed|
    requires PlaceCell(st, cell, maxCols).Some?
    ensures Carries(PlaceCell(st, cell, maxCols).value, t0, placed + [cell], maxCols)
    ensures |Values(PlaceCell(st, cell, maxCols).value.row)| == |placed| + 1
  {
    var s := SkipCovered(st, maxCols);
    SkipCoveredKeeps(st, t0, maxCols);
    SkipCoveredCarries(st, t0, placed, maxCols);
    PlaceCellKeeps(st, cell, t0, maxCols);
    var next := PlaceCell(st, cell, maxCols).value;
    assert next.row == s.row + [Filled(cell.text)];
    forall j | 0 <= j < next.col && j < maxCols && t0[j] == 0
      ensures next.tracker[j] == CarryAt(placed + [cell], |Values(next.row[..j])|)
    {
      if j < s.col {
        assert next.row[..j] == s.row[..j];
        assert next.tracker[j] == s.tracker[j];
        FilledPrefixBelow(s.row, j);
      } else {
        assert next.row[..j] == s.row;
      }
    }
  }

  /** Before a filled slot there are fewer values than in the whole row. */
  lemma FilledPrefixBelow(row: seq<GridCell>, j: int)
    requires 0 <= j < |row| && row[j].Filled?
    ensures |Values(row[..j])| < |Values(row)|
  {
    assert row[..j + 1] == row[..j] + [row[j]];
    ValuesAppend(row[..j], row[j]);
    RowPrefixValues(row, j + 1);
  }

  /** A prefix of a row has no more values than the row. */
  lemma {:induction false} RowPrefixValues(row: seq<GridCell>, j: int)
    requires 0 <= j <= |row|
    ensures |Values(row[..j])| <= |Values(row)|
    decreases |row|
  {
    if j < |row| {
      var init := row[..|row| - 1];
      assert init[..j] == row[..j];
      RowPrefixValues(init, j);
    } else {
      assert row[..j] == row;
    }
  }

  lemma {:induction false} PlaceCellsCarries(st: RowState, cells: seq<FlatCell>, t0: seq<int>, placed: seq<FlatCell>, maxCols: nat)
    requires Carries(st, t0, placed, maxCols) && |Values(st.row)| == |placed|
    requires PlaceCells(st, cells, maxCols).Some?
    ensures Carries(PlaceCells(st, cells, maxCols).value, t0, placed + cells, maxCols)
    decreases |cells|
  {
    if cells == [] {
      assert placed + cells == placed;
    } else {
      PlaceCellCarries(st, cells[0], t0, placed, maxCols);
      var next := PlaceCell(st, cells[0], maxCols).value;
      assert placed + [cells[0]] + cells[1..] == placed + cells;
      PlaceCellsCarries(next, cells[1..], t0, placed + [cells[0]], maxCols);
    }
  }

  lemma {:induction false} PadRowCarries(st: RowState, t0: seq<int>, placed: seq<FlatCell>, maxCols: nat)
    requires Carries(st, t0, placed, maxCols) && |Values(st.row)| >= |placed|
    ensures Carries(PadRow(st, maxCols), t0, placed, maxCols)
    decreases maxCols - st.col
  {
    if st.col < maxCols {
      var c := if st.tracker[st.col] > 0 then Placeholder else Filled("");
      var tracker := if st.tracker[st.col] > 0 then st.tracker[st.col := st.tracker[st.col] - 1] else st.tracker;
      var next := RowState(st.row + [c], st.col + 1, tracker);
      assert PadRow(st, maxCols) == PadRow(next, maxCols);
      ValuesAppend(st.row, c);
      StepKeeps(st, c, tracker, t0, maxCols);
      assert Carries(next, t0, placed, maxCols) by {
        forall j | 0 <= j < next.col && j < maxCols && t0[j] == 0
          ensures next.tracker[j] == CarryAt(placed, |Values(next.row[..j])|)
        {
          if j < st.col {
            assert next.row[..j] == st.row[..j];
          } else {
            assert next.row[..j] == st.row;
          }
        }
      }
      PadRowCarries(next, t0, placed, maxCols);
    }
  }

  /** After a row, an uncovered column below `max_cols` holds `rowspan - 1` of
      the cell that landed there when that rowspan is above one, and 0 when the
      cell had rowspan at most one or the column is padding. Together with
      ExpandRowFacts this fixes the whole tracker after the row. */
  lemma ExpandRowCarries(cells: seq<FlatCell>, t0: seq<int>, maxCols: nat)
    requires |t0| == maxCols && forall j :: 0 <= j < maxCols ==> t0[j] >= 0
    requires ExpandRow(cells, t0, maxCols).Some?
    ensures var res := ExpandRow(cells, t0, maxCols).value;
      |res.0| >= maxCols &&
      forall j :: 0 <= j < maxCols && t0[j] == 0 ==>
        res.1[j] == CarryAt(cells, |Values(res.0[..j])|)
  {
    var st0 := RowState([], 0, t0);
    assert Consistent(st0, t0, maxCols);
    assert Carries(st0, t0, [], maxCols);
    PlaceCellsKeeps(st0, cells, t0, maxCols);
    PlaceCellsValues(st0, cells, t0, maxCols);
    PlaceCellsCarries(st0, cells, t0, [], maxCols);
    var s := PlaceCells(st0, cells, maxCols).value;
    assert [] + cells == cells;
    assert |Values(s.row)| == |cells|;
    PadRowKeeps(s, t0, maxCols);
    PadRowCarries(s, t0, cells, maxCols);
  }

  // ---------------------------------------------------------------------------
  // Rows that fit never fail
  // ---------------------------------------------------------------------------

  /** The number of positive tracker entries: the columns covered from above. */
  function CountPositive(t: seq<int>): nat
  {
    if t == [] then 0 else CountPositive(t[..|t| - 1]) + (if t[|t| - 1] > 0 then 1 else 0)
  }

  function PlaceholderCount(row: seq<GridCell>): nat
  {
    if row == [] then 0 else PlaceholderCount(row[..|row| - 1]) + (if row[|row| - 1].Placeholder? then 1 else 0)
  }

  lemma {:induction false} RowSizeSplit(row: seq<GridCell>)
    ensures |row| == PlaceholderCount(row) + |Values(row)|
  {
    if row != [] {
      RowSizeSplit(row[..|row| - 1]);
    }
  }

  lemma {:induction false} CountPositivePrefix(t: seq<int>, m: int)
    requires 0 <= m <= |t|
    ensures CountPositive(t[..m]) <= CountPositive(t)
  {
    if m < |t| {
      var init := t[..|t| - 1];
      assert init[..m] == t[..m];
      CountPositivePrefix(init, m);
    } else {
      assert t[..m] == t;
    }
  }

  lemma {:induction false} PlaceholderPrefix(st: RowState, t0: seq<int>, maxCols: nat, k: int)
    requires Consistent(st, t0, maxCols) && 0 <= k <= st.col
    ensures PlaceholderCount(st.row[..k]) == CountPositive(t0[..if k < maxCols then k else maxCols])
  {
    if k > 0 {
      PlaceholderPrefix(st, t0, maxCols, k - 1);
      assert st.row[..k][..k - 1] == st.row[..k - 1];
      if k <= maxCols {
        assert t0[..k][..k - 1] == t0[..k - 1];
      }
    }
  }

  /** A row state never holds more placeholders than there are covered columns. */
  lemma PlaceholdersBounded(st: RowState, t0: seq<int>, maxCols: nat)
    requires Consistent(st, t0, maxCols)
    ensures st.col <= CountPositive(t0) + |Values(st.row)|
  {
    PlaceholderPrefix(st, t0, maxCols, st.col);
    assert st.row[..st.col] == st.row;
    CountPositivePrefix(t0, if st.col < maxCols then st.col else maxCols);
    RowSizeSplit(st.row);
  }

  lemma {:induction false} PlaceCellsFit(st: RowState, cells: seq<FlatCell>, t0: seq<int>, maxCols: nat)
    requires Consistent(st, t0, maxCols)
    requires |Values(st.row)| + |cells| + CountPositive(t0) <= maxCols
    ensures PlaceCells(st, cells, maxCols).Some?
    ensures PlaceCells(st, cells, maxCols).value.col <= maxCols
    decreases |cells|
  {
    PlaceholdersBounded(st, t0, maxCols);
    if cells != [] {
      var s := SkipCovered(st, maxCols);
      SkipCoveredKeeps(st, t0, maxCols);
      PlaceholdersBounded(s, t0, maxCols);
      PlaceCellKeeps(st, cells[0], t0, maxCols);
      var next := PlaceCell(st, cells[0], maxCols).value;
      PlaceCellsFit(next, cells[1..], t0, maxCols);
    }
  }

  /** A row whose cells and covered columns together fit in `max_cols` is
      expanded without error to exactly `max_cols` columns. */
  lemma WellFormedRowFits(cells: seq<FlatCell>, t0: seq<int>, maxCols: nat)
    requires |t0| == maxCols && forall j :: 0 <= j < maxCols ==> t0[j] >= 0
    requires |cells| + CountPositive(t0) <= maxCols
    ensures ExpandRow(cells, t0, maxCols).Some?
    ensures |ExpandRow(cells, t0, maxCols).value.0| == maxCols
  {
    var st0 := RowState([], 0, t0);
    assert Consistent(st0, t0, maxCols);
    PlaceCellsFit(st0, cells, t0, maxCols);
    var s := PlaceCells(st0, cells, maxCols).value;
    PlaceCellsKeeps(st0, cells, t0, maxCols);
    PadRowKeeps(s, t0, maxCols);
  }

  // ---------------------------------------------------------------------------
  // All rows of phase 2
  // ---------------------------------------------------------------------------

  /** Expanding all rows: it fails only if some cell has rowspan > 1;
      otherwise there is one grid row per row, each at least `max_cols` wide
      and, without placeholders, its cell texts followed by "" padding. */
  lemma {:induction false} ExpandRowsFacts(rows: seq<seq<FlatCell>>, t0: seq<int>, maxCols: nat)
    requires |t0| == maxCols && forall j :: 0 <= j < maxCols ==> t0[j] >= 0
    ensures match ExpandRows(rows, t0, maxCols)
      case None => exists i, k :: 0 <= i < |rows| && 0 <= k < |rows[i]| && rows[i][k].rowspan > 1
      case Some(grid) =>
        && |grid| == |rows|
        && forall i :: 0 <= i < |rows| ==>
             |grid[i]| >= maxCols && TextsThenPadding(Values(grid[i]), Texts(rows[i]))
    decreases |rows|
  {
    if rows != [] {
      ExpandRowFacts(rows[0], t0, maxCols);
      match ExpandRow(rows[0], t0, maxCols)
      case None =>
        var k :| 0 <= k < |rows[0]| && rows[0][k].rowspan > 1;
        assert rows[0][k].rowspan > 1;
      case Some(res) =>
        ExpandRowsFacts(rows[1..], res.1, maxCols);
        match ExpandRows(rows[1..], res.1, maxCols)
        case None =>
          var i, k :| 0 <= i < |rows[1..]| && 0 <= k < |rows[1..][i]| && rows[1..][i][k].rowspan > 1;
          assert rows[i + 1][k].rowspan > 1;
        case Some(rest) =>
          var grid := [res.0] + rest;
          forall i | 0 <= i < |rows|
            ensures |grid[i]| >= maxCols && TextsThenPadding(Values(grid[i]), Texts(rows[i]))
          {
            if i > 0 {
              assert grid[i] == rest[i - 1] && rows[i] == rows[1..][i - 1];
            }
          }
    }
  }

  /** The header row (the first expanded row) never holds a None placeholder:
      the tracker starts at all zeros. */
  lemma HeaderHasNoPlaceholder(rows: seq<seq<FlatCell>>, maxCols: nat)
    requires ExpandRows(rows, Zeros(maxCols), maxCols).Some?
    requires rows != []
    ensures var grid := ExpandRows(rows, Zeros(maxCols), maxCols).value;
      grid != [] && forall j :: 0 <= j < |grid[0]| ==> grid[0][j].Filled?
  {
    ExpandRowFacts(rows[0], Zeros(maxCols), maxCols);
  }

  // ---------------------------------------------------------------------------
  // The whole converter
  // ---------------------------------------------------------------------------

  /** The converter reaches one of its exception branches (and returns ""):
      no <table>, a span attribute that is not an integer, no <tr> rows, or a
      rowspan recorded at a column at or beyond `max_cols`. */
  predicate ConversionFails(t: HtmlTable)
  {
    || t.NoTable?
    || !SpansParse(t.rows)
    || t.rows == []
    || (var flat := FlattenRows(t.rows);
        ExpandRows(flat, Zeros(MaxWidth(flat)), MaxWidth(flat)).None?)
  }

  lemma {:induction false} BodyLinesEmpty(rows: seq<seq<GridCell>>)
    ensures BodyLines(rows) == "" <==> rows == []
  {
    if rows != [] {
      assert RowLine(rows[0])[0] == '|';
    }
  }

  /** The converter returns "" exactly when it fails, or when the table is a
      single row with no columns (no header line, no body line). */
  lemma EmptyMarkdownIff(t: HtmlTable)
    ensures TableToMarkdown(t) == "" <==>
      ConversionFails(t) || (|t.rows| == 1 && RowParses(t.rows[0]) && FlattenRow(t.rows[0]) == [])
  {
    if !ConversionFails(t) {
      var flat := FlattenRows(t.rows);
      var w := MaxWidth(flat);
      ExpandRowsFacts(flat, Zeros(w), w);
      var grid := ExpandRows(flat, Zeros(w), w).value;
      assert RowParses(t.rows[0]);
      RowSizeSplit(grid[0]);
      BodyLinesEmpty(grid[1..]);
      if grid[0] != [] {
        assert RowLine(grid[0])[0] == '|';
        assert RenderMarkdown(grid)[0] == '|';
      }
      if |t.rows| == 1 && FlattenRow(t.rows[0]) == [] {
        assert flat == [[]];
        assert MaxWidth(flat[..0]) == 0;
      }
    }
  }

  // ---------------------------------------------------------------------------
  // Reading a rendered line back
  // ---------------------------------------------------------------------------

  /** The first index of the column separator " | " in s, or |s| if none. */
  function FindSep(s: string): (r: nat)
    ensures r <= |s|
    ensures r < |s| ==> r + 3 <= |s| && s[r..r + 3] == " | "
  {
    if |s| < 3 then |s|
    else if s[..3] == " | " then 0
    else 1 + FindSep(s[1..])
  }

  /** The inner text of a Markdown table line, cut at every " | ". */
  function SplitCells(s: string): seq<string>
    decreases |s|
  {
    var p := FindSep(s);
    if p == |s| then [s] else [s[..p]] + SplitCells(s[p + 3..])
  }

  /** The cells of a Markdown table line "| a | b |\n", if it has that shape. */
  function ParseLine(line: string): Option<seq<string>>
  {
    if |line| >= 5 && line[..2] == "| " && line[|line| - 3..] == " |\n"
    then Some(SplitCells(line[2..|line| - 3]))
    else None
  }

  predicate NoBar(t: string)
  {
    forall i :: 0 <= i < |t| ==> t[i] != '|'
  }

  lemma {:induction false} FindSepNone(t: string)
    requires NoBar(t)
    ensures FindSep(t) == |t|
  {
    if |t| >= 3 {
      assert t[..3][1] == t[1];
      FindSepNone(t[1..]);
    }
  }

  lemma {:induction false} FindSepAfter(t: string, x: string)
    requires NoBar(t)
    ensures FindSep(t + " | " + x) == |t|
  {
    var s := t + " | " + x;
    if t == [] {
      assert s[..3] == " | ";
    } else {
      assert s[..3][1] != '|';
      assert s[1..] == t[1..] + " | " + x;
      FindSepAfter(t[1..], x);
    }
  }

  /** The first cell is cut off at the first separator. */
  lemma SplitFirst(t: string, rest: string)
    requires NoBar(t)
    ensures SplitCells(t + " | " + rest) == [t] + SplitCells(rest)
  {
    var s := t + " | " + rest;
    FindSepAfter(t, rest);
    assert s[..|t|] == t;
    assert s[|t| + 3..] == rest;
  }

  lemma {:induction false} SplitJoin(ts: seq<string>)
    requires ts != [] && forall k :: 0 <= k < |ts| ==> NoBar(ts[k])
    ensures SplitCells(Join(" | ", ts)) == ts
  {
    if |ts| == 1 {
      FindSepNone(ts[0]);
    } else {
      var rest := Join(" | ", ts[1..]);
      assert Join(" | ", ts) == ts[0] + " | " + rest;
      SplitFirst(ts[0], rest);
      SplitJoin(ts[1..]);
      assert ts == [ts[0]] + ts[1..];
    }
  }

  /** Rendering a line and reading it back gives its cells, as long as no
      cell contains '|'; a line with no cells reads back as one empty cell. */
  lemma RenderLineRoundTrip(ts: seq<string>)
    requires forall k :: 0 <= k < |ts| ==> NoBar(ts[k])
    ensures ParseLine(RenderLine(ts)) == Some(if ts == [] then [""] else ts)
  {
    var line := RenderLine(ts);
    var inner := Join(" | ", ts);
    assert line[..2] == "| ";
    assert line[|line| - 3..] == " |\n";
    assert line[2..|line| - 3] == inner;
    if ts == [] {
      FindSepNone("");
    } else {
      SplitJoin(ts);
    }
  }

  /** The header line and the separator line of a non-empty header read back
      as the same number of columns; column j of the separator is a run of
      dashes as long as the header text, or three when that text is empty. */
  lemma HeaderSeparatorAgree(header: seq<GridCell>)
    requires header != []
    requires forall j :: 0 <= j < |header| ==> NoBar(CellText(header[j]))
    ensures ParseLine(RowLine(header)).Some? && ParseLine(SeparatorLine(header)).Some?
    ensures |ParseLine(RowLine(header)).value| == |ParseLine(SeparatorLine(header)).value| == |header|
    ensures forall j :: 0 <= j < |header| ==>
      && ParseLine(RowLine(header)).value[j] == CellText(header[j])
      && ParseLine(SeparatorLine(header)).value[j]
           == Repeat('-', if CellText(header[j]) == "" then 3 else |CellText(header[j])|)
  {
    var texts := seq(|header|, j requires 0 <= j < |header| => CellText(header[j]));
    var dashes := seq(|header|, j requires 0 <= j < |header| => DashSegment(header[j]));
    RenderLineRoundTrip(texts);
    RenderLineRoundTrip(dashes);
  }
}
