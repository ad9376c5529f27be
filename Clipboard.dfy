/** The grid's selection rectangle and the two keyboard handlers of App.tsx
    that turn it into cell writes: Delete/Backspace clears the selected
    cells, a paste writes a tab/newline matrix anchored at the top-left
    selected cell or, for a single value and a larger selection, fills the
    whole selection. Both only target cells inside the grid. */
module Clipboard {
  import opened Types
  import opened Text

  /** A grid cell: row index into the filtered rows, column index into the
      grid columns (column 0 is `status`). */
  datatype Cell = Cell(r: nat, c: nat)

  /** The selection's two corners; either may be unset. */
  datatype Selection = Selection(start: Option<Cell>, end: Option<Cell>)

  /** The inclusive bounds `minR..maxR`, `minC..maxC`. */
  datatype Rect = Rect(minR: nat, maxR: nat, minC: nat, maxC: nat)

  function Min(a: nat, b: nat): nat { if a <= b then a else b }
  function Max(a: nat, b: nat): nat { if a <= b then b else a }

  predicate InRect(b: Rect, r: int, c: int) {
    b.minR <= r <= b.maxR && b.minC <= c <= b.maxC
  }

  /** `x` lies between `a` and `b`, in either order. */
  predicate Between(x: int, a: int, b: int) {
    (a <= x <= b) || (b <= x <= a)
  }

  /** `Math.min`/`Math.max` of the two corners. */
  function Bounds(s: Cell, e: Cell): (b: Rect)
    ensures b.minR <= b.maxR && b.minC <= b.maxC
    ensures InRect(b, s.r, s.c) && InRect(b, e.r, e.c) && InRect(b, s.r, e.c) && InRect(b, e.r, s.c)
    ensures forall r, c :: InRect(b, r, c) <==> Between(r, s.r, e.r) && Between(c, s.c, e.c)
  {
    Rect(Min(s.r, e.r), Max(s.r, e.r), Min(s.c, e.c), Max(s.c, e.c))
  }

  /** `isSelected(r, c)`. */
  function IsSelected(sel: Selection, r: int, c: int): (b: bool)
    ensures b <==> && sel.start.Some? && sel.end.Some?
                   && Between(r, sel.start.value.r, sel.end.value.r)
                   && Between(c, sel.start.value.c, sel.end.value.c)
  {
    if sel.start.None? || sel.end.None? then false
    else InRect(Bounds(sel.start.value, sel.end.value), r, c)
  }

  /** Dragging in either direction selects the same cells. */
  lemma IsSelectedSymmetric(s: Cell, e: Cell, r: int, c: int)
    ensures IsSelected(Selection(Some(s), Some(e)), r, c) == IsSelected(Selection(Some(e), Some(s)), r, c)
    ensures IsSelected(Selection(Some(s), Some(e)), s.r, s.c) && IsSelected(Selection(Some(s), Some(e)), e.r, e.c)
  {
  }

  // ---------------------------------------------------------------------
  // Target cells
  // ---------------------------------------------------------------------

  /** A cell to write and the value to write there. */
  datatype Target = Target(r: nat, c: nat, value: Value)

  /** Every target lies inside a grid of `nRows` rows and `nCols` columns. */
  predicate InGrid(ts: seq<Target>, nRows: nat, nCols: nat) {
    forall k :: 0 <= k < |ts| ==> ts[k].r < nRows && ts[k].c < nCols
  }

  /** `{rowId: filteredData[r].id, field: gridColumns[c].field, value}` for
      each target, in order. */
  function ToUpdates(ts: seq<Target>, grid: seq<Row>, fields: seq<string>): (us: seq<Update>)
    requires InGrid(ts, |grid|, |fields|)
  {
    seq(|ts|, k requires 0 <= k < |ts| => Update(grid[ts[k].r].id, fields[ts[k].c], ts[k].value))
  }

  lemma ToUpdatesAppend(a: seq<Target>, b: seq<Target>, grid: seq<Row>, fields: seq<string>)
    requires InGrid(a, |grid|, |fields|) && InGrid(b, |grid|, |fields|)
    ensures InGrid(a + b, |grid|, |fields|)
    ensures ToUpdates(a + b, grid, fields) == ToUpdates(a, grid, fields) + ToUpdates(b, grid, fields)
  {
    forall k | 0 <= k < |a + b| ensures (a + b)[k].r < |grid| && (a + b)[k].c < |fields| {
      if k >= |a| {
        assert (a + b)[k] == b[k - |a|];
      }
    }
  }

  /** One cell of a rectangle walk: skipped when it is the `status` column
      and `skipStatus` is set, or when it lies outside the grid. */
  function CellTarget(r: nat, c: nat, nRows: nat, nCols: nat, skipStatus: bool, v: Value): seq<Target> {
    if skipStatus && c == 0 then []
    else if r < nRows && c < nCols then [Target(r, c, v)]
    else []
  }

  /** Row `r`, columns `minC` up to (not including) `cEnd`. */
  function RowTargets(r: nat, minC: nat, cEnd: nat, nRows: nat, nCols: nat, skipStatus: bool, v: Value): seq<Target>
    decreases cEnd
  {
    if cEnd <= minC then []
    else RowTargets(r, minC, cEnd - 1, nRows, nCols, skipStatus, v) + CellTarget(r, cEnd - 1, nRows, nCols, skipStatus, v)
  }

  lemma {:induction false} RowTargetsMember(r: nat, minC: nat, cEnd: nat, nRows: nat, nCols: nat, skipStatus: bool, v: Value,
                                            t: Target)
    ensures t in RowTargets(r, minC, cEnd, nRows, nCols, skipStatus, v) <==>
      t.r == r && minC <= t.c < cEnd && t.r < nRows && t.c < nCols && !(skipStatus && t.c == 0) && t.value == v
    decreases cEnd
  {
    if cEnd > minC {
      RowTargetsMember(r, minC, cEnd - 1, nRows, nCols, skipStatus, v, t);
    }
  }

  /** Rows `minR` up to (not including) `rEnd`, each over columns `minC..cEnd-1`. */
  function RowsTargets(minR: nat, rEnd: nat, minC: nat, cEnd: nat, nRows: nat, nCols: nat, skipStatus: bool, v: Value)
    : seq<Target>
    decreases rEnd
  {
    if rEnd <= minR then []
    else
      RowsTargets(minR, rEnd - 1, minC, cEnd, nRows, nCols, skipStatus, v)
      + RowTargets(rEnd - 1, minC, cEnd, nRows, nCols, skipStatus, v)
  }

  lemma {:induction false} RowsTargetsMember(minR: nat, rEnd: nat, minC: nat, cEnd: nat, nRows: nat, nCols: nat,
                                             skipStatus: bool, v: Value, t: Target)
    ensures t in RowsTargets(minR, rEnd, minC, cEnd, nRows, nCols, skipStatus, v) <==>
      minR <= t.r < rEnd && minC <= t.c < cEnd && t.r < nRows && t.c < nCols && !(skipStatus && t.c == 0) && t.value == v
    decreases rEnd
  {
    if rEnd > minR {
      RowsTargetsMember(minR, rEnd - 1, minC, cEnd, nRows, nCols, skipStatus, v, t);
      RowTargetsMember(rEnd - 1, minC, cEnd, nRows, nCols, skipStatus, v, t);
    }
  }

  /** The nested `for` loops over the selection rectangle: exactly the cells
      of the rectangle inside the grid, less column 0 when `skipStatus`. */
  function RectTargets(b: Rect, nRows: nat, nCols: nat, skipStatus: bool, v: Value): seq<Target> {
    RowsTargets(b.minR, Max(b.maxR + 1, b.minR), b.minC, Max(b.maxC + 1, b.minC), nRows, nCols, skipStatus, v)
  }

  lemma RectTargetsMember(b: Rect, nRows: nat, nCols: nat, skipStatus: bool, v: Value, t: Target)
    ensures t in RectTargets(b, nRows, nCols, skipStatus, v) <==>
      InRect(b, t.r, t.c) && t.r < nRows && t.c < nCols && !(skipStatus && t.c == 0) && t.value == v
  {
    RowsTargetsMember(b.minR, Max(b.maxR + 1, b.minR), b.minC, Max(b.maxC + 1, b.minC), nRows, nCols, skipStatus, v, t);
  }

  lemma RectTargetsInGrid(b: Rect, nRows: nat, nCols: nat, skipStatus: bool, v: Value)
    ensures InGrid(RectTargets(b, nRows, nCols, skipStatus, v), nRows, nCols)
  {
    var ts := RectTargets(b, nRows, nCols, skipStatus, v);
    forall k | 0 <= k < |ts| ensures ts[k].r < nRows && ts[k].c < nCols {
      RectTargetsMember(b, nRows, nCols, skipStatus, v, ts[k]);
    }
  }

  // ---------------------------------------------------------------------
  // The rectangle walk
  // ---------------------------------------------------------------------

  /** The update the rectangle walk pushes for one cell, if any. */
  function CellUpdate(r: nat, c: nat, grid: seq<Row>, fields: seq<string>, skipStatus: bool, v: Value): seq<Update> {
    if skipStatus && c == 0 then []
    else if r < |grid| && c < |fields| then [Update(grid[r].id, fields[c], v)]
    else []
  }

  /** The updates the inner loop pushes for row `r`, columns `minC..cEnd-1`. */
  function RowUpdates(r: nat, minC: nat, cEnd: nat, grid: seq<Row>, fields: seq<string>, skipStatus: bool, v: Value)
    : seq<Update>
    decreases cEnd
  {
    if cEnd <= minC then []
    else RowUpdates(r, minC, cEnd - 1, grid, fields, skipStatus, v) + CellUpdate(r, cEnd - 1, grid, fields, skipStatus, v)
  }

  /** The updates the outer loop pushes for rows `minR..rEnd-1`. */
  function RowsUpdates(minR: nat, rEnd: nat, minC: nat, cEnd: nat, grid: seq<Row>, fields: seq<string>,
                       skipStatus: bool, v: Value): seq<Update>
    decreases rEnd
  {
    if rEnd <= minR then []
    else
      RowsUpdates(minR, rEnd - 1, minC, cEnd, grid, fields, skipStatus, v)
      + RowUpdates(rEnd - 1, minC, cEnd, grid, fields, skipStatus, v)
  }

  /** The updates of the whole rectangle walk over `b`. */
  function RectUpdates(b: Rect, grid: seq<Row>, fields: seq<string>, skipStatus: bool, v: Value): seq<Update> {
    RowsUpdates(b.minR, Max(b.maxR + 1, b.minR), b.minC, Max(b.maxC + 1, b.minC), grid, fields, skipStatus, v)
  }

  /** One cell: the pushed update is the target's update. */
  lemma CellUpdateAgree(r: nat, c: nat, grid: seq<Row>, fields: seq<string>, skipStatus: bool, v: Value)
    ensures InGrid(CellTarget(r, c, |grid|, |fields|, skipStatus, v), |grid|, |fields|)
    ensures CellUpdate(r, c, grid, fields, skipStatus, v) == ToUpdates(CellTarget(r, c, |grid|, |fields|, skipStatus, v), grid, fields)
  {
  }

  lemma {:induction false} RowUpdatesAgree(r: nat, minC: nat, cEnd: nat, grid: seq<Row>, fields: seq<string>,
                                           skipStatus: bool, v: Value)
    ensures InGrid(RowTargets(r, minC, cEnd, |grid|, |fields|, skipStatus, v), |grid|, |fields|)
    ensures RowUpdates(r, minC, cEnd, grid, fields, skipStatus, v)
      == ToUpdates(RowTargets(r, minC, cEnd, |grid|, |fields|, skipStatus, v), grid, fields)
    decreases cEnd
  {
    if cEnd > minC {
      var done := RowTargets(r, minC, cEnd - 1, |grid|, |fields|, skipStatus, v);
      var cell := CellTarget(r, cEnd - 1, |grid|, |fields|, skipStatus, v);
      assert RowTargets(r, minC, cEnd, |grid|, |fields|, skipStatus, v) == done + cell;
      RowUpdatesAgree(r, minC, cEnd - 1, grid, fields, skipStatus, v);
      CellUpdateAgree(r, cEnd - 1, grid, fields, skipStatus, v);
      ToUpdatesAppend(done, cell, grid, fields);
      assert RowUpdates(r, minC, cEnd, grid, fields, skipStatus, v)
        == ToUpdates(done, grid, fields) + ToUpdates(cell, grid, fields);
    }
  }

  lemma {:induction false} RowsUpdatesAgree(minR: nat, rEnd: nat, minC: nat, cEnd: nat, grid: seq<Row>,
                                            fields: seq<string>, skipStatus: bool, v: Value)
    ensures InGrid(RowsTargets(minR, rEnd, minC, cEnd, |grid|, |fields|, skipStatus, v), |grid|, |fields|)
    ensures RowsUpdates(minR, rEnd, minC, cEnd, grid, fields, skipStatus, v)
      == ToUpdates(RowsTargets(minR, rEnd, minC, cEnd, |grid|, |fields|, skipStatus, v), grid, fields)
    decreases rEnd
  {
    if rEnd > minR {
      var done := RowsTargets(minR, rEnd - 1, minC, cEnd, |grid|, |fields|, skipStatus, v);
      var row := RowTargets(rEnd - 1, minC, cEnd, |grid|, |fields|, skipStatus, v);
      assert RowsTargets(minR, rEnd, minC, cEnd, |grid|, |fields|, skipStatus, v) == done + row;
      RowsUpdatesAgree(minR, rEnd - 1, minC, cEnd, grid, fields, skipStatus, v);
      RowUpdatesAgree(rEnd - 1, minC, cEnd, grid, fields, skipStatus, v);
      ToUpdatesAppend(done, row, grid, fields);
      assert RowsUpdates(minR, rEnd, minC, cEnd, grid, fields, skipStatus, v)
        == ToUpdates(done, grid, fields) + ToUpdates(row, grid, fields);
    }
  }

  /** The walk writes exactly the updates for the rectangle's targets. */
  lemma RectUpdatesAgree(b: Rect, grid: seq<Row>, fields: seq<string>, skipStatus: bool, v: Value)
    ensures InGrid(RectTargets(b, |grid|, |fields|, skipStatus, v), |grid|, |fields|)
    ensures RectUpdates(b, grid, fields, skipStatus, v) == ToUpdates(RectTargets(b, |grid|, |fields|, skipStatus, v), grid, fields)
  {
    RowsUpdatesAgree(b.minR, Max(b.maxR + 1, b.minR), b.minC, Max(b.maxC + 1, b.minC), grid, fields, skipStatus, v);
  }

  /** The inner `for` loop of the rectangle walk: one grid row. */
  method FillRectRow(r: nat, minC: nat, cEnd: nat, grid: seq<Row>, fields: seq<string>, skipStatus: bool, v: Value)
    returns (updates: seq<Update>)
    requires minC <= cEnd
    ensures updates == RowUpdates(r, minC, cEnd, grid, fields, skipStatus, v)
  {
    updates := [];
    for c := minC to cEnd
      invariant updates == RowUpdates(r, minC, c, grid, fields, skipStatus, v)
    {
      if skipStatus && c == 0 {
        continue;
      }
      if r < |grid| && c < |fields| {
        updates := updates + [Update(grid[r].id, fields[c], v)];
      }
    }
  }

  /** The nested `for` loops over the selection rectangle. */
  method FillRect(b: Rect, grid: seq<Row>, fields: seq<string>, skipStatus: bool, v: Value) returns (updates: seq<Update>)
    ensures updates == RectUpdates(b, grid, fields, skipStatus, v)
  {
    updates := [];
    var rEnd, cEnd := Max(b.maxR + 1, b.minR), Max(b.maxC + 1, b.minC);
    for r := b.minR to rEnd
      invariant updates == RowsUpdates(b.minR, r, b.minC, cEnd, grid, fields, skipStatus, v)
    {
      var rowUpdates := FillRectRow(r, b.minC, cEnd, grid, fields, skipStatus, v);
      updates := updates + rowUpdates;
    }
  }

  // ---------------------------------------------------------------------
  // Delete
  // ---------------------------------------------------------------------

  /** The updates of the Delete/Backspace handler: the selection rectangle
      walked with the `status` column skipped, each cell set to the empty
      string; nothing without a selection. */
  function DeleteUpdates(sel: Selection, grid: seq<Row>, fields: seq<string>): seq<Update> {
    if sel.start.None? || sel.end.None? then []
    else RectUpdates(Bounds(sel.start.value, sel.end.value), grid, fields, true, Str(""))
  }

  method HandleDelete(sel: Selection, grid: seq<Row>, fields: seq<string>) returns (updates: seq<Update>)
    ensures updates == DeleteUpdates(sel, grid, fields)
  {
    if sel.start.None? || sel.end.None? {
      return [];
    }
    updates := FillRect(Bounds(sel.start.value, sel.end.value), grid, fields, true, Str(""));
  }

  /** Every update of a delete clears a selected cell inside the grid that is
      not in column 0, and every such cell is cleared, in row-major order. */
  lemma DeleteClearsSelection(s: Cell, e: Cell, grid: seq<Row>, fields: seq<string>, t: Target)
    ensures InGrid(RectTargets(Bounds(s, e), |grid|, |fields|, true, Str("")), |grid|, |fields|)
    ensures DeleteUpdates(Selection(Some(s), Some(e)), grid, fields)
      == ToUpdates(RectTargets(Bounds(s, e), |grid|, |fields|, true, Str("")), grid, fields)
    ensures t in RectTargets(Bounds(s, e), |grid|, |fields|, true, Str("")) <==>
      && IsSelected(Selection(Some(s), Some(e)), t.r, t.c)
      && t.r < |grid| && t.c < |fields| && t.c != 0 && t.value == Str("")
  {
    RectUpdatesAgree(Bounds(s, e), grid, fields, true, Str(""));
    RectTargetsMember(Bounds(s, e), |grid|, |fields|, true, Str(""), t);
  }

  /** Without a selection a delete writes nothing. */
  lemma DeleteNeedsSelection(sel: Selection, grid: seq<Row>, fields: seq<string>)
    requires sel.start.None? || sel.end.None?
    ensures DeleteUpdates(sel, grid, fields) == []
  {
  }

  // ---------------------------------------------------------------------
  // Paste
  // ---------------------------------------------------------------------

  /** `text.split(/\r?\n/)`, without a trailing empty line, each line split
      at tabs. */
  function ClipboardMatrix(text: string): (m: seq<seq<string>>)
    ensures forall i :: 0 <= i < |m| ==> |m[i]| >= 1
    ensures forall i, j :: 0 <= i < |m| && 0 <= j < |m[i]| ==> '\t' !in m[i][j]
    ensures m == [] <==> text == ""
  {
    var lines0 := SplitLines(text);
    var lines := if lines0[|lines0| - 1] == "" then lines0[..|lines0| - 1] else lines0;
    if text == "" then
      assert lines == [];
      []
    else
      assert lines != [] by {
        if lines0[|lines0| - 1] == "" && |lines0| == 1 {
          SplitEmpty(text, '\n');
        }
      }
      seq(|lines|, i requires 0 <= i < |lines| => Split(lines[i], '\t'))
  }

  /** The matrix has one row per line of the text, less a last line that is
      empty, and each of its rows joins back to its line. */
  lemma ClipboardMatrixLines(text: string)
    requires text != ""
    ensures var lines := SplitLines(text);
      |ClipboardMatrix(text)| == |lines| - (if lines[|lines| - 1] == "" then 1 else 0)
    ensures forall i :: 0 <= i < |ClipboardMatrix(text)| ==> Join(ClipboardMatrix(text)[i], '\t') == SplitLines(text)[i]
  {
    var m := ClipboardMatrix(text);
    forall i | 0 <= i < |m| ensures Join(m[i], '\t') == SplitLines(text)[i] {
      JoinSplit(SplitLines(text)[i], '\t');
    }
  }

  /** `val.trim()` of every cell of one line, as a cell value. */
  function CleanLine(vals: seq<string>): (line: seq<Value>)
    ensures |line| == |vals|
    ensures forall j :: 0 <= j < |vals| ==> line[j] == Str(Trim(vals[j]))
  {
    seq(|vals|, j requires 0 <= j < |vals| => Str(Trim(vals[j])))
  }

  /** `val.trim()` of every cell of the matrix. */
  function Cleaned(m: seq<seq<string>>): (cm: seq<seq<Value>>)
    ensures |cm| == |m|
    ensures forall i :: 0 <= i < |m| ==> cm[i] == CleanLine(m[i])
  {
    seq(|m|, i requires 0 <= i < |m| => CleanLine(m[i]))
  }

  /** Line `vals` of the matrix written into grid row `r` from column `c0`,
      cells beyond the last grid column dropped. */
  function LineTargets(r: nat, c0: nat, vals: seq<Value>, nCols: nat): seq<Target>
    decreases |vals|
  {
    if vals == [] then []
    else
      var c := c0 + |vals| - 1;
      LineTargets(r, c0, vals[..|vals| - 1], nCols) + (if c < nCols then [Target(r, c, vals[|vals| - 1])] else [])
  }

  lemma {:induction false} LineTargetsMember(r: nat, c0: nat, vals: seq<Value>, nCols: nat, t: Target)
    ensures t in LineTargets(r, c0, vals, nCols) <==>
      t.r == r && c0 <= t.c < c0 + |vals| && t.c < nCols && t.value == vals[t.c - c0]
    decreases |vals|
  {
    if vals != [] {
      var init := vals[..|vals| - 1];
      LineTargetsMember(r, c0, init, nCols, t);
      if c0 <= t.c < c0 + |init| {
        assert vals[t.c - c0] == init[t.c - c0];
      }
    }
  }

  /** The matrix written with its top-left value at row `r0`, column `c0`;
      lines below the last grid row are dropped. */
  function MatrixTargets(m: seq<seq<Value>>, r0: nat, c0: nat, nRows: nat, nCols: nat): seq<Target>
    decreases |m|
  {
    if m == [] then []
    else
      var r := r0 + |m| - 1;
      MatrixTargets(m[..|m| - 1], r0, c0, nRows, nCols) + (if r < nRows then LineTargets(r, c0, m[|m| - 1], nCols) else [])
  }

  lemma {:induction false} MatrixTargetsMember(m: seq<seq<Value>>, r0: nat, c0: nat, nRows: nat, nCols: nat, t: Target)
    ensures t in MatrixTargets(m, r0, c0, nRows, nCols) <==>
      && r0 <= t.r < r0 + |m| && t.r < nRows
      && c0 <= t.c < c0 + |m[t.r - r0]| && t.c < nCols
      && t.value == m[t.r - r0][t.c - c0]
    decreases |m|
  {
    if m != [] {
      var init := m[..|m| - 1];
      var r := r0 + |m| - 1;
      var a := MatrixTargets(init, r0, c0, nRows, nCols);
      var b := if r < nRows then LineTargets(r, c0, m[|m| - 1], nCols) else [];
      assert MatrixTargets(m, r0, c0, nRows, nCols) == a + b;
      MatrixTargetsMember(init, r0, c0, nRows, nCols, t);
      LineTargetsMember(r, c0, m[|m| - 1], nCols, t);
      if r0 <= t.r < r {
        assert m[t.r - r0] == init[t.r - r0];
      } else if t.r == r {
        assert t.r - r0 == |m| - 1;
      }
    }
  }

  lemma MatrixTargetsInGrid(m: seq<seq<Value>>, r0: nat, c0: nat, nRows: nat, nCols: nat)
    ensures InGrid(MatrixTargets(m, r0, c0, nRows, nCols), nRows, nCols)
  {
    var ts := MatrixTargets(m, r0, c0, nRows, nCols);
    forall k | 0 <= k < |ts| ensures ts[k].r < nRows && ts[k].c < nCols {
      MatrixTargetsMember(m, r0, c0, nRows, nCols, ts[k]);
    }
  }

  lemma LineTargetsInGrid(r: nat, c0: nat, vals: seq<Value>, nRows: nat, nCols: nat)
    requires r < nRows
    ensures InGrid(LineTargets(r, c0, vals, nCols), nRows, nCols)
  {
    var ts := LineTargets(r, c0, vals, nCols);
    forall k | 0 <= k < |ts| ensures ts[k].r < nRows && ts[k].c < nCols {
      LineTargetsMember(r, c0, vals, nCols, ts[k]);
    }
  }

  /** The updates the inner `rowVals.forEach` pushes for one trimmed line. */
  function LineUpdates(r: nat, c0: nat, line: seq<Value>, grid: seq<Row>, fields: seq<string>): seq<Update>
    requires r < |grid|
    decreases |line|
  {
    if line == [] then []
    else
      var c := c0 + |line| - 1;
      LineUpdates(r, c0, line[..|line| - 1], grid, fields)
      + (if c < |fields| then [Update(grid[r].id, fields[c], line[|line| - 1])] else [])
  }

  /** The updates the outer `clipboardMatrix.forEach` pushes for the trimmed
      matrix `cm`. */
  function MatrixUpdates(cm: seq<seq<Value>>, r0: nat, c0: nat, grid: seq<Row>, fields: seq<string>): seq<Update>
    decreases |cm|
  {
    if cm == [] then []
    else
      var r := r0 + |cm| - 1;
      MatrixUpdates(cm[..|cm| - 1], r0, c0, grid, fields)
      + (if r < |grid| then LineUpdates(r, c0, cm[|cm| - 1], grid, fields) else [])
  }

  lemma {:induction false} LineUpdatesAgree(r: nat, c0: nat, line: seq<Value>, grid: seq<Row>, fields: seq<string>)
    requires r < |grid|
    ensures InGrid(LineTargets(r, c0, line, |fields|), |grid|, |fields|)
    ensures LineUpdates(r, c0, line, grid, fields) == ToUpdates(LineTargets(r, c0, line, |fields|), grid, fields)
    decreases |line|
  {
    LineTargetsInGrid(r, c0, line, |grid|, |fields|);
    if line != [] {
      var init := line[..|line| - 1];
      var c := c0 + |line| - 1;
      LineUpdatesAgree(r, c0, init, grid, fields);
      var last: seq<Target> := if c < |fields| then [Target(r, c, line[|line| - 1])] else [];
      assert LineTargets(r, c0, line, |fields|) == LineTargets(r, c0, init, |fields|) + last;
      ToUpdatesAppend(LineTargets(r, c0, init, |fields|), last, grid, fields);
      assert LineUpdates(r, c0, line, grid, fields)
        == ToUpdates(LineTargets(r, c0, init, |fields|), grid, fields) + ToUpdates(last, grid, fields);
    }
  }

  lemma MatrixUpdatesLast(cm: seq<seq<Value>>, r0: nat, c0: nat, grid: seq<Row>, fields: seq<string>)
    requires cm != [] && r0 + |cm| - 1 < |grid|
    ensures MatrixUpdates(cm, r0, c0, grid, fields)
      == MatrixUpdates(cm[..|cm| - 1], r0, c0, grid, fields) + LineUpdates(r0 + |cm| - 1, c0, cm[|cm| - 1], grid, fields)
  {
  }

  lemma {:induction false} MatrixUpdatesAgree(cm: seq<seq<Value>>, r0: nat, c0: nat, grid: seq<Row>, fields: seq<string>)
    ensures InGrid(MatrixTargets(cm, r0, c0, |grid|, |fields|), |grid|, |fields|)
    ensures MatrixUpdates(cm, r0, c0, grid, fields) == ToUpdates(MatrixTargets(cm, r0, c0, |grid|, |fields|), grid, fields)
    decreases |cm|
  {
    if cm != [] {
      var init := cm[..|cm| - 1];
      var r := r0 + |cm| - 1;
      MatrixUpdatesAgree(init, r0, c0, grid, fields);
      var done := MatrixTargets(init, r0, c0, |grid|, |fields|);
      if r < |grid| {
        var line := LineTargets(r, c0, cm[|cm| - 1], |fields|);
        assert MatrixTargets(cm, r0, c0, |grid|, |fields|) == done + line;
        LineUpdatesAgree(r, c0, cm[|cm| - 1], grid, fields);
        MatrixUpdatesLast(cm, r0, c0, grid, fields);
        ToUpdatesAppend(done, line, grid, fields);
      } else {
        assert MatrixTargets(cm, r0, c0, |grid|, |fields|) == done + [];
        assert MatrixUpdates(cm, r0, c0, grid, fields) == MatrixUpdates(init, r0, c0, grid, fields) + [];
      }
    }
  }

  /** The inner `rowVals.forEach`: the trimmed values of one line written
      into grid row `r` from column `c0`, up to the last grid column. */
  method FillLine(r: nat, c0: nat, rowVals: seq<string>, grid: seq<Row>, fields: seq<string>) returns (updates: seq<Update>)
    requires r < |grid|
    ensures updates == LineUpdates(r, c0, CleanLine(rowVals), grid, fields)
  {
    ghost var line := CleanLine(rowVals);
    updates := [];
    var cOffset := 0;
    assert line[..0] == [];
    while cOffset < |rowVals|
      invariant |line| == |rowVals| && 0 <= cOffset <= |rowVals|
      invariant updates == LineUpdates(r, c0, line[..cOffset], grid, fields)
    {
      var val := rowVals[cOffset];
      var targetC := c0 + cOffset;
      assert line[..cOffset + 1][..cOffset] == line[..cOffset];
      assert line[cOffset] == Str(Trim(val));
      if targetC < |fields| {
        updates := updates + [Update(grid[r].id, fields[targetC], Str(Trim(val)))];
      }
      cOffset := cOffset + 1;
    }
    assert line[..cOffset] == line;
  }

  /** The `clipboardMatrix.forEach` walk over the lines that land inside
      the grid. */
  lemma MatrixStep(cm: seq<seq<Value>>, i: nat, r0: nat, c0: nat, grid: seq<Row>, fields: seq<string>)
    requires i < |cm|
    ensures MatrixUpdates(cm[..i + 1], r0, c0, grid, fields)
      == MatrixUpdates(cm[..i], r0, c0, grid, fields)
         + (if r0 + i < |grid| then LineUpdates(r0 + i, c0, cm[i], grid, fields) else [])
  {
    assert cm[..i + 1][..i] == cm[..i];
  }

  method FillMatrix(m: seq<seq<string>>, r0: nat, c0: nat, grid: seq<Row>, fields: seq<string>) returns (updates: seq<Update>)
    ensures updates == MatrixUpdates(Cleaned(m), r0, c0, grid, fields)
  {
    ghost var cm := Cleaned(m);
    updates := [];
    var rOffset := 0;
    assert cm[..0] == [];
    while rOffset < |m|
      invariant |cm| == |m| && 0 <= rOffset <= |m|
      invariant updates == MatrixUpdates(cm[..rOffset], r0, c0, grid, fields)
    {
      var rowVals := m[rOffset];
      var targetR := r0 + rOffset;
      MatrixStep(cm, rOffset, r0, c0, grid, fields);
      assert cm[rOffset] == CleanLine(rowVals);
      if targetR < |grid| {
        var lineUpdates := FillLine(targetR, c0, rowVals, grid, fields);
        updates := updates + lineUpdates;
      }
      rOffset := rOffset + 1;
    }
    assert cm[..rOffset] == cm;
  }

  /** A single copied value pasted into a selection of more than one cell. */
  predicate FillsSelection(m: seq<seq<string>>, b: Rect) {
    |m| == 1 && |m[0]| == 1 && (b.maxR - b.minR > 0 || b.maxC - b.minC > 0)
  }

  /** The cells a paste of matrix `m` into the selection `b` writes. */
  function PasteTargets(m: seq<seq<string>>, b: Rect, nRows: nat, nCols: nat): seq<Target> {
    if FillsSelection(m, b) then RectTargets(b, nRows, nCols, false, Str(Trim(m[0][0])))
    else MatrixTargets(Cleaned(m), b.minR, b.minC, nRows, nCols)
  }

  /** The updates `handlePaste` hands to the batch engine; nothing without a
      selection or without text. */
  function PasteUpdates(text: string, sel: Selection, grid: seq<Row>, fields: seq<string>): seq<Update> {
    if sel.start.None? || sel.end.None? || text == "" then []
    else
      var m := ClipboardMatrix(text);
      var b := Bounds(sel.start.value, sel.end.value);
      if FillsSelection(m, b) then RectUpdates(b, grid, fields, false, Str(Trim(m[0][0])))
      else MatrixUpdates(Cleaned(m), b.minR, b.minC, grid, fields)
  }

  method HandlePaste(text: string, sel: Selection, grid: seq<Row>, fields: seq<string>) returns (updates: seq<Update>)
    ensures updates == PasteUpdates(text, sel, grid, fields)
  {
    if sel.start.None? || sel.end.None? || text == "" {
      return [];
    }
    var m := ClipboardMatrix(text);
    var b := Bounds(sel.start.value, sel.end.value);
    if FillsSelection(m, b) {
      updates := FillRect(b, grid, fields, false, Str(Trim(m[0][0])));
    } else {
      updates := FillMatrix(m, b.minR, b.minC, grid, fields);
    }
  }

  /** A paste writes, in order, one update per target cell of its matrix or
      of its fill. */
  lemma PasteWritesTargets(text: string, s: Cell, e: Cell, grid: seq<Row>, fields: seq<string>)
    requires text != ""
    ensures InGrid(PasteTargets(ClipboardMatrix(text), Bounds(s, e), |grid|, |fields|), |grid|, |fields|)
    ensures PasteUpdates(text, Selection(Some(s), Some(e)), grid, fields)
      == ToUpdates(PasteTargets(ClipboardMatrix(text), Bounds(s, e), |grid|, |fields|), grid, fields)
  {
    var m := ClipboardMatrix(text);
    var b := Bounds(s, e);
    if FillsSelection(m, b) {
      RectUpdatesAgree(b, grid, fields, false, Str(Trim(m[0][0])));
    } else {
      MatrixUpdatesAgree(Cleaned(m), b.minR, b.minC, grid, fields);
    }
  }

  /** One value over a larger selection: every selected cell inside the grid,
      `status` included, gets the trimmed value, and nothing else is written. */
  lemma SingleValueFillsSelection(m: seq<seq<string>>, b: Rect, nRows: nat, nCols: nat, t: Target)
    requires FillsSelection(m, b)
    ensures t in PasteTargets(m, b, nRows, nCols) <==>
      InRect(b, t.r, t.c) && t.r < nRows && t.c < nCols && t.value == Str(Trim(m[0][0]))
  {
    RectTargetsMember(b, nRows, nCols, false, Str(Trim(m[0][0])), t);
  }

  /** Otherwise the matrix is anchored at the top-left selected cell, whatever
      the size of the selection: cell `(i, j)` of the matrix lands on row
      `minR + i`, column `minC + j`, and nothing lands outside the matrix. */
  lemma MatrixAnchoredAtTopLeft(m: seq<seq<string>>, b: Rect, nRows: nat, nCols: nat, t: Target)
    requires !FillsSelection(m, b)
    ensures t in PasteTargets(m, b, nRows, nCols) <==>
      && b.minR <= t.r < b.minR + |m| && t.r < nRows
      && b.minC <= t.c < b.minC + |m[t.r - b.minR]| && t.c < nCols
      && t.value == Str(Trim(m[t.r - b.minR][t.c - b.minC]))
  {
    var cm := Cleaned(m);
    MatrixTargetsMember(cm, b.minR, b.minC, nRows, nCols, t);
    if b.minR <= t.r < b.minR + |m| {
      var i := t.r - b.minR;
      assert |cm[i]| == |m[i]|;
      if b.minC <= t.c < b.minC + |m[i]| {
        assert cm[i][t.c - b.minC] == Str(Trim(m[i][t.c - b.minC]));
      }
    }
  }

  /** `gridColumns`: `status` first, then the workspace's columns; none
      without an active workspace. */
  function GridFields(active: Option<Workspace>): (fs: seq<string>)
    ensures active.None? ==> fs == []
    ensures active.Some? ==>
      && |fs| == 1 + |active.value.columns| && fs[0] == "status"
      && forall j :: 0 <= j < |active.value.columns| ==> fs[j + 1] == active.value.columns[j].field
  {
    match active
    case None => []
    case Some(ws) => ["status"] + seq(|ws.columns|, j requires 0 <= j < |ws.columns| => ws.columns[j].field)
  }
}
