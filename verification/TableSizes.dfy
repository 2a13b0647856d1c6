/** The loops of `table_rows_and_cols_geometry` and `table_geometry` in src/fort.c. */
module TableSizes {
  import opened TableModel
  import opened Layout

  /** `get_table_sizes` */
  method GetTableSizes(t: Table) returns (rows: nat, cols: nat)
    ensures rows == |t.rows| && cols == Columns(t)
  {
    rows := |t.rows|;
    cols := 0;
    for rowIndex := 0 to |t.rows|
      invariant cols == ColumnsOf(t.rows, rowIndex)
    {
      var colsInRow := |t.rows[rowIndex]|;
      if colsInRow > cols {
        cols := colsInRow;
      }
    }
  }

  /** Whether one of the first `n` places of a column holds a master. */
  ghost predicate MasterAbove(t: Table, col: nat, n: nat) {
    exists r :: 0 <= r < n && IsMaster(t, r, col)
  }

  lemma NothingMeasured(t: Table, col: nat)
    ensures MaxCommon(t, col, 0) == 0 && !MasterAbove(t, col, 0)
  {
  }

  /** What one place adds to the width of its column and the height of its row. */
  lemma PlaceMeasured(t: Table, row: nat, col: nat)
    requires row < |t.rows|
    ensures MaxCommon(t, col, row + 1) == Max(MaxCommon(t, col, row), CommonWidth(t, row, col))
    ensures MaxHeight(t, row, col + 1) == Max(MaxHeight(t, row, col), HeightAt(t, row, col))
    ensures MasterAbove(t, col, row + 1) <==> MasterAbove(t, col, row) || IsMaster(t, row, col)
    ensures (CommonWidth(t, row, col) == if col < |t.rows[row]| && t.rows[row][col].kind.CommonCell?
                                         then VisWidth(t.rows[row][col], t.props(row, col)) else 0)
    ensures col < |t.rows[row]| ==> HeightAt(t, row, col) == HintHeight(t.rows[row][col], t.props(row, col))
    ensures (col >= |t.rows[row]| ==>
              var p := t.props(row, col);
              HeightAt(t, row, col) == if p.emptyStrHeight > 0 then p.emptyStrHeight + p.paddingTop + p.paddingBottom
                                       else 0)
  {
    hide VisWidth, HintHeight;
    if IsMaster(t, row, col) {
      assert MasterAbove(t, col, row + 1);
    }
  }

  /** The pass over one column that finds its width without spans and raises the heights of the rows. */
  method MeasureColumn(t: Table, col: nat, colWidths: array<nat>, rowHeights: array<nat>) returns (combined: bool)
    requires col < colWidths.Length && rowHeights.Length == |t.rows| && colWidths != rowHeights
    requires forall r :: 0 <= r < |t.rows| ==> rowHeights[r] == MaxHeight(t, r, col)
    modifies colWidths, rowHeights
    ensures colWidths[col] == MaxCommon(t, col, |t.rows|)
    ensures forall c :: 0 <= c < colWidths.Length && c != col ==> colWidths[c] == old(colWidths[c])
    ensures forall r :: 0 <= r < |t.rows| ==> rowHeights[r] == MaxHeight(t, r, col + 1)
    ensures combined <==> MasterAbove(t, col, |t.rows|)
  {
    hide VisWidth, HintHeight, CommonWidth, HeightAt, MaxCommon, MaxHeight, MasterAbove;
    combined := false;
    colWidths[col] := 0;
    NothingMeasured(t, col);
    for row := 0 to |t.rows|
      invariant colWidths[col] == MaxCommon(t, col, row)
      invariant forall c :: 0 <= c < colWidths.Length && c != col ==> colWidths[c] == old(colWidths[c])
      invariant forall r :: 0 <= r < |t.rows| ==> rowHeights[r] == MaxHeight(t, r, if r < row then col + 1 else col)
      invariant combined <==> MasterAbove(t, col, row)
    {
      PlaceMeasured(t, row, col);
      var p := t.props(row, col);
      var cell := CellAt(t.rows[row], col);
      if cell.Some? {
        if cell.value.kind.CommonCell? {
          var width := CellVisWidth(cell.value, p);
          colWidths[col] := Max(colWidths[col], width);
        } else if cell.value.kind.GroupMaster? {
          combined := true;
        }
        var height := HintHeightCell(cell.value, p);
        rowHeights[row] := Max(rowHeights[row], height);
      } else if p.emptyStrHeight > 0 {
        rowHeights[row] := Max(rowHeights[row], p.emptyStrHeight + p.paddingTop + p.paddingBottom);
      }
    }
  }

  /** The room that the longest style tags of a column take. */
  method MaxInvisCodepoints(t: Table, col: nat) returns (width: nat)
    ensures width == MaxTag(t, col, |t.rows|)
  {
    width := 0;
    for row := 0 to |t.rows|
      invariant width == MaxTag(t, col, row)
    {
      if col < |t.rows[row]| {
        var tags := CellInvisCodesWidth(t.props(row, col));
        width := Max(width, tags);
      }
    }
  }

  /** The pass over one column that widens the columns of each span starting there. */
  method WidenColumn(t: Table, g: Geometry, col: nat, colWidths: array<nat>)
    requires colWidths.Length == Columns(t)
    modifies colWidths
    ensures colWidths[..] == DownColumn(t, g, old(colWidths[..]), col, |t.rows|)
  {
    hide VisWidth, Widen, Columns;
    ghost var w := colWidths[..];
    for row := 0 to |t.rows|
      invariant colWidths[..] == DownColumn(t, g, w, col, row)
    {
      var cell := CellAt(t.rows[row], col);
      if cell.Some? && cell.value.kind.GroupMaster? {
        var hintWidth := CellVisWidth(cell.value, t.props(row, col));
        if g.InternalGeometry? {
          var tags := CellInvisCodesWidth(t.props(row, col));
          hintWidth := hintWidth + tags;
        }
        var size := GroupCellNumber(t.rows[row], col);
        WidenGroup(colWidths, col, col + size, hintWidth);
      }
    }
  }

  lemma {:induction false} NoMasterNoChange(t: Table, g: Geometry, w: seq<nat>, col: nat, n: nat)
    requires |w| == Columns(t) && n <= |t.rows| && !MasterAbove(t, col, n)
    ensures DownColumn(t, g, w, col, n) == w
  {
    if n > 0 {
      NoMasterNoChange(t, g, w, col, n - 1);
    }
  }

  /** Without spans the widths are those that the common cells ask for. */
  lemma {:induction false} NoSpansNoChange(t: Table, g: Geometry, cols: nat)
    requires forall c :: 0 <= c < cols ==> !MasterAbove(t, c, |t.rows|)
    ensures Across(t, g, cols) == BaseWidths(t, g)
  {
    hide DownColumn, MasterAbove;
    if cols > 0 {
      NoSpansNoChange(t, g, cols - 1);
      NoMasterNoChange(t, g, BaseWidths(t, g), cols - 1, |t.rows|);
    }
  }

  /** `table_rows_and_cols_geometry` */
  method TableRowsAndColsGeometry(t: Table, g: Geometry) returns (colWidths: array<nat>, rowHeights: array<nat>)
    ensures fresh(colWidths) && fresh(rowHeights)
    ensures colWidths[..] == Widths(t, g) && rowHeights[..] == Heights(t)
  {
    hide MaxCommon, MaxTag, MaxHeight, DownColumn, MasterAbove, Columns;
    var rows, cols := GetTableSizes(t);
    colWidths := new nat[cols](_ => 0);
    rowHeights := new nat[rows](_ => 0);
    var combinedCellsFound := false;
    NoHeights(t);
    for col := 0 to cols
      invariant forall c :: 0 <= c < col ==> colWidths[c] == BaseWidth(t, g, c)
      invariant forall r :: 0 <= r < rows ==> rowHeights[r] == MaxHeight(t, r, col)
      invariant !combinedCellsFound ==> forall c :: 0 <= c < col ==> !MasterAbove(t, c, rows)
    {
      var combined := MeasureColumn(t, col, colWidths, rowHeights);
      combinedCellsFound := combinedCellsFound || combined;
      if g.InternalGeometry? {
        var tags := MaxInvisCodepoints(t, col);
        colWidths[col] := colWidths[col] + tags;
      }
    }
    assert colWidths[..] == BaseWidths(t, g);
    assert rowHeights[..] == Heights(t);
    if combinedCellsFound {
      for col := 0 to cols
        invariant colWidths[..] == Across(t, g, col) && rowHeights[..] == Heights(t)
      {
        WidenColumn(t, g, col, colWidths);
      }
    } else {
      NoSpansNoChange(t, g, cols);
    }
  }

  lemma NoHeights(t: Table)
    ensures forall r :: 0 <= r < |t.rows| ==> MaxHeight(t, r, 0) == 0
  {
  }

  // ---- The size of the output ----

  ghost function LongestOf(glyphs: seq<string>, least: nat): (n: nat)
    ensures n >= least && forall i :: 0 <= i < |glyphs| ==> |glyphs[i]| <= n
    ensures n == least || exists i :: 0 <= i < |glyphs| && |glyphs[i]| == n
  {
    if glyphs == [] then least
    else
      assert glyphs == glyphs[..|glyphs| - 1] + [glyphs[|glyphs| - 1]];
      Max(LongestOf(glyphs[..|glyphs| - 1], least), |glyphs[|glyphs| - 1]|)
  }

  /** The bytes of the longest glyph of the table's style, at least 1. */
  ghost function MaxGlyph(t: Table): (n: nat)
    ensures n >= 1
  {
    LongestOf(t.separatorStyle.Glyphs(), LongestOf(t.headerBorder.Glyphs(), LongestOf(t.border.Glyphs(), 1)))
  }

  method LongestGlyph(glyphs: seq<string>, least: nat) returns (n: nat)
    ensures n == LongestOf(glyphs, least)
  {
    n := least;
    for i := 0 to |glyphs|
      invariant n == LongestOf(glyphs[..i], least)
    {
      assert glyphs[..i + 1][..i] == glyphs[..i];
      n := Max(n, |glyphs[i]|);
    }
    assert glyphs[..|glyphs|] == glyphs;
  }

  /** `max_border_elem_strlen` */
  method MaxBorderElemStrlen(t: Table) returns (n: nat)
    ensures n == MaxGlyph(t)
  {
    n := LongestGlyph(t.border.Glyphs(), 1);
    n := LongestGlyph(t.headerBorder.Glyphs(), n);
    n := LongestGlyph(t.separatorStyle.Glyphs(), n);
  }

  function Times(a: nat, b: nat): (product: nat)
    ensures b >= 1 ==> product >= a
    ensures (a == 1 ==> product == b) && (b == 1 ==> product == a) && (a == 0 || b == 0 ==> product == 0)
  {
    if b >= 1 then MulAtLeast(b, a); a * b else a * b
  }

  lemma TimesAdd(a: nat, b: nat, n: nat)
    ensures Times(a + b, n) == Times(a, n) + Times(b, n)
    ensures Times(1, n) == n && Times(0, n) == 0
  {
  }

  /** The bytes reserved for a line. */
  ghost function CodWidth(t: Table): (width: nat)
    ensures width >= 3
  {
    Times(1 + (if Columns(t) == 0 then 1 else Columns(t)) + 1 + SumOf(Widths(t, InternalGeometry))
          + t.margins.left + t.margins.right, MaxGlyph(t))
  }

  /** The lines reserved. */
  ghost function CodHeight(t: Table): nat {
    1 + (if |t.rows| == 0 then 1 else |t.rows|) + SumOf(Heights(t)) + t.margins.top + t.margins.bottom
  }

  method SumUp(a: array<nat>, start: nat) returns (sum: nat)
    ensures sum == start + SumOf(a[..])
  {
    sum := start;
    for i := 0 to a.Length
      invariant sum == start + SumOf(a[..i])
    {
      assert a[..i + 1] == a[..i] + [a[i]];
      SumOfLast(a[..i], a[i]);
      sum := sum + a[i];
    }
    assert a[..a.Length] == a[..];
  }

  /** `table_geometry` */
  method TableGeometry(t: Table) returns (height: nat, width: nat)
    ensures height == CodHeight(t) && width == CodWidth(t)
  {
    hide MaxGlyph, Widths, Heights, Columns;
    var rows, cols := GetTableSizes(t);
    var colWidths, rowHeights := TableRowsAndColsGeometry(t, InternalGeometry);
    width := SumUp(colWidths, 1 + (if cols == 0 then 1 else cols) + 1);
    height := SumUp(rowHeights, 1 + if rows == 0 then 1 else rows);
    height := height + t.margins.top;
    height := height + t.margins.bottom;
    width := width + t.margins.left;
    width := width + t.margins.right;
    var maxBorderElemLen := MaxBorderElemStrlen(t);
    width := Times(width, maxBorderElemLen);
  }
}
