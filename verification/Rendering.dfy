/** The text that src/fort.c prints for a table, line by line, as a function of the table and its column widths. */
module Rendering {
  import opened CellText
  import opened TableModel
  import opened Layout
  import opened Units

  // ---- One line of one cell ----

  /** The part of the free room of an aligned text that stands to its left. */
  function AlignShare(align: Align, slack: nat): (left: nat)
    ensures left <= slack
  {
    match align
    case AlignLeft => 0
    case AlignCenter => slack / 2
    case AlignRight => slack
  }

  /** Whether line `i` of a cell carries a line of its text, or is padding. */
  ghost predicate ShowsText(cell: Cell, p: Props, i: nat) {
    p.paddingTop <= i < p.paddingTop + TextHeight(cell.text)
  }

  /** Line `k` of a text within `width` columns. */
  ghost function TextLine(text: string, p: Props, k: nat, width: nat): seq<Unit>
    requires k < TextHeight(text) && TextWidth(text) <= width
  {
    var line := Lines(text)[k];
    var left := AlignShare(p.align, width - TextWidth(text));
    Spaces(left) + [Tag(p.contentTag)] + Text(line) + [Tag(p.resetContentTag)]
    + Spaces(TextWidth(text) - |line|) + Spaces(width - TextWidth(text) - left)
  }

  /** Line `i` of a cell that is `width` columns wide. */
  ghost function CellLine(cell: Cell, p: Props, i: nat, width: nat): seq<Unit>
    requires VisWidth(cell, p) <= width
  {
    if ShowsText(cell, p, i) then
      [Tag(p.cellTag)] + Spaces(p.paddingLeft)
      + TextLine(cell.text, p, i - p.paddingTop, width - p.paddingLeft - p.paddingRight)
      + Spaces(p.paddingRight) + [Tag(p.resetCellTag)]
    else
      [Tag(p.cellTag)] + [Tag(p.contentTag)] + [Tag(p.resetContentTag)] + Spaces(width) + [Tag(p.resetCellTag)]
  }

  /** The column of a cell at which its text block starts. */
  ghost function TextOffset(cell: Cell, p: Props, width: nat): (offset: nat)
    requires VisWidth(cell, p) <= width
    ensures offset + TextWidth(cell.text) + p.paddingRight <= width
  {
    p.paddingLeft + AlignShare(p.align, width - p.paddingLeft - p.paddingRight - TextWidth(cell.text))
  }

  /**
   * What is to be seen in column `y` of line `i` of a cell: the text starts behind the left padding and its share of
   * the slack that the whole text block leaves; everything else is blank.
   */
  ghost function CellGlyph(cell: Cell, p: Props, i: nat, width: nat, y: nat): string
    requires VisWidth(cell, p) <= width
  {
    if !ShowsText(cell, p, i) then " "
    else
      var line := Lines(cell.text)[i - p.paddingTop];
      var offset := TextOffset(cell, p, width);
      if offset <= y < offset + |line| then [line[y - offset]] else " "
  }

  /** A run of blanks of the given length. */
  ghost predicate Blank(v: seq<string>, n: nat) {
    |v| == n && forall x :: 0 <= x < n ==> v[x] == " "
  }

  lemma SpacesMeasure(n: nat)
    ensures |Bytes(Spaces(n))| == n && Blank(Visible(Spaces(n)), n)
  {
    CopiesMeasure(n, " ");
  }

  lemma TextLineMeasure(text: string, p: Props, k: nat, width: nat)
    requires k < TextHeight(text) && TextWidth(text) <= width
    ensures var line := Lines(text)[k];
            var left := AlignShare(p.align, width - TextWidth(text));
            var us := TextLine(text, p, k, width);
            && |Bytes(us)| == width + |p.contentTag| + |p.resetContentTag|
            && |Visible(us)| == width && left + |line| <= width
            && forall y :: 0 <= y < width ==> Visible(us)[y] == if left <= y < left + |line| then [line[y - left]] else " "
  {
    hide AlignShare, Bytes, Visible, Lines;
    var line := Lines(text)[k];
    var left := AlignShare(p.align, width - TextWidth(text));
    var after, right := TextWidth(text) - |line|, width - TextWidth(text) - left;
    SpacesMeasure(left);
    TagMeasure(p.contentTag);
    TextMeasure(line);
    TagMeasure(p.resetContentTag);
    SpacesMeasure(after);
    SpacesMeasure(right);
    var a := Spaces(left) + [Tag(p.contentTag)];
    var b := a + Text(line);
    var c := b + [Tag(p.resetContentTag)];
    var d := c + Spaces(after);
    Concat(Spaces(left), [Tag(p.contentTag)]);
    Concat(a, Text(line));
    Concat(b, [Tag(p.resetContentTag)]);
    Concat(c, Spaces(after));
    Concat(d, Spaces(right));
  }

  /** A cell's line has the cell's width, holds its glyphs, and is longer in bytes by the four tags. */
  lemma CellLineMeasure(cell: Cell, p: Props, i: nat, width: nat)
    requires VisWidth(cell, p) <= width
    ensures var us := CellLine(cell, p, i, width);
            && |Bytes(us)| == width + InvisWidth(p)
            && |Visible(us)| == width
            && forall y :: 0 <= y < width ==> Visible(us)[y] == CellGlyph(cell, p, i, width, y)
  {
    if ShowsText(cell, p, i) {
      ShownLineMeasure(cell, p, i, width);
    } else {
      BlankLineMeasure(cell, p, i, width);
    }
  }

  lemma BlankLineMeasure(cell: Cell, p: Props, i: nat, width: nat)
    requires VisWidth(cell, p) <= width && !ShowsText(cell, p, i)
    ensures var us := CellLine(cell, p, i, width);
            |Bytes(us)| == width + InvisWidth(p) && Blank(Visible(us), width)
  {
    hide Bytes, Visible, ShowsText, VisWidth;
    TagMeasure(p.cellTag);
    TagMeasure(p.contentTag);
    TagMeasure(p.resetContentTag);
    SpacesMeasure(width);
    TagMeasure(p.resetCellTag);
    var a := [Tag(p.cellTag)] + [Tag(p.contentTag)];
    var b := a + [Tag(p.resetContentTag)];
    Concat([Tag(p.cellTag)], [Tag(p.contentTag)]);
    Concat(a, [Tag(p.resetContentTag)]);
    Concat(b, Spaces(width));
    Concat(b + Spaces(width), [Tag(p.resetCellTag)]);
  }

  lemma ShownLineMeasure(cell: Cell, p: Props, i: nat, width: nat)
    requires VisWidth(cell, p) <= width && ShowsText(cell, p, i)
    ensures var us := CellLine(cell, p, i, width);
            && |Bytes(us)| == width + InvisWidth(p)
            && |Visible(us)| == width
            && forall y :: 0 <= y < width ==> Visible(us)[y] == CellGlyph(cell, p, i, width, y)
  {
    hide Bytes, Visible, TextLine, TextHeight, TextWidth, AlignShare, Lines;
    var text := TextLine(cell.text, p, i - p.paddingTop, width - p.paddingLeft - p.paddingRight);
    TagMeasure(p.cellTag);
    SpacesMeasure(p.paddingLeft);
    TextLineMeasure(cell.text, p, i - p.paddingTop, width - p.paddingLeft - p.paddingRight);
    SpacesMeasure(p.paddingRight);
    TagMeasure(p.resetCellTag);
    var a := [Tag(p.cellTag)] + Spaces(p.paddingLeft);
    Concat([Tag(p.cellTag)], Spaces(p.paddingLeft));
    Concat(a, text);
    Concat(a + text, Spaces(p.paddingRight));
    Concat(a + text + Spaces(p.paddingRight), [Tag(p.resetCellTag)]);
  }

  // ---- One line of a row ----

  /** The border of a row: the header's if the row is marked as one. */
  function RowBorder(t: Table, row: nat): Border {
    if t.isHeader(row) then t.headerBorder else t.border
  }

  /** The columns are wide enough for every cell that is printed. */
  ghost predicate Covers(t: Table, w: seq<nat>) {
    && |w| == Columns(t)
    && forall r, c :: 0 <= r < |t.rows| && 0 <= c < |t.rows[r]| && !t.rows[r][c].kind.GroupSlave? ==>
         VisWidth(t.rows[r][c], t.props(r, c)) <= GroupWidth(w, c, GroupSize(t.rows[r], c))
  }

  /** The widths that the solver finds are wide enough. */
  lemma SolverCovers(t: Table)
    ensures Covers(t, Widths(t, VisibleGeometry))
  {
    hide Widths, VisWidth;
    var w := Widths(t, VisibleGeometry);
    WidthsFitAllCells(t, VisibleGeometry);
    forall r, c | 0 <= r < |t.rows| && 0 <= c < |t.rows[r]| && !t.rows[r][c].kind.GroupSlave?
      ensures VisWidth(t.rows[r][c], t.props(r, c)) <= GroupWidth(w, c, GroupSize(t.rows[r], c))
    {
      if t.rows[r][c].kind.GroupMaster? {
        assert IsMaster(t, r, c);
        assert SpanFits(t, VisibleGeometry, w, r, c);
      } else {
        assert w[c..c + 1] == [w[c]];
        assert SumOf([w[c]]) == w[c] + SumOf([w[c]][1..]);
      }
    }
  }

  /** A place where a cell is printed: not the inside of a span. */
  ghost predicate Starts(row: CellRow, j: nat) {
    j < |row| ==> !row[j].kind.GroupSlave?
  }

  /** The column at which the next cell is printed. */
  ghost function Next(row: CellRow, j: nat): (k: nat)
    ensures k > j && (j < |row| ==> k <= |row|)
    ensures WellFormedRow(row) && Starts(row, j) ==> Starts(row, k)
  {
    if j < |row| then j + GroupSize(row, j) else j + 1
  }

  /** The columns and width of `t` let row `r` be printed. */
  ghost predicate Printable(t: Table, w: seq<nat>, r: nat) {
    Covers(t, w) && r < |t.rows| && WellFormedRow(t.rows[r])
  }

  /** The width of what is printed at column `j`. */
  ghost function PrintedWidth(t: Table, w: seq<nat>, r: nat, j: nat): nat
    requires r < |t.rows| && |w| == Columns(t) && j < |w|
  {
    if j < |t.rows[r]| then GroupWidth(w, j, GroupSize(t.rows[r], j)) else w[j]
  }

  /** What line `i` of row `r` holds at column `j`: a line of the cell, or blanks where the row has no cell any more. */
  ghost function Printed(t: Table, w: seq<nat>, r: nat, i: nat, j: nat): seq<Unit>
    requires Printable(t, w, r) && j < |w| && Starts(t.rows[r], j)
  {
    if j < |t.rows[r]| then CellLine(t.rows[r][j], t.props(r, j), i, PrintedWidth(t, w, r, j))
    else Spaces(w[j])
  }

  /** The border in front of column `j`, if it is not the end of the line. */
  ghost function Between(t: Table, glyph: string, j: nat): seq<Unit> {
    if j < Columns(t) then [Glyph(glyph)] else []
  }

  /** Line `i` of row `r` from column `j` on. */
  ghost function CellsLine(t: Table, w: seq<nat>, r: nat, i: nat, j: nat): seq<Unit>
    requires Printable(t, w, r) && Starts(t.rows[r], j)
    decreases Columns(t) - j
  {
    if j >= Columns(t) then []
    else
      var k := Next(t.rows[r], j);
      Printed(t, w, r, i, j) + Between(t, RowBorder(t, r).iv, k) + CellsLine(t, w, r, i, k)
  }

  /** Line `i` of row `r`. */
  ghost function ContentLine(t: Table, w: seq<nat>, r: nat, i: nat): seq<Unit>
    requires Printable(t, w, r)
  {
    Spaces(t.margins.left) + [Glyph(RowBorder(t, r).ll)] + CellsLine(t, w, r, i, 0)
    + [Glyph(RowBorder(t, r).rr)] + Spaces(t.margins.right) + [LINE_END]
  }

  /** The bytes of a line of row `r` from column `j` on. */
  ghost function CellsSize(t: Table, w: seq<nat>, r: nat, j: nat): nat
    requires r < |t.rows| && |w| == Columns(t)
    decreases Columns(t) - j
  {
    if j >= Columns(t) then 0
    else
      var k := Next(t.rows[r], j);
      PrintedWidth(t, w, r, j) + TagWidth(t, r, j) + BetweenSize(t, r, k) + CellsSize(t, w, r, k)
  }

  ghost function BetweenSize(t: Table, r: nat, j: nat): nat {
    if j < Columns(t) then |RowBorder(t, r).iv| else 0
  }

  ghost function ContentSize(t: Table, w: seq<nat>, r: nat): nat
    requires r < |t.rows| && |w| == Columns(t)
  {
    t.margins.left + |RowBorder(t, r).ll| + CellsSize(t, w, r, 0) + |RowBorder(t, r).rr| + t.margins.right + 1
  }

  // ---- Where the columns stand in a line ----

  /** The place in every line at which column `j` starts: behind the left margin, a border, and the columns before. */
  ghost function ColumnStart(t: Table, w: seq<nat>, j: nat): nat
    requires j <= |w|
  {
    t.margins.left + 1 + SumOf(w[..j]) + j
  }

  /** The width of a line, without the newline. */
  ghost function LineWidth(t: Table, w: seq<nat>): nat
    requires |w| == Columns(t)
  {
    t.margins.left + SumOf(w) + |w| + 1 + t.margins.right
  }

  /** What is printed at `j` reaches to one column before the next cell starts. */
  lemma PrintedReach(t: Table, w: seq<nat>, r: nat, j: nat)
    requires r < |t.rows| && |w| == Columns(t) && j < |w|
    ensures Next(t.rows[r], j) <= |w|
    ensures ColumnStart(t, w, j) + PrintedWidth(t, w, r, j) + 1 == ColumnStart(t, w, Next(t.rows[r], j))
  {
    var k := Next(t.rows[r], j);
    assert w[..k] == w[..j] + w[j..k];
    SumOfConcat(w[..j], w[j..k]);
    if j >= |t.rows[r]| {
      assert w[j..k] == [w[j]];
      assert SumOf([w[j]]) == w[j] + SumOf([w[j]][1..]);
    }
  }

  /** What is to be seen of row `r` in line `i` at column `y` of the cell printed at `j`. */
  ghost function PrintedGlyph(t: Table, w: seq<nat>, r: nat, i: nat, j: nat, y: nat): string
    requires Printable(t, w, r) && j < |w| && Starts(t.rows[r], j)
  {
    if j < |t.rows[r]| then CellGlyph(t.rows[r][j], t.props(r, j), i, PrintedWidth(t, w, r, j), y) else " "
  }

  lemma PrintedMeasure(t: Table, w: seq<nat>, r: nat, i: nat, j: nat)
    requires Printable(t, w, r) && j < |w| && Starts(t.rows[r], j)
    ensures var us := Printed(t, w, r, i, j);
            && |Bytes(us)| == PrintedWidth(t, w, r, j) + TagWidth(t, r, j)
            && |Visible(us)| == PrintedWidth(t, w, r, j)
            && forall y :: 0 <= y < |Visible(us)| ==> Visible(us)[y] == PrintedGlyph(t, w, r, i, j, y)
  {
    hide Bytes, Visible, CellLine, CellGlyph, GroupWidth, InvisWidth, VisWidth;
    if j < |t.rows[r]| {
      CellLineMeasure(t.rows[r][j], t.props(r, j), i, PrintedWidth(t, w, r, j));
    } else {
      SpacesMeasure(w[j]);
    }
  }

  lemma BetweenMeasure(t: Table, r: nat, j: nat)
    ensures var us := Between(t, RowBorder(t, r).iv, j);
            && |Bytes(us)| == BetweenSize(t, r, j)
            && Visible(us) == if j < Columns(t) then [RowBorder(t, r).iv] else []
  {
    GlyphMeasure(RowBorder(t, r).iv);
  }

  /** The part of the line from column `j` on, placed at its start: its width and its bytes. */
  lemma {:induction false} CellsMeasure(t: Table, w: seq<nat>, r: nat, i: nat, j: nat)
    requires Printable(t, w, r) && Starts(t.rows[r], j) && j <= |w|
    ensures |Bytes(CellsLine(t, w, r, i, j))| == CellsSize(t, w, r, j)
    ensures j < |w| ==> ColumnStart(t, w, j) + |Visible(CellsLine(t, w, r, i, j))| + 1 == ColumnStart(t, w, |w|)
    ensures j == |w| ==> Visible(CellsLine(t, w, r, i, j)) == []
    decreases |w| - j
  {
    assert |w| == Columns(t);
    hide Bytes, Visible, Printed, Between, BetweenSize, ColumnStart, PrintedWidth, TagWidth, Covers, WellFormedRow;
    if j < |w| {
      var k := Next(t.rows[r], j);
      PrintedReach(t, w, r, j);
      PrintedMeasure(t, w, r, i, j);
      BetweenMeasure(t, r, k);
      CellsMeasure(t, w, r, i, k);
      Concat(Printed(t, w, r, i, j), Between(t, RowBorder(t, r).iv, k));
      Concat(Printed(t, w, r, i, j) + Between(t, RowBorder(t, r).iv, k), CellsLine(t, w, r, i, k));
    } else {
      NothingMeasure();
    }
  }
}
