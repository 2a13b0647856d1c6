/**
 * Where the texts of cells stand in the lines that src/fort.c prints, told by the blanks in front of and behind them, and
 * in which order the style tags stand around them.
 */
module Alignment {
  import opened CellText
  import opened TableModel
  import opened Layout
  import opened Units
  import opened Rendering
  import opened Grid
  import opened TableText

  /** Of `width` columns from `start` on, `before` are blank, then the line stands there, and the others are blank. */
  ghost predicate StandsIn(v: seq<string>, start: nat, width: nat, before: nat, line: string) {
    && start + width <= |v| && before + |line| <= width
    && (forall x :: start <= x < start + before ==> v[x] == " ")
    && (forall x :: 0 <= x < |line| ==> v[start + before + x] == [line[x]])
    && (forall x :: start + before + |line| <= x < start + width ==> v[x] == " ")
  }

  /** What an alignment means for the blanks in front of a text block and behind it. */
  predicate Balanced(align: Align, before: nat, after: nat) {
    match align
    case AlignLeft => before == 0
    case AlignRight => after == 0
    case AlignCenter => before == after || before + 1 == after
  }

  /**
   * The text block of a cell, as wide as its longest line, stands between the paddings, with `before` blanks in front and
   * `after` blanks behind it as the alignment has it, and the line stands at the left edge of the block.
   */
  ghost predicate IsAligned(cell: Cell, p: Props, k: nat, v: seq<string>, start: nat, width: nat, before: nat, after: nat)
    requires k < TextHeight(cell.text)
  {
    && Balanced(p.align, before, after)
    && p.paddingLeft + before + TextWidth(cell.text) + after + p.paddingRight == width
    && StandsIn(v, start, width, p.paddingLeft + before, Lines(cell.text)[k])
  }

  lemma SharesAreBalanced(align: Align, slack: nat)
    ensures Balanced(align, AlignShare(align, slack), slack - AlignShare(align, slack))
  {
  }

  /** A stretch of columns that shows the glyphs of a cell shows its text aligned. */
  lemma GlyphsAreAligned(cell: Cell, p: Props, k: nat, v: seq<string>, start: nat, width: nat)
    returns (before: nat, after: nat)
    requires VisWidth(cell, p) <= width && k < TextHeight(cell.text) && start + width <= |v|
    requires forall x :: start <= x < start + width ==> v[x] == CellGlyph(cell, p, p.paddingTop + k, width, x - start)
    ensures IsAligned(cell, p, k, v, start, width, before, after)
  {
    hide AlignShare, Lines, Balanced, TextWidth;
    var slack := width - p.paddingLeft - p.paddingRight - TextWidth(cell.text);
    before := AlignShare(p.align, slack);
    after := slack - before;
    SharesAreBalanced(p.align, slack);
    var line := Lines(cell.text)[k];
    LineFitsText(cell.text, k);
    assert TextOffset(cell, p, width) == p.paddingLeft + before;
  }

  /** Line `k` of a text within `width` columns, as `buffer_printf` prints it: without paddings. */
  lemma TextLineIsAligned(text: string, p: Props, k: nat, width: nat) returns (before: nat, after: nat)
    requires k < TextHeight(text) && TextWidth(text) <= width
    ensures Balanced(p.align, before, after) && before + TextWidth(text) + after == width
    ensures StandsIn(Visible(TextLine(text, p, k, width)), 0, width, before, Lines(text)[k])
  {
    hide AlignShare, Lines, Balanced, TextWidth, TextLine, Visible;
    TextLineMeasure(text, p, k, width);
    before := AlignShare(p.align, width - TextWidth(text));
    after := width - TextWidth(text) - before;
    SharesAreBalanced(p.align, width - TextWidth(text));
    var v, line := Visible(TextLine(text, p, k, width)), Lines(text)[k];
    forall x | 0 <= x < |line| ensures v[0 + before + x] == [line[x]] {
      assert v[before + x] == [line[before + x - before]];
    }
  }

  /**
   * Main result: in the output, line `k` of the text of a cell stands in line `paddingTop + k` of its row, in the cell's
   * columns, with the blanks around it that the paddings and the alignment ask for, and nothing else stands there.
   */
  lemma TextIsAligned(t: Table, r: nat, c: nat, k: nat) returns (before: nat, after: nat)
    requires WellFormed(t) && r < |t.rows| && c < |t.rows[r]| && Starts(t.rows[r], c)
    requires k < TextHeight(t.rows[r][c].text)
    ensures Ready(t, ColWidths(t)) && Printable(t, ColWidths(t), r) && c < |ColWidths(t)|
    ensures var number := LineNumber(t, r, t.props(r, c).paddingTop + k);
            && number < |TableLines(t, ColWidths(t))|
            && IsAligned(t.rows[r][c], t.props(r, c), k, Visible(TableLines(t, ColWidths(t))[number]),
                         ColumnStart(t, ColWidths(t), c), PrintedWidth(t, ColWidths(t), r, c), before, after)
  {
    hide *;
    var w := ColWidths(t);
    var i := t.props(r, c).paddingTop + k;
    RowsArePrintable(t);
    ReadyRow(t, w, r);
    CellIsInColumns(t, w, r, c);
    TextFitsRow(t, r, c);
    LineOfRow(t, w, r, i);
    PrintableRow(t, w, r);
    LineShowsCell(t, w, r, i, c);
    before, after := ShownIsAligned(t, w, r, c, k, Visible(ContentLine(t, w, r, i)));
  }

  lemma CellIsInColumns(t: Table, w: seq<nat>, r: nat, c: nat)
    requires Printable(t, w, r) && r < |t.rows| && c < |t.rows[r]|
    ensures c < |w| && |w| == Columns(t)
  {
  }

  lemma ShownIsAligned(t: Table, w: seq<nat>, r: nat, c: nat, k: nat, v: seq<string>) returns (before: nat, after: nat)
    requires Printable(t, w, r) && c < |t.rows[r]| && c < |w| && Starts(t.rows[r], c) && k < TextHeight(t.rows[r][c].text)
    requires ShowsCell(t, w, r, t.props(r, c).paddingTop + k, c, v, 0)
    ensures IsAligned(t.rows[r][c], t.props(r, c), k, v, ColumnStart(t, w, c), PrintedWidth(t, w, r, c), before, after)
  {
    hide ColumnStart, CellGlyph, IsAligned, TextHeight, GroupWidth, VisWidth;
    var cell, p, start, width := t.rows[r][c], t.props(r, c), ColumnStart(t, w, c), PrintedWidth(t, w, r, c);
    forall x | start <= x < start + width ensures v[x] == CellGlyph(cell, p, p.paddingTop + k, width, x - start) {
      var y: nat := x - start;
      assert v[start - 0 + y] == PrintedGlyph(t, w, r, p.paddingTop + k, c, y);
    }
    before, after := GlyphsAreAligned(cell, p, k, v, start, width);
  }

  // ---- The height of a row ----

  /** The lines that the cell in a column needs, or that stand for it where a row has no cell there. */
  function LinesNeeded(text: nat, p: Props, isCell: bool): nat {
    if isCell || p.emptyStrHeight > 0 then
      p.paddingTop + (if text > 0 then text else p.emptyStrHeight) + p.paddingBottom
    else 0
  }

  /** The lines of the text in a column, if there are any. */
  ghost function TextLines(t: Table, r: nat, c: nat): nat
    requires r < |t.rows|
  {
    if c < |t.rows[r]| && t.rows[r][c].text != "" then |Lines(t.rows[r][c].text)| else 0
  }

  /** A row has as many lines as one of its columns needs, and no column needs more. */
  lemma RowHeightIsNeeded(t: Table, r: nat)
    requires r < |t.rows|
    ensures forall c: nat :: c < Columns(t) ==>
                               LinesNeeded(TextLines(t, r, c), t.props(r, c), c < |t.rows[r]|) <= Heights(t)[r]
    ensures (Heights(t)[r] > 0 ==>
              exists c: nat :: c < Columns(t)
                               && LinesNeeded(TextLines(t, r, c), t.props(r, c), c < |t.rows[r]|) == Heights(t)[r])
  {
    var cols := Columns(t);
    MaxHeightIsLargest(t, r, cols);
    forall c: nat ensures LinesNeeded(TextLines(t, r, c), t.props(r, c), c < |t.rows[r]|) == HeightAt(t, r, c) {
      NeededIsHeight(t, r, c);
    }
    hide LinesNeeded, TextLines, HeightAt, Columns;
    assert Heights(t)[r] == MaxHeight(t, r, cols);
  }

  lemma NeededIsHeight(t: Table, r: nat, c: nat)
    requires r < |t.rows|
    ensures LinesNeeded(TextLines(t, r, c), t.props(r, c), c < |t.rows[r]|) == HeightAt(t, r, c)
  {
  }

  // ---- The style tags ----

  lemma {:induction false} BlanksConcat(m: nat, n: nat)
    ensures Repeat(" ", m) + Repeat(" ", n) == Repeat(" ", m + n)
  {
    if n > 0 {
      BlanksConcat(m, n - 1);
      Assoc(Repeat(" ", m), Repeat(" ", n - 1), " ");
    } else {
      assert Repeat(" ", m) + "" == Repeat(" ", m);
    }
  }

  lemma BlankBytes(n: nat)
    ensures Bytes(Spaces(n)) == Repeat(" ", n)
  {
    CopiesMeasure(n, " ");
  }

  /**
   * The bytes of a cell's line with text: the tags of the cell around everything, the tags of the content right around
   * the text, and blanks between them.
   */
  lemma TagsAroundText(cell: Cell, p: Props, i: nat, width: nat) returns (before: nat, after: nat)
    requires VisWidth(cell, p) <= width && ShowsText(cell, p, i)
    ensures Balanced(p.align, before, after)
    ensures p.paddingLeft + before + TextWidth(cell.text) + after + p.paddingRight == width
    ensures var line := Lines(cell.text)[i - p.paddingTop];
            && |line| <= TextWidth(cell.text)
            && Bytes(CellLine(cell, p, i, width))
               == p.cellTag + Repeat(" ", p.paddingLeft + before) + p.contentTag + line + p.resetContentTag
                  + Repeat(" ", TextWidth(cell.text) - |line| + after + p.paddingRight) + p.resetCellTag
  {
    hide *;
    ShownLineIs(cell, p, i, width);
    var inner := width - p.paddingLeft - p.paddingRight;
    var line := Lines(cell.text)[i - p.paddingTop];
    var slack := inner - TextWidth(cell.text);
    before := AlignShare(p.align, slack);
    after := slack - before;
    SharesAreBalanced(p.align, slack);
    var rest := TextWidth(cell.text) - |line|;
    TextLineBytes(before, p.contentTag, line, p.resetContentTag, rest, after);
    ShownLineBytes(p, TextLine(cell.text, p, i - p.paddingTop, inner));
    MergeBlanks(p.cellTag, p.paddingLeft, before, p.contentTag + line + p.resetContentTag, rest, after, p.paddingRight,
                p.resetCellTag);
    Middle(p.cellTag + Repeat(" ", p.paddingLeft + before), p.contentTag, line, p.resetContentTag);
  }

  lemma Middle(a: string, b: string, c: string, d: string)
    ensures a + (b + c + d) == a + b + c + d
  {
  }

  /** The calls for a cell's line with text. */
  lemma ShownLineIs(cell: Cell, p: Props, i: nat, width: nat)
    requires VisWidth(cell, p) <= width && ShowsText(cell, p, i)
    ensures p.paddingTop <= i && i - p.paddingTop < |Lines(cell.text)| && i - p.paddingTop < TextHeight(cell.text)
    ensures p.paddingLeft + TextWidth(cell.text) + p.paddingRight <= width
    ensures var inner := width - p.paddingLeft - p.paddingRight;
            var line, text := Lines(cell.text)[i - p.paddingTop], TextLine(cell.text, p, i - p.paddingTop, inner);
            var left := AlignShare(p.align, inner - TextWidth(cell.text));
            && |line| <= TextWidth(cell.text)
            && text == Spaces(left) + [Tag(p.contentTag)] + Text(line) + [Tag(p.resetContentTag)]
                       + Spaces(TextWidth(cell.text) - |line|) + Spaces(inner - TextWidth(cell.text) - left)
            && CellLine(cell, p, i, width)
               == [Tag(p.cellTag)] + Spaces(p.paddingLeft) + text + Spaces(p.paddingRight) + [Tag(p.resetCellTag)]
  {
    hide AlignShare, Lines, TextWidth, Spaces, Text;
    LineFitsText(cell.text, i - p.paddingTop);
  }

  lemma ShownLineBytes(p: Props, text: seq<Unit>)
    ensures Bytes([Tag(p.cellTag)] + Spaces(p.paddingLeft) + text + Spaces(p.paddingRight) + [Tag(p.resetCellTag)])
            == p.cellTag + Repeat(" ", p.paddingLeft) + Bytes(text) + Repeat(" ", p.paddingRight) + p.resetCellTag
  {
    hide *;
    TagMeasure(p.cellTag);
    BlankBytes(p.paddingLeft);
    BlankBytes(p.paddingRight);
    TagMeasure(p.resetCellTag);
    var a := [Tag(p.cellTag)] + Spaces(p.paddingLeft);
    Concat([Tag(p.cellTag)], Spaces(p.paddingLeft));
    Concat(a, text);
    Concat(a + text, Spaces(p.paddingRight));
    Concat(a + text + Spaces(p.paddingRight), [Tag(p.resetCellTag)]);
  }

  lemma TextLineBytes(left: nat, tag: string, line: string, resetTag: string, rest: nat, right: nat)
    ensures Bytes(Spaces(left) + [Tag(tag)] + Text(line) + [Tag(resetTag)] + Spaces(rest) + Spaces(right))
            == Repeat(" ", left) + (tag + line + resetTag) + Repeat(" ", rest) + Repeat(" ", right)
  {
    hide *;
    BlankBytes(left);
    TagMeasure(tag);
    TextMeasure(line);
    TagMeasure(resetTag);
    BlankBytes(rest);
    BlankBytes(right);
    SixPieces(Spaces(left), [Tag(tag)], Text(line), [Tag(resetTag)], Spaces(rest), Spaces(right));
    Grouped(Repeat(" ", left), tag, line, resetTag);
  }

  lemma Grouped(a: string, b: string, c: string, d: string)
    ensures a + b + c + d == a + (b + c + d)
  {
  }

  lemma SixPieces(a: seq<Unit>, b: seq<Unit>, c: seq<Unit>, d: seq<Unit>, e: seq<Unit>, f: seq<Unit>)
    ensures Bytes(a + b + c + d + e + f) == Bytes(a) + Bytes(b) + Bytes(c) + Bytes(d) + Bytes(e) + Bytes(f)
  {
    hide *;
    Concat(a, b);
    Concat(a + b, c);
    Concat(a + b + c, d);
    Concat(a + b + c + d, e);
    Concat(a + b + c + d + e, f);
  }

  lemma MergeBlanks(tag: string, padding: nat, left: nat, middle: string, rest: nat, right: nat, padding': nat, reset: string)
    ensures tag + Repeat(" ", padding) + (Repeat(" ", left) + middle + Repeat(" ", rest) + Repeat(" ", right))
            + Repeat(" ", padding') + reset
            == tag + Repeat(" ", padding + left) + middle + Repeat(" ", rest + right + padding') + reset
  {
    hide *;
    BlanksConcat(padding, left);
    BlanksConcat(rest, right);
    BlanksConcat(rest + right, padding');
    Regrouped(tag, Repeat(" ", padding), Repeat(" ", left), middle, Repeat(" ", rest), Repeat(" ", right),
              Repeat(" ", padding'), reset);
  }

  lemma Regrouped(tag: string, a: string, b: string, m: string, c: string, d: string, e: string, reset: string)
    ensures tag + a + (b + m + c + d) + e + reset == tag + (a + b) + m + (c + d + e) + reset
  {
    assert tag + a + (b + m + c + d) == tag + (a + b) + m + (c + d);
    Assoc(tag + (a + b) + m, c + d, e);
  }

  /** In the other lines of a cell, its tags and those of the content stand around each other in the same order. */
  lemma TagsAroundBlanks(cell: Cell, p: Props, i: nat, width: nat)
    requires VisWidth(cell, p) <= width && !ShowsText(cell, p, i)
    ensures Bytes(CellLine(cell, p, i, width))
            == p.cellTag + p.contentTag + p.resetContentTag + Repeat(" ", width) + p.resetCellTag
  {
    hide Bytes, Visible, ShowsText, VisWidth, Spaces;
    TagMeasure(p.cellTag);
    TagMeasure(p.contentTag);
    TagMeasure(p.resetContentTag);
    BlankBytes(width);
    TagMeasure(p.resetCellTag);
    var a := [Tag(p.cellTag)] + [Tag(p.contentTag)];
    Concat([Tag(p.cellTag)], [Tag(p.contentTag)]);
    Concat(a, [Tag(p.resetContentTag)]);
    Concat(a + [Tag(p.resetContentTag)], Spaces(width));
    Concat(a + [Tag(p.resetContentTag)] + Spaces(width), [Tag(p.resetCellTag)]);
  }
}
