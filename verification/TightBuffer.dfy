/** A table for which a conversion with the reserved size writes behind the buffer. */
module TightBuffer {
  import opened CellText
  import opened TableModel
  import opened Layout
  import opened TableSizes
  import opened Units
  import opened Rendering
  import opened Separators
  import opened TableText
  import opened ExactSize
  import opened TextPlaces
  import opened BufferOverrun

  /** Thirteen columns for the span, and bold cells in the first column below it. */
  function TightProps(row: nat, col: nat): Props {
    var bold := row > 0 && col == 0;
    Props(if row == 0 then 13 else 0, AlignLeft, 0, 0, 0, 0, 1,
          if bold then BOLD else "", if bold then RESET else "", "", "")
  }

  const SPAN: CellRow := [Cell("", GroupMaster), Cell("", GroupSlave)]
  const PAIR: CellRow := [Cell("a", CommonCell), Cell("b", CommonCell)]

  /** A span over both columns, and below it three rows of two cells. */
  function Tight(): Table {
    Table([SPAN, PAIR, PAIR, PAIR], [], TightProps, _ => false, PlainBorder(), PlainBorder(),
          SeparatorStyle("-", "-", "-", "-", "-", "-"), Margins(0, 0, 0, 0))
  }

  lemma Letter(text: string)
    requires text == "a" || text == "b"
    ensures TextWidth(text) == 1 && TextHeight(text) == 1 && Lines(text) == [text]
  {
    assert Lines(text) == [text];
    assert Longest([text], 1) == 1;
  }

  lemma TightCells(r: nat, c: nat)
    requires r < 4 && c < 2
    ensures |Tight().rows| == 4 && |Tight().rows[r]| == 2
    ensures Tight().rows[r] == (if r == 0 then SPAN else PAIR) && Tight().props(r, c) == TightProps(r, c)
    ensures r == 0 ==> Tight().rows[r][c].text == "" && Tight().rows[r][c].kind == if c == 0 then GroupMaster else GroupSlave
    ensures r > 0 ==> Tight().rows[r][c] == Cell(if c == 0 then "a" else "b", CommonCell)
  {
  }

  lemma TightGroupSizes()
    ensures GroupSize(SPAN, 0) == 2 && GroupSize(PAIR, 0) == 1 && GroupSize(PAIR, 1) == 1
    ensures WellFormedRow(SPAN) && WellFormedRow(PAIR)
  {
    assert Slaves(SPAN, 2) == 0 && Slaves(SPAN, 1) == 1;
  }

  lemma TightColumns()
    ensures Columns(Tight()) == 2 && |Tight().rows| == 4
  {
    assert ColumnsOf(Tight().rows, 0) == 0 && ColumnsOf(Tight().rows, 1) == 2 && ColumnsOf(Tight().rows, 2) == 2;
    assert ColumnsOf(Tight().rows, 3) == 2 && ColumnsOf(Tight().rows, 4) == 2;
  }

  lemma TightSpan()
    ensures WellFormed(Tight()) && Columns(Tight()) == 2 && |Tight().rows| == 4
    ensures GroupSize(SPAN, 0) == 2 && GroupSize(PAIR, 0) == 1 && GroupSize(PAIR, 1) == 1
    ensures forall r: nat, c: nat :: IsMaster(Tight(), r, c) <==> r == 0 && c == 0
  {
    hide Columns, GroupSize, WellFormedRow;
    TightGroupSizes();
    TightColumns();
  }

  /** What each place asks for. */
  lemma TightPlace(r: nat, c: nat)
    requires r < 4 && c < 2
    ensures |Tight().rows| == 4
    ensures CommonWidth(Tight(), r, c) == if r == 0 then 0 else 1
    ensures TagWidth(Tight(), r, c) == if r > 0 && c == 0 then 8 else 0
    ensures HeightAt(Tight(), r, c) == 1
  {
    hide TextWidth, TextHeight, Tight, TagWidth;
    TightCells(r, c);
    EmptyText();
    Letter("a");
    Letter("b");
    TightTags(r, c);
  }

  lemma TightTags(r: nat, c: nat)
    requires r < 4 && c < 2
    ensures |Tight().rows| == 4 && TagWidth(Tight(), r, c) == if r > 0 && c == 0 then 8 else 0
  {
    hide Tight;
    TightCells(r, c);
  }

  lemma TightBase()
    ensures BaseWidths(Tight(), VisibleGeometry) == [1, 1] && BaseWidths(Tight(), InternalGeometry) == [9, 1]
  {
    hide Columns, MaxCommon, MaxTag, Tight;
    TightColumn(0);
    TightColumn(1);
    TightColumns();
  }

  lemma TightColumn(c: nat)
    requires c < 2
    ensures |Tight().rows| == 4 && MaxCommon(Tight(), c, 4) == 1 && MaxTag(Tight(), c, 4) == if c == 0 then 8 else 0
  {
    hide CommonWidth, TagWidth;
    var t := Tight();
    TightPlace(0, c);
    TightPlace(1, c);
    TightPlace(2, c);
    TightPlace(3, c);
    assert MaxCommon(t, c, 1) == 0 && MaxCommon(t, c, 2) == 1 && MaxCommon(t, c, 3) == 1;
    assert MaxTag(t, c, 1) == 0 && MaxTag(t, c, 2) == MaxTag(t, c, 3) == if c == 0 then 8 else 0;
  }

  lemma TightHeights()
    ensures Heights(Tight()) == [1, 1, 1, 1]
  {
    TightSpan();
    hide Columns, WellFormed, IsMaster, HeightAt;
    forall r: nat | r < 4 ensures MaxHeight(Tight(), r, 2) == 1 {
      TightPlace(r, 0);
      TightPlace(r, 1);
      assert MaxHeight(Tight(), r, 1) == 1;
    }
  }

  lemma TightAcross(g: Geometry)
    ensures Widths(Tight(), g) == Widen(BaseWidths(Tight(), g), 0, 2, 13)
  {
    var t := Tight();
    EmptyText();
    TightSpan();
    TightCells(0, 0);
    hide Columns, GroupSize, Widen, BaseWidths, WellFormed, TextWidth;
    var w := BaseWidths(t, g);
    assert SpanHint(t, g, 0, 0) == 13;
    var v := LookAt(t, g, w, 0, 0);
    assert v == Widen(w, 0, 2, 13);
    TightColumnBelow(g, v, w);
    assert Across(t, g, 1) == v;
  }

  /** Only the place of the span changes the widths. */
  lemma TightColumnBelow(g: Geometry, v: seq<nat>, w: seq<nat>)
    requires |w| == Columns(Tight()) && v == LookAt(Tight(), g, w, 0, 0)
    ensures |Tight().rows| == 4 && DownColumn(Tight(), g, w, 0, 4) == v && DownColumn(Tight(), g, v, 1, 4) == v
  {
    var t := Tight();
    TightSpan();
    hide Columns, Widen, WellFormed, IsMaster;
    assert DownColumn(t, g, w, 0, 1) == v && DownColumn(t, g, w, 0, 2) == v && DownColumn(t, g, w, 0, 3) == v;
    assert DownColumn(t, g, v, 1, 1) == v && DownColumn(t, g, v, 1, 2) == v && DownColumn(t, g, v, 1, 3) == v;
  }

  lemma TightWidths()
    ensures Widths(Tight(), VisibleGeometry) == [6, 6] && Widths(Tight(), InternalGeometry) == [10, 2]
  {
    TightBase();
    TightAcross(VisibleGeometry);
    TightAcross(InternalGeometry);
    hide Widths, BaseWidths;
    Pair(1, 1);
    Pair(9, 1);
    assert [1, 1][0..2] == [1, 1] && [9, 1][0..2] == [9, 1];
    assert Deal([1, 1], 0, 2, 10) == [6, 6];
    assert Deal([9, 1], 0, 2, 2) == [10, 2];
  }

  lemma TightReserved()
    ensures CodWidth(Tight()) == 16 && CodHeight(Tight()) == 9
  {
    TightHeights();
    TightWidths();
    TightSpan();
    TightGlyph();
    hide Widths, Heights, MaxGlyph, Columns, SumOf, WellFormed, IsMaster;
    Pair(10, 2);
    Pair(1, 1);
    SumOfConcat([1, 1], [1, 1]);
    assert [1, 1] + [1, 1] == [1, 1, 1, 1];
    assert SumOf(Widths(Tight(), InternalGeometry)) == 12 && SumOf(Heights(Tight())) == 4;
  }

  lemma TightGlyph()
    ensures MaxGlyph(Tight()) == 1
  {
    hide LongestOf;
    OnesAreOne(Tight().border.Glyphs());
    OnesAreOne(Tight().headerBorder.Glyphs());
    OnesAreOne(Tight().separatorStyle.Glyphs());
  }

  /** The sizes of what the rows print. */
  lemma TightContent(r: nat)
    requires r < 4
    ensures Columns(Tight()) == 2 && |Tight().rows| == 4
    ensures ContentSize(Tight(), [6, 6], r) == if r == 0 then 16 else 24
    ensures r > 0 ==> CellAtByte(Tight(), [6, 6], r, 1) == 16
  {
    TightSpan();
    hide Columns, WellFormed, IsMaster, CellsSize;
    TightLine(r);
  }

  lemma TightLine(r: nat)
    requires r < 4
    ensures Columns(Tight()) == 2 && |Tight().rows| == 4
    ensures CellsSize(Tight(), [6, 6], r, 0) == (if r == 0 then 13 else 21)
    ensures r > 0 ==> CellsSize(Tight(), [6, 6], r, 1) == 6
  {
    hide Columns, GroupSize, WellFormed, IsMaster, TagWidth, Tight, GroupWidth;
    var t := Tight();
    var w: seq<nat> := [6, 6];
    TightSpan();
    TightCells(r, 0);
    TightTags(r, 0);
    TightTags(r, 1);
    TightGroups();
    TightBorder(r);
    assert CellsSize(t, w, r, 2) == 0;
    if r > 0 {
      assert Next(t.rows[r], 1) == 2 && PrintedWidth(t, w, r, 1) == 6;
      assert CellsSize(t, w, r, 1) == 6;
      assert Next(t.rows[r], 0) == 1 && PrintedWidth(t, w, r, 0) == 6;
    } else {
      assert Next(t.rows[r], 0) == 2 && PrintedWidth(t, w, r, 0) == 13;
    }
  }

  lemma TightBorder(r: nat)
    ensures RowBorder(Tight(), r) == PlainBorder() && |PlainBorder().iv| == 1
  {
  }

  lemma TightGroups()
    ensures GroupWidth([6, 6], 0, 2) == 13 && GroupWidth([6, 6], 0, 1) == 6 && GroupWidth([6, 6], 1, 1) == 6
  {
    var w: seq<nat> := [6, 6];
    Pair(6, 6);
    assert w[0..2] == w && w[0..1] == [6] && w[1..2] == [6];
    assert SumOf([6]) == 6 + SumOf([6][1..]);
  }

  lemma TightSeparator(k: nat)
    requires k <= 4
    ensures !Skipped(Tight(), k) && SeparatorSize(Tight(), [6, 6], k) == 16
  {
    var t := Tight();
    var w := [6, 6];
    assert SeparatorCellsSize(t, w, k, 0) == 0 && SeparatorCellsSize(t, w, k, 1) == 7 && SeparatorCellsSize(t, w, k, 2) == 14;
  }

  /** Where the last row starts. */
  lemma TightBody()
    ensures |Tight().rows| == 4 && Columns(Tight()) == 2 && RowStart(Tight(), [6, 6], 3) == 128
    ensures BodyBytes(Tight(), [6, 6], 4) == 152 && SeparatorBytes(Tight(), [6, 6], 4) == 16
  {
    TightHeights();
    TightContent(0);
    TightContent(1);
    TightContent(2);
    TightContent(3);
    TightSeparator(0);
    TightSeparator(1);
    TightSeparator(2);
    TightSeparator(3);
    TightSeparator(4);
    hide ContentSize, SeparatorSize, Heights, CodWidth, Skipped, Columns, CellAtByte;
    var t, w := Tight(), [6, 6];
    assert BodyBytes(t, w, 0) == 0;
    assert BodyBytes(t, w, 1) == 32;
    assert BodyBytes(t, w, 2) == 72;
    assert BodyBytes(t, w, 3) == 112;
  }

  lemma TightLastCell()
    ensures IsText(Tight(), 3, 1, 0) && |Lines(Tight().rows[3][1].text)[0]| == 1
    ensures Columns(Tight()) == 2 && PrintedWidth(Tight(), [6, 6], 3, 1) == 6
    ensures VisWidth(Tight().rows[3][1], Tight().props(3, 1)) == 1
    ensures TextAt(Tight().rows[3][1], Tight().props(3, 1), 6) == 0 && Tight().props(3, 1).paddingTop == 0
  {
    hide Columns, WellFormed, IsMaster, Tight, TextWidth, TextHeight, Lines, GroupSize, GroupWidth;
    TightSpan();
    TightCells(3, 1);
    TightGroups();
    Letter("b");
  }

  /** The "b" of the last row starts at the last byte of the buffer. */
  lemma TightMeetsEnd()
    ensures TextMeetsEnd(Tight(), [6, 6], 3, 1, 0, 145)
  {
    hide ContentSize, RowStart, CellAtByte, Columns, WellFormed, Tight, Printable, TextAt, IsText, Times, PrintedWidth, VisWidth,
         Lines;
    TightLastCell();
    TightBody();
    TightContent(3);
    TightPrintable();
  }

  lemma TightPrintable()
    ensures |Tight().rows| == 4 && Ready(Tight(), [6, 6]) && Printable(Tight(), [6, 6], 3) && ColWidths(Tight()) == [6, 6]
    ensures Times(0, ContentSize(Tight(), [6, 6], 3)) == 0
  {
    hide Printable, Widths, ContentSize;
    TightSpan();
    TightWidths();
    RowsArePrintable(Tight());
    ReadyRow(Tight(), [6, 6], 3);
  }

  lemma TightSize()
    ensures Times(CodHeight(Tight()), CodWidth(Tight())) == 144 && PredictedSize(Tight()) == 168
  {
    hide CodWidth, CodHeight, BodyBytes, SeparatorBytes, ColWidths;
    TightReserved();
    TightBody();
    TightPrintable();
  }

  /** A conversion of this table with the size that is reserved for it leaves the buffer. */
  lemma TightOverruns()
    ensures WellFormed(Tight()) && Ready(Tight(), ColWidths(Tight()))
    ensures Times(CodHeight(Tight()), CodWidth(Tight())) + 1 == 145 && PredictedSize(Tight()) == 168
    ensures SomeTextMeetsEnd(Tight(), 145) && |Bytes(Conversion(Tight(), 145).out)| >= 145
  {
    hide Tight, WellFormed, Ready, ColWidths, CodWidth, CodHeight, PredictedSize, TextMeetsEnd, Bytes, Conversion;
    TightSpan();
    TightSize();
    TightMeetsEnd();
    TightPrintable();
    ConversionOutcome(Tight(), 145);
  }
}
