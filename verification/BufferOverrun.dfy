/** A table whose output does not fit into the bytes that src/fort.c reserves for it. */
module BufferOverrun {
  import opened CellText
  import opened TableModel
  import opened Layout
  import opened TableSizes
  import opened Units
  import opened Rendering
  import opened Separators
  import opened TableText
  import opened BufferBound
  import opened ExactSize
  import opened TextPlaces

  // ---- Tags beside a span ----

  function PlainBorder(): Border {
    Border("-", "-", "-", "-", "|", "|", "|", "-", "-", "-", "-", "-", "-", "-", "-", "-", "-", "-", "-")
  }

  /** The escape sequences around bold text: eight bytes that take no column. */
  const BOLD := "\U{1b}[1m"
  const RESET := "\U{1b}[0m"

  /** Three columns at least for each cell, fifteen for the span, and one of the cells is bold. */
  function MixedProps(row: nat, col: nat): Props {
    var bold := row == 1 && col == 0;
    Props(if row == 0 then 15 else 3, AlignLeft, 0, 0, 0, 0, 1,
          if bold then BOLD else "", if bold then RESET else "", "", "")
  }

  /** Two rows: a span over both columns, and below it two cells. */
  function Mixed(): Table {
    Table([[Cell("", GroupMaster), Cell("", GroupSlave)], [Cell("", CommonCell), Cell("", CommonCell)]],
          [], MixedProps, _ => false, PlainBorder(), PlainBorder(), SeparatorStyle("-", "-", "-", "-", "-", "-"),
          Margins(0, 0, 0, 0))
  }

  lemma EmptyText()
    ensures TextWidth("") == 0 && TextHeight("") == 0
  {
    assert Lines("") == [""];
    assert Longest([""], 1) == 0;
  }

  lemma MixedSpan()
    ensures WellFormed(Mixed()) && Columns(Mixed()) == 2
    ensures GroupSize(Mixed().rows[0], 0) == 2
    ensures forall r: nat, c: nat :: IsMaster(Mixed(), r, c) <==> r == 0 && c == 0
  {
    var row := Mixed().rows[0];
    assert Slaves(row, 2) == 0 && Slaves(row, 1) == 1;
    assert ColumnsOf(Mixed().rows, 0) == 0 && ColumnsOf(Mixed().rows, 1) == 2 && ColumnsOf(Mixed().rows, 2) == 2;
  }

  lemma MixedBase()
    ensures BaseWidths(Mixed(), VisibleGeometry) == [3, 3] && BaseWidths(Mixed(), InternalGeometry) == [11, 3]
  {
    var t := Mixed();
    EmptyText();
    MixedSpan();
    hide Columns, GroupSize, IsMaster, WellFormed, TextWidth, TextHeight;
    assert forall c :: 0 <= c < 2 ==> CommonWidth(t, 0, c) == 0 && CommonWidth(t, 1, c) == 3;
    assert forall c :: 0 <= c < 2 ==> MaxCommon(t, c, 0) == 0 && MaxCommon(t, c, 1) == 0 && MaxCommon(t, c, 2) == 3;
    assert TagWidth(t, 0, 0) == 0 && TagWidth(t, 1, 0) == 8 && TagWidth(t, 0, 1) == 0 && TagWidth(t, 1, 1) == 0;
    assert MaxTag(t, 0, 1) == 0 && MaxTag(t, 0, 2) == 8 && MaxTag(t, 1, 1) == 0 && MaxTag(t, 1, 2) == 0;
  }

  lemma MixedHeights()
    ensures Heights(Mixed()) == [1, 1]
  {
    var t := Mixed();
    EmptyText();
    MixedSpan();
    hide Columns, GroupSize, IsMaster, WellFormed, TextWidth, TextHeight;
    assert forall r, c :: 0 <= r < 2 && 0 <= c < 2 ==> HeightAt(t, r, c) == 1;
    assert forall r :: 0 <= r < 2 ==> MaxHeight(t, r, 0) == 0 && MaxHeight(t, r, 1) == 1 && MaxHeight(t, r, 2) == 1;
  }

  lemma MixedAcross(g: Geometry)
    ensures Widths(Mixed(), g) == Widen(BaseWidths(Mixed(), g), 0, 2, 15)
  {
    var t := Mixed();
    EmptyText();
    MixedSpan();
    hide Columns, GroupSize, Widen, BaseWidths, WellFormed;
    var w := BaseWidths(t, g);
    assert SpanHint(t, g, 0, 0) == 15;
    var v := LookAt(t, g, w, 0, 0);
    assert v == Widen(w, 0, 2, 15);
    assert DownColumn(t, g, w, 0, 1) == v && DownColumn(t, g, w, 0, 2) == LookAt(t, g, v, 1, 0) == v;
    assert Across(t, g, 1) == v;
    assert DownColumn(t, g, v, 1, 1) == LookAt(t, g, v, 0, 1) == v && DownColumn(t, g, v, 1, 2) == LookAt(t, g, v, 1, 1) == v;
  }

  lemma MixedWidths()
    ensures Widths(Mixed(), VisibleGeometry) == [7, 7] && Widths(Mixed(), InternalGeometry) == [11, 3]
  {
    MixedBase();
    MixedAcross(VisibleGeometry);
    MixedAcross(InternalGeometry);
    Pair(3, 3);
    Pair(11, 3);
    assert [3, 3][0..2] == [3, 3] && [11, 3][0..2] == [11, 3];
    DealNothing([11, 3], 0, 2);
    assert Share(8, 2, 0) == 4 && Share(8, 2, 1) == 4;
    assert Deal([3, 3], 0, 2, 8) == [7, 7];
  }

  lemma Pair(a: nat, b: nat)
    ensures SumOf([a, b]) == a + b
  {
    SumOfLast([a], b);
    SumOfLast([], a);
    assert [a] + [b] == [a, b] && [] + [a] == [a];
  }

  lemma MixedReserved()
    ensures CodWidth(Mixed()) == 18 && CodHeight(Mixed()) == 5
  {
    MixedHeights();
    MixedWidths();
    MixedSpan();
    MixedGlyph();
    hide Widths, Heights, MaxGlyph, Columns, SumOf;
    Pair(11, 3);
    Pair(1, 1);
    assert SumOf(Widths(Mixed(), InternalGeometry)) == 14 && SumOf(Heights(Mixed())) == 2;
  }

  lemma MixedContent()
    ensures Columns(Mixed()) == 2
    ensures ContentSize(Mixed(), [7, 7], 0) == 18 && ContentSize(Mixed(), [7, 7], 1) == 26
  {
    var t := Mixed();
    var w := [7, 7];
    MixedSpan();
    hide Columns, GroupSize, WellFormed, IsMaster;
    assert GroupSize(t.rows[1], 0) == 1 && GroupSize(t.rows[1], 1) == 1 by {
      MixedRow();
    }
    Pair(7, 7);
    assert w[0..2] == w && w[0..1] == [7] && w[1..2] == [7];
    assert SumOf([7]) == 7 + SumOf([7][1..]);
    assert CellsSize(t, w, 0, 2) == 0 && CellsSize(t, w, 1, 2) == 0;
    assert CellsSize(t, w, 0, 0) == 15;
    assert CellsSize(t, w, 1, 1) == 7 && CellsSize(t, w, 1, 0) == 23;
  }

  lemma MixedRow()
    ensures GroupSize(Mixed().rows[1], 0) == 1 && GroupSize(Mixed().rows[1], 1) == 1
  {
  }

  lemma MixedSeparator(k: nat)
    requires k <= 2
    ensures !Skipped(Mixed(), k) && SeparatorSize(Mixed(), [7, 7], k) == 18
  {
    var t := Mixed();
    var w := [7, 7];
    assert SeparatorCellsSize(t, w, k, 0) == 0 && SeparatorCellsSize(t, w, k, 1) == 8 && SeparatorCellsSize(t, w, k, 2) == 16;
  }

  lemma MixedGlyph()
    ensures MaxGlyph(Mixed()) == 1
  {
    hide LongestOf;
    OnesAreOne(Mixed().border.Glyphs());
    OnesAreOne(Mixed().headerBorder.Glyphs());
    OnesAreOne(Mixed().separatorStyle.Glyphs());
  }

  lemma {:induction false} OnesAreOne(glyphs: seq<string>)
    requires forall i :: 0 <= i < |glyphs| ==> |glyphs[i]| == 1
    ensures LongestOf(glyphs, 1) == 1
    decreases |glyphs|
  {
    if glyphs != [] {
      OnesAreOne(glyphs[..|glyphs| - 1]);
    }
  }

  /** Style tags and spans together can need more bytes than are reserved: 98 against 90, and the string's end. */
  lemma MixedDoesNotFit()
    ensures WellFormed(Mixed()) && Ready(Mixed(), ColWidths(Mixed()))
    ensures !OutputFits(Mixed()) && OutputSize(Mixed()) == 98 && Times(CodHeight(Mixed()), CodWidth(Mixed())) == 90
  {
    var t := Mixed();
    MixedHeights();
    MixedSpan();
    MixedWidths();
    MixedReserved();
    MixedContent();
    OutputSizeIsPredicted(t);
    assert ColWidths(t) == [7, 7];
    hide ContentSize, SeparatorSize, Heights, ColWidths, CodWidth, CodHeight, Skipped, WellFormed, Columns, Widths, IsMaster;
    var w := [7, 7];
    MixedSeparator(0);
    MixedSeparator(1);
    MixedSeparator(2);
    assert BodyBytes(t, w, 0) == 0;
    assert BodyBytes(t, w, 1) == 36;
    assert BodyBytes(t, w, 2) == 80;
  }

  /** No cell of this table has a text, so its conversion fails without leaving the buffer. */
  lemma MixedIsRefused()
    ensures Ready(Mixed(), ColWidths(Mixed()))
    ensures !SomeTextMeetsEnd(Mixed(), 91) && !Conversion(Mixed(), 91).ok && |Bytes(Conversion(Mixed(), 91).out)| < 91
  {
    hide Mixed, WellFormed, Ready, ColWidths, OutputFits, OutputSize, CodWidth, CodHeight, TextMeetsEnd, Bytes, Conversion,
         Output, PredictedSize;
    MixedDoesNotFit();
    OutputSizeIsPredicted(Mixed());
    forall r: nat, c: nat, k: nat ensures !TextMeetsEnd(Mixed(), ColWidths(Mixed()), r, c, k, 91) {
      MixedHasNoText(r, c, k);
    }
    ConversionOutcome(Mixed(), 91);
  }

  lemma MixedHasNoText(r: nat, c: nat, k: nat)
    ensures !TextMeetsEnd(Mixed(), ColWidths(Mixed()), r, c, k, 91)
  {
    hide ColWidths, Printable, TextStart, TextWidth, TextHeight, Lines;
    EmptyText();
    assert r < 2 && c < |Mixed().rows[r]| ==> Mixed().rows[r][c].text == "";
  }
}
