/** Where in the output of src/fort.c each line of a text starts, and with that which tables overrun their buffer. */
module TextPlaces {
  import opened CellText
  import opened TableModel
  import opened Layout
  import opened TableSizes
  import opened Units
  import opened PrintRuns
  import opened Rendering
  import opened Grid
  import opened Separators
  import opened TableText
  import opened BufferBound
  import opened ExactSize

  // ---- Pieces of output with one text in them, or none ----

  ghost predicate NoTexts(us: seq<Unit>) {
    forall x :: 0 <= x < |us| ==> !us[x].Written?
  }

  lemma {:induction false} NoTextsNoOverrun(us: seq<Unit>, start: nat, size: nat)
    requires NoTexts(us)
    ensures !Overruns(us, start, size)
  {
    hide Unit.Content;
    if us != [] {
      NoTextsNoOverrun(us[1..], start + |us[0].Content()|, size);
    }
  }

  /** What surrounds a piece without adding texts only moves it. */
  lemma Around(a: seq<Unit>, us: seq<Unit>, b: seq<Unit>, start: nat, size: nat)
    requires NoTexts(a) && NoTexts(b)
    ensures Overruns(a + us + b, start, size) <==> Overruns(us, start + |Bytes(a)|, size)
  {
    hide *;
    OverrunsConcat(a + us, b, start, size);
    OverrunsConcat(a, us, start, size);
    NoTextsNoOverrun(a, start, size);
    NoTextsNoOverrun(b, start + |Bytes(a + us)|, size);
  }

  lemma TextOverruns(s: string, start: nat, size: nat)
    ensures Overruns(Text(s), start, size) <==> MeetsEnd(start, |s|, size)
  {
    assert Text(s)[1..] == [];
  }

  lemma TextLineOverruns(text: string, p: Props, k: nat, width: nat, start: nat, size: nat)
    requires k < TextHeight(text) && TextWidth(text) <= width
    ensures var left := AlignShare(p.align, width - TextWidth(text));
            Overruns(TextLine(text, p, k, width), start, size)
            <==> MeetsEnd(start + left + |p.contentTag|, |Lines(text)[k]|, size)
  {
    hide Bytes, Overruns, MeetsEnd, Lines, AlignShare;
    var line := Lines(text)[k];
    var left := AlignShare(p.align, width - TextWidth(text));
    var a := Spaces(left) + [Tag(p.contentTag)];
    var after, right := Spaces(TextWidth(text) - |line|), Spaces(width - TextWidth(text) - left);
    var b := [Tag(p.resetContentTag)] + after + right;
    assert TextLine(text, p, k, width) == a + Text(line) + b;
    Around(a, Text(line), b, start, size);
    TextOverruns(line, start + |Bytes(a)|, size);
    SpacesMeasure(left);
    TagMeasure(p.contentTag);
    Concat(Spaces(left), [Tag(p.contentTag)]);
  }

  // ---- A cell ----

  /** The bytes in front of the text in a line of a cell. */
  ghost function TextAt(cell: Cell, p: Props, width: nat): nat
    requires VisWidth(cell, p) <= width
  {
    |p.cellTag| + TextOffset(cell, p, width) + |p.contentTag|
  }

  lemma CellLineOverruns(cell: Cell, p: Props, i: nat, width: nat, start: nat, size: nat)
    requires VisWidth(cell, p) <= width
    ensures (Overruns(CellLine(cell, p, i, width), start, size)
             <==> && ShowsText(cell, p, i)
                  && MeetsEnd(start + TextAt(cell, p, width), |Lines(cell.text)[i - p.paddingTop]|, size))
  {
    hide Bytes, Overruns, MeetsEnd, Lines, TextLine, TextWidth, TextHeight;
    var us := CellLine(cell, p, i, width);
    if ShowsText(cell, p, i) {
      var inner := width - p.paddingLeft - p.paddingRight;
      var a := [Tag(p.cellTag)] + Spaces(p.paddingLeft);
      var b := Spaces(p.paddingRight) + [Tag(p.resetCellTag)];
      assert us == a + TextLine(cell.text, p, i - p.paddingTop, inner) + b;
      Around(a, TextLine(cell.text, p, i - p.paddingTop, inner), b, start, size);
      SpacesMeasure(p.paddingLeft);
      TagMeasure(p.cellTag);
      Concat([Tag(p.cellTag)], Spaces(p.paddingLeft));
      TextLineOverruns(cell.text, p, i - p.paddingTop, inner, start + |Bytes(a)|, size);
    } else {
      assert NoTexts(us);
      NoTextsNoOverrun(us, start, size);
    }
  }

  // ---- A line ----

  /** The cell at column `c`, whose part of line `i` starts at byte `start`, has a text that meets the end. */
  ghost predicate CellMeets(t: Table, w: seq<nat>, r: nat, i: nat, c: nat, start: int, size: nat)
    requires Printable(t, w, r) && c < |w|
  {
    && c < |t.rows[r]| && Starts(t.rows[r], c) && ShowsText(t.rows[r][c], t.props(r, c), i)
    && MeetsEnd(start + TextAt(t.rows[r][c], t.props(r, c), PrintedWidth(t, w, r, c)),
                |Lines(t.rows[r][c].text)[i - t.props(r, c).paddingTop]|, size)
  }

  /** The parts of a line from column `j` on. */
  lemma CellsParts(t: Table, w: seq<nat>, r: nat, i: nat, j: nat)
    requires Printable(t, w, r) && Starts(t.rows[r], j) && j < |w|
    ensures var k := Next(t.rows[r], j);
            var cell, between := Printed(t, w, r, i, j), Between(t, RowBorder(t, r).iv, k);
            && j < k <= |w| && Starts(t.rows[r], k)
            && CellsLine(t, w, r, i, j) == cell + between + CellsLine(t, w, r, i, k) && NoTexts(between)
            && CellsSize(t, w, r, j) == |Bytes(cell)| + |Bytes(between)| + CellsSize(t, w, r, k)
  {
    assert |w| == Columns(t);
    hide Bytes, Visible, Printed, BetweenSize, ColumnStart, PrintedWidth, TagWidth, Covers, WellFormedRow, GroupSize;
    PrintedReach(t, w, r, j);
    PrintedMeasure(t, w, r, i, j);
    BetweenMeasure(t, r, Next(t.rows[r], j));
  }

  /** The text of what is printed at `j` meets the end, or one further to the right does. */
  lemma CellsOverrunSplit(t: Table, w: seq<nat>, r: nat, i: nat, j: nat, start: nat, size: nat)
    requires Printable(t, w, r) && Starts(t.rows[r], j) && j < |w|
    ensures var k := Next(t.rows[r], j);
            && j < k <= |w| && Starts(t.rows[r], k) && CellsSize(t, w, r, j) >= CellsSize(t, w, r, k)
            && (Overruns(CellsLine(t, w, r, i, j), start, size)
                <==> || CellMeets(t, w, r, i, j, start, size)
                     || Overruns(CellsLine(t, w, r, i, k), start + (CellsSize(t, w, r, j) - CellsSize(t, w, r, k)), size))
  {
    hide *;
    PrintableRow(t, w, r);
    CellsParts(t, w, r, i, j);
    var k := Next(t.rows[r], j);
    var cell, between, rest := Printed(t, w, r, i, j), Between(t, RowBorder(t, r).iv, k), CellsLine(t, w, r, i, k);
    PrintedOverruns(t, w, r, i, j, start, size);
    Concat(cell, between);
    OverrunsConcat(cell + between, rest, start, size);
    OverrunsConcat(cell, between, start, size);
    NoTextsNoOverrun(between, start + |Bytes(cell)|, size);
  }

  lemma NoCellsNoOverrun(t: Table, w: seq<nat>, r: nat, i: nat, start: nat, size: nat)
    requires Printable(t, w, r) && Starts(t.rows[r], |w|)
    ensures !Overruns(CellsLine(t, w, r, i, |w|), start, size)
  {
  }

  lemma PrintedOverruns(t: Table, w: seq<nat>, r: nat, i: nat, j: nat, start: nat, size: nat)
    requires Printable(t, w, r) && Starts(t.rows[r], j) && j < |w|
    ensures Overruns(Printed(t, w, r, i, j), start, size) <==> CellMeets(t, w, r, i, j, start, size)
  {
    hide Overruns, MeetsEnd, Lines, CellLine, TextAt, ShowsText, GroupSize, VisWidth;
    if j < |t.rows[r]| {
      CellLineOverruns(t.rows[r][j], t.props(r, j), i, PrintedWidth(t, w, r, j), start, size);
    } else {
      NoTextsNoOverrun(Spaces(w[j]), start, size);
    }
  }

  lemma CellStarts(t: Table, w: seq<nat>, r: nat, i: nat, c: nat, start: int, size: nat)
    requires Printable(t, w, r) && c < |w| && CellMeets(t, w, r, i, c, start, size)
    ensures Starts(t.rows[r], c)
  {
  }

  /** A line overruns the buffer at one of its cells ... */
  lemma {:induction false} CellsOverrunAt(t: Table, w: seq<nat>, r: nat, i: nat, j: nat, start: nat, size: nat)
    returns (c: nat)
    requires Printable(t, w, r) && Starts(t.rows[r], j) && j <= |w|
    requires Overruns(CellsLine(t, w, r, i, j), start, size)
    ensures j <= c < |w| && CellMeets(t, w, r, i, c, start + CellsSize(t, w, r, j) - CellsSize(t, w, r, c), size)
    decreases |w| - j
  {
    hide *;
    PrintableRow(t, w, r);
    if j == |w| {
      NoCellsNoOverrun(t, w, r, i, start, size);
    }
    var k := Next(t.rows[r], j);
    CellsOverrunSplit(t, w, r, i, j, start, size);
    if CellMeets(t, w, r, i, j, start, size) {
      c := j;
    } else {
      c := CellsOverrunAt(t, w, r, i, k, start + (CellsSize(t, w, r, j) - CellsSize(t, w, r, k)), size);
    }
  }

  /** ... and at every cell whose text meets the end. */
  lemma {:induction false} CellsOverrun(t: Table, w: seq<nat>, r: nat, i: nat, j: nat, c: nat, start: nat, size: nat)
    requires Printable(t, w, r) && Starts(t.rows[r], j) && j <= c < |w|
    requires CellMeets(t, w, r, i, c, start + CellsSize(t, w, r, j) - CellsSize(t, w, r, c), size)
    ensures Overruns(CellsLine(t, w, r, i, j), start, size)
    decreases |w| - j
  {
    hide *;
    PrintableRow(t, w, r);
    var k := Next(t.rows[r], j);
    CellsOverrunSplit(t, w, r, i, j, start, size);
    if c != j {
      if c < k {
        NoStartInside(t.rows[r], j, c);
        CellStarts(t, w, r, i, c, start + CellsSize(t, w, r, j) - CellsSize(t, w, r, c), size);
      }
      CellsOverrun(t, w, r, i, k, c, start + (CellsSize(t, w, r, j) - CellsSize(t, w, r, k)), size);
    }
  }

  /** The bytes from the start of a line to the cell at column `c`. */
  ghost function CellAtByte(t: Table, w: seq<nat>, r: nat, c: nat): int
    requires r < |t.rows| && |w| == Columns(t)
  {
    t.margins.left + |RowBorder(t, r).ll| + CellsSize(t, w, r, 0) - CellsSize(t, w, r, c)
  }

  lemma ContentLineOverruns(t: Table, w: seq<nat>, r: nat, i: nat, start: nat, size: nat)
    requires Printable(t, w, r) && Starts(t.rows[r], 0)
    ensures (Overruns(ContentLine(t, w, r, i), start, size)
             <==> Overruns(CellsLine(t, w, r, i, 0), start + t.margins.left + |RowBorder(t, r).ll|, size))
  {
    hide Bytes, Overruns, CellsLine, Printable;
    var b := RowBorder(t, r);
    var a, cells := Spaces(t.margins.left) + [Glyph(b.ll)], CellsLine(t, w, r, i, 0);
    var end := [Glyph(b.rr)] + Spaces(t.margins.right) + [LINE_END];
    assert ContentLine(t, w, r, i) == a + cells + end;
    Around(a, cells, end, start, size);
    SpacesMeasure(t.margins.left);
    GlyphMeasure(b.ll);
    Concat(Spaces(t.margins.left), [Glyph(b.ll)]);
  }

  // ---- The lines of a row ----

  lemma RowLinesSplit(t: Table, w: seq<nat>, r: nat, n: nat, start: nat, size: nat)
    requires Printable(t, w, r) && n > 0
    ensures r < |t.rows| && |w| == Columns(t)
    ensures (Overruns(Flat(RowLines(t, w, r, n)), start, size)
             <==> || Overruns(Flat(RowLines(t, w, r, n - 1)), start, size)
                  || Overruns(ContentLine(t, w, r, n - 1), start + Times(n - 1, ContentSize(t, w, r)), size))
  {
    hide Bytes, Overruns, ContentLine, Printable, Flat, ContentSize, Times;
    PrintableRow(t, w, r);
    assert RowLines(t, w, r, n) == RowLines(t, w, r, n - 1) + [ContentLine(t, w, r, n - 1)];
    FlatLast(RowLines(t, w, r, n - 1), ContentLine(t, w, r, n - 1));
    OverrunsConcat(Flat(RowLines(t, w, r, n - 1)), ContentLine(t, w, r, n - 1), start, size);
    RowLinesBytes(t, w, r, n - 1);
  }

  lemma {:induction false} RowLinesOverrunAt(t: Table, w: seq<nat>, r: nat, n: nat, start: nat, size: nat)
    returns (i: nat)
    requires Printable(t, w, r) && r < |t.rows| && |w| == Columns(t)
    requires Overruns(Flat(RowLines(t, w, r, n)), start, size)
    ensures i < n && Overruns(ContentLine(t, w, r, i), start + Times(i, ContentSize(t, w, r)), size)
    decreases n
  {
    hide Bytes, ContentLine, Printable, ContentSize, Times;
    RowLinesSplit(t, w, r, n, start, size);
    if Overruns(ContentLine(t, w, r, n - 1), start + Times(n - 1, ContentSize(t, w, r)), size) {
      i := n - 1;
    } else {
      i := RowLinesOverrunAt(t, w, r, n - 1, start, size);
    }
  }

  lemma {:induction false} RowLinesOverrun(t: Table, w: seq<nat>, r: nat, n: nat, i: nat, start: nat, size: nat)
    requires Printable(t, w, r) && r < |t.rows| && |w| == Columns(t) && i < n
    requires Overruns(ContentLine(t, w, r, i), start + Times(i, ContentSize(t, w, r)), size)
    ensures Overruns(Flat(RowLines(t, w, r, n)), start, size)
    decreases n
  {
    hide *;
    RowLinesSplit(t, w, r, n, start, size);
    if i < n - 1 {
      RowLinesOverrun(t, w, r, n - 1, i, start, size);
    }
  }

  // ---- The rows ----

  ghost predicate RowOverruns(t: Table, w: seq<nat>, r: nat, start: nat, size: nat)
    requires Ready(t, w) && r < |t.rows|
  {
    Overruns(Flat(RowLines(t, w, r, Heights(t)[r])), start, size)
  }

  lemma NoTextInSeparator(t: Table, w: seq<nat>, k: nat, start: nat, size: nat)
    ensures !Overruns(Flat(SeparatorLines(t, w, k)), start, size)
  {
    if !Skipped(t, k) {
      NoTextInCells(t, w, k, |w|);
      assert NoTexts(SeparatorLine(t, w, k));
      hide *;
      NoTextsNoOverrun(SeparatorLine(t, w, k), start, size);
      SeparatorText(t, w, k);
    } else {
      assert Flat([]) == [];
    }
  }

  lemma {:induction false} NoTextInCells(t: Table, w: seq<nat>, k: nat, c: nat)
    requires c <= |w|
    ensures NoTexts(SeparatorCells(t, w, k, c))
  {
    hide Junction, GlyphsAt;
    if c > 0 {
      NoTextInCells(t, w, k, c - 1);
    }
  }

  lemma {:induction false} NoTextInMargin(t: Table, n: nat, start: nat, size: nat)
    ensures !Overruns(Flat(MarginLines(t, n)), start, size)
  {
    hide *;
    MarginLinesSplit(t, n);
    if n > 0 {
      NoTextInMargin(t, n - 1, start, size);
      OverrunsConcat(Flat(MarginLines(t, n - 1)), MarginLine(t), start, size);
      NoTextsNoOverrun(MarginLine(t), start + |Bytes(Flat(MarginLines(t, n - 1)))|, size);
    } else {
      NoTextsNoOverrun([], start, size);
    }
  }

  lemma MarginLinesSplit(t: Table, n: nat)
    ensures NoTexts(MarginLine(t)) && NoTexts([])
    ensures Flat(MarginLines(t, n)) == if n == 0 then [] else Flat(MarginLines(t, n - 1)) + MarginLine(t)
  {
    hide CodWidth;
    if n > 0 {
      assert MarginLines(t, n) == MarginLines(t, n - 1) + [MarginLine(t)];
      FlatLast(MarginLines(t, n - 1), MarginLine(t));
    }
  }

  /** The calls for one row more: those for the separator above it, and those for its lines. */
  lemma BodyParts(t: Table, w: seq<nat>, q: nat)
    requires Ready(t, w) && 0 < q <= |t.rows|
    ensures Printable(t, w, q - 1) && |w| == Columns(t)
    ensures var body, sep := Body(t, w, q - 1), SeparatorLines(t, w, q - 1);
            Flat(Body(t, w, q)) == Flat(body) + Flat(sep) + Flat(RowLines(t, w, q - 1, Heights(t)[q - 1]))
  {
    hide Flat, Printable, Heights, RowLines, SeparatorLines;
    FlatConcat(Body(t, w, q - 1), SeparatorLines(t, w, q - 1));
    FlatConcat(Body(t, w, q - 1) + SeparatorLines(t, w, q - 1), RowLines(t, w, q - 1, Heights(t)[q - 1]));
  }

  lemma BodySplit(t: Table, w: seq<nat>, q: nat, start: nat, size: nat)
    requires Ready(t, w) && 0 < q <= |t.rows|
    ensures |w| == Columns(t)
    ensures (Overruns(Flat(Body(t, w, q)), start, size)
             <==> || Overruns(Flat(Body(t, w, q - 1)), start, size)
                  || RowOverruns(t, w, q - 1, start + BodyBytes(t, w, q - 1) + SeparatorBytes(t, w, q - 1), size))
  {
    hide *;
    BodyParts(t, w, q);
    var above, sep, rows := Flat(Body(t, w, q - 1)), Flat(SeparatorLines(t, w, q - 1)),
                            Flat(RowLines(t, w, q - 1, Heights(t)[q - 1]));
    OverrunsConcat(above + sep, rows, start, size);
    OverrunsConcat(above, sep, start, size);
    NoTextInSeparator(t, w, q - 1, start + |Bytes(above)|, size);
    Concat(above, sep);
    BodyBytesAre(t, w, q - 1);
    SeparatorLinesBytes(t, w, q - 1);
    RowOverrunsLines(t, w, q - 1, start + |Bytes(above + sep)|, size);
  }

  lemma RowOverrunsLines(t: Table, w: seq<nat>, r: nat, start: nat, size: nat)
    requires Ready(t, w) && r < |t.rows|
    ensures Printable(t, w, r) && r < |Heights(t)|
    ensures RowOverruns(t, w, r, start, size) <==> Overruns(Flat(RowLines(t, w, r, Heights(t)[r])), start, size)
  {
  }

  lemma NoBodyNoOverrun(t: Table, w: seq<nat>, start: nat, size: nat)
    requires Ready(t, w)
    ensures !Overruns(Flat(Body(t, w, 0)), start, size)
  {
  }

  lemma {:induction false} BodyOverrunAt(t: Table, w: seq<nat>, q: nat, start: nat, size: nat) returns (r: nat)
    requires Ready(t, w) && q <= |t.rows| && Overruns(Flat(Body(t, w, q)), start, size) && |w| == Columns(t)
    ensures r < q && RowOverruns(t, w, r, start + BodyBytes(t, w, r) + SeparatorBytes(t, w, r), size)
    decreases q
  {
    hide *;
    NoBodyNoOverrun(t, w, start, size);
    BodySplit(t, w, q, start, size);
    if RowOverruns(t, w, q - 1, start + BodyBytes(t, w, q - 1) + SeparatorBytes(t, w, q - 1), size) {
      r := q - 1;
    } else {
      r := BodyOverrunAt(t, w, q - 1, start, size);
    }
  }

  lemma {:induction false} BodyOverrun(t: Table, w: seq<nat>, q: nat, r: nat, start: nat, size: nat)
    requires Ready(t, w) && r < q <= |t.rows| && |w| == Columns(t)
    requires RowOverruns(t, w, r, start + BodyBytes(t, w, r) + SeparatorBytes(t, w, r), size)
    ensures Overruns(Flat(Body(t, w, q)), start, size)
    decreases q
  {
    hide *;
    BodySplit(t, w, q, start, size);
    if r < q - 1 {
      BodyOverrun(t, w, q - 1, r, start, size);
    }
  }

  // ---- The table ----

  /** There is such a line of a text: of a cell that is not the inside of a span. */
  ghost predicate IsText(t: Table, r: nat, c: nat, k: nat) {
    r < |t.rows| && c < |t.rows[r]| && Starts(t.rows[r], c) && k < TextHeight(t.rows[r][c].text)
  }

  /** The byte of the output at which the first line of row `r` starts. */
  ghost function RowStart(t: Table, w: seq<nat>, r: nat): nat
    requires r < |t.rows| && |w| == Columns(t)
  {
    Times(t.margins.top, CodWidth(t)) + BodyBytes(t, w, r) + SeparatorBytes(t, w, r)
  }

  /** The byte of the output at which line `k` of the text of a cell starts. */
  ghost function TextStart(t: Table, w: seq<nat>, r: nat, c: nat, k: nat): int
    requires IsText(t, r, c, k) && Printable(t, w, r)
  {
    RowStart(t, w, r) + Times(t.props(r, c).paddingTop + k, ContentSize(t, w, r)) + CellAtByte(t, w, r, c)
    + TextAt(t.rows[r][c], t.props(r, c), PrintedWidth(t, w, r, c))
  }

  /** Line `k` of the text of a cell meets the end of a buffer of `size` bytes. */
  ghost predicate TextMeetsEnd(t: Table, w: seq<nat>, r: nat, c: nat, k: nat, size: nat) {
    && IsText(t, r, c, k) && Printable(t, w, r)
    && MeetsEnd(TextStart(t, w, r, c, k), |Lines(t.rows[r][c].text)[k]|, size)
  }

  /** Some text of the table starts inside a buffer of `size` bytes and is as long as the room left, or longer by one. */
  ghost predicate SomeTextMeetsEnd(t: Table, size: nat) {
    exists r: nat, c: nat, k: nat :: TextMeetsEnd(t, ColWidths(t), r, c, k, size)
  }

  // ---- The overruns of a table are those of its texts ----

  /** A line of a text, `start` bytes from where the first line of its row starts, meets the end. */
  ghost predicate MeetsInRow(t: Table, w: seq<nat>, r: nat, c: nat, k: nat, start: nat, size: nat) {
    && IsText(t, r, c, k) && Printable(t, w, r)
    && MeetsEnd(start + Times(t.props(r, c).paddingTop + k, ContentSize(t, w, r)) + CellAtByte(t, w, r, c)
                + TextAt(t.rows[r][c], t.props(r, c), PrintedWidth(t, w, r, c)), |Lines(t.rows[r][c].text)[k]|, size)
  }

  /** Line `i` of a row shows line `i - paddingTop` of a cell's text. */
  lemma CellMeetsIsText(t: Table, w: seq<nat>, r: nat, i: nat, c: nat, start: nat, size: nat)
    requires Printable(t, w, r) && r < |t.rows| && |w| == Columns(t) && c < |w|
    ensures (CellMeets(t, w, r, i, c, start + Times(i, ContentSize(t, w, r)) + CellAtByte(t, w, r, c), size)
             <==> i >= t.props(r, c).paddingTop && MeetsInRow(t, w, r, c, i - t.props(r, c).paddingTop, start, size))
  {
    hide MeetsEnd, Times, ContentSize, CellAtByte, TextAt, PrintedWidth, TextHeight, Covers, WellFormedRow;
  }

  lemma RowOverrunsAt(t: Table, w: seq<nat>, r: nat, start: nat, size: nat) returns (c: nat, k: nat)
    requires Ready(t, w) && r < |t.rows| && RowOverruns(t, w, r, start, size)
    ensures MeetsInRow(t, w, r, c, k, start, size)
  {
    hide *;
    RowOverrunsLines(t, w, r, start, size);
    PrintableRow(t, w, r);
    var i := RowLinesOverrunAt(t, w, r, Heights(t)[r], start, size);
    var at: nat := start + Times(i, ContentSize(t, w, r));
    var left: nat := t.margins.left + |RowBorder(t, r).ll|;
    ContentLineOverruns(t, w, r, i, at, size);
    c := CellsOverrunAt(t, w, r, i, 0, at + left, size);
    CellAtByteIs(t, w, r, c);
    CellMeetsIsText(t, w, r, i, c, start, size);
    k := i - t.props(r, c).paddingTop;
  }

  lemma CellAtByteIs(t: Table, w: seq<nat>, r: nat, c: nat)
    requires r < |t.rows| && |w| == Columns(t)
    ensures CellAtByte(t, w, r, c) == t.margins.left + |RowBorder(t, r).ll| + CellsSize(t, w, r, 0) - CellsSize(t, w, r, c)
  {
  }

  lemma RowOverrunsFrom(t: Table, w: seq<nat>, r: nat, c: nat, k: nat, start: nat, size: nat)
    requires Ready(t, w) && r < |t.rows| && MeetsInRow(t, w, r, c, k, start, size)
    ensures RowOverruns(t, w, r, start, size)
  {
    hide *;
    RowOverrunsLines(t, w, r, start, size);
    InRowIsText(t, w, r, c, k, start, size);
    PrintableRow(t, w, r);
    TextFitsRow(t, r, c);
    var i := t.props(r, c).paddingTop + k;
    var at: nat := start + Times(i, ContentSize(t, w, r));
    var left: nat := t.margins.left + |RowBorder(t, r).ll|;
    CellAtByteIs(t, w, r, c);
    CellMeetsIsText(t, w, r, i, c, start, size);
    CellsOverrun(t, w, r, i, 0, c, at + left, size);
    ContentLineOverruns(t, w, r, i, at, size);
    RowLinesOverrun(t, w, r, Heights(t)[r], i, start, size);
  }

  lemma InRowIsText(t: Table, w: seq<nat>, r: nat, c: nat, k: nat, start: nat, size: nat)
    requires MeetsInRow(t, w, r, c, k, start, size)
    ensures r < |t.rows| && c < |t.rows[r]| && c < |w| && |w| == Columns(t) && k < TextHeight(t.rows[r][c].text)
  {
  }

  lemma RowMeetsIsText(t: Table, w: seq<nat>, r: nat, c: nat, k: nat, size: nat)
    requires r < |t.rows| && |w| == Columns(t)
    ensures MeetsInRow(t, w, r, c, k, RowStart(t, w, r), size) <==> TextMeetsEnd(t, w, r, c, k, size)
  {
    hide MeetsEnd, Times, ContentSize, CellAtByte, TextAt, PrintedWidth, TextHeight, Covers, WellFormedRow, RowStart;
  }

  /** Only the rows hold texts. */
  lemma TableOverruns(t: Table, w: seq<nat>, size: nat)
    requires Ready(t, w)
    ensures (Overruns(Flat(TableLines(t, w)), 0, size)
             <==> |t.rows| > 0 && Overruns(Flat(Body(t, w, |t.rows|)), Times(t.margins.top, CodWidth(t)), size))
  {
    hide Bytes, Flat, Overruns, MarginLines, SeparatorLines, Body, CodWidth, Times, Printable;
    if |t.rows| == 0 {
      NoLinesNoOverrun(size);
    } else {
      var n := |t.rows|;
      var a, b := MarginLines(t, t.margins.top), Body(t, w, n);
      var c, d := SeparatorLines(t, w, n), MarginLines(t, t.margins.bottom);
      FlatConcat(a, b);
      FlatConcat(a + b, c);
      FlatConcat(a + b + c, d);
      OverrunsConcat(Flat(a), Flat(b), 0, size);
      OverrunsConcat(Flat(a + b), Flat(c), 0, size);
      OverrunsConcat(Flat(a + b + c), Flat(d), 0, size);
      NoTextInMargin(t, t.margins.top, 0, size);
      NoTextInSeparator(t, w, n, |Bytes(Flat(a + b))|, size);
      NoTextInMargin(t, t.margins.bottom, |Bytes(Flat(a + b + c))|, size);
      MarginBytes(t, t.margins.top);
    }
  }

  lemma NoLinesNoOverrun(size: nat)
    ensures !Overruns(Flat([]), 0, size)
  {
  }

  /** A conversion overruns its buffer only at a text that meets the end ... */
  lemma OverrunHasText(t: Table, w: seq<nat>, size: nat) returns (r: nat, c: nat, k: nat)
    requires Ready(t, w) && Overruns(Flat(TableLines(t, w)), 0, size)
    ensures TextMeetsEnd(t, w, r, c, k, size)
  {
    hide *;
    ReadyColumns(t, w);
    TableOverruns(t, w, size);
    r := BodyOverrunAt(t, w, |t.rows|, Times(t.margins.top, CodWidth(t)), size);
    RowStartIs(t, w, r);
    c, k := RowOverrunsAt(t, w, r, RowStart(t, w, r), size);
    RowMeetsIsText(t, w, r, c, k, size);
  }

  /** ... and at every such text. */
  lemma TextOverrunsTable(t: Table, w: seq<nat>, r: nat, c: nat, k: nat, size: nat)
    requires Ready(t, w) && TextMeetsEnd(t, w, r, c, k, size)
    ensures Overruns(Flat(TableLines(t, w)), 0, size)
  {
    hide *;
    ReadyColumns(t, w);
    TextIsInTable(t, w, r, c, k, size);
    RowMeetsIsText(t, w, r, c, k, size);
    RowOverrunsFrom(t, w, r, c, k, RowStart(t, w, r), size);
    RowStartIs(t, w, r);
    BodyOverrun(t, w, |t.rows|, r, Times(t.margins.top, CodWidth(t)), size);
    TableOverruns(t, w, size);
  }

  lemma TextIsInTable(t: Table, w: seq<nat>, r: nat, c: nat, k: nat, size: nat)
    requires TextMeetsEnd(t, w, r, c, k, size)
    ensures r < |t.rows|
  {
  }

  lemma ReadyColumns(t: Table, w: seq<nat>)
    requires Ready(t, w)
    ensures |w| == Columns(t)
  {
  }

  lemma RowStartIs(t: Table, w: seq<nat>, r: nat)
    requires r < |t.rows| && |w| == Columns(t)
    ensures RowStart(t, w, r) == Times(t.margins.top, CodWidth(t)) + BodyBytes(t, w, r) + SeparatorBytes(t, w, r)
  {
  }

  /** The tables whose conversion overruns a buffer of `size` bytes are those with a text that meets its end. */
  lemma OverrunsIffTextMeetsEnd(t: Table, size: nat)
    requires WellFormed(t)
    ensures Ready(t, ColWidths(t))
    ensures Overruns(Flat(TableLines(t, ColWidths(t))), 0, size) <==> SomeTextMeetsEnd(t, size)
  {
    hide Flat, Overruns, TableLines, ColWidths, TextMeetsEnd, WellFormed, Ready;
    RowsArePrintable(t);
    if Overruns(Flat(TableLines(t, ColWidths(t))), 0, size) {
      var r, c, k := OverrunHasText(t, ColWidths(t), size);
    }
    if SomeTextMeetsEnd(t, size) {
      var r: nat, c: nat, k: nat :| TextMeetsEnd(t, ColWidths(t), r, c, k, size);
      TextOverrunsTable(t, ColWidths(t), r, c, k, size);
    }
  }

  // ---- The outcome of a conversion ----

  /** The bytes that a table is to be turned into. */
  ghost function Output(t: Table): string
    requires Ready(t, ColWidths(t))
  {
    Bytes(Flat(TableLines(t, ColWidths(t))))
  }

  /** The printing of a table into a buffer of `size` bytes. */
  ghost function Conversion(t: Table, size: nat): PrintState
    requires Ready(t, ColWidths(t))
  {
    Run(Flat(TableLines(t, ColWidths(t))), PrintState([], size, false, true))
  }

  /**
   * The outcome of a conversion. If no text meets the end of the buffer, the conversion stays inside, and it succeeds
   * exactly when the buffer is longer than the output. Otherwise it leaves the buffer. In any case it has printed a part
   * of the output from its beginning, and all of it if it succeeded.
   */
  lemma ConversionOutcome(t: Table, size: nat)
    requires WellFormed(t) && PredictedSize(t) <= INT_MAX && 0 < size < WORD - 1
    ensures Ready(t, ColWidths(t)) && |Output(t)| == PredictedSize(t)
    ensures (if SomeTextMeetsEnd(t, size) then |Bytes(Conversion(t, size).out)| >= size
             else (Conversion(t, size).ok <==> PredictedSize(t) < size) && |Bytes(Conversion(t, size).out)| < size)
    ensures Bytes(Conversion(t, size).out) <= Output(t)
    ensures Conversion(t, size).ok ==> Bytes(Conversion(t, size).out) == Output(t)
  {
    hide *;
    OutputSizeIsPredicted(t);
    OutputHasSize(t);
    OverrunsIffTextMeetsEnd(t, size);
    ConversionRun(t, size);
  }

  lemma OutputHasSize(t: Table)
    requires Ready(t, ColWidths(t))
    ensures |Output(t)| == OutputSize(t)
  {
    hide Ready, ColWidths, Bytes, Flat, TableLines;
  }

  lemma ConversionRun(t: Table, size: nat)
    requires Ready(t, ColWidths(t)) && |Output(t)| <= INT_MAX && 0 < size < WORD - 1
    ensures (if Overruns(Flat(TableLines(t, ColWidths(t))), 0, size) then |Bytes(Conversion(t, size).out)| >= size
             else (Conversion(t, size).ok <==> |Output(t)| < size) && |Bytes(Conversion(t, size).out)| < size)
    ensures Bytes(Conversion(t, size).out) <= Output(t)
    ensures Conversion(t, size).ok ==> Bytes(Conversion(t, size).out) == Output(t)
  {
    hide Ready, ColWidths, Bytes, Flat, TableLines, Overruns, Run;
    var us := Flat(TableLines(t, ColWidths(t)));
    var st := PrintState([], size, false, true);
    NothingMeasure();
    RunOutcome(us, st, size);
    RunPrints(us, st);
    assert [] + us == us;
    var out := Run(us, st).out;
    assert us == out + us[|out|..];
    Concat(out, us[|out|..]);
  }

  /** A conversion into a buffer that is longer than the output never leaves it, whatever its texts are. */
  lemma LongBufferIsSafe(t: Table, size: nat)
    requires WellFormed(t) && PredictedSize(t) <= INT_MAX && PredictedSize(t) < size < WORD - 1
    ensures !SomeTextMeetsEnd(t, size)
  {
    hide *;
    ConversionOutcome(t, size);
  }

  /** Where the tags keep clear of the spans, the reserved size is safe, and the conversion succeeds. */
  lemma ReservedBufferIsSafe(t: Table, size: nat)
    requires WellFormed(t) && TagsAvoidSpans(t) && PredictedSize(t) <= INT_MAX
    requires Times(CodHeight(t), CodWidth(t)) < size < WORD - 1
    ensures PredictedSize(t) < size && !SomeTextMeetsEnd(t, size)
    ensures Ready(t, ColWidths(t)) && Conversion(t, size).ok && Bytes(Conversion(t, size).out) == Output(t)
  {
    hide *;
    OutputAlwaysFits(t);
    FitsExactly(t);
    LongBufferIsSafe(t, size);
    ConversionOutcome(t, size);
  }
}
