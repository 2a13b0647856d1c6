/** All lines of the text that `ft_to_string` of src/fort.c produces for a table. */
module TableText {
  import opened CellText
  import opened TableModel
  import opened Layout
  import opened TableSizes
  import opened Units
  import opened Rendering
  import opened Grid
  import opened Separators

  /** The widths that the printers work with. */
  ghost function ColWidths(t: Table): (w: seq<nat>)
    ensures |w| == Columns(t)
  {
    Widths(t, VisibleGeometry)
  }

  /** The widths let every row be printed. */
  ghost predicate Ready(t: Table, w: seq<nat>) {
    |w| == Columns(t) && forall r :: 0 <= r < |t.rows| ==> Printable(t, w, r)
  }

  /** With well-formed spans every row can be printed. */
  lemma RowsArePrintable(t: Table)
    requires WellFormed(t)
    ensures Ready(t, ColWidths(t))
  {
    hide Covers, WellFormedRow;
    SolverCovers(t);
  }

  lemma ReadyRow(t: Table, w: seq<nat>, r: nat)
    requires Ready(t, w) && r < |t.rows|
    ensures Printable(t, w, r) && |w| == Columns(t)
  {
  }

  /** The blank lines above and below the table are as long as the reserved width. */
  ghost function MarginLine(t: Table): seq<Unit> {
    Spaces(CodWidth(t) - 1) + [LINE_END]
  }

  ghost function MarginLines(t: Table, n: nat): seq<seq<Unit>> {
    seq(n, _ => MarginLine(t))
  }

  ghost function SeparatorLines(t: Table, w: seq<nat>, k: nat): seq<seq<Unit>> {
    if Skipped(t, k) then [] else [SeparatorLine(t, w, k)]
  }

  ghost function SeparatorBytes(t: Table, w: seq<nat>, k: nat): nat {
    if Skipped(t, k) then 0 else SeparatorSize(t, w, k)
  }

  lemma SeparatorText(t: Table, w: seq<nat>, k: nat)
    ensures Flat(SeparatorLines(t, w, k)) == if Skipped(t, k) then [] else SeparatorLine(t, w, k)
  {
    hide SeparatorLine, Skipped;
    FlatLast([], SeparatorLine(t, w, k));
    assert [] + [SeparatorLine(t, w, k)] == [SeparatorLine(t, w, k)];
  }

  ghost function RowLines(t: Table, w: seq<nat>, r: nat, n: nat): (lines: seq<seq<Unit>>)
    requires Printable(t, w, r)
    ensures |lines| == n
  {
    seq(n, i requires 0 <= i < n => ContentLine(t, w, r, i))
  }

  /** The lines of the first `r` rows, each with the separator above it. */
  ghost function Body(t: Table, w: seq<nat>, r: nat): seq<seq<Unit>>
    requires Ready(t, w) && r <= |t.rows|
  {
    if r == 0 then []
    else Body(t, w, r - 1) + SeparatorLines(t, w, r - 1) + RowLines(t, w, r - 1, Heights(t)[r - 1])
  }

  /** The lines of the whole table; a table without rows has none. */
  ghost function TableLines(t: Table, w: seq<nat>): seq<seq<Unit>>
    requires Ready(t, w)
  {
    if |t.rows| == 0 then []
    else
      MarginLines(t, t.margins.top) + Body(t, w, |t.rows|) + SeparatorLines(t, w, |t.rows|)
      + MarginLines(t, t.margins.bottom)
  }

  // ---- Rectangularity ----

  ghost predicate AllAsWide(lines: seq<seq<Unit>>, n: nat) {
    forall x :: 0 <= x < |lines| ==> |Visible(lines[x])| == n
  }

  lemma AsWideConcat(a: seq<seq<Unit>>, b: seq<seq<Unit>>, n: nat)
    requires AllAsWide(a, n) && AllAsWide(b, n)
    ensures AllAsWide(a + b, n)
  {
    hide Visible;
  }

  lemma SeparatorLinesAsWide(t: Table, w: seq<nat>, k: nat)
    requires |w| == Columns(t) && |w| > 0
    ensures AllAsWide(SeparatorLines(t, w, k), LineWidth(t, w) + 1)
  {
    hide Visible, SeparatorLine, Skipped, LineWidth;
    SeparatorIsGridLine(t, w, k);
  }

  lemma RowLinesAsWide(t: Table, w: seq<nat>, r: nat, n: nat)
    requires Printable(t, w, r) && |w| > 0
    ensures AllAsWide(RowLines(t, w, r, n), LineWidth(t, w) + 1)
  {
    hide Visible, ContentLine, LineWidth, Printable;
    PrintableRow(t, w, r);
    forall i | 0 <= i < n ensures |Visible(RowLines(t, w, r, n)[i])| == LineWidth(t, w) + 1 {
      LineEnds(t, w, r, i);
      assert HasFrame(t, w, r, Visible(ContentLine(t, w, r, i)));
    }
  }

  /** Every separator and every line of every row, whatever the cells hold, is equally wide. */
  lemma {:induction false} Rectangular(t: Table, w: seq<nat>, r: nat)
    requires Ready(t, w) && |w| > 0 && r <= |t.rows|
    ensures AllAsWide(Body(t, w, r) + SeparatorLines(t, w, r), LineWidth(t, w) + 1)
    decreases r
  {
    hide AllAsWide, LineWidth, RowLines, SeparatorLines, Heights;
    SeparatorLinesAsWide(t, w, r);
    if r == 0 {
      assert Body(t, w, 0) + SeparatorLines(t, w, 0) == SeparatorLines(t, w, 0);
    } else {
      Rectangular(t, w, r - 1);
      RowLinesAsWide(t, w, r - 1, Heights(t)[r - 1]);
      AsWideConcat(Body(t, w, r - 1) + SeparatorLines(t, w, r - 1), RowLines(t, w, r - 1, Heights(t)[r - 1]),
                   LineWidth(t, w) + 1);
      AsWideConcat(Body(t, w, r), SeparatorLines(t, w, r), LineWidth(t, w) + 1);
    }
  }

  // ---- Where the lines of a row are ----

  /** The separators above the first `k` rows that are printed. */
  ghost function SeparatorsBefore(t: Table, k: nat): (n: nat)
    ensures n <= k
  {
    if k == 0 then 0 else SeparatorsBefore(t, k - 1) + if Skipped(t, k - 1) then 0 else 1
  }

  /** The number of the output line that holds line `i` of row `r`. */
  ghost function LineNumber(t: Table, r: nat, i: nat): nat
    requires r < |t.rows|
  {
    t.margins.top + SumOf(Heights(t)[..r]) + SeparatorsBefore(t, r + 1) + i
  }

  lemma {:induction false} BodySize(t: Table, w: seq<nat>, r: nat)
    requires Ready(t, w) && r <= |t.rows|
    ensures |Body(t, w, r)| == SumOf(Heights(t)[..r]) + SeparatorsBefore(t, r)
    decreases r
  {
    hide Heights, Skipped, SeparatorLine, Printable;
    if r > 0 {
      BodySize(t, w, r - 1);
      assert Heights(t)[..r] == Heights(t)[..r - 1] + [Heights(t)[r - 1]];
      SumOfLast(Heights(t)[..r - 1], Heights(t)[r - 1]);
    }
  }

  /** The body of the first rows stays in front when more rows follow. */
  lemma {:induction false} BodyGrows(t: Table, w: seq<nat>, r: nat, q: nat)
    requires Ready(t, w) && r <= q <= |t.rows|
    ensures Body(t, w, r) <= Body(t, w, q)
    decreases q
  {
    hide Heights, SeparatorLines, RowLines;
    if r < q {
      BodyGrows(t, w, r, q - 1);
    }
  }

  /** The line of the output at which line `i` of row `r` is printed. */
  lemma LineOfRow(t: Table, w: seq<nat>, r: nat, i: nat)
    requires Ready(t, w) && r < |t.rows| && i < Heights(t)[r]
    ensures LineNumber(t, r, i) < |TableLines(t, w)|
    ensures TableLines(t, w)[LineNumber(t, r, i)] == ContentLine(t, w, r, i)
  {
    hide Heights, SeparatorLines, MarginLine, ContentLine, SumOf, Printable, RowLines;
    BodySize(t, w, r);
    BodyGrows(t, w, r + 1, |t.rows|);
    ReadyRow(t, w, r);
    RowLineAt(t, w, r, Heights(t)[r], i);
    SeparatorCount(t, w, r);
    var before := Body(t, w, r) + SeparatorLines(t, w, r);
    assert Body(t, w, r + 1)[|before| + i] == ContentLine(t, w, r, i);
    assert Body(t, w, |t.rows|)[|before| + i] == ContentLine(t, w, r, i);
  }

  lemma RowLineAt(t: Table, w: seq<nat>, r: nat, n: nat, i: nat)
    requires Printable(t, w, r) && i < n
    ensures RowLines(t, w, r, n)[i] == ContentLine(t, w, r, i)
  {
  }

  lemma SeparatorCount(t: Table, w: seq<nat>, k: nat)
    ensures SeparatorsBefore(t, k + 1) == SeparatorsBefore(t, k) + |SeparatorLines(t, w, k)|
  {
  }

  /** A row is high enough for every line of every text that is printed in it. */
  lemma TextFitsRow(t: Table, r: nat, c: nat)
    requires r < |t.rows| && c < |t.rows[r]|
    ensures t.props(r, c).paddingTop + TextHeight(t.rows[r][c].text) <= Heights(t)[r]
  {
    hide TextHeight;
    MaxHeightIsLargest(t, r, Columns(t));
    assert HeightAt(t, r, c) <= MaxHeight(t, r, Columns(t));
  }

  /** `v` shows line `k` of the text of a cell inside the cell's columns, at the offset that its alignment prescribes. */
  ghost predicate ShowsTextLine(t: Table, w: seq<nat>, r: nat, c: nat, k: nat, v: seq<string>)
    requires Printable(t, w, r) && c < |t.rows[r]| && Starts(t.rows[r], c) && k < TextHeight(t.rows[r][c].text)
  {
    var line := Lines(t.rows[r][c].text)[k];
    var start := ColumnStart(t, w, c) + TextOffset(t.rows[r][c], t.props(r, c), PrintedWidth(t, w, r, c));
    start + |line| <= |v| && forall x :: 0 <= x < |line| ==> v[start + x] == [line[x]]
  }

  lemma CellShowsTextLine(t: Table, w: seq<nat>, r: nat, c: nat, k: nat, v: seq<string>)
    requires Printable(t, w, r) && c < |t.rows[r]| && Starts(t.rows[r], c) && k < TextHeight(t.rows[r][c].text)
    requires ShowsCell(t, w, r, t.props(r, c).paddingTop + k, c, v, 0)
    ensures ShowsTextLine(t, w, r, c, k, v)
  {
    hide ColumnStart, Lines, GroupWidth, AlignShare;
    var i := t.props(r, c).paddingTop + k;
    var width := PrintedWidth(t, w, r, c);
    var offset := TextOffset(t.rows[r][c], t.props(r, c), width);
    var line := Lines(t.rows[r][c].text)[k];
    assert |line| <= TextWidth(t.rows[r][c].text) by {
      LineFitsText(t.rows[r][c].text, k);
    }
    forall x | 0 <= x < |line| ensures v[ColumnStart(t, w, c) + offset + x] == [line[x]] {
      assert v[ColumnStart(t, w, c) - 0 + (offset + x)] == PrintedGlyph(t, w, r, i, c, offset + x);
    }
  }

  lemma LineFitsText(text: string, k: nat)
    requires k < TextHeight(text)
    ensures |Lines(text)[k]| <= TextWidth(text)
  {
  }

  lemma LineShowsTextLine(t: Table, w: seq<nat>, r: nat, c: nat, k: nat)
    requires Printable(t, w, r) && c < |t.rows[r]| && Starts(t.rows[r], c) && k < TextHeight(t.rows[r][c].text)
    ensures ShowsTextLine(t, w, r, c, k, Visible(ContentLine(t, w, r, t.props(r, c).paddingTop + k)))
  {
    assert |w| == Columns(t) && Starts(t.rows[r], 0);
    hide *;
    LineShowsCell(t, w, r, t.props(r, c).paddingTop + k, c);
    CellShowsTextLine(t, w, r, c, k, Visible(ContentLine(t, w, r, t.props(r, c).paddingTop + k)));
  }

  /**
   * Line `k` of the text of a cell is printed in line `paddingTop + k` of its row, inside the cell's columns, behind
   * the left padding and the share of the slack that its alignment prescribes.
   */
  lemma TextLineIsPrinted(t: Table, r: nat, c: nat, k: nat)
    requires WellFormed(t) && r < |t.rows| && c < |t.rows[r]| && Starts(t.rows[r], c)
    requires k < TextHeight(t.rows[r][c].text)
    ensures Ready(t, ColWidths(t))
    ensures var number := LineNumber(t, r, t.props(r, c).paddingTop + k);
            && number < |TableLines(t, ColWidths(t))|
            && ShowsTextLine(t, ColWidths(t), r, c, k, Visible(TableLines(t, ColWidths(t))[number]))
  {
    hide *;
    RowsArePrintable(t);
    ReadyRow(t, ColWidths(t), r);
    TextFitsRow(t, r, c);
    LineOfRow(t, ColWidths(t), r, t.props(r, c).paddingTop + k);
    LineShowsTextLine(t, ColWidths(t), r, c, k);
  }

  // ---- The whole output ----

  /** The number of the output line that holds the separator above row `k`, or below the last row, if it is printed. */
  ghost function SeparatorNumber(t: Table, k: nat): nat
    requires k <= |t.rows|
  {
    t.margins.top + SumOf(Heights(t)[..k]) + SeparatorsBefore(t, k)
  }

  lemma LineOfSeparator(t: Table, w: seq<nat>, k: nat)
    requires Ready(t, w) && 0 < |t.rows| && k <= |t.rows| && !Skipped(t, k)
    ensures SeparatorNumber(t, k) < |TableLines(t, w)|
    ensures TableLines(t, w)[SeparatorNumber(t, k)] == SeparatorLine(t, w, k)
  {
    hide Heights, Skipped, SeparatorLine, MarginLine, RowLines, SumOf, Printable;
    BodySize(t, w, k);
    var n := |Body(t, w, k)|;
    if k < |t.rows| {
      BodyGrows(t, w, k + 1, |t.rows|);
      assert Body(t, w, k + 1)[n] == SeparatorLine(t, w, k);
    } else {
      assert SeparatorLines(t, w, k)[0] == SeparatorLine(t, w, k);
    }
  }

  /** Line `i` of row `r` stands at its place in the output, as a line of the grid. */
  ghost predicate HasRowLine(t: Table, w: seq<nat>, r: nat, i: nat)
    requires Ready(t, w) && r < |t.rows|
  {
    && Printable(t, w, r) && LineNumber(t, r, i) < |TableLines(t, w)|
    && IsGridLine(t, w, r, i, Visible(TableLines(t, w)[LineNumber(t, r, i)]))
  }

  ghost predicate HasSeparator(t: Table, w: seq<nat>, k: nat)
    requires Ready(t, w) && k <= |t.rows|
  {
    && SeparatorNumber(t, k) < |TableLines(t, w)|
    && IsSeparatorLine(t, w, k, Visible(TableLines(t, w)[SeparatorNumber(t, k)]))
  }

  lemma RowLineIsGrid(t: Table, w: seq<nat>, r: nat, i: nat)
    requires Ready(t, w) && Columns(t) > 0 && r < |t.rows| && i < Heights(t)[r]
    ensures HasRowLine(t, w, r, i)
  {
    hide Ready, Heights, Columns, LineNumber, TableLines, IsGridLine, Visible, ContentLine, Printable;
    ReadyRow(t, w, r);
    LineOfRow(t, w, r, i);
    ContentLineIsGridLine(t, w, r, i);
  }

  lemma SeparatorIsGrid(t: Table, w: seq<nat>, k: nat)
    requires Ready(t, w) && Columns(t) > 0 && 0 < |t.rows| && k <= |t.rows| && !Skipped(t, k)
    ensures HasSeparator(t, w, k)
  {
    hide Heights, Columns, SeparatorNumber, TableLines, IsSeparatorLine, Visible, SeparatorLine, Printable, Skipped;
    LineOfSeparator(t, w, k);
    SeparatorIsGridLine(t, w, k);
  }

  /** Every line of every row, and every separator that can be seen, stands at its place in the output and is a line of
      one and the same grid. */
  lemma OutputIsGrid(t: Table)
    requires WellFormed(t) && Columns(t) > 0
    ensures Ready(t, ColWidths(t))
    ensures forall r: nat, i: nat :: r < |t.rows| && i < Heights(t)[r] ==> HasRowLine(t, ColWidths(t), r, i)
    ensures forall k: nat :: k <= |t.rows| && 0 < |t.rows| && !Skipped(t, k) ==> HasSeparator(t, ColWidths(t), k)
  {
    hide *;
    RowsArePrintable(t);
    forall r: nat, i: nat | r < |t.rows| && i < Heights(t)[r] ensures HasRowLine(t, ColWidths(t), r, i) {
      RowLineIsGrid(t, ColWidths(t), r, i);
    }
    forall k: nat | k <= |t.rows| && 0 < |t.rows| && !Skipped(t, k) ensures HasSeparator(t, ColWidths(t), k) {
      SeparatorIsGrid(t, ColWidths(t), k);
    }
  }
}
