/** Which glyphs of a table's style src/fort.c draws where, told by the fields of the style and the columns of the output. */
module Borders {
  import opened TableModel
  import opened Layout
  import opened Units
  import opened Rendering
  import opened Grid
  import opened Separators
  import opened TableText

  /** A border is drawn in front of column `j` of a row, unless the cell there belongs to a span that starts before. */
  ghost predicate Divides(t: Table, row: int, j: nat) {
    0 <= row < |t.rows| && !(j < |t.rows[row]| && t.rows[row][j].kind.GroupSlave?)
  }

  /** The junction in front of column `j`: it depends on whether the rows above and below have a border there. */
  ghost function Crossing(t: Table, k: nat, j: nat, both: string, below: string, above: string, none: string): string {
    match (Divides(t, k - 1, j), Divides(t, k, j))
    case (true, true) => both
    case (false, true) => below
    case (true, false) => above
    case (false, false) => none
  }

  /** The corners, lines and junctions of a separator line between the rows `k - 1` and `k`. */
  ghost predicate DrawnWith(t: Table, w: seq<nat>, k: nat, v: seq<string>, l: string, i: string, r: string,
                            both: string, below: string, above: string, none: string)
    requires |w| == Columns(t)
  {
    && |v| == LineWidth(t, w) + 1
    && v[t.margins.left] == l && v[LineWidth(t, w) - t.margins.right - 1] == r
    && (forall j :: 0 <= j < |w| ==> LineGlyphs(t, w, v, j, i))
    && (forall j :: 0 < j < |w| ==>
          FrontGlyph(t, w, v, j, Crossing(t, k, j, both, below, above, none)))
  }

  /** The columns of a cell all show one glyph. */
  ghost predicate LineGlyphs(t: Table, w: seq<nat>, v: seq<string>, j: nat, glyph: string)
    requires j < |w|
  {
    ColumnStart(t, w, j) + w[j] <= |v| && forall x :: ColumnStart(t, w, j) <= x < ColumnStart(t, w, j) + w[j] ==> v[x] == glyph
  }

  /** The place in front of a column shows a glyph. */
  ghost predicate FrontGlyph(t: Table, w: seq<nat>, v: seq<string>, j: nat, glyph: string)
    requires j < |w|
  {
    0 < ColumnStart(t, w, j) <= |v| && v[ColumnStart(t, w, j) - 1] == glyph
  }

  lemma JunctionIs(t: Table, k: nat, j: nat)
    requires k <= |t.rows| && j > 0
    ensures var g := GlyphsAt(t, k);
            Junction(t, k, j) == Crossing(t, k, j, g.iv, g.it, g.ib, g.ii)
  {
    hide GlyphsAt;
  }

  lemma SeparatorIsDrawn(t: Table, w: seq<nat>, k: nat, v: seq<string>)
    requires |w| == Columns(t) && |w| > 0 && k <= |t.rows| && IsSeparatorLine(t, w, k, v)
    ensures var g := GlyphsAt(t, k); DrawnWith(t, w, k, v, g.l, g.i, g.r, g.iv, g.it, g.ib, g.ii)
  {
    hide GlyphsAt, ColumnStart, LineWidth, Junction, Crossing;
    ColumnsFillLine(t, w);
    var g := GlyphsAt(t, k);
    assert ShowsJunction(t, w, k, 0, v, 0);
    FirstJunction(t, k);
    forall j | 0 <= j < |w| ensures LineGlyphs(t, w, v, j, g.i) {
      assert ShowsJunction(t, w, k, j, v, 0);
      ShownRule(t, w, k, j, v);
    }
    forall j | 0 < j < |w| ensures FrontGlyph(t, w, v, j, Junction(t, k, j)) {
      assert ShowsJunction(t, w, k, j, v, 0);
    }
    forall j | 0 < j < |w|
      ensures Junction(t, k, j) == Crossing(t, k, j, g.iv, g.it, g.ib, g.ii)
    {
      JunctionIs(t, k, j);
    }
  }

  lemma FirstJunction(t: Table, k: nat)
    ensures Junction(t, k, 0) == GlyphsAt(t, k).l
  {
  }

  lemma ShownRule(t: Table, w: seq<nat>, k: nat, j: nat, v: seq<string>)
    requires j < |w| && ShowsJunction(t, w, k, j, v, 0)
    ensures LineGlyphs(t, w, v, j, GlyphsAt(t, k).i)
  {
    hide GlyphsAt, ColumnStart, Junction;
    var start, i := ColumnStart(t, w, j), GlyphsAt(t, k).i;
    forall x | start <= x < start + w[j] ensures v[x] == i {
      assert v[start - 0..start - 0 + w[j]][x - start] == Rule(i, w[j])[x - start];
    }
  }

  /** The line of the output that holds separator `k`. */
  ghost function SeparatorShown(t: Table, k: nat): seq<string>
    requires Ready(t, ColWidths(t)) && k <= |t.rows| && SeparatorNumber(t, k) < |TableLines(t, ColWidths(t))|
  {
    Visible(TableLines(t, ColWidths(t))[SeparatorNumber(t, k)])
  }

  ghost predicate HasLine(t: Table, k: nat) {
    && WellFormed(t) && Columns(t) > 0 && 0 < |t.rows| && k <= |t.rows| && !Skipped(t, k)
  }

  lemma SeparatorInOutput(t: Table, k: nat)
    requires HasLine(t, k)
    ensures Ready(t, ColWidths(t)) && SeparatorNumber(t, k) < |TableLines(t, ColWidths(t))|
    ensures var g := GlyphsAt(t, k);
            DrawnWith(t, ColWidths(t), k, SeparatorShown(t, k), g.l, g.i, g.r, g.iv, g.it, g.ib, g.ii)
  {
    hide ColWidths, Ready, TableLines, SeparatorNumber, GlyphsAt, IsSeparatorLine, DrawnWith, Columns, Visible, WellFormed, Skipped;
    RowsArePrintable(t);
    SeparatorIsGrid(t, ColWidths(t), k);
    SeparatorIsDrawn(t, ColWidths(t), k, SeparatorShown(t, k));
  }

  /** The border that is drawn for a row, and for the separator between two rows: the header's beside a header row. */
  function BorderFor(t: Table, header: bool): Border {
    if header then t.headerBorder else t.border
  }

  predicate On(t: Table, k: nat) {
    k < |t.separators| && t.separators[k]
  }

  /** The line above the first row. */
  lemma TopLine(t: Table)
    requires HasLine(t, 0) && !On(t, 0)
    ensures Ready(t, ColWidths(t)) && SeparatorNumber(t, 0) < |TableLines(t, ColWidths(t))|
    ensures var b := BorderFor(t, t.isHeader(0));
            DrawnWith(t, ColWidths(t), 0, SeparatorShown(t, 0), b.tl, b.tt, b.tr, b.tv, b.tv, b.tv, b.tt)
  {
    hide ColWidths, Ready, TableLines, SeparatorNumber, DrawnWith, SeparatorShown, Columns, WellFormed, Skipped;
    SeparatorInOutput(t, 0);
  }

  /** The line below the last row. */
  lemma BottomLine(t: Table)
    requires HasLine(t, |t.rows|) && !On(t, |t.rows|)
    ensures Ready(t, ColWidths(t)) && SeparatorNumber(t, |t.rows|) < |TableLines(t, ColWidths(t))|
    ensures |t.rows| > 0
    ensures var b := BorderFor(t, t.isHeader(|t.rows| - 1));
            DrawnWith(t, ColWidths(t), |t.rows|, SeparatorShown(t, |t.rows|), b.bl, b.bb, b.br, b.bv, b.bv, b.bv, b.bb)
  {
    hide ColWidths, Ready, TableLines, SeparatorNumber, DrawnWith, SeparatorShown, Columns, WellFormed, Skipped;
    SeparatorInOutput(t, |t.rows|);
  }

  /** A line between two rows that is not switched on. */
  lemma InnerLine(t: Table, k: nat)
    requires HasLine(t, k) && 0 < k < |t.rows| && !On(t, k)
    ensures Ready(t, ColWidths(t)) && SeparatorNumber(t, k) < |TableLines(t, ColWidths(t))|
    ensures var b := BorderFor(t, t.isHeader(k - 1) || t.isHeader(k));
            DrawnWith(t, ColWidths(t), k, SeparatorShown(t, k), b.lh, b.ih, b.rh, b.ii, b.ti, b.bi, b.ih)
  {
    hide ColWidths, Ready, TableLines, SeparatorNumber, DrawnWith, SeparatorShown, Columns, WellFormed, Skipped;
    SeparatorInOutput(t, k);
  }

  /** A line that is switched on: the glyphs of the separator style, but the corners of the border at the table's ends. */
  lemma SwitchedOnLine(t: Table, k: nat)
    requires HasLine(t, k) && On(t, k)
    ensures Ready(t, ColWidths(t)) && SeparatorNumber(t, k) < |TableLines(t, ColWidths(t))|
    ensures 0 < |t.rows| && k <= |t.rows|
    ensures var s := t.separatorStyle;
            var (l, r) := if k == 0 then var b := BorderFor(t, t.isHeader(0)); (b.tl, b.tr)
                          else if k == |t.rows| then var b := BorderFor(t, t.isHeader(k - 1)); (b.bl, b.br)
                          else (s.lh, s.rh);
            DrawnWith(t, ColWidths(t), k, SeparatorShown(t, k), l, s.ih, r, s.ii, s.ti, s.bi, s.ih)
  {
    hide ColWidths, Ready, TableLines, SeparatorNumber, DrawnWith, SeparatorShown, Columns, WellFormed, Skipped;
    SeparatorInOutput(t, k);
  }

  /** A glyph of which nothing is to be seen: none, or one byte outside of the printable ones. */
  predicate Invisible(glyph: string) {
    glyph == "" || (|glyph| == 1 && !(0x20 <= glyph[0] as int <= 0x7e))
  }

  /** Which separators are left out: those with invisible corners, lines and crossings. */
  lemma LeftOutLines(t: Table, k: nat)
    requires 0 < |t.rows| && k <= |t.rows| && !On(t, k)
    ensures (Skipped(t, k) <==>
             if k == 0 then
               var b := BorderFor(t, t.isHeader(0));
               Invisible(b.tl) && Invisible(b.tt) && Invisible(b.tv) && Invisible(b.tr)
             else if k == |t.rows| then
               var b := BorderFor(t, t.isHeader(k - 1));
               Invisible(b.bl) && Invisible(b.bb) && Invisible(b.bv) && Invisible(b.br)
             else
               var b := BorderFor(t, t.isHeader(k - 1) || t.isHeader(k));
               Invisible(b.lh) && Invisible(b.ih) && Invisible(b.ii) && Invisible(b.rh))
  {
  }

  /** Of a line that is switched on, the glyphs of the separator style count, and the corners at the table's ends. */
  lemma LeftOutOnLines(t: Table, k: nat)
    requires 0 < |t.rows| && k <= |t.rows| && On(t, k)
    ensures var s := t.separatorStyle;
            var (l, r) := if k == 0 then var b := BorderFor(t, t.isHeader(0)); (b.tl, b.tr)
                          else if k == |t.rows| then var b := BorderFor(t, t.isHeader(k - 1)); (b.bl, b.br)
                          else (s.lh, s.rh);
            Skipped(t, k) <==> Invisible(l) && Invisible(s.ih) && Invisible(s.ii) && Invisible(r)
  {
  }

  /** The borders of a line of a row: the header's glyphs in a header row. */
  lemma RowLine(t: Table, r: nat, i: nat)
    requires WellFormed(t) && Columns(t) > 0 && r < |t.rows| && i < Heights(t)[r]
    ensures Ready(t, ColWidths(t)) && LineNumber(t, r, i) < |TableLines(t, ColWidths(t))|
    ensures var v, w, b := Visible(TableLines(t, ColWidths(t))[LineNumber(t, r, i)]), ColWidths(t), BorderFor(t, t.isHeader(r));
            && |v| == LineWidth(t, w) + 1
            && v[t.margins.left] == b.ll && v[LineWidth(t, w) - t.margins.right - 1] == b.rr
            && forall j :: 0 < j < |w| && Divides(t, r, j) ==> FrontGlyph(t, w, v, j, b.iv)
  {
    hide ColWidths, Ready, TableLines, LineNumber, Columns, Visible, WellFormed, Heights, Printable, LineWidth, ColumnStart,
         PrintedWidth, PrintedGlyph;
    var w := ColWidths(t);
    RowsArePrintable(t);
    RowLineIsGrid(t, w, r, i);
    var v := Visible(TableLines(t, w)[LineNumber(t, r, i)]);
    ColumnsFillLine(t, w);
    forall j | 0 < j < |w| && Divides(t, r, j) ensures FrontGlyph(t, w, v, j, RowBorder(t, r).iv) {
      assert Starts(t.rows[r], j);
      assert ShowsCell(t, w, r, i, j, v, 0);
      StartsGrow(t, w, 0, j);
    }
  }
}
