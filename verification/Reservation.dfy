/** The bytes that src/fort.c reserves are not too many: for plain tables they are used up to the last one. */
module Reservation {
  import opened TableModel
  import opened Layout
  import opened TableSizes
  import opened Rendering
  import opened Separators
  import opened TableText
  import opened BufferBound
  import opened ExactSize

  ghost predicate OneByte(glyphs: seq<string>) {
    forall x :: 0 <= x < |glyphs| ==> |glyphs[x]| == 1
  }

  /** A table without tags, drawn with glyphs of one byte, with all of its separators. */
  ghost predicate Plain(t: Table) {
    && WellFormed(t) && 0 < |t.rows| && 0 < Columns(t) && NoTags(t)
    && OneByte(t.border.Glyphs()) && OneByte(t.headerBorder.Glyphs()) && OneByte(t.separatorStyle.Glyphs())
    && forall k :: 0 <= k <= |t.rows| ==> !Skipped(t, k)
  }

  lemma {:induction false} LongestOfOnes(glyphs: seq<string>)
    requires OneByte(glyphs)
    ensures LongestOf(glyphs, 1) == 1
    decreases |glyphs|
  {
    if glyphs != [] {
      LongestOfOnes(glyphs[..|glyphs| - 1]);
    }
  }

  lemma PlainGlyph(t: Table)
    requires Plain(t)
    ensures MaxGlyph(t) == 1
  {
    hide LongestOf;
    LongestOfOnes(t.border.Glyphs());
    LongestOfOnes(t.headerBorder.Glyphs());
    LongestOfOnes(t.separatorStyle.Glyphs());
  }

  ghost predicate OneByteGlyphs(g: SeparatorGlyphs) {
    |g.l| == |g.i| == |g.iv| == |g.r| == |g.it| == |g.ib| == |g.ii| == 1
  }

  lemma BorderBytes(b: Border)
    requires OneByte(b.Glyphs())
    ensures |b.tl| == |b.tt| == |b.tv| == |b.tr| == |b.ll| == |b.iv| == |b.rr| == |b.lh| == |b.ih| == |b.ii| == |b.rh| == 1
    ensures |b.bl| == |b.bb| == |b.bv| == |b.br| == |b.ti| == |b.bi| == 1
  {
    var g := b.Glyphs();
    assert g[0] == b.tl && g[1] == b.tt && g[2] == b.tv && g[3] == b.tr && g[4] == b.ll && g[5] == b.iv && g[6] == b.rr;
    assert g[7] == b.lh && g[8] == b.ih && g[9] == b.ii && g[10] == b.rh;
    assert g[11] == b.bl && g[12] == b.bb && g[13] == b.bv && g[14] == b.br && g[16] == b.ti && g[18] == b.bi;
  }

  lemma StyleBytes(s: SeparatorStyle)
    requires OneByte(s.Glyphs())
    ensures |s.lh| == |s.ih| == |s.ii| == |s.rh| == |s.ti| == |s.bi| == 1
  {
    var g := s.Glyphs();
    assert g[0] == s.lh && g[1] == s.ih && g[2] == s.ii && g[3] == s.rh && g[4] == s.ti && g[5] == s.bi;
  }

  lemma PlainStyle(t: Table, k: nat)
    requires Plain(t)
    ensures OneByteGlyphs(GlyphsAt(t, k)) && |RowBorder(t, k).ll| == |RowBorder(t, k).iv| == |RowBorder(t, k).rr| == 1
  {
    hide OneByte, WellFormed, NoTags, Skipped, Columns;
    BorderBytes(t.border);
    BorderBytes(t.headerBorder);
    StyleBytes(t.separatorStyle);
  }

  /** Without tags, what is reserved for the columns is what is printed. */
  lemma PlainWidths(t: Table)
    requires Plain(t)
    ensures Widths(t, InternalGeometry) == ColWidths(t)
  {
    assert TagsAvoidSpans(t);
    NoTagIsLongest(t);
    hide MaxTag, TagsAvoidSpans, Across, WellFormed, Skipped, NoTags;
    WidthsTrack(t);
  }

  lemma NoTagIsLongest(t: Table)
    requires NoTags(t)
    ensures forall c: nat :: MaxTag(t, c, |t.rows|) == 0
  {
    forall c: nat ensures MaxTag(t, c, |t.rows|) == 0 {
      NoTagIn(t, c, |t.rows|);
    }
  }

  lemma {:induction false} NoTagIn(t: Table, c: nat, n: nat)
    requires NoTags(t) && n <= |t.rows|
    ensures MaxTag(t, c, n) == 0
  {
    hide TagWidth;
    if n > 0 {
      NoTagIn(t, c, n - 1);
    }
  }

  /** A line of the table takes as many bytes as it has columns, and the newline. */
  lemma PlainCodWidth(t: Table)
    requires Plain(t)
    ensures CodWidth(t) == LineWidth(t, ColWidths(t)) + 1
  {
    hide Widths, MaxGlyph, SumOf, Plain, ColWidths;
    PlainHasColumns(t);
    PlainGlyph(t);
    PlainWidths(t);
  }

  lemma PlainHasColumns(t: Table)
    requires Plain(t)
    ensures Columns(t) > 0 && |t.rows| > 0 && WellFormed(t)
  {
  }

  lemma {:induction false} PlainSeparatorCells(t: Table, w: seq<nat>, k: nat, c: nat)
    requires OneByteGlyphs(GlyphsAt(t, k)) && c <= |w|
    ensures SeparatorCellsSize(t, w, k, c) == SumOf(w[..c]) + c
    decreases c
  {
    hide GlyphsAt, SumOf, KindAt;
    if c > 0 {
      PlainSeparatorCells(t, w, k, c - 1);
      assert w[..c] == w[..c - 1] + [w[c - 1]];
      SumOfLast(w[..c - 1], w[c - 1]);
    } else {
      NothingSummed(w);
    }
  }

  lemma NothingSummed(w: seq<nat>)
    ensures SumOf(w[..0]) == 0
  {
  }

  lemma PlainSeparator(t: Table, k: nat)
    requires Plain(t) && k <= |t.rows|
    ensures SeparatorBytes(t, ColWidths(t), k) == CodWidth(t)
  {
    hide GlyphsAt, SumOf, SeparatorCellsSize, CodWidth, ColWidths, WellFormed, NoTags, Skipped, OneByte;
    var w := ColWidths(t);
    PlainStyle(t, k);
    PlainSeparatorCells(t, w, k, |w|);
    assert w[..|w|] == w;
    PlainCodWidth(t);
  }

  lemma {:induction false} PlainCells(t: Table, w: seq<nat>, r: nat, j: nat)
    requires r < |t.rows| && |w| == Columns(t) && j <= |w| && NoTags(t) && |RowBorder(t, r).iv| == 1
    ensures j < |w| ==> ColumnStart(t, w, j) + CellsSize(t, w, r, j) + 1 == ColumnStart(t, w, |w|)
    ensures j == |w| ==> CellsSize(t, w, r, j) == 0
    decreases |w| - j
  {
    hide ColumnStart, PrintedWidth, TagWidth, GroupSize;
    if j < |w| {
      PrintedReach(t, w, r, j);
      PlainCells(t, w, r, Next(t.rows[r], j));
    }
  }

  lemma PlainContent(t: Table, r: nat)
    requires Plain(t) && r < |t.rows|
    ensures ContentSize(t, ColWidths(t), r) == CodWidth(t)
  {
    hide ColumnStart, CellsSize, RowBorder, CodWidth, ColWidths, SumOf, WellFormed, Skipped, OneByte;
    var w := ColWidths(t);
    PlainStyle(t, r);
    PlainCells(t, w, r, 0);
    PlainCodWidth(t);
    PlainEnds(t, w);
  }

  lemma PlainEnds(t: Table, w: seq<nat>)
    requires |w| == Columns(t)
    ensures ColumnStart(t, w, 0) == t.margins.left + 1 && ColumnStart(t, w, |w|) == LineWidth(t, w) - t.margins.right
  {
    assert w[..|w|] == w;
  }

  lemma {:induction false} PlainBody(t: Table, r: nat)
    requires Plain(t) && r <= |t.rows|
    ensures BodyBytes(t, ColWidths(t), r) == Times(SumOf(Heights(t)[..r]) + r, CodWidth(t))
    decreases r
  {
    hide Times, ColWidths, Heights, SumOf, ContentSize, SeparatorBytes, CodWidth, Plain;
    var n := CodWidth(t);
    if r > 0 {
      PlainBody(t, r - 1);
      PlainSeparator(t, r - 1);
      PlainContent(t, r - 1);
      assert Heights(t)[..r] == Heights(t)[..r - 1] + [Heights(t)[r - 1]];
      SumOfLast(Heights(t)[..r - 1], Heights(t)[r - 1]);
      TimesAdd(SumOf(Heights(t)[..r - 1]) + r - 1, 1, n);
      TimesAdd(SumOf(Heights(t)[..r - 1]) + r, Heights(t)[r - 1], n);
    } else {
      NothingSummed(Heights(t));
      TimesAdd(0, 0, n);
    }
  }

  /** Main result: the output of a plain table takes exactly the bytes that are reserved for it. */
  lemma ReservationIsExact(t: Table)
    requires Plain(t)
    ensures Ready(t, ColWidths(t)) && OutputSize(t) == Times(CodHeight(t), CodWidth(t))
  {
    hide Times, ColWidths, Heights, SumOf, SeparatorBytes, CodWidth, Plain, BodyBytes, Ready, OutputSize, WellFormed;
    var n := CodWidth(t);
    var rows := |t.rows|;
    PlainHasColumns(t);
    OutputSizeIsPredicted(t);
    PlainBody(t, rows);
    PlainSeparator(t, rows);
    assert Heights(t)[..rows] == Heights(t);
    var body := SumOf(Heights(t)) + rows;
    TimesAdd(t.margins.top, body, n);
    TimesAdd(t.margins.top + body, 1, n);
    TimesAdd(t.margins.top + body + 1, t.margins.bottom, n);
    assert CodHeight(t) == t.margins.top + body + 1 + t.margins.bottom;
  }
}
