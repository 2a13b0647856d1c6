/** The size that `ft_to_string` of src/fort.c reserves before printing, against the size of what it prints. */
module BufferBound {
  import opened TableModel
  import opened Layout
  import opened TableSizes
  import opened Units
  import opened Rendering
  import opened Grid
  import opened Separators
  import opened TableText

  /** The bytes of the whole output. */
  ghost function OutputSize(t: Table): nat
    requires Ready(t, ColWidths(t))
  {
    |Bytes(Flat(TableLines(t, ColWidths(t))))|
  }

  /** The output fits into the bytes reserved for it. */
  ghost predicate OutputFits(t: Table) {
    Ready(t, ColWidths(t)) && OutputSize(t) <= Times(CodHeight(t), CodWidth(t))
  }

  // ---- The widths with room for the tags, against the widths that are printed ----

  /** No cell that stands in a column of a span, in whichever row, has style tags. */
  ghost predicate TagsAvoidSpans(t: Table) {
    forall r: nat, c: nat, r': nat, c': nat ::
      IsMaster(t, r, c) && r' < |t.rows| && c <= c' < c + GroupSize(t.rows[r], c) ==> TagWidth(t, r', c') == 0
  }

  /** Every column is reserved with exactly the room of its longest tags. */
  ghost predicate Tracks(t: Table, w: seq<nat>, iw: seq<nat>) {
    && |w| == Columns(t) && |iw| == Columns(t)
    && forall c :: 0 <= c < |w| ==> iw[c] == w[c] + MaxTag(t, c, |t.rows|)
  }

  lemma SpanHasNoTags(t: Table, r: nat, c: nat, c': nat)
    requires TagsAvoidSpans(t) && IsMaster(t, r, c) && c <= c' < c + GroupSize(t.rows[r], c)
    ensures MaxTag(t, c', |t.rows|) == 0 && InvisWidth(t.props(r, c)) == 0
  {
    hide InvisWidth, GroupSize;
    MaxTagIsLargest(t, c', |t.rows|);
    assert TagWidth(t, r, c) == 0;
  }

  lemma WidenTracks(t: Table, w: seq<nat>, iw: seq<nat>, r: nat, c: nat)
    requires TagsAvoidSpans(t) && Tracks(t, w, iw) && IsMaster(t, r, c)
    ensures Tracks(t, LookAt(t, VisibleGeometry, w, r, c), LookAt(t, InternalGeometry, iw, r, c))
  {
    hide InvisWidth, MaxTag, VisWidth, TagsAvoidSpans, Columns;
    var n := GroupSize(t.rows[r], c);
    forall c' | c <= c' < c + n ensures iw[c'] == w[c'] {
      SpanHasNoTags(t, r, c, c');
    }
    SpanHasNoTags(t, r, c, c);
    assert iw[c..c + n] == w[c..c + n];
    assert SpanHint(t, InternalGeometry, r, c) == SpanHint(t, VisibleGeometry, r, c);
  }

  lemma LookAtTracks(t: Table, w: seq<nat>, iw: seq<nat>, r: nat, c: nat)
    requires TagsAvoidSpans(t) && Tracks(t, w, iw)
    ensures Tracks(t, LookAt(t, VisibleGeometry, w, r, c), LookAt(t, InternalGeometry, iw, r, c))
  {
    assert |w| == Columns(t) && |iw| == Columns(t);
    hide Tracks, TagsAvoidSpans;
    if IsMaster(t, r, c) {
      WidenTracks(t, w, iw, r, c);
    }
  }

  lemma {:induction false} DownColumnTracks(t: Table, w: seq<nat>, iw: seq<nat>, c: nat, r: nat)
    requires TagsAvoidSpans(t) && Tracks(t, w, iw)
    ensures Tracks(t, DownColumn(t, VisibleGeometry, w, c, r), DownColumn(t, InternalGeometry, iw, c, r))
    decreases r
  {
    assert |w| == Columns(t) && |iw| == Columns(t);
    hide Tracks, TagsAvoidSpans, LookAt;
    if r > 0 {
      DownColumnTracks(t, w, iw, c, r - 1);
      LookAtTracks(t, DownColumn(t, VisibleGeometry, w, c, r - 1), DownColumn(t, InternalGeometry, iw, c, r - 1), r - 1, c);
    }
  }

  lemma {:induction false} AcrossTracks(t: Table, c: nat)
    requires TagsAvoidSpans(t)
    ensures Tracks(t, Across(t, VisibleGeometry, c), Across(t, InternalGeometry, c))
    decreases c
  {
    hide TagsAvoidSpans, DownColumn, MaxTag, MaxCommon;
    if c > 0 {
      AcrossTracks(t, c - 1);
      DownColumnTracks(t, Across(t, VisibleGeometry, c - 1), Across(t, InternalGeometry, c - 1), c - 1, |t.rows|);
    }
  }

  // ---- Every line fits into the reserved width ----

  ghost predicate ShortBorder(b: Border, n: nat) {
    && |b.tl| <= n && |b.tt| <= n && |b.tv| <= n && |b.tr| <= n && |b.ll| <= n && |b.iv| <= n && |b.rr| <= n
    && |b.lh| <= n && |b.ih| <= n && |b.ii| <= n && |b.rh| <= n
    && |b.bl| <= n && |b.bb| <= n && |b.bv| <= n && |b.br| <= n && |b.ti| <= n && |b.bi| <= n
  }

  lemma BorderIsShort(b: Border, least: nat, n: nat)
    requires LongestOf(b.Glyphs(), least) <= n
    ensures ShortBorder(b, n)
  {
    hide LongestOf;
    var g := b.Glyphs();
    assert g[0] == b.tl && g[1] == b.tt && g[2] == b.tv && g[3] == b.tr && g[4] == b.ll && g[5] == b.iv && g[6] == b.rr;
    assert g[7] == b.lh && g[8] == b.ih && g[9] == b.ii && g[10] == b.rh;
    assert g[11] == b.bl && g[12] == b.bb && g[13] == b.bv && g[14] == b.br && g[16] == b.ti && g[18] == b.bi;
  }

  ghost predicate ShortSeparators(s: SeparatorStyle, n: nat) {
    |s.lh| <= n && |s.ih| <= n && |s.ii| <= n && |s.rh| <= n && |s.ti| <= n && |s.bi| <= n
  }

  lemma SeparatorsAreShort(s: SeparatorStyle, least: nat, n: nat)
    requires LongestOf(s.Glyphs(), least) <= n
    ensures ShortSeparators(s, n)
  {
    hide LongestOf;
    var g := s.Glyphs();
    assert g[0] == s.lh && g[1] == s.ih && g[2] == s.ii && g[3] == s.rh && g[4] == s.ti && g[5] == s.bi;
  }

  ghost predicate ShortStyle(t: Table, n: nat) {
    ShortBorder(t.border, n) && ShortBorder(t.headerBorder, n) && ShortSeparators(t.separatorStyle, n)
  }

  /** No glyph of the table's style is longer than the longest one. */
  lemma StyleIsShort(t: Table)
    ensures ShortStyle(t, MaxGlyph(t))
  {
    hide LongestOf, ShortBorder, ShortSeparators;
    var inner := LongestOf(t.border.Glyphs(), 1);
    BorderIsShort(t.border, 1, MaxGlyph(t));
    BorderIsShort(t.headerBorder, inner, MaxGlyph(t));
    SeparatorsAreShort(t.separatorStyle, LongestOf(t.headerBorder.Glyphs(), inner), MaxGlyph(t));
  }

  lemma JunctionIsShort(t: Table, k: nat, c: nat, n: nat)
    requires ShortStyle(t, n)
    ensures |Junction(t, k, c)| <= n && |GlyphsAt(t, k).i| <= n && |GlyphsAt(t, k).r| <= n
  {
    hide KindAt, BesideHeader, SwitchedOn;
  }

  lemma {:induction false} TimesMonotone(a: nat, n: nat, m: nat)
    requires n <= m
    ensures Times(a, n) <= Times(a, m)
    decreases a
  {
    TimesAdd(0, 0, n);
    if a > 0 {
      hide Times;
      TimesMonotone(a - 1, n, m);
      TimesAdd(a - 1, 1, n);
      TimesAdd(a - 1, 1, m);
    }
  }

  /** One separator takes at most the widths, each times the longest glyph. */
  lemma {:induction false} SeparatorCellsBound(t: Table, w: seq<nat>, k: nat, c: nat, n: nat)
    requires c <= |w| && ShortStyle(t, n)
    ensures SeparatorCellsSize(t, w, k, c) <= Times(SumOf(w[..c]) + c, n)
    decreases c
  {
    hide Junction, GlyphsAt, ShortStyle, Times, SumOf;
    if c == 0 {
      assert SeparatorCellsSize(t, w, k, 0) == 0;
    } else {
      SeparatorCellsBound(t, w, k, c - 1, n);
      JunctionIsShort(t, k, c - 1, n);
      assert w[..c] == w[..c - 1] + [w[c - 1]];
      SumOfLast(w[..c - 1], w[c - 1]);
      TimesMonotone(w[c - 1], |GlyphsAt(t, k).i|, n);
      TimesAdd(SumOf(w[..c - 1]) + c - 1, w[c - 1] + 1, n);
      TimesAdd(w[c - 1], 1, n);
    }
  }

  /** The room of one cell, with its tags, in the reserved widths. */
  lemma PrintedBound(t: Table, w: seq<nat>, iw: seq<nat>, r: nat, j: nat)
    requires TagsAvoidSpans(t) && Tracks(t, w, iw) && r < |t.rows| && j < |w|
    ensures Next(t.rows[r], j) <= |w|
    ensures PrintedWidth(t, w, r, j) + TagWidth(t, r, j)
            <= SumOf(iw[j..Next(t.rows[r], j)]) + Next(t.rows[r], j) - j - 1
  {
    assert |w| == Columns(t) && |iw| == Columns(t);
    hide InvisWidth, MaxTag, TagsAvoidSpans, Columns;
    var k := Next(t.rows[r], j);
    if IsMaster(t, r, j) {
      forall c | j <= c < k ensures iw[c] == w[c] {
        SpanHasNoTags(t, r, j, c);
      }
      SpanHasNoTags(t, r, j, j);
      assert iw[j..k] == w[j..k];
    } else {
      MaxTagIsLargest(t, j, |t.rows|);
      assert iw[j..k] == [iw[j]] && w[j..k] == [w[j]];
      assert SumOf([iw[j]]) == iw[j] + SumOf([iw[j]][1..]) && SumOf([w[j]]) == w[j] + SumOf([w[j]][1..]);
    }
  }

  /** One line of a row takes at most the reserved widths, and the longest glyph once for each border. */
  lemma {:induction false} CellsBound(t: Table, w: seq<nat>, iw: seq<nat>, r: nat, j: nat, n: nat)
    requires TagsAvoidSpans(t) && Tracks(t, w, iw) && r < |t.rows| && j <= |w| == |iw| == Columns(t)
    requires ShortStyle(t, n) && n >= 1
    ensures CellsSize(t, w, r, j) <= SumOf(iw[j..]) + if j == |w| then 0 else Times(|w| - j - 1, n)
    decreases |w| - j
  {
    hide *;
    if j < |w| {
      CellsSizeStep(t, w, r, j, n);
      PrintedBound(t, w, iw, r, j);
      CellsBound(t, w, iw, r, Next(t.rows[r], j), n);
      SumOfSplit(iw, j, Next(t.rows[r], j));
      BorderStep(|w|, j, Next(t.rows[r], j), n);
    } else {
      assert iw[j..] == [];
      NoCellsSize(t, w, r);
    }
  }

  lemma NoCellsSize(t: Table, w: seq<nat>, r: nat)
    requires r < |t.rows| && |w| == Columns(t)
    ensures CellsSize(t, w, r, |w|) == 0 && SumOf([]) == 0
  {
  }

  lemma SumOfSplit(w: seq<nat>, j: nat, k: nat)
    requires j <= k <= |w|
    ensures SumOf(w[j..]) == SumOf(w[j..k]) + SumOf(w[k..])
  {
    assert w[j..] == w[j..k] + w[k..];
    SumOfConcat(w[j..k], w[k..]);
  }

  lemma CellsSizeStep(t: Table, w: seq<nat>, r: nat, j: nat, n: nat)
    requires r < |t.rows| && |w| == Columns(t) && j < |w| && ShortStyle(t, n)
    ensures var k := Next(t.rows[r], j);
            CellsSize(t, w, r, j) <= PrintedWidth(t, w, r, j) + TagWidth(t, r, j) + (if k < |w| then n else 0)
                                     + CellsSize(t, w, r, k)
  {
    hide PrintedWidth, TagWidth, GroupSize;
  }

  lemma BorderStep(cols: nat, j: nat, k: nat, n: nat)
    requires j < k <= cols && n >= 1
    ensures k - j - 1 + (if k < cols then n + Times(cols - k - 1, n) else 0) <= Times(cols - j - 1, n)
  {
    MulAtLeast(n, k - j - 1);
    if k < cols {
      TimesAdd(k - j, cols - k - 1, n);
      TimesAdd(k - j - 1, 1, n);
    }
  }

  /** The glyphs and blanks of a line, each counted with the longest glyph, fill the reserved width. */
  lemma ReservedWidth(t: Table, left: nat, right: nat, glyphs: nat, rest: nat)
    requires left <= t.margins.left && right <= t.margins.right && rest <= SumOf(Widths(t, InternalGeometry))
    requires glyphs + 1 <= 2 + if Columns(t) == 0 then 1 else Columns(t)
    ensures left + right + 1 + rest + Times(glyphs, MaxGlyph(t)) <= CodWidth(t)
    ensures left + right + 1 + Times(rest + glyphs, MaxGlyph(t)) <= CodWidth(t)
  {
    hide Widths, Columns, MaxGlyph, SumOf;
    var n := MaxGlyph(t);
    var all := 1 + (if Columns(t) == 0 then 1 else Columns(t)) + 1 + SumOf(Widths(t, InternalGeometry))
               + t.margins.left + t.margins.right;
    var used := left + right + 1 + rest + glyphs;
    assert CodWidth(t) == Times(all, n) && used <= all;
    hide *;
    TimesAdd(used, all - used, n);
    TimesAdd(left + right + 1 + rest, glyphs, n);
    TimesAdd(left + right + 1, rest + glyphs, n);
    assert Times(left + right + 1 + rest, n) >= left + right + 1 + rest;
    assert Times(left + right + 1, n) >= left + right + 1;
    assert left + right + 1 + (rest + glyphs) == used && left + right + 1 + rest + glyphs == used;
  }

  lemma SeparatorBound(t: Table, k: nat)
    requires SumOf(ColWidths(t)) <= SumOf(Widths(t, InternalGeometry))
    ensures SeparatorSize(t, ColWidths(t), k) <= CodWidth(t)
  {
    hide Widths, MaxGlyph, SumOf, CodWidth, ColWidths, SeparatorCellsSize, GlyphsAt, ShortStyle, Times;
    var w, n := ColWidths(t), MaxGlyph(t);
    StyleIsShort(t);
    JunctionIsShort(t, k, 0, n);
    SeparatorCellsBound(t, w, k, |w|, n);
    assert w[..|w|] == w;
    TimesAdd(SumOf(w) + |w|, 1, n);
    ReservedWidth(t, t.margins.left, t.margins.right, |w| + 1, SumOf(w));
  }

  lemma ContentBound(t: Table, r: nat)
    requires TagsAvoidSpans(t) && r < |t.rows| && Columns(t) > 0
    ensures ContentSize(t, ColWidths(t), r) <= CodWidth(t)
  {
    hide *;
    var w, iw, n := ColWidths(t), Widths(t, InternalGeometry), MaxGlyph(t);
    WidthsTrack(t);
    StyleIsShort(t);
    RowBorderIsShort(t, r, n);
    CellsBound(t, w, iw, r, 0, n);
    ContentSizeIs(t, w, r);
    assert iw[0..] == iw;
    TimesAdd(|w| - 1, 2, n);
    TimesAdd(1, 1, n);
    ReservedWidth(t, t.margins.left, t.margins.right, |w| + 1, SumOf(iw));
  }

  lemma WidthsTrack(t: Table)
    requires TagsAvoidSpans(t)
    ensures Tracks(t, ColWidths(t), Widths(t, InternalGeometry))
  {
    hide TagsAvoidSpans, Across, MaxTag;
    AcrossTracks(t, Columns(t));
  }

  lemma ContentSizeIs(t: Table, w: seq<nat>, r: nat)
    requires r < |t.rows| && |w| == Columns(t)
    ensures ContentSize(t, w, r) == t.margins.left + |RowBorder(t, r).ll| + CellsSize(t, w, r, 0) + |RowBorder(t, r).rr|
                                    + t.margins.right + 1
  {
  }

  lemma RowBorderIsShort(t: Table, r: nat, n: nat)
    requires ShortStyle(t, n)
    ensures |RowBorder(t, r).ll| <= n && |RowBorder(t, r).rr| <= n
  {
  }

  // ---- The whole output ----

  ghost predicate AllWithin(lines: seq<seq<Unit>>, n: nat) {
    forall x :: 0 <= x < |lines| ==> |Bytes(lines[x])| <= n
  }

  lemma WithinConcat(a: seq<seq<Unit>>, b: seq<seq<Unit>>, n: nat)
    requires AllWithin(a, n) && AllWithin(b, n)
    ensures AllWithin(a + b, n)
  {
    hide Bytes;
  }

  lemma {:induction false} FlatBound(lines: seq<seq<Unit>>, n: nat)
    requires AllWithin(lines, n)
    ensures |Bytes(Flat(lines))| <= Times(|lines|, n)
    decreases |lines|
  {
    TimesAdd(0, 0, n);
    if lines != [] {
      hide Bytes, Times;
      var last := |lines| - 1;
      FlatBound(lines[..last], n);
      Concat(Flat(lines[..last]), lines[last]);
      TimesAdd(last, 1, n);
    } else {
      NothingMeasure();
    }
  }

  lemma MarginLinesWithin(t: Table, n: nat)
    ensures AllWithin(MarginLines(t, n), CodWidth(t))
  {
    hide Bytes, CodWidth;
    SpacesMeasure(CodWidth(t) - 1);
    GlyphMeasure("\n");
    Concat(Spaces(CodWidth(t) - 1), [LINE_END]);
  }

  lemma SeparatorLinesWithin(t: Table, k: nat)
    requires SumOf(ColWidths(t)) <= SumOf(Widths(t, InternalGeometry))
    ensures AllWithin(SeparatorLines(t, ColWidths(t), k), CodWidth(t))
  {
    hide Bytes, CodWidth, ColWidths, SeparatorLine, SeparatorSize, Widths, SumOf;
    SeparatorBound(t, k);
    SeparatorFrame(t, ColWidths(t), k);
  }

  lemma RowLinesWithin(t: Table, r: nat, n: nat)
    requires TagsAvoidSpans(t) && Printable(t, ColWidths(t), r) && Columns(t) > 0
    ensures AllWithin(RowLines(t, ColWidths(t), r, n), CodWidth(t))
  {
    assert r < |t.rows|;
    hide Bytes, CodWidth, ColWidths, ContentLine, ContentSize, Printable, TagsAvoidSpans, Columns;
    ContentBound(t, r);
    forall i | 0 <= i < n ensures |Bytes(RowLines(t, ColWidths(t), r, n)[i])| <= CodWidth(t) {
      ContentFrame(t, ColWidths(t), r, i);
    }
  }

  lemma {:induction false} BodyWithin(t: Table, r: nat)
    requires TagsAvoidSpans(t) && Ready(t, ColWidths(t)) && r <= |t.rows|
    requires SumOf(ColWidths(t)) <= SumOf(Widths(t, InternalGeometry))
    ensures AllWithin(Body(t, ColWidths(t), r), CodWidth(t))
    decreases r
  {
    hide AllWithin, CodWidth, RowLines, SeparatorLines, TagsAvoidSpans, SumOf, Widths, ColWidths, Printable, Heights;
    if r == 0 {
      NothingWithin(CodWidth(t));
    } else {
      var w := ColWidths(t);
      BodyWithin(t, r - 1);
      SeparatorLinesWithin(t, r - 1);
      if Columns(t) > 0 {
        RowLinesWithin(t, r - 1, Heights(t)[r - 1]);
      } else {
        NoColumnsNoLines(t, r - 1);
        NothingWithin(CodWidth(t));
      }
      WithinConcat(Body(t, w, r - 1), SeparatorLines(t, w, r - 1), CodWidth(t));
      WithinConcat(Body(t, w, r - 1) + SeparatorLines(t, w, r - 1), RowLines(t, w, r - 1, Heights(t)[r - 1]), CodWidth(t));
    }
  }

  lemma NothingWithin(n: nat)
    ensures AllWithin([], n)
  {
  }

  lemma NoColumnsNoLines(t: Table, r: nat)
    requires r < |t.rows| && Columns(t) == 0
    requires Printable(t, ColWidths(t), r)
    ensures RowLines(t, ColWidths(t), r, Heights(t)[r]) == []
  {
    assert MaxHeight(t, r, 0) == 0;
  }

  /** There are at most as many lines as were reserved. */
  lemma LinesFit(t: Table, w: seq<nat>)
    requires Ready(t, w)
    ensures |TableLines(t, w)| <= CodHeight(t)
  {
    hide Heights, Printable, MarginLine, SeparatorLine, Body, SumOf, Skipped;
    BodySize(t, w, |t.rows|);
    assert Heights(t)[..|t.rows|] == Heights(t);
  }

  /** The columns are not wider than what is reserved for them. */
  lemma WidthsWithinReserved(t: Table)
    requires TagsAvoidSpans(t)
    ensures SumOf(ColWidths(t)) <= SumOf(Widths(t, InternalGeometry))
  {
    hide SumOf, Across, TagsAvoidSpans, MaxTag;
    WidthsTrack(t);
    SumOfMonotone(ColWidths(t), Widths(t, InternalGeometry));
  }

  /**
   * When the style tags keep clear of the spans - as they do in a table without tags and in a table without spans - the
   * bytes reserved before printing suffice for the whole output.
   */
  lemma OutputAlwaysFits(t: Table)
    requires WellFormed(t) && TagsAvoidSpans(t)
    ensures OutputFits(t)
  {
    hide TagsAvoidSpans, Widths, SumOf, CodWidth, CodHeight, Printable, Flat, Bytes, Times, MarginLine, SeparatorLines,
         Body, AllWithin, ColWidths, WellFormed;
    var w := ColWidths(t);
    RowsArePrintable(t);
    WidthsWithinReserved(t);
    LinesFit(t, w);
    if |t.rows| == 0 {
      NothingWithin(CodWidth(t));
    } else {
      MarginLinesWithin(t, t.margins.top);
      BodyWithin(t, |t.rows|);
      SeparatorLinesWithin(t, |t.rows|);
      MarginLinesWithin(t, t.margins.bottom);
      WithinConcat(MarginLines(t, t.margins.top), Body(t, w, |t.rows|), CodWidth(t));
      WithinConcat(MarginLines(t, t.margins.top) + Body(t, w, |t.rows|), SeparatorLines(t, w, |t.rows|), CodWidth(t));
      WithinConcat(MarginLines(t, t.margins.top) + Body(t, w, |t.rows|) + SeparatorLines(t, w, |t.rows|),
                   MarginLines(t, t.margins.bottom), CodWidth(t));
    }
    FlatBound(TableLines(t, w), CodWidth(t));
    TimesAdd(|TableLines(t, w)|, CodHeight(t) - |TableLines(t, w)|, CodWidth(t));
  }

  ghost predicate NoTags(t: Table) {
    forall r: nat, c: nat :: r < |t.rows| ==> TagWidth(t, r, c) == 0
  }

  ghost predicate NoSpans(t: Table) {
    forall r: nat, c: nat :: !IsMaster(t, r, c)
  }

  /** Tables without style tags, and tables with them but without spans. */
  lemma TagsOrSpansFit(t: Table)
    requires WellFormed(t) && (NoTags(t) || NoSpans(t))
    ensures OutputFits(t)
  {
    assert TagsAvoidSpans(t);
    hide *;
    OutputAlwaysFits(t);
  }
}
