/** The exact size of the output of src/fort.c for every table. */
module ExactSize {
  import opened TableModel
  import opened Layout
  import opened TableSizes
  import opened Units
  import opened Rendering
  import opened Grid
  import opened Separators
  import opened TableText
  import opened BufferBound

  /** The bytes of the first `r` rows and the separators above them. */
  ghost function BodyBytes(t: Table, w: seq<nat>, r: nat): nat
    requires |w| == Columns(t) && r <= |t.rows|
  {
    if r == 0 then 0
    else BodyBytes(t, w, r - 1) + SeparatorBytes(t, w, r - 1) + Times(Heights(t)[r - 1], ContentSize(t, w, r - 1))
  }

  /** The bytes of the output, from the widths, the heights, the margins and the lengths of glyphs and tags alone. */
  ghost function PredictedSize(t: Table): nat {
    if |t.rows| == 0 then 0
    else
      var w := ColWidths(t);
      Times(t.margins.top, CodWidth(t)) + BodyBytes(t, w, |t.rows|) + SeparatorBytes(t, w, |t.rows|)
      + Times(t.margins.bottom, CodWidth(t))
  }

  ghost predicate AllOfSize(lines: seq<seq<Unit>>, n: nat) {
    forall x :: 0 <= x < |lines| ==> |Bytes(lines[x])| == n
  }

  lemma {:induction false} FlatSize(lines: seq<seq<Unit>>, n: nat)
    requires AllOfSize(lines, n)
    ensures |Bytes(Flat(lines))| == Times(|lines|, n)
    decreases |lines|
  {
    TimesAdd(0, 0, n);
    if lines != [] {
      hide Bytes, Times;
      var last := |lines| - 1;
      FlatSize(lines[..last], n);
      Concat(Flat(lines[..last]), lines[last]);
      TimesAdd(last, 1, n);
    } else {
      NothingMeasure();
    }
  }

  lemma FlatBytesConcat(a: seq<seq<Unit>>, b: seq<seq<Unit>>)
    ensures |Bytes(Flat(a + b))| == |Bytes(Flat(a))| + |Bytes(Flat(b))|
  {
    hide Bytes, Flat;
    FlatConcat(a, b);
    Concat(Flat(a), Flat(b));
  }

  lemma MarginBytes(t: Table, n: nat)
    ensures |Bytes(Flat(MarginLines(t, n)))| == Times(n, CodWidth(t))
  {
    hide Bytes, CodWidth, Flat, Times;
    SpacesMeasure(CodWidth(t) - 1);
    GlyphMeasure("\n");
    Concat(Spaces(CodWidth(t) - 1), [LINE_END]);
    FlatSize(MarginLines(t, n), CodWidth(t));
  }

  lemma SeparatorLinesBytes(t: Table, w: seq<nat>, k: nat)
    ensures |Bytes(Flat(SeparatorLines(t, w, k)))| == SeparatorBytes(t, w, k)
  {
    hide Bytes, SeparatorLine, SeparatorSize, Skipped, Flat;
    SeparatorFrame(t, w, k);
    TimesAdd(0, 0, SeparatorSize(t, w, k));
    FlatSize(SeparatorLines(t, w, k), SeparatorSize(t, w, k));
  }

  lemma RowLinesBytes(t: Table, w: seq<nat>, r: nat, n: nat)
    requires Printable(t, w, r)
    ensures |Bytes(Flat(RowLines(t, w, r, n)))| == Times(n, ContentSize(t, w, r))
  {
    assert r < |t.rows| && |w| == Columns(t);
    hide Bytes, ContentLine, ContentSize, Flat, Times, Printable, Columns;
    forall i | 0 <= i < n ensures |Bytes(RowLines(t, w, r, n)[i])| == ContentSize(t, w, r) {
      ContentFrame(t, w, r, i);
    }
    FlatSize(RowLines(t, w, r, n), ContentSize(t, w, r));
  }

  lemma {:induction false} BodyBytesAre(t: Table, w: seq<nat>, r: nat)
    requires Ready(t, w) && r <= |t.rows|
    ensures |Bytes(Flat(Body(t, w, r)))| == BodyBytes(t, w, r)
    decreases r
  {
    hide Bytes, Flat, Times, ContentSize, SeparatorBytes, Heights, Printable, RowLines, SeparatorLines, Columns;
    if r == 0 {
      FlatNothing();
    } else {
      BodyBytesAre(t, w, r - 1);
      SeparatorLinesBytes(t, w, r - 1);
      RowLinesBytes(t, w, r - 1, Heights(t)[r - 1]);
      FlatBytesConcat(Body(t, w, r - 1), SeparatorLines(t, w, r - 1));
      FlatBytesConcat(Body(t, w, r - 1) + SeparatorLines(t, w, r - 1), RowLines(t, w, r - 1, Heights(t)[r - 1]));
    }
  }

  lemma FlatNothing()
    ensures Bytes(Flat([])) == ""
  {
    NothingMeasure();
  }

  /** The prediction is exact, whatever the spans and tags are. */
  lemma OutputSizeIsPredicted(t: Table)
    requires WellFormed(t)
    ensures Ready(t, ColWidths(t)) && OutputSize(t) == PredictedSize(t)
  {
    hide Bytes, Flat, Times, SeparatorBytes, BodyBytes, Body, MarginLines, SeparatorLines, ColWidths, CodWidth, WellFormed,
         Printable;
    var w := ColWidths(t);
    RowsArePrintable(t);
    if |t.rows| == 0 {
      FlatNothing();
    } else {
      var a, b, c, d := MarginLines(t, t.margins.top), Body(t, w, |t.rows|), SeparatorLines(t, w, |t.rows|),
                        MarginLines(t, t.margins.bottom);
      MarginBytes(t, t.margins.top);
      BodyBytesAre(t, w, |t.rows|);
      SeparatorLinesBytes(t, w, |t.rows|);
      MarginBytes(t, t.margins.bottom);
      FlatBytesConcat(a, b);
      FlatBytesConcat(a + b, c);
      FlatBytesConcat(a + b + c, d);
    }
  }

  /** The output fits into the bytes reserved for it exactly when the prediction does. */
  lemma FitsExactly(t: Table)
    requires WellFormed(t)
    ensures OutputFits(t) <==> PredictedSize(t) <= Times(CodHeight(t), CodWidth(t))
  {
    hide *;
    OutputSizeIsPredicted(t);
    FitsBySize(t);
  }

  lemma FitsBySize(t: Table)
    requires Ready(t, ColWidths(t))
    ensures OutputFits(t) <==> OutputSize(t) <= Times(CodHeight(t), CodWidth(t))
  {
    hide Ready, ColWidths, OutputSize, CodHeight, CodWidth, Times;
  }

  // ---- When nothing is printed ----

  lemma TimesZero(a: nat, b: nat)
    requires b >= 1
    ensures Times(a, b) == 0 <==> a == 0
  {
  }

  lemma {:induction false} SilentBody(t: Table, w: seq<nat>, r: nat)
    requires |w| == Columns(t) && r <= |t.rows|
    ensures BodyBytes(t, w, r) == 0 <==> forall k :: 0 <= k < r ==> Skipped(t, k) && Heights(t)[k] == 0
    decreases r
  {
    hide Times, Skipped, Heights, CellsSize, SeparatorCellsSize, GlyphsAt;
    if r > 0 {
      SilentBody(t, w, r - 1);
      assert SeparatorBytes(t, w, r - 1) == 0 <==> Skipped(t, r - 1);
      TimesZero(Heights(t)[r - 1], ContentSize(t, w, r - 1));
    }
  }

  /**
   * A table with rows prints nothing exactly when it has no margins, all of its rows are of height zero, and none of
   * its separators can be seen.
   */
  lemma SilentTable(t: Table)
    requires WellFormed(t) && |t.rows| > 0
    ensures Ready(t, ColWidths(t))
    ensures (OutputSize(t) == 0 <==>
              && t.margins.top == 0 && t.margins.bottom == 0 && Skipped(t, |t.rows|)
              && forall k :: 0 <= k < |t.rows| ==> Skipped(t, k) && Heights(t)[k] == 0)
  {
    hide Times, Skipped, Heights, BodyBytes, CodWidth, OutputSize, WellFormed, Ready, ColWidths, SeparatorCellsSize, GlyphsAt;
    OutputSizeIsPredicted(t);
    SilentBody(t, ColWidths(t), |t.rows|);
    TimesZero(t.margins.top, CodWidth(t));
    TimesZero(t.margins.bottom, CodWidth(t));
  }

  lemma {:induction false} SilentLines(t: Table, w: seq<nat>, r: nat)
    requires Ready(t, w) && r <= |t.rows| && forall k :: 0 <= k < r ==> Skipped(t, k) && Heights(t)[k] == 0
    ensures Body(t, w, r) == []
    decreases r
  {
    hide Skipped, Heights, Printable;
    if r > 0 {
      SilentLines(t, w, r - 1);
    }
  }

  /** When nothing is printed, no printer is called. */
  lemma SilentOutput(t: Table)
    requires WellFormed(t)
    ensures Ready(t, ColWidths(t))
    ensures OutputSize(t) == 0 ==> Flat(TableLines(t, ColWidths(t))) == []
  {
    hide Skipped, Heights, OutputSize, WellFormed, ColWidths, Printable, Body, CodWidth;
    RowsArePrintable(t);
    if |t.rows| > 0 && OutputSize(t) == 0 {
      SilentTable(t);
      SilentLines(t, ColWidths(t), |t.rows|);
      assert TableLines(t, ColWidths(t)) == [];
    }
  }

  function NoProps(row: nat, col: nat): Props {
    Props(0, AlignLeft, 0, 0, 0, 0, 0, "", "", "", "")
  }

  function EmptyBorder(): Border {
    Border("", "", "", "", "", "", "", "", "", "", "", "", "", "", "", "", "", "", "")
  }

  /** One row without cells, in a style without glyphs. */
  function Silent(): Table {
    Table([[]], [], NoProps, _ => false, EmptyBorder(), EmptyBorder(), SeparatorStyle("", "", "", "", "", ""),
          Margins(0, 0, 0, 0))
  }

  lemma SilentHeights()
    ensures Heights(Silent()) == [0]
  {
    assert ColumnsOf(Silent().rows, 0) == 0 && Columns(Silent()) == 0;
    assert MaxHeight(Silent(), 0, 0) == 0;
  }

  /** There is a table with a row for which nothing is printed. */
  lemma SilentExample()
    ensures WellFormed(Silent()) && |Silent().rows| == 1
    ensures Ready(Silent(), ColWidths(Silent())) && OutputSize(Silent()) == 0
  {
    hide OutputSize, Ready, ColWidths, Heights;
    SilentHeights();
    SilentTable(Silent());
  }
}
