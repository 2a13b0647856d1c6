/** A grid leaves nothing open: its lines are determined column by column, and the output has no other lines. */
module GridLines {
  import opened TableModel
  import opened Layout
  import opened Rendering
  import opened Grid
  import opened Separators
  import opened TableText

  // ---- A line of a row ----

  /** Two lines agree in front of the border of column `j`. */
  ghost predicate AgreeUpTo(t: Table, w: seq<nat>, j: nat, v: seq<string>, v': seq<string>)
    requires j <= |w|
  {
    |v| == |v'| && ColumnStart(t, w, j) - 1 <= |v| && forall x :: 0 <= x < ColumnStart(t, w, j) - 1 ==> v[x] == v'[x]
  }

  /** What a grid line shows at a column that starts there: a border and the cell. */
  lemma GridLineAt(t: Table, w: seq<nat>, r: nat, i: nat, j: nat, v: seq<string>)
    requires Printable(t, w, r) && IsGridLine(t, w, r, i, v) && j < |w| && Starts(t.rows[r], j)
    ensures var start := ColumnStart(t, w, j);
            && 0 < start && start + PrintedWidth(t, w, r, j) <= |v|
            && v[start - 1] == (if j == 0 then RowBorder(t, r).ll else RowBorder(t, r).iv)
            && forall y :: 0 <= y < PrintedWidth(t, w, r, j) ==> v[start + y] == PrintedGlyph(t, w, r, i, j, y)
  {
    hide PrintedWidth, PrintedGlyph, RowBorder, Printable;
    PrintableRow(t, w, r);
    ColumnsFillLine(t, w);
    assert ShowsCell(t, w, r, i, j, v, 0);
    if j == 0 {
      assert HasFrame(t, w, r, v);
    }
    forall y | 0 <= y < PrintedWidth(t, w, r, j)
      ensures v[ColumnStart(t, w, j) + y] == PrintedGlyph(t, w, r, i, j, y)
    {
      assert v[ColumnStart(t, w, j) - 0 + y] == PrintedGlyph(t, w, r, i, j, y);
    }
  }

  lemma AgreeStep(t: Table, w: seq<nat>, r: nat, i: nat, j: nat, v: seq<string>, v': seq<string>)
    requires Printable(t, w, r) && IsGridLine(t, w, r, i, v) && IsGridLine(t, w, r, i, v')
    requires j < |w| && Starts(t.rows[r], j) && AgreeUpTo(t, w, j, v, v')
    ensures Next(t.rows[r], j) <= |w| && AgreeUpTo(t, w, Next(t.rows[r], j), v, v')
  {
    hide IsGridLine, PrintedWidth, PrintedGlyph, RowBorder, Printable, ColumnStart, Next, Starts;
    PrintableRow(t, w, r);
    GridLineAt(t, w, r, i, j, v);
    GridLineAt(t, w, r, i, j, v');
    PrintedReach(t, w, r, j);
    var start := ColumnStart(t, w, j);
    forall x | start <= x < start + PrintedWidth(t, w, r, j) ensures v[x] == v'[x] {
      var y: nat := x - start;
      assert v[start + y] == PrintedGlyph(t, w, r, i, j, y) && v'[start + y] == PrintedGlyph(t, w, r, i, j, y);
    }
  }

  lemma {:induction false} AgreeFrom(t: Table, w: seq<nat>, r: nat, i: nat, j: nat, v: seq<string>, v': seq<string>)
    requires Printable(t, w, r) && IsGridLine(t, w, r, i, v) && IsGridLine(t, w, r, i, v')
    requires j <= |w| && Starts(t.rows[r], j) && AgreeUpTo(t, w, j, v, v')
    ensures AgreeUpTo(t, w, |w|, v, v')
    decreases |w| - j
  {
    if j < |w| {
      NextStarts(t, w, r, j);
      hide *;
      AgreeStep(t, w, r, i, j, v, v');
      AgreeFrom(t, w, r, i, Next(t.rows[r], j), v, v');
    }
  }

  lemma NextStarts(t: Table, w: seq<nat>, r: nat, j: nat)
    requires Printable(t, w, r) && Starts(t.rows[r], j) && j < |w|
    ensures r < |t.rows| && Starts(t.rows[r], Next(t.rows[r], j)) && j < Next(t.rows[r], j) <= |w|
  {
    PrintableRow(t, w, r);
    PrintedReach(t, w, r, j);
  }

  /** There is only one line that a grid can have for line `i` of row `r`. */
  lemma GridLineIsUnique(t: Table, w: seq<nat>, r: nat, i: nat, v: seq<string>, v': seq<string>)
    requires Printable(t, w, r) && IsGridLine(t, w, r, i, v) && IsGridLine(t, w, r, i, v')
    ensures v == v'
  {
    GridFrames(t, w, r, i, v, v');
    hide ColumnStart, LineWidth, Printable, IsGridLine, RowBorder, Starts;
    PrintableRow(t, w, r);
    ColumnsFillLine(t, w);
    AgreeFrom(t, w, r, i, 0, v, v');
  }

  lemma GridFrames(t: Table, w: seq<nat>, r: nat, i: nat, v: seq<string>, v': seq<string>)
    requires Printable(t, w, r) && IsGridLine(t, w, r, i, v) && IsGridLine(t, w, r, i, v')
    ensures |w| == Columns(t) && HasFrame(t, w, r, v) && HasFrame(t, w, r, v') && AgreeUpTo(t, w, 0, v, v')
  {
    hide RowBorder, Printable, ShowsCell;
    PrintableRow(t, w, r);
    ColumnsFillLine(t, w);
  }

  // ---- A separator ----

  lemma {:induction false} SeparatorsAgree(t: Table, w: seq<nat>, k: nat, c: nat, v: seq<string>, v': seq<string>)
    requires |w| == Columns(t) && c <= |w|
    requires IsSeparatorLine(t, w, k, v) && IsSeparatorLine(t, w, k, v')
    ensures AgreeUpTo(t, w, c, v, v')
    decreases c
  {
    hide ColumnStart, Junction, GlyphsAt, LineWidth;
    ColumnsFillLine(t, w);
    if c > 0 {
      SeparatorsAgree(t, w, k, c - 1, v, v');
      NextColumn(t, w, c - 1);
      assert ShowsJunction(t, w, k, c - 1, v, 0) && ShowsJunction(t, w, k, c - 1, v', 0);
      var start := ColumnStart(t, w, c - 1);
      forall x | start <= x < start + w[c - 1] ensures v[x] == v'[x] {
        assert v[start - 0..start - 0 + w[c - 1]][x - start] == v'[start - 0..start - 0 + w[c - 1]][x - start];
      }
    }
  }

  /** There is only one line that a grid can have for separator `k`. */
  lemma SeparatorLineIsUnique(t: Table, w: seq<nat>, k: nat, v: seq<string>, v': seq<string>)
    requires |w| == Columns(t) && IsSeparatorLine(t, w, k, v) && IsSeparatorLine(t, w, k, v')
    ensures v == v'
  {
    hide ColumnStart, LineWidth, GlyphsAt, ShowsJunctions;
    ColumnsFillLine(t, w);
    SeparatorsAgree(t, w, k, |w|, v, v');
  }

  // ---- All lines of the output ----

  datatype Place = MarginPlace | SeparatorPlace(k: nat) | RowPlace(r: nat, i: nat)

  /** The line of the output with number `n` is the one that belongs to a place of the table. */
  ghost predicate StandsAt(t: Table, w: seq<nat>, place: Place, n: nat)
    requires Ready(t, w)
  {
    n < |TableLines(t, w)|
    && match place
       case MarginPlace =>
         (n < t.margins.top || n >= |TableLines(t, w)| - t.margins.bottom) && TableLines(t, w)[n] == MarginLine(t)
       case SeparatorPlace(k) =>
         k <= |t.rows| && !Skipped(t, k) && n == SeparatorNumber(t, k) && HasSeparator(t, w, k)
       case RowPlace(r, i) =>
         r < |t.rows| && i < Heights(t)[r] && n == LineNumber(t, r, i) && HasRowLine(t, w, r, i)
  }

  /** The places of a line within the rows and their separators. */
  ghost predicate InBody(t: Table, place: Place, n: nat) {
    match place
    case MarginPlace => false
    case SeparatorPlace(k) => k <= |t.rows| && !Skipped(t, k) && n + t.margins.top == SeparatorNumber(t, k)
    case RowPlace(r, i) => r < |t.rows| && i < Heights(t)[r] && n + t.margins.top == LineNumber(t, r, i)
  }

  lemma {:induction false} PlaceInBody(t: Table, w: seq<nat>, q: nat, n: nat) returns (place: Place)
    requires Ready(t, w) && q <= |t.rows| && n < |Body(t, w, q)|
    ensures InBody(t, place, n)
    decreases q
  {
    hide Heights, Skipped, SeparatorLine, Printable, SumOf, ContentLine;
    assert q > 0;
    BodySize(t, w, q - 1);
    SeparatorCount(t, w, q - 1);
    var before := |Body(t, w, q - 1)|;
    var above := |SeparatorLines(t, w, q - 1)|;
    if n < before {
      place := PlaceInBody(t, w, q - 1, n);
    } else if n < before + above {
      place := SeparatorPlace(q - 1);
    } else {
      place := RowPlace(q - 1, n - before - above);
    }
  }

  /** Every line of the output is a blank line of a margin, a separator or a line of a row, each at its own place. */
  lemma EveryLineHasPlace(t: Table, w: seq<nat>, n: nat) returns (place: Place)
    requires Ready(t, w) && Columns(t) > 0 && n < |TableLines(t, w)|
    ensures StandsAt(t, w, place, n)
  {
    hide Heights, Skipped, Printable, SumOf, Body, SeparatorLine, MarginLine, HasRowLine, HasSeparator, Columns, Ready;
    var rows := |t.rows|;
    var top := t.margins.top;
    BodySize(t, w, rows);
    SeparatorCount(t, w, rows);
    var body := |Body(t, w, rows)|;
    if n < top || n >= top + body + |SeparatorLines(t, w, rows)| {
      place := MarginPlace;
    } else {
      if n < top + body {
        place := PlaceInBody(t, w, rows, n - top);
      } else {
        place := SeparatorPlace(rows);
      }
      PlaceIsOnGrid(t, w, place, n);
    }
  }

  lemma PlaceIsOnGrid(t: Table, w: seq<nat>, place: Place, n: nat)
    requires Ready(t, w) && Columns(t) > 0 && |t.rows| > 0 && n < |TableLines(t, w)| && n >= t.margins.top
    requires InBody(t, place, n - t.margins.top)
    ensures StandsAt(t, w, place, n)
  {
    hide Heights, Skipped, TableLines, Columns, Ready, LineNumber, SeparatorNumber, HasRowLine, HasSeparator;
    match place
    case SeparatorPlace(k) => SeparatorIsGrid(t, w, k);
    case RowPlace(r, i) => RowLineIsGrid(t, w, r, i);
  }
}
