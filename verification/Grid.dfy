/** The lines that src/fort.c prints for a row are the lines of a grid. */
module Grid {
  import opened TableModel
  import opened Layout
  import opened Units
  import opened Rendering

  /** Columns start one after the other. */
  lemma StartsGrow(t: Table, w: seq<nat>, j: nat, k: nat)
    requires j <= k <= |w|
    ensures ColumnStart(t, w, j) <= ColumnStart(t, w, k)
    ensures j < k ==> ColumnStart(t, w, j) < ColumnStart(t, w, k)
  {
    assert w[..k] == w[..j] + w[j..k];
    SumOfConcat(w[..j], w[j..k]);
  }

  /** Between a cell and the next one there is only the inside of its span. */
  lemma NoStartInside(row: CellRow, j: nat, k: nat)
    requires Starts(row, j) && j < k < Next(row, j)
    ensures !Starts(row, k)
  {
  }

  /** `v`, placed at `at` in the line, shows the cell printed at column `k` of row `r` and the border before it. */
  ghost predicate ShowsCell(t: Table, w: seq<nat>, r: nat, i: nat, k: nat, v: seq<string>, at: nat)
    requires Printable(t, w, r) && k < |w| && Starts(t.rows[r], k)
  {
    var start := ColumnStart(t, w, k);
    && at <= start && start - at + PrintedWidth(t, w, r, k) <= |v|
    && (forall y :: 0 <= y < PrintedWidth(t, w, r, k) ==> v[start - at + y] == PrintedGlyph(t, w, r, i, k, y))
    && (k > 0 && at < start ==> v[start - at - 1] == RowBorder(t, r).iv)
  }

  /** A part of the line that shows the cell goes on to show it when text is put in front ... */
  lemma ShownBehind(t: Table, w: seq<nat>, r: nat, i: nat, k: nat, a: seq<string>, v: seq<string>, at: nat)
    requires Printable(t, w, r) && k < |w| && Starts(t.rows[r], k)
    requires ShowsCell(t, w, r, i, k, v, at + |a|)
    requires k > 0 && at + |a| == ColumnStart(t, w, k) ==> a != [] && a[|a| - 1] == RowBorder(t, r).iv
    ensures ShowsCell(t, w, r, i, k, a + v, at)
  {
    var n := PrintedWidth(t, w, r, k);
    var start := ColumnStart(t, w, k);
    var u := a + v;
    forall y | 0 <= y < n ensures u[start - at + y] == PrintedGlyph(t, w, r, i, k, y) {
      assert u[start - at + y] == v[start - at - |a| + y];
    }
  }

  /** ... or behind it. */
  lemma ShownBefore(t: Table, w: seq<nat>, r: nat, i: nat, k: nat, v: seq<string>, b: seq<string>, at: nat)
    requires Printable(t, w, r) && k < |w| && Starts(t.rows[r], k) && ShowsCell(t, w, r, i, k, v, at)
    ensures ShowsCell(t, w, r, i, k, v + b, at)
  {
    var n := PrintedWidth(t, w, r, k);
    var start := ColumnStart(t, w, k);
    forall y | 0 <= y < n ensures (v + b)[start - at + y] == PrintedGlyph(t, w, r, i, k, y) {
      assert (v + b)[start - at + y] == v[start - at + y];
    }
  }

  /** The cell at `j` itself, at the front of what is printed from `j` on. */
  lemma ShownFirst(t: Table, w: seq<nat>, r: nat, i: nat, j: nat, v: seq<string>)
    requires Printable(t, w, r) && j < |w| && Starts(t.rows[r], j)
    requires Visible(Printed(t, w, r, i, j)) <= v
    ensures ShowsCell(t, w, r, i, j, v, ColumnStart(t, w, j))
  {
    hide PrintedWidth, PrintedGlyph, ColumnStart, Covers, WellFormedRow, Visible, Printed;
    PrintedMeasure(t, w, r, i, j);
  }

  /** What is printed from column `j` on: the cell there, a border, and what is printed from the next cell on. */
  lemma CellsSplit(t: Table, w: seq<nat>, r: nat, i: nat, j: nat)
    requires Printable(t, w, r) && Starts(t.rows[r], j) && j < |w|
    ensures var next := Next(t.rows[r], j);
            var border := if next < |w| then [RowBorder(t, r).iv] else [];
            && next <= |w|
            && Visible(CellsLine(t, w, r, i, j))
               == Visible(Printed(t, w, r, i, j)) + border + Visible(CellsLine(t, w, r, i, next))
            && ColumnStart(t, w, j) + |Visible(Printed(t, w, r, i, j))| + 1 == ColumnStart(t, w, next)
  {
    assert |w| == Columns(t);
    hide Bytes, Visible, Printed, Between, ColumnStart, PrintedWidth, Covers, WellFormedRow;
    var next := Next(t.rows[r], j);
    var border := Between(t, RowBorder(t, r).iv, next);
    PrintedReach(t, w, r, j);
    PrintedMeasure(t, w, r, i, j);
    BetweenMeasure(t, r, next);
    Concat(Printed(t, w, r, i, j), border);
    Concat(Printed(t, w, r, i, j) + border, CellsLine(t, w, r, i, next));
  }

  /** The cell at `j` with the border behind it, when another cell follows. */
  ghost function Head(t: Table, w: seq<nat>, r: nat, i: nat, j: nat): (v: seq<string>)
    requires Printable(t, w, r) && j < |w| && Starts(t.rows[r], j)
    ensures v != [] && v[|v| - 1] == RowBorder(t, r).iv
  {
    Visible(Printed(t, w, r, i, j)) + [RowBorder(t, r).iv]
  }

  lemma HeadSplit(t: Table, w: seq<nat>, r: nat, i: nat, j: nat)
    requires Printable(t, w, r) && Starts(t.rows[r], j) && j < |w| && Next(t.rows[r], j) < |w|
    ensures var next := Next(t.rows[r], j);
            && Visible(CellsLine(t, w, r, i, j)) == Head(t, w, r, i, j) + Visible(CellsLine(t, w, r, i, next))
            && ColumnStart(t, w, j) + |Head(t, w, r, i, j)| == ColumnStart(t, w, next)
  {
    hide CellsLine, Covers, Printed, Visible, GroupSize, ColumnStart;
    CellsSplit(t, w, r, i, j);
  }

  /** What the rest of the line shows, the line shows from the cell before on. */
  lemma ShownLater(t: Table, w: seq<nat>, r: nat, i: nat, j: nat, k: nat)
    requires Printable(t, w, r) && Starts(t.rows[r], j) && j < |w| && Starts(t.rows[r], k)
    requires Next(t.rows[r], j) <= k < |w|
    requires ShowsCell(t, w, r, i, k, Visible(CellsLine(t, w, r, i, Next(t.rows[r], j))),
                       ColumnStart(t, w, Next(t.rows[r], j)))
    ensures ShowsCell(t, w, r, i, k, Visible(CellsLine(t, w, r, i, j)), ColumnStart(t, w, j))
  {
    hide CellsLine, Covers, Visible, Starts, WellFormedRow, GroupSize, ColumnStart, ShowsCell, PrintedWidth, Head;
    HeadSplit(t, w, r, i, j);
    ShownBehind(t, w, r, i, k, Head(t, w, r, i, j), Visible(CellsLine(t, w, r, i, Next(t.rows[r], j))),
                ColumnStart(t, w, j));
  }

  /** Everything that row `r` prints from column `j` on stands where its column is. */
  lemma {:induction false} CellsAreShown(t: Table, w: seq<nat>, r: nat, i: nat, j: nat, k: nat)
    requires Printable(t, w, r) && Starts(t.rows[r], j) && j <= k < |w| && Starts(t.rows[r], k)
    ensures ShowsCell(t, w, r, i, k, Visible(CellsLine(t, w, r, i, j)), ColumnStart(t, w, j))
    decreases |w| - j
  {
    var next := Next(t.rows[r], j);
    CellsSplit(t, w, r, i, j);
    if k == j {
      hide *;
      ShownFirst(t, w, r, i, j, Visible(CellsLine(t, w, r, i, j)));
    } else {
      if k < next {
        NoStartInside(t.rows[r], j, k);
      }
      hide *;
      CellsAreShown(t, w, r, i, next, k);
      ShownLater(t, w, r, i, j, k);
    }
  }

  /** The outer borders and the margins of a line. */
  ghost predicate HasFrame(t: Table, w: seq<nat>, r: nat, v: seq<string>)
    requires |w| == Columns(t)
  {
    var left, width := t.margins.left, LineWidth(t, w);
    && |v| == width + 1 && v[width] == "\n"
    && (forall x :: 0 <= x < left ==> v[x] == " ")
    && v[left] == RowBorder(t, r).ll
    && v[width - t.margins.right - 1] == RowBorder(t, r).rr
    && (forall x :: width - t.margins.right <= x < width ==> v[x] == " ")
  }

  /**
   * Line `i` of row `r` as a grid prescribes it: every cell that is printed stands at the start of its column with its
   * own glyphs, the borders stand between the cells and at both ends, and the margins are blank.
   */
  ghost predicate IsGridLine(t: Table, w: seq<nat>, r: nat, i: nat, v: seq<string>)
    requires Printable(t, w, r)
  {
    && HasFrame(t, w, r, v)
    && forall k :: 0 <= k < |w| && Starts(t.rows[r], k) ==> ShowsCell(t, w, r, i, k, v, 0)
  }

  /** The columns fill the line between the outer borders. */
  lemma ColumnsFillLine(t: Table, w: seq<nat>)
    requires |w| == Columns(t)
    ensures ColumnStart(t, w, 0) == t.margins.left + 1
    ensures ColumnStart(t, w, |w|) == LineWidth(t, w) - t.margins.right
  {
    assert w[..|w|] == w;
  }

  /** What a content line looks like from outside. */
  lemma ContentFrame(t: Table, w: seq<nat>, r: nat, i: nat)
    requires Printable(t, w, r)
    ensures |Bytes(ContentLine(t, w, r, i))| == ContentSize(t, w, r)
    ensures var inner := Visible(CellsLine(t, w, r, i, 0));
            var b := RowBorder(t, r);
            Visible(ContentLine(t, w, r, i)) == Visible(Spaces(t.margins.left)) + [b.ll] + inner + [b.rr]
                                                + Visible(Spaces(t.margins.right)) + ["\n"]
  {
    hide Bytes, Visible, CellsLine, CellsSize, Printable, Spaces;
    PrintableRow(t, w, r);
    var b := RowBorder(t, r);
    SpacesMeasure(t.margins.left);
    GlyphMeasure(b.ll);
    CellsMeasure(t, w, r, i, 0);
    GlyphMeasure(b.rr);
    SpacesMeasure(t.margins.right);
    GlyphMeasure("\n");
    var us := Spaces(t.margins.left) + [Glyph(b.ll)];
    var us' := us + CellsLine(t, w, r, i, 0);
    Concat(Spaces(t.margins.left), [Glyph(b.ll)]);
    Concat(us, CellsLine(t, w, r, i, 0));
    Concat(us', [Glyph(b.rr)]);
    Concat(us' + [Glyph(b.rr)], Spaces(t.margins.right));
    Concat(us' + [Glyph(b.rr)] + Spaces(t.margins.right), [LINE_END]);
  }

  /** Each cell stands in its column in the whole line, too. */
  lemma LineShowsCell(t: Table, w: seq<nat>, r: nat, i: nat, k: nat)
    requires Printable(t, w, r) && k < |w| && Starts(t.rows[r], k) && Starts(t.rows[r], 0)
    ensures ShowsCell(t, w, r, i, k, Visible(ContentLine(t, w, r, i)), 0)
  {
    ContentFrame(t, w, r, i);
    SpacesMeasure(t.margins.left);
    ColumnsFillLine(t, w);
    StartsGrow(t, w, 0, k);
    CellsAreShown(t, w, r, i, 0, k);
    hide *;
    var b := RowBorder(t, r);
    var a := Visible(Spaces(t.margins.left)) + [b.ll];
    var inner := Visible(CellsLine(t, w, r, i, 0));
    var right := Visible(Spaces(t.margins.right));
    ShownBehind(t, w, r, i, k, a, inner, 0);
    ShownBefore(t, w, r, i, k, a + inner, [b.rr], 0);
    ShownBefore(t, w, r, i, k, a + inner + [b.rr], right, 0);
    ShownBefore(t, w, r, i, k, a + inner + [b.rr] + right, ["\n"], 0);
  }

  lemma FrameAround(a: seq<string>, l: string, inner: seq<string>, r: string, b: seq<string>, n: nat, m: nat)
    requires Blank(a, n) && Blank(b, m)
    ensures var v := a + [l] + inner + [r] + b + ["\n"];
            && |v| == n + |inner| + m + 3 && v[|v| - 1] == "\n"
            && (forall x :: 0 <= x < n ==> v[x] == " ")
            && v[n] == l && v[n + 1 + |inner|] == r
            && (forall x :: n + |inner| + 2 <= x < |v| - 1 ==> v[x] == " ")
  {
  }

  /** The parts of a line, when the inner part fills the columns, make up a line with its frame. */
  lemma PartsHaveFrame(t: Table, w: seq<nat>, r: nat, a: seq<string>, inner: seq<string>, b: seq<string>)
    requires |w| == Columns(t) && Blank(a, t.margins.left) && Blank(b, t.margins.right)
    requires t.margins.left + 1 + |inner| + 1 + t.margins.right == LineWidth(t, w)
    ensures HasFrame(t, w, r, a + [RowBorder(t, r).ll] + inner + [RowBorder(t, r).rr] + b + ["\n"])
  {
    hide LineWidth, Blank;
    FrameAround(a, RowBorder(t, r).ll, inner, RowBorder(t, r).rr, b, t.margins.left, t.margins.right);
  }

  lemma LineEnds(t: Table, w: seq<nat>, r: nat, i: nat)
    requires Printable(t, w, r) && |w| > 0 && Starts(t.rows[r], 0)
    ensures |w| == Columns(t) && HasFrame(t, w, r, Visible(ContentLine(t, w, r, i)))
  {
    hide *;
    PrintableRow(t, w, r);
    ContentFrame(t, w, r, i);
    SpacesMeasure(t.margins.left);
    SpacesMeasure(t.margins.right);
    ColumnsFillLine(t, w);
    CellsMeasure(t, w, r, i, 0);
    PartsHaveFrame(t, w, r, Visible(Spaces(t.margins.left)), Visible(CellsLine(t, w, r, i, 0)),
                   Visible(Spaces(t.margins.right)));
  }

  lemma PrintableRow(t: Table, w: seq<nat>, r: nat)
    requires Printable(t, w, r)
    ensures r < |t.rows| && |w| == Columns(t) && Starts(t.rows[r], 0)
  {
  }

  /** The printed lines of a row are the lines of the grid. */
  lemma ContentLineIsGridLine(t: Table, w: seq<nat>, r: nat, i: nat)
    requires Printable(t, w, r) && |w| > 0
    ensures IsGridLine(t, w, r, i, Visible(ContentLine(t, w, r, i)))
  {
    hide HasFrame, ShowsCell, Starts, Visible, ContentLine, Printable;
    PrintableRow(t, w, r);
    LineEnds(t, w, r, i);
    forall k | 0 <= k < |w| && Starts(t.rows[r], k)
      ensures ShowsCell(t, w, r, i, k, Visible(ContentLine(t, w, r, i)), 0)
    {
      LineShowsCell(t, w, r, i, k);
    }
  }
}
