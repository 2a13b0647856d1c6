/** The lines that src/fort.c prints above, between and below the rows. */
module Separators {
  import opened TableModel
  import opened Layout
  import opened TableSizes
  import opened Units
  import opened Rendering
  import opened Grid

  /** The glyphs of one separator, named as in the diagram of src/fort.c:5630-5635. */
  datatype SeparatorGlyphs = SeparatorGlyphs(l: string, i: string, iv: string, r: string,
                                             it: string, ib: string, ii: string)

  /** The separator above row `k`, or below the last row, lies beside a header row. */
  predicate BesideHeader(t: Table, k: nat) {
    (k > 0 && t.isHeader(k - 1)) || (k < |t.rows| && t.isHeader(k))
  }

  function SwitchedOn(t: Table, k: nat): bool {
    k < |t.separators| && t.separators[k]
  }

  function GlyphsAt(t: Table, k: nat): SeparatorGlyphs {
    var b := if BesideHeader(t, k) then t.headerBorder else t.border;
    var s := t.separatorStyle;
    if SwitchedOn(t, k) then
      SeparatorGlyphs(if k == |t.rows| then b.bl else if k == 0 then b.tl else s.lh, s.ih, s.ii,
                      if k == |t.rows| then b.br else if k == 0 then b.tr else s.rh, s.ti, s.bi, s.ih)
    else if k == 0 then SeparatorGlyphs(b.tl, b.tt, b.tv, b.tr, b.tv, b.tv, b.tt)
    else if k == |t.rows| then SeparatorGlyphs(b.bl, b.bb, b.bv, b.br, b.bv, b.bv, b.bb)
    else SeparatorGlyphs(b.lh, b.ih, b.ii, b.rh, b.ti, b.bi, b.ih)
  }

  /** The kind of a cell as a separator sees it: outside of the table everything belongs to one span. */
  function KindAt(t: Table, row: int, col: nat): CellKind {
    if row < 0 || row >= |t.rows| then GroupSlave
    else if col < |t.rows[row]| then t.rows[row][col].kind
    else CommonCell
  }

  /** The glyph in front of column `col`: it depends on which of the rows above and below have a border there. */
  function Junction(t: Table, k: nat, col: nat): string {
    var g := GlyphsAt(t, k);
    var open, open' := KindAt(t, k - 1, col).GroupSlave?, KindAt(t, k, col).GroupSlave?;
    if col == 0 then g.l
    else if !open && !open' then g.iv
    else if open && open' then g.ii
    else if open then g.it
    else g.ib
  }

  predicate IsPrint(c: char) {
    ' ' <= c <= '~'
  }

  /** A glyph that is not to be seen. */
  predicate Unseen(glyph: string) {
    |glyph| == 0 || (|glyph| == 1 && !IsPrint(glyph[0]))
  }

  /** A separator is left out when none of its glyphs can be seen. */
  predicate Skipped(t: Table, k: nat) {
    var g := GlyphsAt(t, k);
    Unseen(g.l) && Unseen(g.i) && Unseen(g.iv) && Unseen(g.r)
  }

  /** The separator up to column `c`. */
  ghost function SeparatorCells(t: Table, w: seq<nat>, k: nat, c: nat): seq<Unit>
    requires c <= |w|
  {
    if c == 0 then []
    else SeparatorCells(t, w, k, c - 1) + [Glyph(Junction(t, k, c - 1))] + Copies(w[c - 1], GlyphsAt(t, k).i)
  }

  ghost function SeparatorLine(t: Table, w: seq<nat>, k: nat): seq<Unit> {
    Spaces(t.margins.left) + SeparatorCells(t, w, k, |w|) + [Glyph(GlyphsAt(t, k).r)] + Spaces(t.margins.right) + [LINE_END]
  }

  /** The bytes of the separator up to column `c`. */
  ghost function SeparatorCellsSize(t: Table, w: seq<nat>, k: nat, c: nat): nat
    requires c <= |w|
  {
    if c == 0 then 0
    else SeparatorCellsSize(t, w, k, c - 1) + |Junction(t, k, c - 1)| + Times(w[c - 1], |GlyphsAt(t, k).i|)
  }

  ghost function SeparatorSize(t: Table, w: seq<nat>, k: nat): nat {
    t.margins.left + SeparatorCellsSize(t, w, k, |w|) + |GlyphsAt(t, k).r| + t.margins.right + 1
  }

  // ---- The separator as a line of the grid ----

  /** A glyph repeated over the width of a column. */
  function Rule(glyph: string, n: nat): seq<string> {
    seq(n, _ => glyph)
  }

  /** `v`, placed at `at` in the line, shows the junction in front of column `j` and the line glyph all over it. */
  ghost predicate ShowsJunction(t: Table, w: seq<nat>, k: nat, j: nat, v: seq<string>, at: nat)
    requires j < |w|
  {
    var start := ColumnStart(t, w, j);
    && at < start && start + w[j] <= at + |v|
    && v[start - 1 - at] == Junction(t, k, j)
    && v[start - at..start - at + w[j]] == Rule(GlyphsAt(t, k).i, w[j])
  }

  ghost predicate ShowsJunctions(t: Table, w: seq<nat>, k: nat, c: nat, v: seq<string>, at: nat)
    requires c <= |w|
  {
    forall j :: 0 <= j < c ==> ShowsJunction(t, w, k, j, v, at)
  }

  lemma JunctionInside(t: Table, w: seq<nat>, k: nat, j: nat, a: seq<string>, v: seq<string>, b: seq<string>, at: nat)
    requires j < |w| && ShowsJunction(t, w, k, j, v, at + |a|)
    ensures ShowsJunction(t, w, k, j, a + v + b, at)
  {
    hide ColumnStart, Junction, GlyphsAt, Rule;
    var u := a + v + b;
    var start := ColumnStart(t, w, j);
    assert u[start - at..start - at + w[j]] == v[start - at - |a|..start - at - |a| + w[j]];
  }

  lemma NextColumn(t: Table, w: seq<nat>, c: nat)
    requires c < |w|
    ensures ColumnStart(t, w, c + 1) == ColumnStart(t, w, c) + w[c] + 1
  {
    assert w[..c + 1] == w[..c] + [w[c]];
    SumOfLast(w[..c], w[c]);
  }

  lemma {:induction false} SeparatorCellsMeasure(t: Table, w: seq<nat>, k: nat, c: nat)
    requires c <= |w|
    ensures var us := SeparatorCells(t, w, k, c);
            && |Bytes(us)| == SeparatorCellsSize(t, w, k, c)
            && t.margins.left + |Visible(us)| + 1 == ColumnStart(t, w, c)
            && ShowsJunctions(t, w, k, c, Visible(us), t.margins.left)
    decreases c
  {
    hide Bytes, Visible, Junction, GlyphsAt, ColumnStart, ShowsJunctions;
    if c == 0 {
      NothingMeasure();
      ColumnsStart(t, w);
      assert ShowsJunctions(t, w, k, 0, [], t.margins.left) by {
        NoJunctions(t, w, k);
      }
    } else {
      var us := SeparatorCells(t, w, k, c - 1);
      var i := GlyphsAt(t, k).i;
      SeparatorCellsMeasure(t, w, k, c - 1);
      NextColumn(t, w, c - 1);
      GlyphMeasure(Junction(t, k, c - 1));
      CopiesMeasure(w[c - 1], i);
      Concat(us, [Glyph(Junction(t, k, c - 1))]);
      Concat(us + [Glyph(Junction(t, k, c - 1))], Copies(w[c - 1], i));
      OneMoreJunction(t, w, k, c - 1, Visible(us), Visible(Copies(w[c - 1], i)));
    }
  }

  lemma NoJunctions(t: Table, w: seq<nat>, k: nat)
    ensures ShowsJunctions(t, w, k, 0, [], t.margins.left)
  {
  }

  lemma ColumnsStart(t: Table, w: seq<nat>)
    ensures ColumnStart(t, w, 0) == t.margins.left + 1
  {
  }

  lemma NewJunction(t: Table, w: seq<nat>, k: nat, c: nat, v: seq<string>, line: seq<string>)
    requires c < |w| && t.margins.left + |v| + 1 == ColumnStart(t, w, c) && line == Rule(GlyphsAt(t, k).i, w[c])
    ensures ShowsJunction(t, w, k, c, v + [Junction(t, k, c)] + line, t.margins.left)
  {
    hide Junction, GlyphsAt, ColumnStart;
    var u := v + [Junction(t, k, c)] + line;
    assert u[|v|] == Junction(t, k, c) && u[|v| + 1..|v| + 1 + w[c]] == line;
  }

  /** What was shown goes on to be shown when text is put behind it. */
  lemma JunctionBefore(t: Table, w: seq<nat>, k: nat, j: nat, v: seq<string>, b: seq<string>, at: nat)
    requires j < |w| && ShowsJunction(t, w, k, j, v, at)
    ensures ShowsJunction(t, w, k, j, v + b, at)
  {
    hide ColumnStart, Junction, GlyphsAt, Rule;
    var start := ColumnStart(t, w, j);
    assert (v + b)[start - at..start - at + w[j]] == v[start - at..start - at + w[j]];
  }

  lemma OneMoreJunction(t: Table, w: seq<nat>, k: nat, c: nat, v: seq<string>, line: seq<string>)
    requires c < |w| && t.margins.left + |v| + 1 == ColumnStart(t, w, c)
    requires ShowsJunctions(t, w, k, c, v, t.margins.left) && line == Rule(GlyphsAt(t, k).i, w[c])
    ensures ShowsJunctions(t, w, k, c + 1, v + [Junction(t, k, c)] + line, t.margins.left)
  {
    hide ShowsJunction, ColumnStart, Junction, GlyphsAt, Rule;
    NewJunction(t, w, k, c, v, line);
    forall j | 0 <= j < c ensures ShowsJunction(t, w, k, j, v + [Junction(t, k, c)] + line, t.margins.left) {
      JunctionBefore(t, w, k, j, v, [Junction(t, k, c)], t.margins.left);
      JunctionBefore(t, w, k, j, v + [Junction(t, k, c)], line, t.margins.left);
    }
  }

  /** A separator as a line of the same grid. */
  ghost predicate IsSeparatorLine(t: Table, w: seq<nat>, k: nat, v: seq<string>)
    requires |w| == Columns(t)
  {
    var width := LineWidth(t, w);
    && |v| == width + 1 && v[width] == "\n"
    && (forall x :: 0 <= x < t.margins.left ==> v[x] == " ")
    && ShowsJunctions(t, w, k, |w|, v, 0)
    && v[width - t.margins.right - 1] == GlyphsAt(t, k).r
    && (forall x :: width - t.margins.right <= x < width ==> v[x] == " ")
  }

  lemma SeparatorFrame(t: Table, w: seq<nat>, k: nat)
    ensures |Bytes(SeparatorLine(t, w, k))| == SeparatorSize(t, w, k)
    ensures Visible(SeparatorLine(t, w, k))
            == Visible(Spaces(t.margins.left)) + Visible(SeparatorCells(t, w, k, |w|)) + [GlyphsAt(t, k).r]
               + Visible(Spaces(t.margins.right)) + ["\n"]
  {
    hide Bytes, Visible, SeparatorCells, SeparatorCellsSize, GlyphsAt, Spaces, ShowsJunctions;
    SpacesMeasure(t.margins.left);
    SeparatorCellsMeasure(t, w, k, |w|);
    GlyphMeasure(GlyphsAt(t, k).r);
    SpacesMeasure(t.margins.right);
    GlyphMeasure("\n");
    var us := Spaces(t.margins.left) + SeparatorCells(t, w, k, |w|);
    var us' := us + [Glyph(GlyphsAt(t, k).r)];
    Concat(Spaces(t.margins.left), SeparatorCells(t, w, k, |w|));
    Concat(us, [Glyph(GlyphsAt(t, k).r)]);
    Concat(us', Spaces(t.margins.right));
    Concat(us' + Spaces(t.margins.right), [LINE_END]);
  }

  lemma JunctionsInside(t: Table, w: seq<nat>, k: nat, a: seq<string>, v: seq<string>, b: seq<string>)
    requires |a| == t.margins.left && ShowsJunctions(t, w, k, |w|, v, |a|)
    ensures ShowsJunctions(t, w, k, |w|, a + v + b, 0)
  {
    hide ShowsJunction;
    forall j | 0 <= j < |w| ensures ShowsJunction(t, w, k, j, a + v + b, 0) {
      JunctionInside(t, w, k, j, a, v, b, 0);
    }
  }

  /** The printed separators are lines of the grid that the cells stand in. */
  lemma SeparatorIsGridLine(t: Table, w: seq<nat>, k: nat)
    requires |w| == Columns(t) && |w| > 0
    ensures IsSeparatorLine(t, w, k, Visible(SeparatorLine(t, w, k)))
  {
    hide Bytes, Visible, SeparatorLine, SeparatorCells, SeparatorCellsSize, SeparatorSize, GlyphsAt, Spaces, ShowsJunctions,
         LineWidth, ColumnStart, SumOf, Blank;
    var a, inner, b := Visible(Spaces(t.margins.left)), Visible(SeparatorCells(t, w, k, |w|)), Visible(Spaces(t.margins.right));
    var v := Visible(SeparatorLine(t, w, k));
    SeparatorFrame(t, w, k);
    SpacesMeasure(t.margins.left);
    SpacesMeasure(t.margins.right);
    ColumnsFillLine(t, w);
    SeparatorCellsMeasure(t, w, k, |w|);
    JunctionsInside(t, w, k, a, inner, [GlyphsAt(t, k).r] + b + ["\n"]);
    SeparatorEnds(a, inner, GlyphsAt(t, k).r, b, t.margins.left, t.margins.right);
    assert v == a + inner + ([GlyphsAt(t, k).r] + b + ["\n"]);
  }

  lemma SeparatorEnds(a: seq<string>, inner: seq<string>, r: string, b: seq<string>, n: nat, m: nat)
    requires Blank(a, n) && Blank(b, m)
    ensures var v := a + inner + [r] + b + ["\n"];
            && |v| == n + |inner| + m + 2 && v[|v| - 1] == "\n"
            && (forall x :: 0 <= x < n ==> v[x] == " ")
            && v[n + |inner|] == r
            && (forall x :: n + |inner| + 1 <= x < |v| - 1 ==> v[x] == " ")
  {
  }

  /** A row shows a border in front of column `c`: a cell is printed there. */
  ghost predicate HasBorder(t: Table, row: int, c: nat) {
    0 <= row < |t.rows| && Starts(t.rows[row], c)
  }

  /** The junction joins exactly those vertical borders that the rows above and below show in front of the column. */
  lemma JunctionJoinsBorders(t: Table, k: nat, c: nat)
    requires k <= |t.rows| && c > 0
    ensures var g := GlyphsAt(t, k);
            Junction(t, k, c) == match (HasBorder(t, k - 1, c), HasBorder(t, k, c))
                                 case (true, true) => g.iv
                                 case (false, true) => g.it
                                 case (true, false) => g.ib
                                 case (false, false) => g.ii
  {
    hide GlyphsAt;
  }
}
