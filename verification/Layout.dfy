/** The column widths and row heights of a table: `table_rows_and_cols_geometry` and `table_geometry` of src/fort.c. */
module Layout {
  import opened TableModel

  /** The visible widths, or the widths with room for the style tags. */
  datatype Geometry = VisibleGeometry | InternalGeometry

  // ---- Sharing out the missing width of a span ----

  /** The part of `d` units that column `k` of `n` gets when they are dealt out one by one from the left. */
  function Share(d: nat, n: nat, k: nat): (s: nat)
    requires k < n
  {
    d / n + if k < d % n then 1 else 0
  }

  /** The column whose turn it is after `d` units. */
  function Turn(d: nat, n: nat): (k: nat)
    requires n > 0
    ensures k < n
  {
    d % n
  }

  lemma TurnStep(d: nat, n: nat)
    requires n > 0
    ensures Turn(d + 1, n) == (if Turn(d, n) + 1 == n then 0 else Turn(d, n) + 1) && Turn(0, n) == 0
  {
    DivModStep(d, n);
    DivModIs(0, n, 0, 0);
  }

  lemma DivModStep(d: nat, n: nat)
    requires n > 0
    ensures (d + 1) % n == (if d % n + 1 == n then 0 else d % n + 1)
    ensures (d + 1) / n == (if d % n + 1 == n then d / n + 1 else d / n)
  {
    var q, m := d / n, d % n;
    assert d == q * n + m;
    if m + 1 == n {
      assert d + 1 == (q + 1) * n;
      DivModIs(d + 1, n, q + 1, 0);
    } else {
      DivModIs(d + 1, n, q, m + 1);
    }
  }

  lemma MulAtLeast(a: nat, n: nat)
    requires a >= 1
    ensures a * n >= n
  {
    assert a * n == (a - 1) * n + n;
  }

  lemma DivModIs(d: nat, n: nat, q: nat, m: nat)
    requires m < n && d == q * n + m
    ensures d / n == q && d % n == m
  {
    var q', m' := d / n, d % n;
    assert d == q' * n + m';
    assert (q - q') * n == q * n - q' * n && (q' - q) * n == q' * n - q * n;
    if q > q' {
      MulAtLeast(q - q', n);
    } else if q < q' {
      MulAtLeast(q' - q, n);
    }
  }

  /** The next unit goes to the column whose turn it is. */
  lemma ShareStep(d: nat, n: nat, k: nat)
    requires k < n
    ensures Share(d + 1, n, k) == Share(d, n, k) + if k == Turn(d, n) then 1 else 0
  {
    DivModStep(d, n);
  }

  ghost function SumOf(w: seq<nat>): nat {
    if w == [] then 0 else w[0] + SumOf(w[1..])
  }

  lemma {:induction false} SumOfConcat(a: seq<nat>, b: seq<nat>)
    ensures SumOf(a + b) == SumOf(a) + SumOf(b)
  {
    if a == [] {
      assert a + b == b;
    } else {
      SumOfConcat(a[1..], b);
      assert (a + b)[1..] == a[1..] + b;
    }
  }

  lemma SumOfLast(a: seq<nat>, x: nat)
    ensures SumOf(a + [x]) == SumOf(a) + x
  {
    SumOfConcat(a, [x]);
    assert SumOf([x]) == x + SumOf([x][1..]);
  }

  /** Pointwise larger sequences have larger sums. */
  lemma {:induction false} SumOfMonotone(a: seq<nat>, b: seq<nat>)
    requires |a| == |b| && forall i :: 0 <= i < |a| ==> a[i] <= b[i]
    ensures SumOf(a) <= SumOf(b)
  {
    if a != [] {
      forall i | 0 <= i < |a[1..]| ensures a[1..][i] <= b[1..][i] {
        assert a[1..][i] == a[i + 1] && b[1..][i] == b[i + 1];
      }
      SumOfMonotone(a[1..], b[1..]);
    }
  }

  /** The width of the `n` columns from `col` on, with the borders between them. */
  ghost function GroupWidth(w: seq<nat>, col: nat, n: nat): nat
    requires n > 0 && col + n <= |w|
  {
    SumOf(w[col..col + n]) + n - 1
  }

  /** The widths after a span of `n` columns was given the room that it lacks. */
  ghost function Widen(w: seq<nat>, col: nat, n: nat, hint: nat): (v: seq<nat>)
    requires n > 0 && col + n <= |w|
    ensures |v| == |w|
  {
    Deal(w, col, n, if hint > GroupWidth(w, col, n) then hint - GroupWidth(w, col, n) else 0)
  }

  ghost function Deal(w: seq<nat>, col: nat, n: nat, d: nat): (v: seq<nat>)
    requires n > 0 && col + n <= |w|
    ensures |v| == |w|
  {
    seq(|w|, i requires 0 <= i < |w| => w[i] + ShareAt(col, n, d, i))
  }

  ghost function ShareAt(col: nat, n: nat, d: nat, i: nat): nat
    requires n > 0
  {
    if col <= i < col + n then Share(d, n, i - col) else 0
  }

  lemma DealNothing(w: seq<nat>, col: nat, n: nat)
    requires n > 0 && col + n <= |w|
    ensures Deal(w, col, n, 0) == w
  {
    DivModIs(0, n, 0, 0);
  }

  lemma DealOneMore(w: seq<nat>, col: nat, n: nat, d: nat)
    requires n > 0 && col + n <= |w|
    ensures var v := Deal(w, col, n, d);
            Deal(w, col, n, d + 1) == v[col + Turn(d, n) := v[col + Turn(d, n)] + 1]
  {
    hide Share, Turn;
    var v := Deal(w, col, n, d);
    var u := Deal(w, col, n, d + 1);
    forall i | 0 <= i < |w| ensures u[i] == v[col + Turn(d, n) := v[col + Turn(d, n)] + 1][i] {
      if col <= i < col + n {
        ShareStep(d, n, i - col);
      }
    }
  }

  lemma SumOfBump(w: seq<nat>, k: nat)
    requires k < |w|
    ensures SumOf(w[k := w[k] + 1]) == SumOf(w) + 1
    decreases |w|
  {
    if k == 0 {
      assert w[0 := w[0] + 1][1..] == w[1..];
    } else {
      assert w[k := w[k] + 1][1..] == w[1..][k - 1 := w[1..][k - 1] + 1];
      SumOfBump(w[1..], k - 1);
    }
  }

  /** Dealing out `d` units makes the span exactly `d` wider. */
  lemma {:induction false} DealWidens(w: seq<nat>, col: nat, n: nat, d: nat)
    requires n > 0 && col + n <= |w|
    ensures GroupWidth(Deal(w, col, n, d), col, n) == GroupWidth(w, col, n) + d
    decreases d
  {
    hide *;
    if d == 0 {
      DealNothing(w, col, n);
    } else {
      DealWidens(w, col, n, d - 1);
      DealOneMore(w, col, n, d - 1);
      WiderByOne(Deal(w, col, n, d - 1), col, n, Turn(d - 1, n));
    }
  }

  lemma WiderByOne(v: seq<nat>, col: nat, n: nat, k: nat)
    requires k < n && col + n <= |v|
    ensures GroupWidth(v[col + k := v[col + k] + 1], col, n) == GroupWidth(v, col, n) + 1
  {
    hide SumOf;
    assert v[col + k := v[col + k] + 1][col..col + n] == v[col..col + n][k := v[col..col + n][k] + 1];
    SumOfBump(v[col..col + n], k);
  }

  /**
   * One span: afterwards it is as wide as it was or as its text needs, whichever is more; nothing outside of it
   * changed; no column shrank; and the increments differ by at most one, the earlier columns first.
   */
  lemma SpanIsWidened(w: seq<nat>, col: nat, n: nat, hint: nat)
    requires n > 0 && col + n <= |w|
    ensures var v := Widen(w, col, n, hint);
            && GroupWidth(v, col, n) == Max(GroupWidth(w, col, n), hint)
            && (forall i :: 0 <= i < |w| ==> w[i] <= v[i])
            && (forall i :: 0 <= i < |w| && !(col <= i < col + n) ==> v[i] == w[i])
            && (forall i, j :: col <= i < j < col + n ==> v[j] - w[j] <= v[i] - w[i] <= v[j] - w[j] + 1)
  {
    hide GroupWidth;
    DealWidens(w, col, n, if hint > GroupWidth(w, col, n) then hint - GroupWidth(w, col, n) else 0);
  }

  lemma GroupWidthGrows(w: seq<nat>, col: nat, n: nat)
    requires col + n < |w|
    ensures GroupWidth(w, col, 1) == w[col]
    ensures n > 0 ==> GroupWidth(w, col, n + 1) == GroupWidth(w, col, n) + w[col + n] + 1
  {
    assert w[col..col + 1] == [] + [w[col]];
    SumOfLast([], w[col]);
    assert w[col..col + n + 1] == w[col..col + n] + [w[col + n]];
    SumOfLast(w[col..col + n], w[col + n]);
  }

  /** The loop that adds up the widths of a span and the borders inside it. */
  method SumGroup(w: seq<nat>, col: nat, slaveCol: nat) returns (groupWidth: nat)
    requires col < slaveCol <= |w|
    ensures groupWidth == GroupWidth(w, col, slaveCol - col)
  {
    hide GroupWidth;
    GroupWidthGrows(w, col, 0);
    groupWidth := w[col];
    for i := col + 1 to slaveCol
      invariant groupWidth == GroupWidth(w, col, i - col)
    {
      GroupWidthGrows(w, col, i - col);
      groupWidth := groupWidth + w[i] + 1;
    }
  }

  /** The loops of src/fort.c:7097-7112 that widen one span, a unit at a time from its first column on. */
  method WidenGroup(w: array<nat>, col: nat, slaveCol: nat, hintWidth: nat)
    requires col < slaveCol <= w.Length
    modifies w
    ensures w[..] == Widen(old(w[..]), col, slaveCol - col, hintWidth)
  {
    hide GroupWidth, Deal, Turn;
    ghost var w0 := w[..];
    ghost var n := slaveCol - col;
    var curAdjCol := col;
    var groupWidth := SumGroup(w[..], col, slaveCol);
    ghost var dealt := 0;
    ghost var gw := groupWidth;
    DealNothing(w0, col, n);
    TurnStep(0, n);
    while true
      invariant dealt <= if hintWidth > gw then hintWidth - gw else 0
      invariant groupWidth == gw + dealt
      invariant curAdjCol == col + Turn(dealt, n)
      invariant w[..] == Deal(w0, col, n, dealt)
      decreases hintWidth - groupWidth
    {
      if groupWidth >= hintWidth {
        break;
      }
      DealOneMore(w0, col, n, dealt);
      TurnStep(dealt, n);
      w[curAdjCol] := w[curAdjCol] + 1;
      groupWidth := groupWidth + 1;
      curAdjCol := curAdjCol + 1;
      if curAdjCol == slaveCol {
        curAdjCol := col;
      }
      dealt := dealt + 1;
    }
  }

  // ---- What the cells ask for ----

  /** The number of columns of the longest of the first `n` rows. */
  ghost function ColumnsOf(rows: seq<CellRow>, n: nat): (cols: nat)
    requires n <= |rows|
    ensures forall r :: 0 <= r < n ==> |rows[r]| <= cols
    ensures cols > 0 ==> exists r :: 0 <= r < n && |rows[r]| == cols
  {
    if n == 0 then 0 else Max(|rows[n - 1]|, ColumnsOf(rows, n - 1))
  }

  ghost function Columns(t: Table): (cols: nat)
    ensures forall r :: 0 <= r < |t.rows| ==> |t.rows[r]| <= cols
  {
    ColumnsOf(t.rows, |t.rows|)
  }

  /** The visible width that the common cell at a place asks for; other cells ask for nothing here. */
  ghost function CommonWidth(t: Table, row: nat, col: nat): nat
    requires row < |t.rows|
  {
    if col < |t.rows[row]| && t.rows[row][col].kind.CommonCell?
      then VisWidth(t.rows[row][col], t.props(row, col)) else 0
  }

  /** The length of the style tags of the cell at a place. */
  ghost function TagWidth(t: Table, row: nat, col: nat): nat
    requires row < |t.rows|
  {
    if col < |t.rows[row]| then InvisWidth(t.props(row, col)) else 0
  }

  /** The height that the cell at a place asks for; a missing cell still has the height of an empty string. */
  ghost function HeightAt(t: Table, row: nat, col: nat): nat
    requires row < |t.rows|
  {
    var p := t.props(row, col);
    if col < |t.rows[row]| then HintHeight(t.rows[row][col], p)
    else if p.emptyStrHeight > 0 then p.emptyStrHeight + p.paddingTop + p.paddingBottom else 0
  }

  ghost function MaxCommon(t: Table, col: nat, n: nat): nat
    requires n <= |t.rows|
  {
    if n == 0 then 0 else Max(MaxCommon(t, col, n - 1), CommonWidth(t, n - 1, col))
  }

  ghost function MaxTag(t: Table, col: nat, n: nat): nat
    requires n <= |t.rows|
  {
    if n == 0 then 0 else Max(MaxTag(t, col, n - 1), TagWidth(t, n - 1, col))
  }

  ghost function MaxHeight(t: Table, row: nat, n: nat): nat
    requires row < |t.rows|
  {
    if n == 0 then 0 else Max(MaxHeight(t, row, n - 1), HeightAt(t, row, n - 1))
  }

  /** The width of a column without spans is the largest that one of its common cells asks for. */
  lemma {:induction false} MaxCommonIsLargest(t: Table, col: nat, n: nat)
    requires n <= |t.rows|
    ensures forall r :: 0 <= r < n ==> CommonWidth(t, r, col) <= MaxCommon(t, col, n)
    ensures MaxCommon(t, col, n) > 0 ==> exists r :: 0 <= r < n && CommonWidth(t, r, col) == MaxCommon(t, col, n)
  {
    hide CommonWidth;
    if n > 0 {
      MaxCommonIsLargest(t, col, n - 1);
      assert CommonWidth(t, n - 1, col) <= MaxCommon(t, col, n);
    }
  }

  lemma {:induction false} MaxTagIsLargest(t: Table, col: nat, n: nat)
    requires n <= |t.rows|
    ensures forall r :: 0 <= r < n ==> TagWidth(t, r, col) <= MaxTag(t, col, n)
    ensures MaxTag(t, col, n) > 0 ==> exists r :: 0 <= r < n && TagWidth(t, r, col) == MaxTag(t, col, n)
  {
    hide TagWidth;
    if n > 0 {
      MaxTagIsLargest(t, col, n - 1);
      assert TagWidth(t, n - 1, col) <= MaxTag(t, col, n);
    }
  }

  /** The height of a row is the largest that one of its cells asks for. */
  lemma {:induction false} MaxHeightIsLargest(t: Table, row: nat, n: nat)
    requires row < |t.rows|
    ensures forall c :: 0 <= c < n ==> HeightAt(t, row, c) <= MaxHeight(t, row, n)
    ensures MaxHeight(t, row, n) > 0 ==> exists c :: 0 <= c < n && HeightAt(t, row, c) == MaxHeight(t, row, n)
  {
    hide HeightAt;
    if n > 0 {
      MaxHeightIsLargest(t, row, n - 1);
      assert HeightAt(t, row, n - 1) <= MaxHeight(t, row, n);
    }
  }

  /** The width of a column before the spans are looked at. */
  ghost function BaseWidth(t: Table, g: Geometry, col: nat): nat {
    MaxCommon(t, col, |t.rows|) + if g.InternalGeometry? then MaxTag(t, col, |t.rows|) else 0
  }

  ghost function BaseWidths(t: Table, g: Geometry): (w: seq<nat>)
    ensures |w| == Columns(t)
  {
    seq(Columns(t), c requires 0 <= c < Columns(t) => BaseWidth(t, g, c))
  }

  ghost function Heights(t: Table): (h: seq<nat>)
    ensures |h| == |t.rows|
  {
    seq(|t.rows|, r requires 0 <= r < |t.rows| => MaxHeight(t, r, Columns(t)))
  }

  // ---- Solving for the spans ----

  ghost predicate IsMaster(t: Table, row: nat, col: nat) {
    row < |t.rows| && col < |t.rows[row]| && t.rows[row][col].kind.GroupMaster?
  }

  /** The room that a span asks for. */
  ghost function SpanHint(t: Table, g: Geometry, row: nat, col: nat): nat
    requires IsMaster(t, row, col)
  {
    VisWidth(t.rows[row][col], t.props(row, col)) + if g.InternalGeometry? then InvisWidth(t.props(row, col)) else 0
  }

  /** The widths after a look at one place: a master widens the columns of its span. */
  ghost function LookAt(t: Table, g: Geometry, w: seq<nat>, row: nat, col: nat): (v: seq<nat>)
    requires |w| == Columns(t)
    ensures |v| == |w|
  {
    if IsMaster(t, row, col) then Widen(w, col, GroupSize(t.rows[row], col), SpanHint(t, g, row, col)) else w
  }

  /** The widths after the first `row` places of column `col`. */
  ghost function DownColumn(t: Table, g: Geometry, w: seq<nat>, col: nat, row: nat): (v: seq<nat>)
    requires |w| == Columns(t)
    ensures |v| == |w|
    decreases row
  {
    if row == 0 then w else LookAt(t, g, DownColumn(t, g, w, col, row - 1), row - 1, col)
  }

  /** The widths after the first `col` columns, from left to right and each from top to bottom. */
  ghost function Across(t: Table, g: Geometry, col: nat): (v: seq<nat>)
    ensures |v| == Columns(t)
    decreases col
  {
    if col == 0 then BaseWidths(t, g) else DownColumn(t, g, Across(t, g, col - 1), col - 1, |t.rows|)
  }

  ghost function Widths(t: Table, g: Geometry): (w: seq<nat>)
    ensures |w| == Columns(t)
  {
    Across(t, g, Columns(t))
  }

  // ---- Every constraint holds at the end ----

  ghost predicate Below(v: seq<nat>, w: seq<nat>) {
    |v| == |w| && forall i :: 0 <= i < |v| ==> v[i] <= w[i]
  }

  ghost predicate SpanFits(t: Table, g: Geometry, w: seq<nat>, row: nat, col: nat)
    requires |w| == Columns(t) && IsMaster(t, row, col)
  {
    GroupWidth(w, col, GroupSize(t.rows[row], col)) >= SpanHint(t, g, row, col)
  }

  lemma LookAtGrows(t: Table, g: Geometry, w: seq<nat>, row: nat, col: nat)
    requires |w| == Columns(t)
    ensures Below(w, LookAt(t, g, w, row, col))
    ensures IsMaster(t, row, col) ==> SpanFits(t, g, LookAt(t, g, w, row, col), row, col)
  {
    hide Widen, GroupWidth;
    if IsMaster(t, row, col) {
      SpanIsWidened(w, col, GroupSize(t.rows[row], col), SpanHint(t, g, row, col));
    }
  }

  /** A span that fits goes on to fit while the columns grow. */
  lemma StillFits(t: Table, g: Geometry, v: seq<nat>, w: seq<nat>, row: nat, col: nat)
    requires Below(v, w) && |v| == Columns(t) && IsMaster(t, row, col) && SpanFits(t, g, v, row, col)
    ensures SpanFits(t, g, w, row, col)
  {
    var n := GroupSize(t.rows[row], col);
    SumOfMonotone(v[col..col + n], w[col..col + n]);
  }

  lemma {:induction false} DownColumnFits(t: Table, g: Geometry, w: seq<nat>, col: nat, row: nat)
    requires |w| == Columns(t) && row <= |t.rows|
    ensures Below(w, DownColumn(t, g, w, col, row))
    ensures forall r :: 0 <= r < row && IsMaster(t, r, col) ==> SpanFits(t, g, DownColumn(t, g, w, col, row), r, col)
    decreases row
  {
    hide LookAt, SpanFits;
    if row > 0 {
      DownColumnFits(t, g, w, col, row - 1);
      var v := DownColumn(t, g, w, col, row - 1);
      LookAtGrows(t, g, v, row - 1, col);
      forall r | 0 <= r < row && IsMaster(t, r, col)
        ensures SpanFits(t, g, DownColumn(t, g, w, col, row), r, col)
      {
        if r < row - 1 {
          StillFits(t, g, v, LookAt(t, g, v, row - 1, col), r, col);
        }
      }
    }
  }

  lemma {:induction false} AcrossFits(t: Table, g: Geometry, col: nat)
    ensures Below(BaseWidths(t, g), Across(t, g, col))
    ensures forall r, c :: 0 <= c < col && IsMaster(t, r, c) ==> SpanFits(t, g, Across(t, g, col), r, c)
    decreases col
  {
    hide DownColumn, SpanFits, BaseWidths;
    if col > 0 {
      AcrossFits(t, g, col - 1);
      var v := Across(t, g, col - 1);
      DownColumnFits(t, g, v, col - 1, |t.rows|);
      forall r, c | 0 <= c < col && IsMaster(t, r, c) ensures SpanFits(t, g, Across(t, g, col), r, c) {
        if c < col - 1 {
          StillFits(t, g, v, Across(t, g, col), r, c);
        }
      }
    }
  }

  /**
   * The final widths satisfy every common cell and every span at once, although the spans of different rows overlap
   * and were widened one after the other.
   */
  lemma WidthsFitAllCells(t: Table, g: Geometry)
    ensures forall r, c :: 0 <= r < |t.rows| && 0 <= c < |t.rows[r]| && t.rows[r][c].kind.CommonCell? ==>
                             Widths(t, g)[c] >= VisWidth(t.rows[r][c], t.props(r, c))
    ensures forall r, c :: 0 <= c && IsMaster(t, r, c) ==> SpanFits(t, g, Widths(t, g), r, c)
    ensures forall r, c :: 0 <= r < |t.rows| && 0 <= c < Columns(t) && g.InternalGeometry? && !IsMaster(t, r, c) ==>
                             Widths(t, g)[c] >= CommonWidth(t, r, c) + TagWidth(t, r, c)
  {
    hide SpanFits, Across;
    AcrossFits(t, g, Columns(t));
    forall r, c | 0 <= r < |t.rows| && 0 <= c < Columns(t)
      ensures Widths(t, g)[c] >= CommonWidth(t, r, c)
      ensures g.InternalGeometry? ==> Widths(t, g)[c] >= CommonWidth(t, r, c) + TagWidth(t, r, c)
    {
      assert Widths(t, g)[c] >= BaseWidths(t, g)[c];
      MaxCommonIsLargest(t, c, |t.rows|);
      MaxTagIsLargest(t, c, |t.rows|);
    }
    forall r, c | 0 <= r < |t.rows| && 0 <= c < |t.rows[r]| && t.rows[r][c].kind.CommonCell?
      ensures Widths(t, g)[c] >= VisWidth(t.rows[r][c], t.props(r, c))
    {
      assert CommonWidth(t, r, c) == VisWidth(t.rows[r][c], t.props(r, c));
    }
  }

  /** The widths that make room for the style tags: each column for its widest cell and its longest tags, and the columns of
      a span together for the span with its own tags. */
  lemma RoomForTags(t: Table)
    ensures forall r, r', c :: 0 <= r < |t.rows| && 0 <= r' < |t.rows| && 0 <= c < |t.rows[r]| && c < |t.rows[r']|
                               && t.rows[r][c].kind.CommonCell? ==>
                                 Widths(t, InternalGeometry)[c] >= VisWidth(t.rows[r][c], t.props(r, c)) + Tags(t.props(r', c))
    ensures forall r: nat, c: nat :: IsMaster(t, r, c) ==>
                             GroupWidth(Widths(t, InternalGeometry), c, GroupSize(t.rows[r], c))
                             >= VisWidth(t.rows[r][c], t.props(r, c)) + Tags(t.props(r, c))
  {
    hide Across, VisWidth, GroupWidth, GroupSize;
    var w := Widths(t, InternalGeometry);
    AcrossFits(t, InternalGeometry, Columns(t));
    forall r, r', c | 0 <= r < |t.rows| && 0 <= r' < |t.rows| && 0 <= c < |t.rows[r]| && c < |t.rows[r']|
                      && t.rows[r][c].kind.CommonCell?
      ensures w[c] >= VisWidth(t.rows[r][c], t.props(r, c)) + Tags(t.props(r', c))
    {
      assert w[c] >= BaseWidths(t, InternalGeometry)[c];
      MaxCommonIsLargest(t, c, |t.rows|);
      MaxTagIsLargest(t, c, |t.rows|);
      assert CommonWidth(t, r, c) == VisWidth(t.rows[r][c], t.props(r, c)) && TagWidth(t, r', c) == Tags(t.props(r', c));
    }
    forall r: nat, c: nat | IsMaster(t, r, c)
      ensures GroupWidth(w, c, GroupSize(t.rows[r], c)) >= VisWidth(t.rows[r][c], t.props(r, c)) + Tags(t.props(r, c))
    {
      assert SpanFits(t, InternalGeometry, w, r, c);
    }
  }

  /** The bytes of all four tags of a cell. */
  function Tags(p: Props): nat {
    |p.cellTag + p.contentTag + p.resetContentTag + p.resetCellTag|
  }
}
