/**
 * In which order src/fort.c widens spans, which matters where spans overlap: by the columns in which they start, from left
 * to right, and within a column from top to bottom.
 */
module SpanOrder {
  import opened TableModel
  import opened Layout

  /** Where a span starts. */
  datatype Place = Place(row: nat, col: nat)

  /** One place comes before another one. */
  predicate Before(a: Place, b: Place) {
    a.col < b.col || (a.col == b.col && a.row < b.row)
  }

  /** A list of all the spans of a table, in their order. */
  ghost predicate SpansInOrder(t: Table, spans: seq<Place>) {
    && Sorted(spans)
    && (forall i :: 0 <= i < |spans| ==> IsMaster(t, spans[i].row, spans[i].col))
    && (forall r: nat, c: nat :: IsMaster(t, r, c) ==> exists i :: 0 <= i < |spans| && spans[i] == Place(r, c))
  }

  /** The widths after one span after the other was given the room it needs. */
  ghost function WidenedBy(t: Table, g: Geometry, spans: seq<Place>, n: nat): (w: seq<nat>)
    requires n <= |spans| && forall i :: 0 <= i < |spans| ==> IsMaster(t, spans[i].row, spans[i].col)
    ensures |w| == Columns(t)
  {
    if n == 0 then BaseWidths(t, g)
    else
      var w, s := WidenedBy(t, g, spans, n - 1), spans[n - 1];
      Widen(w, s.col, GroupSize(t.rows[s.row], s.col), SpanHint(t, g, s.row, s.col))
  }

  /** The first `n` spans are those that come before a place. */
  ghost predicate Reached(spans: seq<Place>, n: nat, at: Place) {
    && n <= |spans|
    && (forall i :: 0 <= i < n ==> Before(spans[i], at))
    && (forall i :: n <= i < |spans| ==> !Before(spans[i], at))
  }

  ghost predicate Sorted(spans: seq<Place>) {
    forall i, j :: 0 <= i < j < |spans| ==> Before(spans[i], spans[j])
  }

  lemma NotEarlier(spans: seq<Place>, n: nat, i: nat)
    requires i < |spans| && Reached(spans, n, spans[i])
    ensures n <= i
  {
  }

  lemma NotLater(spans: seq<Place>, n: nat, i: nat, next: Place)
    requires n < |spans| && i < |spans| && Sorted(spans) && next == spans[n] && Reached(spans, n, spans[i])
    ensures i <= n
  {
  }

  /** A span at the place that was reached is the next one of the list. */
  lemma FoundNext(spans: seq<Place>, n: nat, i: nat)
    requires i < |spans| && Sorted(spans) && Reached(spans, n, spans[i])
    ensures n == i
  {
    hide Reached, Sorted;
    NotEarlier(spans, n, i);
    NotLater(spans, n, i, spans[n]);
  }

  lemma NextSpan(t: Table, spans: seq<Place>, n: nat, at: Place)
    requires SpansInOrder(t, spans) && Reached(spans, n, at)
    ensures IsMaster(t, at.row, at.col) ==> n < |spans| && spans[n] == at
    ensures Reached(spans, if IsMaster(t, at.row, at.col) then n + 1 else n, Place(at.row + 1, at.col))
  {
    if IsMaster(t, at.row, at.col) {
      var i :| 0 <= i < |spans| && spans[i] == at;
      FoundNext(spans, n, i);
    }
    forall i | 0 <= i < |spans|
      ensures Before(spans[i], Place(at.row + 1, at.col)) <==> Before(spans[i], at) || spans[i] == at
    {
    }
  }

  /** What the walk over the places has done to the widths when it comes to a place. */
  ghost predicate WalkedTo(t: Table, g: Geometry, spans: seq<Place>, n: nat, at: Place, w: seq<nat>)
    requires SpansInOrder(t, spans)
  {
    Reached(spans, n, at) && w == WidenedBy(t, g, spans, n)
  }

  lemma WalkStep(t: Table, g: Geometry, spans: seq<Place>, n: nat, at: Place, w: seq<nat>) returns (m: nat)
    requires SpansInOrder(t, spans) && WalkedTo(t, g, spans, n, at, w)
    ensures |w| == Columns(t)
    ensures WalkedTo(t, g, spans, m, Place(at.row + 1, at.col), LookAt(t, g, w, at.row, at.col))
  {
    hide Widen, SpanHint, GroupSize, BaseWidths, Before;
    NextSpan(t, spans, n, at);
    m := if IsMaster(t, at.row, at.col) then n + 1 else n;
  }

  lemma {:induction false} WalkDown(t: Table, g: Geometry, spans: seq<Place>, n: nat, col: nat, w: seq<nat>, row: nat)
    returns (m: nat)
    requires SpansInOrder(t, spans) && WalkedTo(t, g, spans, n, Place(0, col), w) && row <= |t.rows|
    ensures |w| == Columns(t)
    ensures WalkedTo(t, g, spans, m, Place(row, col), DownColumn(t, g, w, col, row))
    decreases row
  {
    hide WalkedTo, LookAt, SpansInOrder;
    WalkedWidths(t, g, spans, n, Place(0, col), w);
    if row == 0 {
      m := n;
    } else {
      var k := WalkDown(t, g, spans, n, col, w, row - 1);
      m := WalkStep(t, g, spans, k, Place(row - 1, col), DownColumn(t, g, w, col, row - 1));
    }
  }

  lemma WalkedWidths(t: Table, g: Geometry, spans: seq<Place>, n: nat, at: Place, w: seq<nat>)
    requires SpansInOrder(t, spans) && WalkedTo(t, g, spans, n, at, w)
    ensures |w| == Columns(t)
  {
  }

  /** Below the last row there is nothing, so the walk goes on at the top of the next column. */
  lemma NextColumnStarts(t: Table, spans: seq<Place>, n: nat, col: nat)
    requires SpansInOrder(t, spans) && Reached(spans, n, Place(|t.rows|, col))
    ensures Reached(spans, n, Place(0, col + 1))
  {
    forall i | 0 <= i < |spans| ensures Before(spans[i], Place(0, col + 1)) <==> Before(spans[i], Place(|t.rows|, col)) {
      assert IsMaster(t, spans[i].row, spans[i].col);
    }
  }

  lemma {:induction false} WalkAcross(t: Table, g: Geometry, spans: seq<Place>, col: nat) returns (n: nat)
    requires SpansInOrder(t, spans)
    ensures WalkedTo(t, g, spans, n, Place(0, col), Across(t, g, col))
    decreases col
  {
    if col == 0 {
      WalkStarts(t, g, spans);
      n := 0;
    } else {
      hide DownColumn, SpansInOrder, Reached, BaseWidths, WidenedBy;
      var k := WalkAcross(t, g, spans, col - 1);
      n := WalkDown(t, g, spans, k, col - 1, Across(t, g, col - 1), |t.rows|);
      NextColumnStarts(t, spans, n, col - 1);
    }
  }

  lemma WalkStarts(t: Table, g: Geometry, spans: seq<Place>)
    requires SpansInOrder(t, spans)
    ensures WalkedTo(t, g, spans, 0, Place(0, 0), Across(t, g, 0))
  {
    hide BaseWidths;
  }

  lemma NotYetReached(spans: seq<Place>, n: nat, at: Place)
    requires n < |spans| && Reached(spans, n, at)
    ensures !Before(spans[n], at)
  {
  }

  lemma InColumns(t: Table, at: Place)
    requires IsMaster(t, at.row, at.col)
    ensures at.col < Columns(t)
  {
  }

  /** Main result: the final widths are those of the cells, widened for one span after the other in this order. */
  lemma WidthsFollowOrder(t: Table, g: Geometry, spans: seq<Place>)
    requires SpansInOrder(t, spans)
    ensures Widths(t, g) == WidenedBy(t, g, spans, |spans|)
  {
    var n := WalkAcross(t, g, spans, Columns(t));
    LastReached(t, g, spans, n);
  }

  lemma LastReached(t: Table, g: Geometry, spans: seq<Place>, n: nat)
    requires SpansInOrder(t, spans) && Reached(spans, n, Place(0, Columns(t)))
    ensures n == |spans|
  {
    hide Reached, SpansInOrder, Columns, IsMaster;
    ReachedWithin(spans, n, Place(0, Columns(t)));
    if n < |spans| {
      ListedIsMaster(t, spans, n);
      InColumns(t, spans[n]);
      NotYetReached(spans, n, Place(0, Columns(t)));
    }
  }

  lemma ListedIsMaster(t: Table, spans: seq<Place>, i: nat)
    requires SpansInOrder(t, spans) && i < |spans|
    ensures IsMaster(t, spans[i].row, spans[i].col)
  {
  }

  lemma ReachedWithin(spans: seq<Place>, n: nat, at: Place)
    requires Reached(spans, n, at)
    ensures n <= |spans|
  {
  }
}
