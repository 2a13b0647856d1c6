/** Adding cells to a table and erasing a rectangle of them, as src/fort.c does it. */
module TableRows {
  import opened Vectors
  import opened Rows

  class Separator {
    var enabled: bool
    ghost var live: bool

    constructor (enabled: bool)
      ensures live && this.enabled == enabled
    {
      this.enabled := enabled;
      live := true;
    }

    /** `destroy_separator` */
    method Destroy()
      requires live
      modifies this
      ensures !live && enabled == old(enabled)
    {
      live := false;
    }
  }

  /** `FT_CUR_ROW` and `FT_CUR_COLUMN`: one and the same number stands for the current place. */
  const FT_CUR: nat := 0xffff_fffe

  datatype AddingStrategy = InsertCells | ReplaceCells

  /** The list without the items whose numbers, counted from `from`, are in `gone`. */
  ghost function Without<T>(s: seq<T>, gone: set<nat>, from: nat): seq<T> {
    if s == [] then [] else (if from in gone then [] else [s[0]]) + Without(s[1..], gone, from + 1)
  }

  lemma {:induction false} WithoutConcat<T>(a: seq<T>, b: seq<T>, gone: set<nat>, from: nat)
    ensures Without(a + b, gone, from) == Without(a, gone, from) + Without(b, gone, from + |a|)
  {
    if a == [] {
      assert a + b == b;
    } else {
      WithoutConcat(a[1..], b, gone, from + 1);
      assert (a + b)[1..] == a[1..] + b && (a + b)[0] == a[0];
      hide *;
      AssocOf(if from in gone then [] else [a[0]], Without(a[1..], gone, from + 1), Without(b, gone, from + |a|));
    }
  }

  lemma AssocOf<T>(a: seq<T>, b: seq<T>, c: seq<T>)
    ensures a + b + c == a + (b + c)
  {
  }

  /** One item more. */
  lemma WithoutNext<T>(s: seq<T>, gone: set<nat>, k: nat)
    requires k < |s|
    ensures Without(s[..k + 1], gone, 0) == Without(s[..k], gone, 0) + if k in gone then [] else [s[k]]
  {
    assert s[..k + 1] == s[..k] + [s[k]];
    WithoutConcat(s[..k], [s[k]], gone, 0);
    assert [s[k]][1..] == [];
    assert Without([s[k]][1..], gone, k + 1) == [];
  }

  /** How many items are left depends on how many there were only. */
  lemma {:induction false} WithoutLength<S, T>(s: seq<S>, t: seq<T>, gone: set<nat>, from: nat)
    requires |s| <= |t|
    ensures |Without(s, gone, from)| <= |Without(t, gone, from)|
    ensures |s| == |t| ==> |Without(s, gone, from)| == |Without(t, gone, from)|
    decreases |s|
  {
    if s != [] {
      WithoutLength(s[1..], t[1..], gone, from + 1);
    }
  }

  lemma {:induction false} WithoutUntouched<T>(s: seq<T>, gone: set<nat>, from: nat)
    requires forall k :: from <= k < from + |s| ==> k !in gone
    ensures Without(s, gone, from) == s
    decreases |s|
  {
    if s != [] {
      WithoutUntouched(s[1..], gone, from + 1);
    }
  }

  lemma ErasedKeepsDistinct<T>(s: seq<T>, i: nat)
    requires Distinct(s) && i < |s|
    ensures Distinct(Erased(s, i)) && s[i] !in Erased(s, i)
    ensures forall x :: x in Erased(s, i) ==> x in s
  {
  }

  class TableObject {
    var rows: seq<Row>
    var separators: seq<Separator>
    var curRow: nat
    var curCol: nat
    var strategy: AddingStrategy
    ghost var owned: set<CellObject>

    /** Every row owns its cells alone. */
    ghost predicate Valid()
      reads this, rows, owned, separators
    {
      && Distinct(rows)
      && (forall r :: r in rows ==> forall c :: c in r.cells ==> c in owned)
      && (forall r :: r in rows ==> r.Valid())
      && (forall i, j :: 0 <= i < j < |rows| ==> Apart(rows[i].cells, rows[j].cells))
      && Distinct(separators) && forall s :: s in separators ==> s.live
    }

    /** `create_table` */
    constructor ()
      ensures Valid() && rows == [] && separators == []
    {
      rows := [];
      separators := [];
      curRow := 0;
      curCol := 0;
      strategy := ReplaceCells;
      owned := {};
    }

    /** The cells of a row, if it exists. */
    ghost function CellsAt(row: nat): seq<CellObject>
      reads this, rows
    {
      if row < |rows| then rows[row].cells else []
    }

    /** Empty rows are added until row `row` exists. */
    method PadRows(row: nat)
      requires Valid()
      modifies this`rows
      ensures Valid() && |rows| == if row < |old(rows)| then |old(rows)| else row + 1
      ensures old(rows) <= rows
      ensures forall r :: |old(rows)| <= r < |rows| ==> fresh(rows[r]) && rows[r].cells == []
    {
      while |rows| <= row
        invariant Valid() && old(rows) <= rows && (|rows| <= row + 1 || |rows| == |old(rows)|)
        invariant forall r :: |old(rows)| <= r < |rows| ==> fresh(rows[r]) && rows[r].cells == []
      {
        var padding := new Row();
        rows := rows + [padding];
      }
    }

    /**
     * `ft_row_printf_impl_` from the parsed row on: its cells go into row `row` at the cursor. With the replacing
     * strategy the cursor must stand in the row or right behind it: further behind, `vector_swap` leaves a gap that
     * was never filled.
     */
    method RowPrintf(row: nat, newRow: Row) returns (newCols: nat)
      requires Valid() && newRow.Valid() && newRow !in rows
      requires forall r :: r in rows ==> Apart(r.cells, newRow.cells)
      requires strategy.ReplaceCells? ==> curCol <= |CellsAt(row)|
      modifies this, rows, newRow, owned`live, newRow.cells`live
      ensures Valid() && !newRow.live
      ensures newCols == |old(newRow.cells)| && curCol == old(curCol) + newCols && strategy == old(strategy)
      ensures separators == old(separators)
      ensures |rows| == (if row < |old(rows)| then |old(rows)| else row + 1) && old(rows) <= rows
      ensures forall r :: 0 <= r < |rows| && r != row ==> rows[r].cells == old(CellsAt(r))
      ensures (old(curCol) <= |old(CellsAt(row))| ==>
                && rows[row].cells == (if old(strategy).InsertCells?
                                       then Inserted(old(CellsAt(row)), old(newRow.cells), old(curCol))
                                       else Replaced(old(CellsAt(row)), old(newRow.cells), old(curCol)))
                && multiset(rows[row].cells) + multiset(newRow.cells)
                   == multiset(old(CellsAt(row))) + multiset(old(newRow.cells)))
      ensures newRow.cells == if old(strategy).InsertCells? then []
                              else Displaced(old(CellsAt(row)), old(newRow.cells), old(curCol))
      ensures forall c :: c in newRow.cells ==> !c.live
    {
      hide Replaced, Displaced, Inserted, Distinct;
      PadRows(row);
      newCols := |newRow.cells|;
      assert CellsAt(row) == old(CellsAt(row));
      PutAt(row, newRow);
      curCol := curCol + newCols;
    }

    /** The cells of a new row go into an existing row; the other rows do not notice. */
    method PutAt(row: nat, newRow: Row)
      requires Valid() && newRow.Valid() && newRow !in rows && row < |rows|
      requires forall r :: r in rows ==> Apart(r.cells, newRow.cells)
      requires strategy.ReplaceCells? ==> curCol <= |rows[row].cells|
      modifies `owned, rows[row], newRow, rows[row].cells`live, newRow.cells`live
      ensures Valid() && !newRow.live
      ensures forall r :: 0 <= r < |rows| && r != row ==> rows[r].cells == old(rows[r].cells)
      ensures (curCol <= |old(rows[row].cells)| ==>
                && rows[row].cells == (if strategy.InsertCells?
                                       then Inserted(old(rows[row].cells), old(newRow.cells), curCol)
                                       else Replaced(old(rows[row].cells), old(newRow.cells), curCol))
                && multiset(rows[row].cells) + multiset(newRow.cells)
                   == multiset(old(rows[row].cells)) + multiset(old(newRow.cells)))
      ensures newRow.cells == if strategy.InsertCells? then []
                              else Displaced(old(rows[row].cells), old(newRow.cells), curCol)
      ensures forall c :: c in newRow.cells ==> !c.live
    {
      hide Replaced, Displaced, Inserted;
      var curRow := rows[row];
      ghost var mine, given := curRow.cells, newRow.cells;
      curRow.PutCells(newRow, curCol, strategy.InsertCells?);
      owned := owned + set c | c in curRow.cells;
      forall r | r in rows && r != curRow
        ensures r.Valid() && r.cells == old(r.cells) && Apart(curRow.cells, r.cells)
      {
        assert Apart(r.cells, given) && Apart(r.cells, mine);
      }
    }

    // ---- Erasing a rectangle ----

    /** The first loop of `ft_erase_range`: the cells of the rectangle are destroyed, row by row. */
    method EraseCells(top: nat, left: nat, bottom: nat, right: nat)
      requires Valid() && left < SIZE_T_RANGE && right < SIZE_T_RANGE
      requires forall r :: r in rows ==> |r.cells| < SIZE_T_RANGE
      modifies rows, owned`live
      ensures Valid()
      ensures forall r :: 0 <= r < |rows| ==> RowDone(r, old(rows[r].cells), top <= r <= bottom, left, right)
    {
      hide ErasedRange, InRange, Valid, Distinct, Apart, RowDone;
      ghost var before := seq(|rows|, r requires 0 <= r < |rows| reads this, rows => rows[r].cells);
      AllFound(before, top, left, right);
      var i := top;
      while i < |rows| && i <= bottom
        invariant top <= i && (i <= bottom + 1 || i == top)
        invariant Valid() && FoundSo(before, i)
        invariant forall r :: 0 <= r < |rows| ==> RowDone(r, before[r], top <= r < i, left, right)
        invariant forall r :: i <= r < |rows| ==> rows[r].cells == before[r]
      {
        Owns(i);
        EraseInRow(i, left, right, before);
        i := i + 1;
      }
    }

    /** A row that held the cells `was`, with the range erased or not: the cells it holds, and which are destroyed. */
    ghost predicate RowDone(r: nat, was: seq<CellObject>, erased: bool, left: nat, right: nat)
      requires r < |rows|
      reads this, rows, was
    {
      && rows[r].cells == (if erased then ErasedRange(was, left, right) else was)
      && LiveExcept(was, if erased then InRange(was, left, right) else [])
    }

    lemma Owns(i: nat)
      requires Valid() && i < |rows|
      ensures rows[i] in rows && forall c :: c in rows[i].cells ==> c in owned
    {
    }

    lemma OthersDiffer(i: nat)
      requires Valid() && i < |rows|
      ensures Distinct(rows[i].cells) && forall r :: 0 <= r < |rows| && r != i ==> rows[r] != rows[i]
    {
    }

    /** The rows as they were found, of which row `i` is as it was. */
    ghost predicate FoundSo(before: seq<seq<CellObject>>, i: nat)
      reads this, rows
    {
      && |before| == |rows| && (i < |rows| ==> rows[i].cells == before[i])
      && forall j, k :: 0 <= j < k < |before| ==> Apart(before[j], before[k])
    }

    lemma AllFound(before: seq<seq<CellObject>>, i: nat, left: nat, right: nat)
      requires Valid() && |before| == |rows| && forall r :: 0 <= r < |rows| ==> before[r] == rows[r].cells
      ensures FoundSo(before, i) && forall r :: 0 <= r < |rows| ==> RowDone(r, before[r], false, left, right)
      ensures forall j, k :: 0 <= j < k < |before| ==> Apart(before[j], before[k])
    {
    }

    /** One row of the rectangle; the other rows and their cells do not notice. */
    method EraseInRow(i: nat, left: nat, right: nat, ghost before: seq<seq<CellObject>>)
      requires Valid() && i < |rows| && |rows[i].cells| < SIZE_T_RANGE && left < SIZE_T_RANGE && right < SIZE_T_RANGE
      requires FoundSo(before, i)
      modifies rows[i], rows[i].cells`live
      ensures Valid() && (forall c :: c in before[i] ==> c in owned)
      ensures RowDone(i, before[i], true, left, right)
      ensures (forall r, erased :: 0 <= r < |rows| && r != i && old(RowDone(r, before[r], erased, left, right)) ==>
                                     RowDone(r, before[r], erased, left, right))
      ensures forall r :: 0 <= r < |rows| && r != i ==> rows[r].cells == old(rows[r].cells)
    {
      hide ErasedRange, InRange, Distinct;
      OthersDiffer(i);
      var row := rows[i];
      ghost var mine := row.cells;
      RangeMembers<CellObject>(mine, left, right);
      row.EraseRange(left, right);
      forall r | r in rows && r != row
        ensures r.Valid() && r.cells == old(r.cells) && Apart(row.cells, r.cells)
      {
        assert Apart(r.cells, mine);
      }
      forall r | 0 <= r < |rows| && r != i ensures rows[r].cells == old(rows[r].cells) {
        assert rows[r] in rows;
      }
      forall r, c | 0 <= r < |before| && r != i && c in before[r] ensures c.live == old(c.live) {
        assert Apart(before[r], mine) || Apart(mine, before[r]);
      }
    }

    /** An empty row leaves the table. */
    method RemoveRow(i: nat)
      requires Valid() && i < |rows| && rows[i].cells == []
      modifies `rows, rows[i]
      ensures Valid() && rows == Erased(old(rows), i)
      ensures !old(rows)[i].live && old(rows)[i].cells == []
    {
      var row := rows[i];
      row.Destroy();
      ErasedKeepsDistinct(rows, i);
      rows := Erased(rows, i);
    }

    method RemoveSeparator(i: nat)
      requires Valid() && i < |separators|
      modifies `separators, separators[i]
      ensures Valid() && separators == Erased(old(separators), i) && !old(separators)[i].live
    {
      var separator := separators[i];
      separator.Destroy();
      ErasedKeepsDistinct(separators, i);
      separators := Erased(separators, i);
    }

    /** A round of the second loop of `ft_erase_range`: an empty row goes, with the separator at its place. */
    method VisitRow(i: nat) returns (next: nat)
      requires Valid() && i < |rows|
      modifies `rows, `separators, rows[i], if i < |separators| then {separators[i]} else {}
      ensures Valid() && old(rows)[i].cells == old(rows[i].cells)
      ensures i < |old(separators)| && !old(separators[i].live) ==> !old(separators)[i].live
      ensures !old(rows[i].live) ==> !old(rows)[i].live
      ensures |old(rows[i].cells)| > 0 ==> next == i + 1 && rows == old(rows) && separators == old(separators)
      ensures (|old(rows[i].cells)| == 0 ==>
                && next == i && rows == Erased(old(rows), i) && !old(rows)[i].live
                && (i < |old(separators)| ==> !old(separators)[i].live)
                && separators == if i < |old(separators)| then Erased(old(separators), i) else old(separators))
    {
      if |rows[i].cells| > 0 {
        return i + 1;
      }
      RemoveRow(i);
      if i < |separators| {
        RemoveSeparator(i);
      }
      return i;
    }

    /**
     * The second loop of `ft_erase_range`: of the `n` rows from `top` on, those that are empty leave the table, each
     * with the separator at its place, while the loop walks on over the list that gets shorter.
     */
    method RemoveEmptyRows(top: nat, n: nat, ghost gone: set<nat>)
      requires Valid() && top + n <= |rows|
      requires forall k :: k in gone <==> top <= k < top + n && rows[k].cells == []
      modifies `rows, `separators, rows, separators
      ensures Valid()
      ensures rows == Without(old(rows), gone, 0) && separators == Without(old(separators), gone, 0)
      ensures forall r :: r in old(rows) ==> r.cells == old(r.cells)
      ensures forall k :: k in gone ==> !old(rows)[k].live && (k < |old(separators)| ==> !old(separators)[k].live)
    {
      hide Without, LeftOver, Valid, Arrived, Erased;
      ghost var allRows, allSeparators := rows, separators;
      VisitStarts<Row, Separator>(allRows, allSeparators, gone, top);
      ghost var deadRows: set<Row>, deadSeparators: set<Separator> := {}, {};
      ghost var at: nat := top;
      var i: nat := top;
      for j := 0 to n
        invariant at == top + j
        invariant Valid() && Arrived<Row, Separator>(allRows, allSeparators, gone, at, i, rows, separators)
        invariant forall r :: r in allRows ==> r.cells == old(r.cells)
        invariant forall r :: r in deadRows ==> !r.live
        invariant forall x :: x in deadSeparators ==> !x.live
        invariant forall k :: k in gone && k < at ==>
                    allRows[k] in deadRows && (k < |allSeparators| ==> allSeparators[k] in deadSeparators)
      {
        VisitStep<Row, Separator>(allRows, allSeparators, gone, at, i, rows, separators);
        if at in gone {
          deadRows := deadRows + {rows[i]};
          deadSeparators := deadSeparators + if i < |separators| then {separators[i]} else {};
        }
        i := VisitRow(i);
        at := at + 1;
      }
      VisitEnds<Row, Separator>(allRows, allSeparators, gone, at, i, rows, separators);
    }

    /** The rows that the erasure of a rectangle leaves empty, or finds empty. */
    ghost function Emptied(top: nat, left: nat, bottom: nat, right: nat): set<nat>
      reads this, rows
    {
      set k | top <= k < |rows| && k <= bottom && ErasedRange(rows[k].cells, left, right) == []
    }

    /** The current row stands for `FT_CUR_ROW` and, as the source has it, for `FT_CUR_COLUMN`, too. */
    function Resolved(place: nat): nat
      reads this
    {
      if place == FT_CUR then curRow else place
    }

    /** `ft_erase_range`, which first looks up the places given as current ones. */
    method EraseRange(topLeftRow: nat, topLeftCol: nat, bottomRightRow: nat, bottomRightCol: nat)
      returns (ok: bool, ghost top: nat, ghost left: nat, ghost bottom: nat, ghost right: nat)
      requires Valid() && Resolved(topLeftCol) < SIZE_T_RANGE && Resolved(bottomRightCol) < SIZE_T_RANGE
      requires forall r :: r in rows ==> |r.cells| < SIZE_T_RANGE
      requires (Resolved(topLeftRow) <= Resolved(bottomRightRow) && Resolved(topLeftCol) <= Resolved(bottomRightCol) ==>
                 0 < |rows| && Resolved(topLeftRow) <= |rows|)
      modifies `rows, `separators, rows, separators, owned`live
      ensures top == (if topLeftRow == 0xffff_fffe then old(curRow) else topLeftRow)
      ensures left == (if topLeftCol == 0xffff_fffe then old(curRow) else topLeftCol)
      ensures bottom == (if bottomRightRow == 0xffff_fffe then old(curRow) else bottomRightRow)
      ensures right == (if bottomRightCol == 0xffff_fffe then old(curRow) else bottomRightCol)
      ensures Valid() && (ok <==> top <= bottom && left <= right)
      ensures (!ok ==> rows == old(rows) && separators == old(separators)
                       && forall r :: r in rows ==> r.cells == old(r.cells))
      ensures ok ==> rows == Without(old(rows), old(Emptied(top, left, bottom, right)), 0)
      ensures ok ==> separators == Without(old(separators), old(Emptied(top, left, bottom, right)), 0)
      ensures (ok ==> forall r :: 0 <= r < |old(rows)| ==>
                                old(rows)[r].cells == if top <= r <= bottom
                                                      then ErasedRange(old(rows[r].cells), left, right)
                                                      else old(rows[r].cells))
      ensures (ok ==> forall r :: 0 <= r < |old(rows)| ==>
                                LiveExcept(old(rows[r].cells), if top <= r <= bottom
                                                               then InRange(old(rows[r].cells), left, right) else []))
      ensures (ok ==> forall k :: k in old(Emptied(top, left, bottom, right)) ==>
                                !old(rows)[k].live && (k < |old(separators)| ==> !old(separators)[k].live))
    {
      hide Without, ErasedRange, InRange, Valid;
      var row, row' := Resolved(topLeftRow), Resolved(bottomRightRow);
      var col, col' := Resolved(topLeftCol), Resolved(bottomRightCol);
      top, left, bottom, right := row, col, row', col';
      ok := EraseRectangle(row, col, row', col');
    }

    /**
     * The rest of `ft_erase_range`: the cells of the rectangle are destroyed; then the rows of the range that are empty leave the
     * table, each with the separator at its place; everything else keeps its order. The first row must exist, or be
     * the one right behind the last; in a table without rows the source would read behind the end of the list.
     */
    method EraseRectangle(top: nat, left: nat, bottom: nat, right: nat) returns (ok: bool)
      requires Valid() && left < SIZE_T_RANGE && right < SIZE_T_RANGE
      requires forall r :: r in rows ==> |r.cells| < SIZE_T_RANGE
      requires top <= bottom && left <= right ==> 0 < |rows| && top <= |rows|
      modifies `rows, `separators, rows, separators, owned`live
      ensures Valid() && (ok <==> top <= bottom && left <= right)
      ensures (!ok ==> rows == old(rows) && separators == old(separators)
                       && forall r :: r in rows ==> r.cells == old(r.cells))
      ensures ok ==> rows == Without(old(rows), old(Emptied(top, left, bottom, right)), 0)
      ensures ok ==> separators == Without(old(separators), old(Emptied(top, left, bottom, right)), 0)
      ensures (ok ==> forall r :: 0 <= r < |old(rows)| ==>
                                old(rows)[r].cells == if top <= r <= bottom
                                                      then ErasedRange(old(rows[r].cells), left, right)
                                                      else old(rows[r].cells))
      ensures (ok ==> forall r :: 0 <= r < |old(rows)| ==>
                                LiveExcept(old(rows[r].cells), if top <= r <= bottom
                                                               then InRange(old(rows[r].cells), left, right) else []))
      ensures (ok ==> forall k :: k in old(Emptied(top, left, bottom, right)) ==>
                                !old(rows)[k].live && (k < |old(separators)| ==> !old(separators)[k].live))
    {
      hide Without, ErasedRange, InRange, Valid;
      if top > bottom || left > right {
        return false;
      }
      ghost var gone := Emptied(top, left, bottom, right);
      var rowsN := |rows|;
      EraseCells(top, left, bottom, right);
      var nIterations := (if rowsN - 1 < bottom then rowsN - 1 else bottom) - top + 1;
      RemoveEmptyRows(top, nIterations, gone);
      return true;
    }
  }

  /** The list after the first `at` places were visited. */
  ghost function LeftOver<T>(s: seq<T>, gone: set<nat>, at: nat): seq<T> {
    if at <= |s| then Without(s[..at], gone, 0) + s[at..] else Without(s, gone, 0)
  }

  lemma NothingLeftOut<T>(s: seq<T>, gone: set<nat>, top: nat)
    requires forall k :: k in gone ==> top <= k
    ensures LeftOver(s, gone, top) == s
    ensures top <= |s| ==> |Without(s[..top], gone, 0)| == top
  {
    if top <= |s| {
      WithoutUntouched(s[..top], gone, 0);
      assert s == s[..top] + s[top..];
    } else {
      WithoutUntouched(s, gone, 0);
    }
  }

  lemma AllLeftOut<T>(s: seq<T>, gone: set<nat>, end: nat)
    requires forall k :: k in gone ==> k < end
    ensures LeftOver(s, gone, end) == Without(s, gone, 0)
  {
    hide Without;
    if end <= |s| {
      assert s == s[..end] + s[end..];
      WithoutConcat(s[..end], s[end..], gone, 0);
      WithoutUntouched(s[end..], gone, end);
    }
  }

  /** One place further: the item there stays, or it is the one to erase now. */
  lemma LeftOverStep<T>(s: seq<T>, gone: set<nat>, at: nat, i: nat)
    requires at < |s| && i == |Without(s[..at], gone, 0)|
    ensures i < |LeftOver(s, gone, at)| && LeftOver(s, gone, at)[i] == s[at]
    ensures LeftOver(s, gone, at + 1) == if at in gone then Erased(LeftOver(s, gone, at), i) else LeftOver(s, gone, at)
    ensures |Without(s[..at + 1], gone, 0)| == if at in gone then i else i + 1
  {
    hide Without, Erased;
    WithoutNext(s, gone, at);
    assert s[at..] == [s[at]] + s[at + 1..];
    EraseMiddle(Without(s[..at], gone, 0), s[at], s[at + 1..]);
  }

  lemma EraseMiddle<T>(a: seq<T>, x: T, b: seq<T>)
    ensures Erased(a + ([x] + b), |a|) == a + [] + b && a + ([x] + b) == a + [x] + b
  {
  }

  /** Rows and separators after the loop has come to place `at`, which by then has the number `i`. */
  ghost predicate Arrived<S, T>(allRows: seq<S>, allSeparators: seq<T>, gone: set<nat>, at: nat, i: nat,
                                rows: seq<S>, separators: seq<T>)
  {
    && at <= |allRows| && i == |Without(allRows[..at], gone, 0)|
    && rows == LeftOver(allRows, gone, at) && separators == LeftOver(allSeparators, gone, at)
  }

  lemma VisitStarts<S, T>(allRows: seq<S>, allSeparators: seq<T>, gone: set<nat>, top: nat)
    requires top <= |allRows| && forall k :: k in gone ==> top <= k
    ensures Arrived(allRows, allSeparators, gone, top, top, allRows, allSeparators)
  {
    NothingLeftOut(allRows, gone, top);
    NothingLeftOut(allSeparators, gone, top);
  }

  /** Rows and separators are erased at the same place, as long as there is a separator. */
  lemma VisitStep<S, T>(allRows: seq<S>, allSeparators: seq<T>, gone: set<nat>, at: nat, i: nat,
                        rows: seq<S>, separators: seq<T>)
    requires Arrived(allRows, allSeparators, gone, at, i, rows, separators) && at < |allRows|
    ensures i < |rows| && rows[i] == allRows[at] && allRows[at] in allRows
    ensures i < |separators| <==> at < |allSeparators|
    ensures at < |allSeparators| ==> separators[i] == allSeparators[at] && allSeparators[at] in allSeparators
    ensures at !in gone ==> Arrived(allRows, allSeparators, gone, at + 1, i + 1, rows, separators)
    ensures at in gone ==> Arrived(allRows, allSeparators, gone, at + 1, i, Erased(rows, i),
                                   if i < |separators| then Erased(separators, i) else separators)
  {
    hide Without;
    LeftOverStep(allRows, gone, at, i);
    if at < |allSeparators| {
      WithoutLength(allSeparators[..at], allRows[..at], gone, 0);
      LeftOverStep(allSeparators, gone, at, i);
    } else {
      WithoutLength(allSeparators, allRows[..at], gone, 0);
      assert allSeparators[..|allSeparators|] == allSeparators;
    }
  }

  lemma VisitEnds<S, T>(allRows: seq<S>, allSeparators: seq<T>, gone: set<nat>, end: nat, i: nat,
                        rows: seq<S>, separators: seq<T>)
    requires Arrived(allRows, allSeparators, gone, end, i, rows, separators) && forall k :: k in gone ==> k < end
    ensures rows == Without(allRows, gone, 0) && separators == Without(allSeparators, gone, 0)
  {
    AllLeftOut(allRows, gone, end);
    AllLeftOut(allSeparators, gone, end);
  }
}
