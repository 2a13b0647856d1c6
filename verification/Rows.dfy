/** The rows of src/fort.c and the cells that they own; their lists behave as the vectors do. */
module Rows {
  import opened Vectors

  predicate Distinct<T(==)>(s: seq<T>) {
    forall i, j :: 0 <= i < j < |s| ==> s[i] != s[j]
  }

  predicate Apart<T(==)>(a: seq<T>, b: seq<T>) {
    forall x :: x in a ==> x !in b
  }

  lemma DistinctConcat<T>(a: seq<T>, b: seq<T>)
    requires Distinct(a) && Distinct(b) && Apart(a, b)
    ensures Distinct(a + b)
  {
    forall i, j | 0 <= i < j < |a + b| ensures (a + b)[i] != (a + b)[j] {
      assert i < |a| ==> (a + b)[i] in a;
      assert j >= |a| ==> (a + b)[j] in b;
    }
  }

  lemma InsertKeepsDistinct<T>(cur: seq<T>, ins: seq<T>, pos: nat)
    requires Distinct(cur) && Distinct(ins) && Apart(cur, ins) && pos <= |cur|
    ensures Distinct(Inserted(cur, ins, pos))
    ensures forall x :: x in Inserted(cur, ins, pos) <==> x in cur || x in ins
  {
    assert cur == cur[..pos] + cur[pos..];
    DistinctConcat(cur[..pos], ins);
    DistinctConcat(cur[..pos] + ins, cur[pos..]);
  }

  lemma DistinctSplit<T>(a: seq<T>, b: seq<T>)
    requires Distinct(a + b)
    ensures Distinct(a) && Distinct(b) && Apart(a, b)
  {
    forall i, j | 0 <= i < j < |a| ensures a[i] != a[j] {
      assert (a + b)[i] != (a + b)[j];
    }
    forall i, j | 0 <= i < j < |b| ensures b[i] != b[j] {
      assert (a + b)[|a| + i] != (a + b)[|a| + j];
    }
    forall x | x in a ensures x !in b {
      var i :| 0 <= i < |a| && a[i] == x;
      forall j | 0 <= j < |b| ensures b[j] != x {
        assert (a + b)[i] != (a + b)[|a| + j];
      }
    }
  }

  lemma ReplaceKeepsDistinct<T>(cur: seq<T>, mv: seq<T>, pos: nat)
    requires Distinct(cur) && Distinct(mv) && Apart(cur, mv) && pos <= |cur|
    ensures Distinct(Replaced(cur, mv, pos)) && Distinct(Displaced(cur, mv, pos))
    ensures Apart(Replaced(cur, mv, pos), Displaced(cur, mv, pos))
    ensures forall x :: x in Replaced(cur, mv, pos) ==> x in cur || x in mv
    ensures forall x :: x in Displaced(cur, mv, pos) ==> x in cur || x in mv
    ensures mv == [] ==> Replaced(cur, mv, pos) == cur && Displaced(cur, mv, pos) == []
    ensures cur == [] ==> Replaced(cur, mv, pos) == mv && Displaced(cur, mv, pos) == []
  {
    var p, d := cur[..pos], Displaced(cur, mv, pos);
    var rest := if pos + |mv| < |cur| then cur[pos + |mv|..] else [];
    assert cur == p + d + rest && Replaced(cur, mv, pos) == p + mv + rest;
    assert mv == [] ==> d == [] && p + rest == cur;
    hide *;
    DistinctSplit(p + d, rest);
    DistinctSplit(p, d);
    ThreeParts(p, d, rest, mv);
  }

  lemma ThreeParts<T>(p: seq<T>, d: seq<T>, rest: seq<T>, mv: seq<T>)
    requires Distinct(p) && Distinct(rest) && Distinct(mv)
    requires Apart(p, d) && Apart(p + d, rest) && Apart(p + d + rest, mv)
    ensures Distinct(p + mv + rest) && Apart(p + mv + rest, d)
    ensures forall x :: x in p + mv + rest ==> x in p + d + rest || x in mv
    ensures forall x :: x in d ==> x in p + d + rest
  {
    DistinctConcat(p, mv);
    DistinctConcat(p + mv, rest);
  }

  /** The loop of `insert_row` over the cells to insert. */
  method InsertAll<T>(cur: seq<T>, ins: seq<T>, pos: nat) returns (items: seq<T>)
    requires pos <= |cur|
    ensures items == Inserted(cur, ins, pos)
  {
    items := cur;
    assert cur == cur[..pos] + cur[pos..];
    for i := 0 to |ins|
      invariant items == cur[..pos] + ins[..i] + cur[pos..]
    {
      items := Inserted(items, [ins[i]], pos + i);
    }
    assert ins[..|ins|] == ins;
  }

  /** The loop of `ft_row_erase_range` that erases `n` times at the same place; behind the end an erasure fails. */
  method EraseTimes<T>(s: seq<T>, left: nat, n: nat) returns (items: seq<T>)
    ensures items == if left >= |s| then s else s[..left] + if left + n < |s| then s[left + n..] else []
  {
    items := s;
    var i := 0;
    while i < n
      invariant i <= n
      invariant items == if left >= |s| then s else s[..left] + if left + i < |s| then s[left + i..] else []
    {
      if left < |items| {
        items := Erased(items, left);
      }
      i := i + 1;
    }
  }

  /** A cell on the heap; it must not be destroyed twice. */
  class CellObject {
    var text: string
    ghost var live: bool

    /** `create_cell` and `fill_cell_from_string` */
    constructor (s: string)
      ensures live && text == s
    {
      text := s;
      live := true;
    }

    /** `destroy_cell` */
    method Destroy()
      requires live
      modifies `live
      ensures !live
    {
      live := false;
    }
  }

  /** The list without the items `left` to `right`, as far as there are such items. */
  function ErasedRange<T>(s: seq<T>, left: nat, right: nat): seq<T> {
    if right < left || left >= |s| then s
    else s[..left] + if right + 1 < |s| then s[right + 1..] else []
  }

  function InRange<T>(s: seq<T>, left: nat, right: nat): seq<T> {
    if right < left || left >= |s| then []
    else s[left..if right + 1 < |s| then right + 1 else |s|]
  }

  /** How many of the items `left` to `right` there are. */
  function RangeSize(n: nat, left: nat, right: nat): nat {
    if right < left || left >= n then 0 else if right + 1 < n then right + 1 - left else n - left
  }

  /**
   * Where every item is after the erasure of a range: in front of the range it keeps its place, behind the range it moves
   * up by the size of the range; and which items were erased.
   */
  lemma ErasedRangePlaces<T>(s: seq<T>, left: nat, right: nat)
    ensures var r, d, n := ErasedRange(s, left, right), InRange(s, left, right), RangeSize(|s|, left, right);
            && |r| == |s| - n && |d| == n
            && (forall k :: 0 <= k < |s| && k < left ==> r[k] == s[k])
            && (forall k :: 0 <= k < n ==> d[k] == s[left + k])
            && (forall k :: left + n <= k < |s| ==> r[k - n] == s[k])
  {
  }

  /** No item is lost or duplicated: every one stays or is in the range. */
  lemma ErasedRangeConserves<T>(s: seq<T>, left: nat, right: nat)
    ensures multiset(ErasedRange(s, left, right)) + multiset(InRange(s, left, right)) == multiset(s)
    ensures forall x :: x in s <==> x in ErasedRange(s, left, right) || x in InRange(s, left, right)
  {
    if left <= right && left < |s| {
      var end := left + RangeSize(|s|, left, right);
      assert ErasedRange(s, left, right) == s[..left] + s[end..] && InRange(s, left, right) == s[left..end];
      ThreeStretches(s, left, end);
    } else {
      assert multiset(s) + multiset([]) == multiset(s);
    }
  }

  lemma ThreeStretches<T>(s: seq<T>, left: nat, end: nat)
    requires left <= end <= |s|
    ensures multiset(s[..left] + s[end..]) + multiset(s[left..end]) == multiset(s)
    ensures forall x :: x in s <==> x in s[..left] + s[end..] || x in s[left..end]
  {
    assert s == s[..left] + s[left..end] + s[end..];
    ThreeItems(s[..left], s[left..end], s[end..]);
    ThreeItems(s[..left], s[end..], []);
  }

  /** Of some cells, exactly those of `dead` are destroyed. */
  ghost predicate LiveExcept(cells: seq<CellObject>, dead: seq<CellObject>)
    reads cells
  {
    forall c :: c in cells ==> (c.live <==> c !in dead)
  }

  const SIZE_T_RANGE: nat := 0x1_0000_0000_0000_0000

  /** A difference as an unsigned machine word. */
  function Wrapped(n: int): (w: nat)
    ensures 0 <= n < SIZE_T_RANGE ==> w == n
  {
    n % SIZE_T_RANGE
  }

  class Row {
    var cells: seq<CellObject>
    ghost var live: bool

    /** A row that owns its cells: they are live, and no cell stands in it twice. */
    ghost predicate Valid()
      reads this, cells
    {
      live && Distinct(cells) && forall c :: c in cells ==> c.live
    }

    /** `create_row` */
    constructor ()
      ensures Valid() && cells == []
    {
      cells := [];
      live := true;
    }

    /** `destroy_row` */
    method Destroy()
      requires Valid()
      modifies `live, cells`live
      ensures !live && cells == old(cells) && forall c :: c in cells ==> !c.live
    {
      var i := 0;
      while i < |cells|
        invariant i <= |cells| && cells == old(cells) && live && Distinct(cells)
        invariant forall k :: 0 <= k < |cells| ==> cells[k].live == (i <= k)
      {
        cells[i].Destroy();
        i := i + 1;
      }
      live := false;
    }

    /** `split_row`: the cells from `pos` on change their owner. */
    method SplitRow(pos: nat) returns (tail: Row)
      requires Valid()
      modifies this
      ensures Valid() && tail.Valid() && fresh(tail) && Apart(cells, tail.cells)
      ensures cells + tail.cells == old(cells) && |cells| == if pos < |old(cells)| then pos else |old(cells)|
    {
      tail := new Row();
      if pos < |cells| {
        tail.cells := cells[pos..];
        cells := cells[..pos];
      }
    }

    /** `swap_row`: the cells of `ins` replace those from `pos` on, which go to `ins`. */
    method SwapRow(ins: Row, pos: nat)
      requires Valid() && ins.Valid() && this != ins && Apart(cells, ins.cells) && pos <= |cells|
      modifies this, ins
      ensures Valid() && ins.Valid() && Apart(cells, ins.cells)
      ensures cells == Replaced(old(cells), old(ins.cells), pos)
      ensures ins.cells == Displaced(old(cells), old(ins.cells), pos)
    {
      hide Replaced, Displaced;
      ReplaceKeepsDistinct<CellObject>(cells, ins.cells, pos);
      if |cells| == 0 && pos == 0 {
        cells, ins.cells := ins.cells, cells;
      } else if |ins.cells| > 0 {
        cells, ins.cells := Replaced(cells, ins.cells, pos), Displaced(cells, ins.cells, pos);
      }
    }

    /** Fills the row up with empty cells. */
    method FillUp(n: nat)
      requires Valid()
      modifies this
      ensures Valid()
      ensures |cells| == (if n <= |old(cells)| then |old(cells)| else n) && cells[..|old(cells)|] == old(cells)
      ensures forall k :: |old(cells)| <= k < |cells| ==> fresh(cells[k]) && cells[k].text == ""
    {
      while |cells| < n
        invariant |old(cells)| <= |cells| && (|cells| <= n || |cells| == |old(cells)|)
        invariant cells[..|old(cells)|] == old(cells) && Valid()
        invariant forall k :: |old(cells)| <= k < |cells| ==> fresh(cells[k]) && cells[k].text == ""
      {
        var cell := new CellObject("");
        cells := cells + [cell];
      }
    }

    /** `insert_row`: the cells of `ins` move between those of the row, which is first filled up to `pos`. */
    method InsertRow(ins: Row, pos: nat)
      requires Valid() && ins.Valid() && this != ins && Apart(cells, ins.cells)
      modifies this, ins
      ensures Valid() && ins.Valid() && ins.cells == []
      ensures |cells| == (if pos <= |old(cells)| then |old(cells)| else pos) + |old(ins.cells)|
      ensures pos <= |old(cells)| ==> cells == Inserted(old(cells), old(ins.cells), pos)
      ensures pos > |old(cells)| ==> cells[..|old(cells)|] == old(cells) && cells[pos..] == old(ins.cells)
      ensures pos > |old(cells)| ==> forall k :: |old(cells)| <= k < pos ==> fresh(cells[k]) && cells[k].text == ""
    {
      FillUp(pos);
      assert Apart(cells, ins.cells);
      InsertKeepsDistinct(cells, ins.cells, pos);
      cells := InsertAll(cells, ins.cells, pos);
      ins.cells := [];
    }

    /**
     * What `ft_row_printf_impl_` does to the row under the cursor: the cells of a new row are put into it, and the new
     * row is destroyed with the cells that it holds by then. Every cell, old or new, stays live in the row or is
     * destroyed, and never both.
     */
    method PutCells(newRow: Row, pos: nat, inserting: bool)
      requires Valid() && newRow.Valid() && this != newRow && Apart(cells, newRow.cells)
      requires !inserting ==> pos <= |cells|
      modifies this, newRow, cells`live, newRow.cells`live
      ensures Valid() && !newRow.live
      ensures forall c :: c in cells ==> c in old(cells) || c in old(newRow.cells) || fresh(c)
      ensures (pos <= |old(cells)| ==>
                cells == if inserting then Inserted(old(cells), old(newRow.cells), pos)
                         else Replaced(old(cells), old(newRow.cells), pos))
      ensures (pos > |old(cells)| ==> |cells| == pos + |old(newRow.cells)|
                                      && cells[..|old(cells)|] == old(cells) && cells[pos..] == old(newRow.cells))
      ensures newRow.cells == if inserting then [] else Displaced(old(cells), old(newRow.cells), pos)
      ensures forall c :: c in newRow.cells ==> !c.live && c !in cells
      ensures (pos <= |old(cells)| ==>
                multiset(cells) + multiset(newRow.cells) == multiset(old(cells)) + multiset(old(newRow.cells)))
    {
      hide Replaced, Displaced, Inserted, Distinct;
      if pos <= |cells| {
        InsertConserves<CellObject>(cells, newRow.cells, pos);
        ReplaceConserves<CellObject>(cells, newRow.cells, pos);
        OwnCells(newRow);
        InsertKeepsDistinct<CellObject>(cells, newRow.cells, pos);
        ReplaceKeepsDistinct<CellObject>(cells, newRow.cells, pos);
      }
      ghost var mine, given := cells, newRow.cells;
      if inserting {
        InsertRow(newRow, pos);
      } else {
        SwapRow(newRow, pos);
      }
      assert forall k :: 0 <= k < |newRow.cells| ==> newRow.cells[k] in mine || newRow.cells[k] in given;
      newRow.Destroy();
    }

    lemma OwnCells(other: Row)
      requires Valid() && other.Valid()
      ensures Distinct(cells) && Distinct(other.cells)
    {
    }

    /** The loop of `ft_row_erase_range` that destroys the cells. */
    method DestroyRange(left: nat, right: nat)
      requires Valid() && left <= right
      modifies cells`live
      ensures cells == old(cells) && live && LiveExcept(cells, InRange(cells, left, right))
    {
      var i := left;
      while i < |cells| && i <= right
        invariant left <= i && (i <= |cells| || i == left) && (i <= right + 1 || i == left)
        invariant cells == old(cells) && live && Distinct(cells)
        invariant forall k :: 0 <= k < |cells| ==> cells[k].live == !(left <= k < i)
      {
        cells[i].Destroy();
        i := i + 1;
      }
      RangeMembers<CellObject>(cells, left, right);
    }

    /**
     * `ft_row_erase_range`: the cells of the range are destroyed and leave the row. The count of cells to erase is
     * computed without a sign and wraps when the range starts behind the end of the row; the erasures then all fail.
     */
    method EraseRange(left: nat, right: nat)
      requires Valid() && |cells| < SIZE_T_RANGE && left < SIZE_T_RANGE && right < SIZE_T_RANGE
      modifies this, cells`live
      ensures Valid()
      ensures cells == ErasedRange(old(cells), left, right)
      ensures LiveExcept(old(cells), InRange(old(cells), left, right))
    {
      hide Distinct, ErasedRange, InRange, Wrapped;
      var colsN := |cells|;
      NothingErased<CellObject>(cells, left, right);
      if colsN == 0 || right < left {
        return;
      }
      RangeMembers<CellObject>(cells, left, right);
      DestroyRange(left, right);
      var last := if colsN - 1 < right then colsN - 1 else right;
      var nDestroy := Wrapped(last - left + 1);
      ErasedByTimes<CellObject>(cells, left, right, nDestroy);
      cells := EraseTimes(cells, left, nDestroy);
    }
  }

  lemma NothingErased<T>(s: seq<T>, left: nat, right: nat)
    ensures s == [] || right < left ==> ErasedRange(s, left, right) == s && InRange(s, left, right) == []
  {
  }

  /** What erasing at one place leaves is what erasing a range leaves. */
  lemma ErasedByTimes<T>(s: seq<T>, left: nat, right: nat, n: nat)
    requires s != [] && left <= right && left < SIZE_T_RANGE && |s| < SIZE_T_RANGE
    requires n == Wrapped((if |s| - 1 < right then |s| - 1 else right) - left + 1)
    ensures ErasedRange(s, left, right) == if left >= |s| then s else s[..left] + if left + n < |s| then s[left + n..] else []
  {
  }

  /** Which items stay and which are in the range, when all items are different. */
  lemma RangeMembers<T>(s: seq<T>, left: nat, right: nat)
    requires Distinct(s)
    ensures Distinct(ErasedRange(s, left, right)) && Apart(ErasedRange(s, left, right), InRange(s, left, right))
    ensures forall k :: 0 <= k < |s| ==> (s[k] in InRange(s, left, right) <==> left <= k <= right)
    ensures forall x :: x in ErasedRange(s, left, right) ==> x in s
  {
    var r, d := ErasedRange(s, left, right), InRange(s, left, right);
    forall k | 0 <= k < |s| && left <= k <= right ensures s[k] in d {
      assert d[k - left] == s[k];
    }
  }
}
