/** The growable vectors of src/fort.c. */
module Vectors {

  function Larger(a: nat, b: nat): nat {
    if a > b then a else b
  }

  // ---- What the operations do to the items ----

  /** The items after `mv` was put over the items from `pos` on. */
  function Replaced<T>(cur: seq<T>, mv: seq<T>, pos: nat): seq<T>
    requires pos <= |cur|
  {
    cur[..pos] + mv + if pos + |mv| < |cur| then cur[pos + |mv|..] else []
  }

  /** The items that had to make room for `mv`. */
  function Displaced<T>(cur: seq<T>, mv: seq<T>, pos: nat): seq<T>
    requires pos <= |cur|
  {
    if pos + |mv| < |cur| then cur[pos..pos + |mv|] else cur[pos..]
  }

  /** The items after `ins` was put between them. */
  function Inserted<T>(cur: seq<T>, ins: seq<T>, pos: nat): seq<T>
    requires pos <= |cur|
  {
    cur[..pos] + ins + cur[pos..]
  }

  function Erased<T>(s: seq<T>, index: nat): seq<T>
    requires index < |s|
  {
    s[..index] + s[index + 1..]
  }

  /** Where every item is after some were replaced, and which items those were. */
  lemma ReplacedPlaces<T>(cur: seq<T>, mv: seq<T>, pos: nat)
    requires pos <= |cur|
    ensures var r, d := Replaced(cur, mv, pos), Displaced(cur, mv, pos);
            && |r| == (if pos + |mv| < |cur| then |cur| else pos + |mv|) && |r| + |d| == |cur| + |mv|
            && (forall k :: 0 <= k < pos ==> r[k] == cur[k])
            && (forall k :: 0 <= k < |mv| ==> r[pos + k] == mv[k])
            && (forall k :: pos + |mv| <= k < |cur| ==> r[k] == cur[k])
            && (forall k :: 0 <= k < |d| ==> d[k] == cur[pos + k])
  {
  }

  /** Where every item is after others were put in between. */
  lemma InsertedPlaces<T>(cur: seq<T>, ins: seq<T>, pos: nat)
    requires pos <= |cur|
    ensures var r := Inserted(cur, ins, pos);
            && |r| == |cur| + |ins|
            && (forall k :: 0 <= k < pos ==> r[k] == cur[k])
            && (forall k :: 0 <= k < |ins| ==> r[pos + k] == ins[k])
            && (forall k :: pos <= k < |cur| ==> r[|ins| + k] == cur[k])
  {
  }

  /** Where every item is after one was erased. */
  lemma ErasedPlaces<T>(s: seq<T>, index: nat)
    requires index < |s|
    ensures var r := Erased(s, index);
            && |r| == |s| - 1
            && (forall k :: 0 <= k < index ==> r[k] == s[k])
            && (forall k :: index < k < |s| ==> r[k - 1] == s[k])
  {
  }

  /** Nothing is lost or duplicated when items replace others. */
  lemma ReplaceConserves<T>(cur: seq<T>, mv: seq<T>, pos: nat)
    requires pos <= |cur|
    ensures multiset(Replaced(cur, mv, pos)) + multiset(Displaced(cur, mv, pos)) == multiset(cur) + multiset(mv)
  {
    var p, d := cur[..pos], Displaced(cur, mv, pos);
    var rest := if pos + |mv| < |cur| then cur[pos + |mv|..] else [];
    assert cur == p + d + rest && Replaced(cur, mv, pos) == p + mv + rest;
    hide *;
    ThreeItems(p, d, rest);
    ThreeItems(p, mv, rest);
  }

  lemma ThreeItems<T>(a: seq<T>, b: seq<T>, c: seq<T>)
    ensures multiset(a + b + c) == multiset(a) + multiset(b) + multiset(c)
  {
  }

  lemma InsertConserves<T>(cur: seq<T>, ins: seq<T>, pos: nat)
    requires pos <= |cur|
    ensures multiset(Inserted(cur, ins, pos)) == multiset(cur) + multiset(ins)
  {
    assert cur == cur[..pos] + cur[pos..];
  }

  /** `p` written over a stretch of `s`. */
  function Patched<T>(s: seq<T>, at: nat, p: seq<T>): (r: seq<T>)
    requires at + |p| <= |s|
    ensures |r| == |s|
  {
    s[..at] + p + s[at + |p|..]
  }

  /** `memcpy` and `memmove`: the stretches may overlap. */
  method MemMove<T>(dst: array<T>, to: nat, src: array<T>, from: nat, n: nat)
    requires to + n <= dst.Length && from + n <= src.Length
    modifies dst
    ensures dst[..] == Patched(old(dst[..]), to, old(src[from..from + n]))
  {
    forall i | 0 <= i < n {
      dst[to + i] := src[from + i];
    }
  }

  /** `all` holds the items, and `mv` from a place behind them on; nothing is said of the places in between. */
  ghost predicate Overhangs<T>(cur: seq<T>, mv: seq<T>, pos: nat, all: seq<T>)
    requires |cur| < pos
  {
    |all| == pos + |mv| && all[..|cur|] == cur && all[pos..] == mv
  }

  /** What writing over the items looks like when only the first ones count, and what it writes over. */
  lemma SwappedItems<T>(data: seq<T>, size: nat, mv: seq<T>, pos: nat)
    requires size <= |data| && pos + |mv| <= |data|
    ensures var n := if size > pos + |mv| then size else pos + |mv|;
            if pos <= size then Patched(data, pos, mv)[..n] == Replaced(data[..size], mv, pos)
            else Overhangs(data[..size], mv, pos, Patched(data, pos, mv)[..n])
    ensures var k := if size <= pos then 0 else if size - pos < |mv| then size - pos else |mv|;
            pos <= size ==> data[pos..pos + k] == Displaced(data[..size], mv, pos)
  {
  }

  lemma NothingSwapped<T>(cur: seq<T>, pos: nat)
    ensures pos <= |cur| ==> Replaced(cur, [], pos) == cur && Displaced(cur, [], pos) == []
  {
  }

  /** What moving the items behind `pos` up by one place and filling the gap looks like. */
  lemma ShiftedItems<T>(data: seq<T>, size: nat, item: T, pos: nat)
    requires pos < size < |data|
    ensures Patched(data, pos + 1, data[pos..size])[pos := item][..size + 1] == Inserted(data[..size], [item], pos)
  {
  }

  /** The three copies of `vector_swap`. */
  method Exchange<T(0)>(cur: array<T>, pos: nat, mv: array<T>, mvSz: nat, newMvSz: nat)
    requires cur != mv && newMvSz <= mvSz <= mv.Length && pos + mvSz <= cur.Length
    modifies cur, mv
    ensures cur[..] == Patched(old(cur[..]), pos, old(mv[..mvSz]))
    ensures mv[..newMvSz] == old(cur[pos..pos + newMvSz])
  {
    ghost var displaced, moved := cur[pos..pos + newMvSz], mv[..mvSz];
    var tmp := new T[newMvSz];
    MemMove(tmp, 0, cur, pos, newMvSz);
    assert tmp[0..newMvSz] == displaced && mv[0..mvSz] == moved;
    MemMove(cur, pos, mv, 0, mvSz);
    assert tmp[0..newMvSz] == displaced;
    MemMove(mv, 0, tmp, 0, newMvSz);
  }

  class Vector<T(0)> {
    var data: array<T>
    var size: nat

    ghost predicate Valid()
      reads this
    {
      size <= data.Length
    }

    ghost function Contents(): (items: seq<T>)
      requires Valid()
      reads this, data
    {
      data[..size]
    }

    function Capacity(): nat
      reads this
    {
      data.Length
    }

    /** `create_vector` */
    constructor (capacity: nat)
      ensures Valid() && Contents() == [] && Capacity() == capacity && fresh(data)
    {
      data := new T[capacity];
      size := 0;
    }

    /** `vector_reallocate_`: the items keep their places. */
    method Reallocate(newCapacity: nat)
      requires Valid() && newCapacity > Capacity()
      modifies this
      ensures Valid() && Contents() == old(Contents()) && Capacity() == newCapacity && fresh(data) && size == old(size)
    {
      var moved := new T[newCapacity];
      forall i | 0 <= i < size {
        moved[i] := data[i];
      }
      data := moved;
    }

    /** `vector_at`; the source's NULL is the index behind the end. */
    method At(index: nat) returns (item: T)
      requires Valid() && index < size
      ensures item == Contents()[index]
    {
      item := data[index];
    }

    /** `vector_push`; a full vector doubles its capacity, which must not be zero then. */
    method Push(item: T)
      requires Valid() && (size == Capacity() ==> Capacity() > 0)
      modifies this, data
      ensures Valid() && Contents() == old(Contents()) + [item]
      ensures Capacity() == if old(size) == old(Capacity()) then 2 * old(Capacity()) else old(Capacity())
      ensures data == old(data) || fresh(data)
    {
      if size == data.Length {
        Reallocate(data.Length * 2);
      }
      data[size] := item;
      size := size + 1;
    }

    /** `vector_insert`; behind the end, the places in between hold what was in memory there. */
    method Insert(item: T, pos: nat)
      requires Valid()
      modifies this, data
      ensures Valid() && (data == old(data) || fresh(data))
      ensures Capacity() == Larger(old(Capacity()), Larger(pos + 1, old(size) + 1))
      ensures pos <= |old(Contents())| ==> Contents() == Inserted(old(Contents()), [item], pos)
      ensures pos > |old(Contents())| ==> Overhangs(old(Contents()), [item], pos, Contents())
    {
      hide Inserted, Overhangs;
      var neededCapacity := if pos + 1 > size + 1 then pos + 1 else size + 1;
      if data.Length < neededCapacity {
        Reallocate(neededCapacity);
      }
      if pos >= size {
        InsertBehind(item, pos);
      } else {
        InsertInside(item, pos);
      }
    }

    /** The branch of `vector_insert` that moves no item. */
    method InsertBehind(item: T, pos: nat)
      requires Valid() && size <= pos < data.Length
      modifies `size, data
      ensures Valid()
      ensures pos == |old(Contents())| ==> Contents() == Inserted(old(Contents()), [item], pos)
      ensures pos > |old(Contents())| ==> Overhangs(old(Contents()), [item], pos, Contents())
    {
      data[pos] := item;
      size := pos + 1;
    }

    /** The branch that moves the items behind the place. */
    method InsertInside(item: T, pos: nat)
      requires Valid() && pos < size < data.Length
      modifies `size, data
      ensures Valid() && Contents() == Inserted(old(Contents()), [item], pos)
    {
      hide Inserted;
      ShiftedItems(data[..], size, item, pos);
      assert data[pos..size] == data[..][pos..size] && data[..][..size] == data[..size];
      MemMove(data, pos + 1, data, pos, size - pos);
      data[pos] := item;
      size := size + 1;
    }

    /** `vector_split`: the items from `pos` on move to a new vector. */
    method Split(pos: nat) returns (tail: Vector<T>)
      requires Valid()
      modifies this
      ensures Valid() && data == old(data)
      ensures fresh(tail) && fresh(tail.data) && tail.Valid()
      ensures if pos < |old(Contents())|
              then Contents() == old(Contents())[..pos] && tail.Contents() == old(Contents())[pos..]
              else Contents() == old(Contents()) && tail.Contents() == []
    {
      var trailing := if size > pos then size - pos else 0;
      tail := new Vector(trailing);
      if trailing == 0 {
        return;
      }
      forall i | 0 <= i < trailing {
        tail.data[i] := data[pos + i];
      }
      tail.size := trailing;
      size := pos;
    }

    /** `vector_swap`: the items of `mv` go over those from `pos` on, which go to `mv`. */
    method Swap(mv: Vector<T>, pos: nat)
      requires Valid() && mv.Valid() && this != mv && data != mv.data
      modifies this, data, mv, mv.data
      ensures Valid() && mv.Valid() && mv.data == old(mv.data) && (data == old(data) || fresh(data))
      ensures Capacity() == if old(mv.size) == 0 then old(Capacity()) else Larger(old(Capacity()), pos + old(mv.size))
      ensures (pos <= |old(Contents())| ==>
                && Contents() == Replaced(old(Contents()), old(mv.Contents()), pos)
                && mv.Contents() == Displaced(old(Contents()), old(mv.Contents()), pos))
      ensures (pos > |old(Contents())| ==>
                && mv.Contents() == []
                && if old(mv.Contents()) == [] then Contents() == old(Contents())
                   else Overhangs(old(Contents()), old(mv.Contents()), pos, Contents()))
    {
      hide Replaced, Displaced, Overhangs, Patched;
      var curSz, mvSz := size, mv.size;
      NothingSwapped(data[..size], pos);
      if mvSz == 0 {
        return;
      }
      var minTargSize := pos + mvSz;
      if data.Length < minTargSize {
        Reallocate(minTargSize);
      }
      var newMvSz := 0;
      if curSz > pos {
        newMvSz := if curSz - pos < mvSz then curSz - pos else mvSz;
      }
      SwappedItems(data[..], size, mv.data[..mvSz], pos);
      assert data[..][..size] == data[..size] && data[..][pos..pos + newMvSz] == data[pos..pos + newMvSz];
      Exchange(data, pos, mv.data, mvSz, newMvSz);
      size := if size > minTargSize then size else minTargSize;
      mv.size := newMvSz;
    }

    /** `vector_clear` */
    method Clear()
      requires Valid()
      modifies this
      ensures Valid() && Contents() == [] && data == old(data)
    {
      size := 0;
    }

    /** `vector_erase`: an error if there is no such item. */
    method Erase(index: nat) returns (ok: bool)
      requires Valid()
      modifies this, data
      ensures Valid() && data == old(data) && (ok <==> index < |old(Contents())|)
      ensures Contents() == if ok then Erased(old(Contents()), index) else old(Contents())
    {
      if size == 0 || index >= size {
        return false;
      }
      forall i | index <= i < size - 1 {
        data[i] := data[i + 1];
      }
      size := size - 1;
      return true;
    }
  }
}
