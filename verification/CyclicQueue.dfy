/** The bounded cyclic queue of include/queue.h: `l` is the read index, `r` the write index, and one
    slot always stays unused so that a full and an empty queue differ. */
module CyclicQueue {

  /** The fields of `struct Queue` as a value; the source's `size` field is the number of slots. */
  datatype Ring<T> = Ring(l: nat, r: nat, slots: seq<T>) {

    ghost predicate Valid() {
      l < |slots| && r < |slots|
    }

    /** The queue's contents: the slots from `l` up to `r`, going round the end. */
    ghost function Items(): (s: seq<T>)
      requires Valid()
      ensures |s| < |slots|
    {
      if l <= r then slots[l..r] else slots[l..] + slots[..r]
    }

    function Next(i: nat): nat
      requires |slots| > 0
    {
      Modulo(i + 1, |slots|)
    }

    predicate IsFull()
      requires |slots| > 0
    {
      Next(r) == l
    }

    predicate IsEmpty() {
      l == r
    }

    /** The ring after a successful `insert_queue`. */
    function Insert(x: T): Ring<T>
      requires r < |slots|
    {
      Ring(l, Next(r), slots[r := x])
    }

    /** The ring after `pop_queue`, which advances even when the queue is empty. */
    function Pop(): Ring<T>
      requires |slots| > 0
    {
      Ring(Next(l), r, slots)
    }

    function Size(): int
      requires |slots| > 0
    {
      Modulo(r - l + |slots|, |slots|)
    }
  }

  /** The source's `%`, on operands that are never negative; below `2 * n` it subtracts `n` at most once. */
  function Modulo(a: int, n: nat): (m: nat)
    requires n > 0
    ensures 0 <= a < n ==> m == a
    ensures n <= a < 2 * n ==> m == a - n
  {
    Wraps(a, n);
    a % n
  }

  lemma Wraps(a: int, n: nat)
    requires n > 0
    ensures 0 <= a < n ==> a % n == a
    ensures n <= a < 2 * n ==> a % n == a - n
  {
  }

  // ---- The ring is a bounded sequence ----

  /** Full and empty are told apart exactly, and `getSize` is the length across the wrap-around. */
  lemma Observers<T>(q: Ring<T>)
    requires q.Valid()
    ensures q.IsEmpty() <==> q.Items() == []
    ensures q.IsFull() <==> |q.Items()| == |q.slots| - 1
    ensures q.Size() == |q.Items()|
  {
  }

  lemma InsertAppends<T>(q: Ring<T>, x: T)
    requires q.Valid() && !q.IsFull()
    ensures q.Insert(x).Valid() && |q.Insert(x).slots| == |q.slots|
    ensures q.Insert(x).Items() == q.Items() + [x]
  {
    var q' := q.Insert(x);
    if q.r == |q.slots| - 1 {
      assert q'.r == 0;
      assert q'.slots[q.l..] == q.slots[q.l..q.r] + [x];
    } else {
      assert q'.r == q.r + 1;
      if q.l <= q.r {
        assert q'.slots[q.l..q'.r] == q.slots[q.l..q.r] + [x];
      } else {
        assert q'.slots[..q'.r] == q.slots[..q.r] + [x];
        assert q'.slots[q.l..] == q.slots[q.l..];
      }
    }
  }

  lemma PopRemoves<T>(q: Ring<T>)
    requires q.Valid() && !q.IsEmpty()
    ensures q.Pop().Valid() && |q.Pop().slots| == |q.slots|
    ensures q.Items() == [q.slots[q.l]] + q.Pop().Items()
  {
    if q.l == |q.slots| - 1 {
      assert q.Pop().l == 0;
      assert q.slots[q.l..] == [q.slots[q.l]];
    } else {
      assert q.Pop().l == q.l + 1;
    }
  }

  /** `pop_queue` checks for emptiness but goes on: popping an empty queue makes it look full of stale slots.
      So popping removes the first item exactly when the queue is not empty, as long as there is any capacity. */
  lemma PopOnEmpty<T>(q: Ring<T>)
    requires q.Valid()
    ensures q.Pop().Valid()
    ensures q.IsEmpty() ==> |q.Pop().Items()| == |q.slots| - 1
    ensures |q.slots| > 1 ==> (|q.Pop().Items()| < |q.Items()| <==> !q.IsEmpty())
  {
    if q.IsEmpty() {
      if q.l == |q.slots| - 1 {
        assert q.Pop().l == 0;
      } else {
        assert q.Pop().l == q.l + 1;
      }
    } else {
      PopRemoves(q);
    }
  }

  // ---- Whole histories ----

  datatype Op<T> = Put(item: T) | Take | Ask

  /** What a caller sees: a status, an item, or the answers of the three observers. */
  datatype Answer<T> = Status(code: int) | Item(item: T) | State(full: bool, empty: bool, size: int)

  ghost function RunRing<T>(q: Ring<T>, ops: seq<Op<T>>): seq<Answer<T>>
    requires q.Valid()
    decreases |ops|
  {
    if ops == [] then []
    else match ops[0]
      case Put(x) =>
        if q.IsFull() then [Status(-1)] + RunRing(q, ops[1..])
        else InsertAppends(q, x); [Status(0)] + RunRing(q.Insert(x), ops[1..])
      case Take =>
        PopOnEmpty(q); [Item(q.slots[q.l])] + RunRing(q.Pop(), ops[1..])
      case Ask =>
        [State(q.IsFull(), q.IsEmpty(), q.Size())] + RunRing(q, ops[1..])
  }

  /** The specification: a sequence of at most `capacity` items. */
  ghost function RunBounded<T>(s: seq<T>, capacity: nat, ops: seq<Op<T>>): seq<Answer<T>>
    requires Guarded(s, capacity, ops)
    decreases |ops|
  {
    if ops == [] then []
    else match ops[0]
      case Put(x) =>
        if |s| == capacity then [Status(-1)] + RunBounded(s, capacity, ops[1..])
        else [Status(0)] + RunBounded(s + [x], capacity, ops[1..])
      case Take => [Item(s[0])] + RunBounded(s[1..], capacity, ops[1..])
      case Ask => [State(|s| == capacity, s == [], |s|)] + RunBounded(s, capacity, ops[1..])
  }

  /** No `Take` reaches an empty queue; the server's wait loops guarantee this. */
  ghost predicate Guarded<T>(s: seq<T>, capacity: nat, ops: seq<Op<T>>)
    decreases |ops|
  {
    ops == [] ||
    match ops[0]
    case Put(x) => Guarded(if |s| == capacity then s else s + [x], capacity, ops[1..])
    case Take => s != [] && Guarded(s[1..], capacity, ops[1..])
    case Ask => Guarded(s, capacity, ops[1..])
  }

  /** Every guarded history gives the same answers on the ring as on the bounded sequence. */
  lemma {:induction false} HistoryRefinesBoundedSequence<T>(q: Ring<T>, ops: seq<Op<T>>)
    requires q.Valid() && Guarded(q.Items(), |q.slots| - 1, ops)
    ensures RunRing(q, ops) == RunBounded(q.Items(), |q.slots| - 1, ops)
    decreases |ops|
  {
    hide Ring.Items, Ring.Insert, Ring.Pop, Ring.Size, Ring.IsFull, Ring.IsEmpty;
    Observers(q);
    if ops != [] {
      match ops[0]
      case Put(x) =>
        if q.IsFull() {
          HistoryRefinesBoundedSequence(q, ops[1..]);
        } else {
          InsertAppends(q, x);
          HistoryRefinesBoundedSequence(q.Insert(x), ops[1..]);
        }
      case Take =>
        assert !q.IsEmpty();
        PopRemoves(q);
        assert q.Pop().Items() == q.Items()[1..] && q.slots[q.l] == q.Items()[0];
        HistoryRefinesBoundedSequence(q.Pop(), ops[1..]);
      case Ask =>
        HistoryRefinesBoundedSequence(q, ops[1..]);
    }
  }

  /** Slots outside the live window, and where the window lies, never influence an answer. */
  lemma StaleSlotsAreInvisible<T>(q: Ring<T>, q': Ring<T>, ops: seq<Op<T>>)
    requires q.Valid() && q'.Valid() && |q.slots| == |q'.slots| && q.Items() == q'.Items()
    requires Guarded(q.Items(), |q.slots| - 1, ops)
    ensures RunRing(q, ops) == RunRing(q', ops)
  {
    HistoryRefinesBoundedSequence(q, ops);
    HistoryRefinesBoundedSequence(q', ops);
  }

  // ---- The mutable queue ----

  class Queue<T(0)> {
    var l: int
    var r: int
    var size: int
    var queue: array<T>

    ghost predicate Valid()
      reads this
    {
      0 <= l < size && 0 <= r < size && queue.Length == size
    }

    ghost function View(): Ring<T>
      reads this, queue
      requires Valid()
    {
      Ring(l, r, queue[..])
    }

    ghost function Contents(): seq<T>
      reads this, queue
      requires Valid()
    {
      View().Items()
    }

    /** `init_queue`: one slot more than the capacity asked for; the slots are not initialised. */
    constructor (capacity: nat)
      ensures Valid() && fresh(queue) && size == capacity + 1 && Contents() == []
    {
      l := 0;
      r := 0;
      size := capacity + 1;
      queue := new T[capacity + 1];
    }

    method Next(i: int) returns (j: int)
      requires Valid() && 0 <= i < size
      ensures 0 <= j < size && j == if i == size - 1 then 0 else i + 1
    {
      Wraps(i + 1, size);
      j := (i + 1) % size;
    }

    method IsFull() returns (full: bool)
      requires Valid()
      ensures full <==> |Contents()| == size - 1
      ensures full == View().IsFull()
    {
      var n := Next(r);
      full := n == l;
      Observers(View());
    }

    method IsEmpty() returns (empty: bool)
      requires Valid()
      ensures empty <==> Contents() == []
    {
      empty := l == r;
      Observers(View());
    }

    /** Returns -1 and changes nothing when the queue is full. */
    method Insert(x: T) returns (status: int)
      requires Valid()
      modifies `r, queue
      ensures Valid()
      ensures |old(Contents())| == size - 1 ==> status == -1 && Contents() == old(Contents())
      ensures |old(Contents())| < size - 1 ==> status == 0 && Contents() == old(Contents()) + [x]
    {
      ghost var before := View();
      var full := IsFull();
      if full {
        return -1;
      }
      InsertAppends(before, x);
      queue[r] := x;
      r := Next(r);
      assert View() == before.Insert(x);
      Observers(before);
      return 0;
    }

    /** On an empty queue the source reports an error and still advances, so the queue then looks full. */
    method Pop() returns (x: T)
      requires Valid()
      modifies `l
      ensures Valid()
      ensures x == old(queue[l]) && View() == old(View()).Pop()
      ensures old(Contents()) != [] ==> [x] + Contents() == old(Contents())
      ensures old(Contents()) == [] ==> |Contents()| == size - 1
    {
      ghost var before := View();
      x := queue[l];
      l := Next(l);
      assert View() == before.Pop();
      Observers(before);
      PopOnEmpty(before);
      if !before.IsEmpty() {
        PopRemoves(before);
      }
    }

    method GetSize() returns (n: int)
      requires Valid()
      ensures n == |Contents()|
    {
      n := (r - l + size) % size;
      Observers(View());
      Wraps(r - l + size, size);
    }
  }
}
