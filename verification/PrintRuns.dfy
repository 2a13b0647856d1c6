/**
 * What a series of print calls of src/fort.c does to a conversion context: `print_n_strings` prints all or nothing,
 * `ft_nprint` has a test of its own, and the first call that fails ends the series.
 */
module PrintRuns {
  import opened Units

  const INT_MAX: nat := 0x7fff_ffff

  /** The number of values of a `size_t`. */
  const WORD: nat := 0x1_0000_0000_0000_0000

  /** A difference or sum as a `size_t` holds it. */
  function Wrapped(n: int): (r: nat)
    ensures r < WORD && (0 <= n < WORD ==> r == n)
  {
    n % WORD
  }

  /**
   * What was printed, the room that the context believes to be left, whether the end of the string was written, and
   * whether no call has failed yet.
   */
  datatype PrintState = PrintState(out: seq<Unit>, avail: nat, closed: bool, ok: bool)

  /** A call that returns -1: `ft_nprint` counts the end of the string on the wrong side of its comparison. */
  predicate Refused(u: Unit, avail: nat) {
    if u.Written? then Wrapped(avail + 1) < |u.text|
    else avail <= |u.Content()| || |u.Content()| > INT_MAX
  }

  function Step(st: PrintState, u: Unit): PrintState {
    if !st.ok then st
    else if Refused(u, st.avail) then st.(ok := false)
    else PrintState(st.out + [u], Wrapped(st.avail - |u.Content()|), st.closed || u.Written? || u.Content() != "", true)
  }

  ghost function Run(us: seq<Unit>, st: PrintState): PrintState {
    if us == [] then st else Run(us[1..], Step(st, us[0]))
  }

  lemma {:induction false} RunFailed(us: seq<Unit>, st: PrintState)
    requires !st.ok
    ensures Run(us, st) == st
  {
    if us != [] {
      RunFailed(us[1..], st);
    }
  }

  lemma RunSingle(u: Unit, st: PrintState)
    ensures Run([u], st) == Step(st, u)
  {
    hide Step;
    assert [u][1..] == [];
  }

  lemma {:induction false} RunConcat(a: seq<Unit>, b: seq<Unit>, st: PrintState)
    ensures Run(a + b, st) == Run(b, Run(a, st))
  {
    hide Step;
    if a == [] {
      assert a + b == b;
    } else {
      assert (a + b)[1..] == a[1..] + b && (a + b)[0] == a[0];
      RunConcat(a[1..], b, Step(st, a[0]));
    }
  }

  /** A series without a failure prints everything; in any case the output only grows. */
  lemma {:induction false} RunPrints(us: seq<Unit>, st: PrintState)
    ensures st.out <= Run(us, st).out <= st.out + us
    ensures Run(us, st).ok ==> st.ok && Run(us, st).out == st.out + us
  {
    hide Refused, Unit.Content;
    if us == [] {
      assert st.out + us == st.out;
    } else {
      RunPrints(us[1..], Step(st, us[0]));
      if !Step(st, us[0]).ok {
        RunFailed(us[1..], Step(st, us[0]));
      }
      assert us == [us[0]] + us[1..];
      Assoc(st.out, [us[0]], us[1..]);
    }
  }

  lemma RunGrows(us: seq<Unit>, st: PrintState)
    ensures |Bytes(st.out)| <= |Bytes(Run(us, st).out)|
  {
    hide Bytes, Run, Step;
    RunPrints(us, st);
    var all := Run(us, st).out;
    assert all == st.out + all[|st.out|..];
    Concat(st.out, all[|st.out|..]);
  }

  /** The end of the string was written wherever something was printed. */
  lemma {:induction false} RunCloses(us: seq<Unit>, st: PrintState)
    requires st.closed || Bytes(st.out) == ""
    ensures Run(us, st).closed || Bytes(Run(us, st).out) == ""
  {
    hide Refused, Unit.Content, Bytes;
    if us != [] {
      Concat(st.out, [us[0]]);
      Single(us[0]);
      RunCloses(us[1..], Step(st, us[0]));
    }
  }

  /** A piece of memory that is `len` bytes long holds what was printed and what is still to come, and its end. */
  ghost predicate Reaches(st: PrintState, us: seq<Unit>, len: nat) {
    |Bytes(st.out)| + |Bytes(us)| < len
  }

  /** What the next call of a series does to the whole series `us`: `done` was printed, `piece` comes next. */
  lemma RunNext(st: PrintState, done: seq<Unit>, piece: seq<Unit>, us: seq<Unit>, len: nat)
    requires done + piece <= us && Reaches(st, us, len)
    ensures Run(piece, Run(done, st)) == Run(done + piece, st)
    ensures Run(done, st).ok ==> Reaches(Run(done, st), piece, len)
    ensures !Run(done + piece, st).ok ==> Run(us, st) == Run(done + piece, st)
    ensures |Bytes(done + piece)| == |Bytes(done)| + |Bytes(piece)|
  {
    var rest := us[|done + piece|..];
    assert us == done + piece + rest;
    hide *;
    RunConcat(done, piece, st);
    RunConcat(done + piece, rest, st);
    RunPrints(done, st);
    if !Run(done + piece, st).ok {
      RunFailed(rest, Run(done + piece, st));
    }
    RunReaches(st, done, piece, rest, len);
    Concat(done, piece);
  }

  /** The same for the first call of a series. */
  lemma RunFirst(st: PrintState, piece: seq<Unit>, us: seq<Unit>, len: nat)
    requires piece <= us && Reaches(st, us, len) && st.ok
    ensures Reaches(st, piece, len)
    ensures !Run(piece, st).ok ==> Run(us, st) == Run(piece, st)
  {
    assert [] + piece == piece;
    hide *;
    RunNothing(st);
    RunNext(st, [], piece, us, len);
  }

  lemma RunReaches(st: PrintState, done: seq<Unit>, piece: seq<Unit>, rest: seq<Unit>, len: nat)
    requires Reaches(st, done + piece + rest, len)
    ensures Run(done, st).ok ==> Reaches(Run(done, st), piece, len)
  {
    hide Bytes, Run;
    RunPrints(done, st);
    Concat(done + piece, rest);
    Concat(done, piece);
    Concat(st.out, done);
  }

  lemma RunNothing(st: PrintState)
    ensures Run([], st) == st
  {
  }

  // ---- When a series leaves the buffer ----

  /** A text of `n` bytes that starts inside the buffer and ends, or lets its terminator end, one byte too far. */
  predicate MeetsEnd(start: int, n: nat, size: nat) {
    start < size <= start + n <= size + 1
  }

  /** Some text of a series that starts at byte `start` meets the end of a buffer of `size` bytes. */
  ghost predicate Overruns(us: seq<Unit>, start: nat, size: nat) {
    us != [] && (|| (us[0].Written? && MeetsEnd(start, |us[0].text|, size))
                 || Overruns(us[1..], start + |us[0].Content()|, size))
  }

  lemma {:induction false} OverrunsConcat(a: seq<Unit>, b: seq<Unit>, start: nat, size: nat)
    ensures Overruns(a + b, start, size) <==> Overruns(a, start, size) || Overruns(b, start + |Bytes(a)|, size)
  {
    hide Unit.Content, MeetsEnd;
    if a == [] {
      assert a + b == b;
    } else {
      assert (a + b)[1..] == a[1..] + b && (a + b)[0] == a[0];
      OverrunsConcat(a[1..], b, start + |a[0].Content()|, size);
      assert |Bytes(a)| == |a[0].Content()| + |Bytes(a[1..])|;
    }
  }

  /** Nothing that starts behind the end meets it. */
  lemma {:induction false} LateIsHarmless(us: seq<Unit>, start: nat, size: nat)
    requires size <= start
    ensures !Overruns(us, start, size)
  {
    hide Unit.Content;
    if us != [] {
      LateIsHarmless(us[1..], start + |us[0].Content()|, size);
    }
  }

  /** The context is inside its buffer and knows the room that is left. */
  predicate Inside(st: PrintState, p: nat, size: nat) {
    st.ok && p < size < WORD - 1 && st.avail == size - p
  }

  /**
   * The outcome of a series that starts inside the buffer. If no text of it meets the end, it stays inside, and it
   * succeeds exactly when the buffer holds it all and the end of the string. Otherwise it leaves the buffer.
   */
  lemma {:induction false} RunOutcome(us: seq<Unit>, st: PrintState, size: nat)
    requires Inside(st, |Bytes(st.out)|, size) && |Bytes(us)| <= INT_MAX
    ensures var p, end := |Bytes(st.out)|, Run(us, st);
            if Overruns(us, p, size) then |Bytes(end.out)| >= size
            else (end.ok <==> p + |Bytes(us)| < size) && |Bytes(end.out)| < size
  {
    hide Bytes, Unit.Content, Wrapped;
    if us == [] {
      NothingMeasure();
    } else {
      var u, st' := us[0], Step(st, us[0]);
      var p := |Bytes(st.out)|;
      var p' := p + |u.Content()|;
      SplitFirst(us);
      Single(u);
      Concat(st.out, [u]);
      WrittenContent(u);
      if !st'.ok {
        RunFailed(us[1..], st');
        LateIsHarmless(us[1..], p', size);
      } else if p' < size {
        RunOutcome(us[1..], st', size);
      } else {
        RunGrows(us[1..], st');
      }
    }
  }

  lemma SplitFirst(us: seq<Unit>)
    requires us != []
    ensures |Bytes(us)| == |us[0].Content()| + |Bytes(us[1..])|
  {
  }

  lemma WrittenContent(u: Unit)
    ensures u.Written? ==> u.Content() == u.text
  {
  }
}
