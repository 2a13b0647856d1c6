/** A sequence split at a separator: the lines of a cell's text and the columns of a row given as one string. */
module Fields {

  /** The position of the first `sep` at or after `from`, or the end; what `strchr` finds. */
  function IndexFrom<T(==)>(s: seq<T>, sep: T, from: nat): (i: nat)
    requires from <= |s|
    ensures from <= i <= |s|
    ensures sep !in s[from..i]
    ensures i < |s| ==> s[i] == sep
    decreases |s| - from
  {
    if from == |s| || s[from] == sep then from else IndexFrom(s, sep, from + 1)
  }

  /** The pieces of `s` between its separators, at least one; neighbouring separators enclose an empty piece. */
  ghost function Split<T>(s: seq<T>, sep: T): (fs: seq<seq<T>>)
    ensures fs != []
    decreases |s|
  {
    var i := IndexFrom(s, sep, 0);
    if i == |s| then [s] else [s[..i]] + Split(s[i + 1..], sep)
  }

  ghost function Join<T>(fs: seq<seq<T>>, sep: T): seq<T>
    requires fs != []
  {
    if |fs| == 1 then fs[0] else fs[0] + [sep] + Join(fs[1..], sep)
  }

  /** Joining the pieces gives the sequence back. */
  lemma {:induction false} JoinSplit<T>(s: seq<T>, sep: T)
    ensures Join(Split(s, sep), sep) == s
    decreases |s|
  {
    var i := IndexFrom(s, sep, 0);
    if i < |s| {
      JoinSplit(s[i + 1..], sep);
      assert Split(s, sep)[1..] == Split(s[i + 1..], sep);
      assert s == s[..i] + [sep] + s[i + 1..];
    }
  }

  /** No piece holds a separator. */
  lemma {:induction false} PiecesHaveNoSeparator<T>(s: seq<T>, sep: T, k: nat)
    requires k < |Split(s, sep)|
    ensures sep !in Split(s, sep)[k]
    decreases |s|
  {
    var i := IndexFrom(s, sep, 0);
    if i < |s| && k > 0 {
      PiecesHaveNoSeparator(s[i + 1..], sep, k - 1);
    } else {
      assert s[0..i] == s[..i];
    }
  }

  /** There is one piece more than there are separators. */
  lemma {:induction false} PieceCount<T>(s: seq<T>, sep: T)
    ensures |Split(s, sep)| == multiset(s)[sep] + 1
    decreases |s|
  {
    hide *;
    var i := IndexFrom(s, sep, 0);
    SplitFirst(s, sep);
    assert s[0..i] == s[..i];
    assert sep !in multiset(s[..i]);
    if i < |s| {
      PieceCount(s[i + 1..], sep);
      assert s == s[..i] + [sep] + s[i + 1..];
      assert multiset(s) == multiset(s[..i]) + multiset{sep} + multiset(s[i + 1..]);
    } else {
      assert s[..i] == s;
    }
  }

  /** The first piece and the rest. */
  lemma SplitFirst<T>(s: seq<T>, sep: T)
    ensures var i := IndexFrom(s, sep, 0);
            Split(s, sep) == if i == |s| then [s] else [s[..i]] + Split(s[i + 1..], sep)
  {
    hide IndexFrom;
  }

  lemma {:induction false} IndexIs<T>(s: seq<T>, sep: T, from: nat, n: nat)
    requires from <= n <= |s| && sep !in s[from..n] && (n < |s| ==> s[n] == sep)
    ensures IndexFrom(s, sep, from) == n
    decreases n - from
  {
    if from < n {
      assert s[from..n][0] == s[from] && s[from..n][1..] == s[from + 1..n];
      IndexIs(s, sep, from + 1, n);
    }
  }

  lemma SplitOne<T>(f: seq<T>, sep: T)
    requires sep !in f
    ensures Split(f, sep) == [f]
  {
    assert f[0..|f|] == f;
    IndexIs(f, sep, 0, |f|);
  }

  lemma SplitTwo<T>(f: seq<T>, rest: seq<T>, sep: T)
    requires sep !in f
    ensures Split(f + [sep] + rest, sep) == [f] + Split(rest, sep)
  {
    var s := f + [sep] + rest;
    assert s[0..|f|] == f && s[..|f|] == f && s[|f| + 1..] == rest;
    IndexIs(s, sep, 0, |f|);
  }

  /** The pieces are the only way to write the sequence as pieces without separators. */
  lemma {:induction false} SplitJoin<T>(fs: seq<seq<T>>, sep: T)
    requires fs != [] && forall k :: 0 <= k < |fs| ==> sep !in fs[k]
    ensures Split(Join(fs, sep), sep) == fs
  {
    if |fs| == 1 {
      SplitOne(fs[0], sep);
      assert fs == [fs[0]];
    } else {
      hide Split;
      SplitJoin(fs[1..], sep);
      SplitTwo(fs[0], Join(fs[1..], sep), sep);
      assert fs == [fs[0]] + fs[1..];
    }
  }

  // ---- The pieces as the source walks over them ----

  /** Where piece `k` starts. */
  ghost function Start<T>(s: seq<T>, sep: T, k: nat): (b: nat)
    requires k < |Split(s, sep)|
    ensures b <= |s|
    decreases k
  {
    if k == 0 then 0
    else
      var i := IndexFrom(s, sep, 0);
      i + 1 + Start(s[i + 1..], sep, k - 1)
  }

  lemma IndexFromTail<T>(s: seq<T>, sep: T, a: nat, b: nat)
    requires a + b <= |s|
    ensures IndexFrom(s, sep, a + b) == a + IndexFrom(s[a..], sep, b)
    decreases |s| - a - b
  {
    if a + b < |s| && s[a + b] != sep {
      IndexFromTail(s, sep, a, b + 1);
    }
  }

  lemma SliceOfTail<T>(s: seq<T>, a: nat, b: nat, e: nat)
    requires b <= e && a + e <= |s|
    ensures s[a..][b..e] == s[a + b..a + e]
  {
  }

  /** What `Start` and `Split` say of the sequence behind the first separator. */
  lemma BehindFirst<T>(s: seq<T>, sep: T, k: nat)
    requires 0 < k < |Split(s, sep)|
    ensures var i := IndexFrom(s, sep, 0);
            && i < |s| && |Split(s, sep)| == 1 + |Split(s[i + 1..], sep)|
            && Split(s, sep)[k] == Split(s[i + 1..], sep)[k - 1]
            && Start(s, sep, k) == i + 1 + Start(s[i + 1..], sep, k - 1)
  {
    hide Split, IndexFrom;
    SplitFirst(s, sep);
  }

  /** Piece `k` runs from its start to the next separator, and behind that the next piece starts. */
  ghost predicate RunsFromStart<T>(s: seq<T>, sep: T, k: nat)
    requires k < |Split(s, sep)|
  {
    var e := IndexFrom(s, sep, Start(s, sep, k));
    && s[Start(s, sep, k)..e] == Split(s, sep)[k]
    && (k + 1 < |Split(s, sep)| <==> e < |s|)
    && (k + 1 < |Split(s, sep)| ==> Start(s, sep, k + 1) == e + 1)
  }

  lemma FirstPiece<T>(s: seq<T>, sep: T)
    ensures RunsFromStart(s, sep, 0)
  {
    if 1 < |Split(s, sep)| {
      BehindFirst(s, sep, 1);
    }
  }

  lemma LaterPiece<T>(s: seq<T>, sep: T, k: nat)
    requires k + 1 < |Split(s, sep)| && IndexFrom(s, sep, 0) < |s|
    requires var t := s[IndexFrom(s, sep, 0) + 1..]; k < |Split(t, sep)| && RunsFromStart(t, sep, k)
    ensures RunsFromStart(s, sep, k + 1)
  {
    hide Split, Start;
    var i := IndexFrom(s, sep, 0);
    var t := s[i + 1..];
    var b := Start(t, sep, k);
    BehindFirst(s, sep, k + 1);
    IndexFromTail(s, sep, i + 1, b);
    SliceOfTail(s, i + 1, b, IndexFrom(t, sep, b));
    if k + 2 < |Split(s, sep)| {
      BehindFirst(s, sep, k + 2);
    }
  }

  lemma {:induction false} PieceAt<T>(s: seq<T>, sep: T, k: nat)
    requires k < |Split(s, sep)|
    ensures RunsFromStart(s, sep, k)
    decreases k
  {
    hide *;
    if k == 0 {
      FirstPiece(s, sep);
    } else {
      BehindFirst(s, sep, k);
      PieceAt(s[IndexFrom(s, sep, 0) + 1..], sep, k - 1);
      LaterPiece(s, sep, k - 1);
    }
  }
}
