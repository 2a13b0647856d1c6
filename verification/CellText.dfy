/** Measuring the text of a cell: the string buffers of src/fort.c, for single-byte characters. */
module CellText {
  import opened Common
  import opened Fields

  const NEWLINE := '\n'

  /** The lines of a cell's text. */
  ghost function Lines(text: string): (lines: seq<string>) {
    Split(text, NEWLINE)
  }

  /** The lines of a text are what stands between its newlines. */
  lemma LinesAreBetweenNewlines(text: string)
    ensures Join(Lines(text), '\n') == text && |Lines(text)| == multiset(text)['\n'] + 1
    ensures forall k :: 0 <= k < |Lines(text)| ==> '\n' !in Lines(text)[k]
  {
    JoinSplit(text, NEWLINE);
    PieceCount(text, NEWLINE);
    forall k | 0 <= k < |Lines(text)| ensures '\n' !in Lines(text)[k] {
      PiecesHaveNoSeparator(text, NEWLINE, k);
    }
  }

  /** The library's `strchr`, with a position for the pointer and `None` for NULL. */
  function StrChr(s: string, ch: char, from: nat): Option<nat>
    requires from <= |s|
  {
    var i := IndexFrom(s, ch, from);
    if i == |s| then None else Some(i)
  }

  /** `strchr_count`: the number of occurrences of a character. */
  method StrChrCount(s: string, ch: char) returns (count: nat)
    ensures count == multiset(s)[ch]
  {
    hide Occurrences, IndexFrom;
    count := 0;
    var p := StrChr(s, ch, 0);
    CountFrom(s, ch, 0);
    while p.Some?
      invariant p.Some? ==> p.value < |s| && Occurrences(s, ch, 0) == count + 1 + Occurrences(s, ch, p.value + 1)
      invariant p.None? ==> Occurrences(s, ch, 0) == count
      decreases if p.Some? then |s| - p.value else 0
    {
      count := count + 1;
      CountFrom(s, ch, p.value + 1);
      p := StrChr(s, ch, p.value + 1);
    }
    AllOccurrences(s, ch);
  }

  /** How often a character occurs at or behind a position. */
  ghost function Occurrences(s: string, ch: char, from: nat): nat
    requires from <= |s|
  {
    multiset(s[from..])[ch]
  }

  lemma AllOccurrences(s: string, ch: char)
    ensures Occurrences(s, ch, 0) == multiset(s)[ch]
  {
    assert s[0..] == s;
  }

  lemma CountFrom(s: string, ch: char, from: nat)
    requires from <= |s|
    ensures var i := IndexFrom(s, ch, from);
            Occurrences(s, ch, from) == if i == |s| then 0 else 1 + Occurrences(s, ch, i + 1)
  {
    var i := IndexFrom(s, ch, from);
    assert ch !in multiset(s[from..i]);
    if i < |s| {
      assert s[from..] == s[from..i] + [ch] + s[i + 1..];
    } else {
      assert s[from..] == s[from..i];
    }
  }

  /** `str_n_substring_beg`: where piece `n` starts, if there are so many pieces. */
  method StrNSubstringBeg(s: string, sep: char, n: nat) returns (beg: Option<nat>)
    ensures beg == if n < |Split(s, sep)| then Some(Start(s, sep, n)) else None
  {
    hide Split, Start, IndexFrom;
    PieceAt(s, sep, 0);
    if n == 0 {
      StartOfFirst(s, sep);
      return Some(0);
    }
    StartOfFirst(s, sep);
    var p := StrChr(s, sep, 0);
    var m := n - 1;
    while m > 0
      invariant 0 <= m < n
      invariant n - m <= |Split(s, sep)|
      invariant p == if n - m < |Split(s, sep)| then Some(Start(s, sep, n - m) - 1) else None
    {
      if p.None? {
        return None;
      }
      m := m - 1;
      PieceAt(s, sep, n - m - 1);
      p := StrChr(s, sep, p.value + 1);
    }
    return if p.Some? then Some(p.value + 1) else None;
  }

  lemma StartOfFirst(s: string, sep: char)
    ensures Start(s, sep, 0) == 0
  {
  }

  /** `str_n_substring`: the bounds of piece `n`. */
  method StrNSubstring(s: string, sep: char, n: nat) returns (bounds: Option<(nat, nat)>)
    ensures bounds.Some? <==> n < |Split(s, sep)|
    ensures bounds.Some? ==> bounds.value.0 <= bounds.value.1 <= |s|
                             && s[bounds.value.0..bounds.value.1] == Split(s, sep)[n]
  {
    hide Split, Start, IndexFrom;
    var beg := StrNSubstringBeg(s, sep, n);
    if beg.None? {
      return None;
    }
    PieceAt(s, sep, n);
    var end := StrChr(s, sep, beg.value);
    return Some((beg.value, if end.Some? then end.value else |s|));
  }

  // ---- Height and width of a text ----

  ghost function TextHeight(text: string): nat {
    if text == "" then 0 else |Lines(text)|
  }

  /** The length of the longest of the first `n` lines. */
  ghost function Longest(lines: seq<string>, n: nat): (w: nat)
    requires n <= |lines|
    ensures forall k :: 0 <= k < n ==> |lines[k]| <= w
    ensures n > 0 ==> exists k :: 0 <= k < n && |lines[k]| == w
  {
    if n == 0 then 0
    else if |lines[n - 1]| >= Longest(lines, n - 1) then |lines[n - 1]| else Longest(lines, n - 1)
  }

  ghost function TextWidth(text: string): nat {
    Longest(Lines(text), |Lines(text)|)
  }

  /** `buffer_text_visible_height`: no line for the empty text, else one more than there are newlines. */
  method BufferTextVisibleHeight(text: string) returns (height: nat)
    ensures height == TextHeight(text)
  {
    if |text| == 0 {
      return 0;
    }
    var n := StrChrCount(text, NEWLINE);
    PieceCount(text, NEWLINE);
    return 1 + n;
  }

  /** `buffer_text_visible_width`: the length of the longest line. */
  method BufferTextVisibleWidth(text: string) returns (width: nat)
    ensures width == TextWidth(text)
    ensures forall k :: 0 <= k < |Lines(text)| ==> |Lines(text)[k]| <= width
    ensures exists k :: 0 <= k < |Lines(text)| && |Lines(text)[k]| == width
  {
    hide Split;
    width := 0;
    var n := 0;
    while true
      invariant n <= |Lines(text)| && width == Longest(Lines(text), n)
      decreases |Lines(text)| - n
    {
      var bounds := StrNSubstring(text, NEWLINE, n);
      if bounds.None? {
        return;
      }
      width := if bounds.value.1 - bounds.value.0 > width then bounds.value.1 - bounds.value.0 else width;
      n := n + 1;
    }
  }
}
