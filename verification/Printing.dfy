/** The conversion context of src/fort.c, through which everything is printed, and the printers of one text. */
module Printing {
  import opened CellText
  import opened TableModel
  import opened TableSizes
  import opened Units
  import opened PrintRuns
  import opened Rendering

  lemma TimesNext(i: nat, n: nat, len: nat)
    requires i < n
    ensures Times(i + 1, len) == Times(i, len) + len && Times(i + 1, len) <= Times(n, len)
  {
    hide Times;
    TimesAdd(i, 1, len);
    TimesAdd(i + 1, n - i - 1, len);
  }

  /** The inner loop of `snprint_n_strings_impl`. */
  method CopyString(buf: array<char>, p: nat, s: string)
    requires p + |s| <= buf.Length
    modifies buf
    ensures buf[..p + |s|] == old(buf[..p]) + s
    ensures forall i :: p + |s| <= i < buf.Length ==> buf[i] == old(buf[i])
  {
    var k := 0;
    while k < |s|
      invariant k <= |s|
      invariant buf[..p] == old(buf[..p]) && buf[p..p + k] == s[..k]
      invariant forall i :: p + |s| <= i < buf.Length ==> buf[i] == old(buf[i])
    {
      buf[p + k] := s[k];
      k := k + 1;
    }
    assert buf[..p + |s|] == buf[..p] + buf[p..p + |s|];
  }

  /** `memcpy`, and the end of the string behind it. */
  method CopyClosed(buf: array<char>, p: nat, s: string)
    requires p + |s| < buf.Length
    modifies buf
    ensures buf[..p + |s|] == old(buf[..p]) + s && buf[p + |s|] == '\0'
    ensures forall i :: p + |s| < i < buf.Length ==> buf[i] == old(buf[i])
  {
    CopyString(buf, p, s);
    buf[p + |s|] := '\0';
  }

  /** The loop of `snprint_n_strings_impl`, over a buffer that was filled up with zeros and closed before. */
  method WriteCopies(buf: array<char>, pos: nat, n: nat, s: string)
    requires pos + Times(n, |s|) < buf.Length
    modifies buf
    ensures buf[..pos + Times(n, |s|)] == old(buf[..pos]) + Repeat(s, n)
    ensures buf[pos + Times(n, |s|)] == '\0'
    ensures forall i :: pos + Times(n, |s|) < i < buf.Length ==> buf[i] == old(buf[i])
  {
    hide Times;
    ghost var before := buf[..pos];
    var total := Times(n, |s|);
    forall i | pos <= i < pos + total {
      buf[i] := '0';
    }
    buf[pos + total] := '\0';
    var i := 0;
    var p := pos;
    assert before + Repeat(s, 0) == before;
    TimesAdd(0, 0, |s|);
    while i < n
      invariant i <= n && p == pos + Times(i, |s|)
      invariant p <= pos + total < buf.Length
      invariant buf[..p] == before + Repeat(s, i) && buf[pos + total] == '\0'
      invariant forall i :: pos + total < i < buf.Length ==> buf[i] == old(buf[i])
    {
      TimesNext(i, n, |s|);
      CopyString(buf, p, s);
      Assoc(before, Repeat(s, i), s);
      p := p + |s|;
      i := i + 1;
    }
  }

  lemma WrappedDifference(n: int, k: nat)
    ensures Wrapped(Wrapped(n) - k) == Wrapped(n - k)
  {
    var q := n / WORD;
    assert n - k == (Wrapped(n) - k) + q * WORD;
    WrappedPeriod(Wrapped(n) - k, q);
  }

  lemma {:induction false} WrappedPeriod(n: int, q: int)
    ensures Wrapped(n + q * WORD) == Wrapped(n)
    decreases if q < 0 then -q else q
  {
    if q > 0 {
      WrappedPeriod(n, q - 1);
    } else if q < 0 {
      WrappedPeriod(n, q + 1);
    }
  }

  /** What one call of a printer leaves in memory: its bytes, the end of the string, and all bytes behind as before. */
  ghost predicate Holds(memory: seq<char>, start: seq<char>, pos: nat, out: seq<Unit>, closed: bool)
  {
    && |memory| == |start| && pos < |memory|
    && memory[..pos] == Bytes(out)
    && memory[pos] == (if closed then '\0' else start[pos])
    && forall i :: pos < i < |memory| ==> memory[i] == start[i]
  }

  lemma HoldsSize(memory: seq<char>, start: seq<char>, pos: nat, out: seq<Unit>, closed: bool)
    requires Holds(memory, start, pos, out, closed)
    ensures pos == |Bytes(out)| < |memory|
  {
    hide Bytes;
    assert |memory[..pos]| == pos;
  }

  lemma HoldsMore(before: seq<char>, after: seq<char>, start: seq<char>, pos: nat, out: seq<Unit>, closed: bool, u: Unit)
    requires Holds(before, start, pos, out, closed)
    requires var end := pos + |u.Content()|;
             && |after| == |before| && end < |after| && after[..end] == before[..pos] + u.Content() && after[end] == '\0'
             && forall i :: end < i < |after| ==> after[i] == before[i]
    ensures Holds(after, start, pos + |u.Content()|, out + [u], true)
  {
    hide Unit.Content, Bytes;
    Concat(out, [u]);
    Single(u);
  }

  lemma HoldsNoMore(memory: seq<char>, start: seq<char>, pos: nat, out: seq<Unit>, closed: bool, u: Unit)
    requires Holds(memory, start, pos, out, closed) && u.Content() == ""
    ensures Holds(memory, start, pos, out + [u], closed)
  {
    hide Unit.Content, Bytes;
    Concat(out, [u]);
    Single(u);
  }

  /** A call of `print_n_strings`, as a unit of the output. */
  ghost predicate IsCall(u: Unit, n: nat, s: string) {
    u == Glyphs(n, s) || (n == 1 && u == Tag(s))
  }

  lemma CallSize(n: nat, s: string, u: Unit)
    requires IsCall(u, n, s)
    ensures u.Content() == Repeat(s, n) && |u.Content()| == Times(n, |s|) == |Bytes([u])| && !u.Written?
  {
    RepeatSize(s, n);
    Single(u);
    assert Repeat(s, 1) == Repeat(s, 0) + s;
  }

  lemma TextSize(s: string)
    ensures Written(s).Content() == s && |Bytes(Text(s))| == |s|
  {
    Single(Written(s));
  }

  /** The calls of `buffer_printf`. */
  ghost function Aligned(line: string, left: nat, padding: nat, right: nat, tag: string, resetTag: string): seq<Unit> {
    Spaces(left) + [Tag(tag)] + Text(line) + [Tag(resetTag)] + Spaces(padding) + Spaces(right)
  }

  lemma AlignedParts(line: string, left: nat, padding: nat, right: nat, tag: string, resetTag: string)
    ensures var us := Aligned(line, left, padding, right, tag, resetTag);
            var p1 := Spaces(left) + [Tag(tag)];
            var p2 := p1 + Text(line);
            var p3 := p2 + [Tag(resetTag)];
            var p4 := p3 + Spaces(padding);
            Spaces(left) <= us && p1 <= us && p2 <= us && p3 <= us && p4 <= us && us == p4 + Spaces(right)
  {
    hide Spaces, Text;
    var p1 := Spaces(left) + [Tag(tag)];
    var p2 := p1 + Text(line);
    var p3 := p2 + [Tag(resetTag)];
    assert Spaces(left) <= p1 <= p2 <= p3;
  }

  class ConvContext {
    /** The buffer, which takes the first `size` bytes, with the memory behind it. */
    const memory: array<char>
    const size: nat
    var pos: nat
    var rawAvail: nat

    /** What the memory held before, what was printed, and whether the end of the string was written behind it. */
    ghost const start: seq<char>
    ghost var out: seq<Unit>
    ghost var closed: bool

    ghost predicate Valid()
      reads this, memory
    {
      Holds(memory[..], start, pos, out, closed) && rawAvail == Wrapped(size - pos) && size < WORD - 1
    }

    constructor (memory: array<char>, size: nat)
      requires size < memory.Length && size < WORD - 1
      ensures Valid() && this.memory == memory && this.size == size && start == memory[..]
      ensures pos == 0 && Now(true) == PrintState([], size, false, true)
    {
      this.memory := memory;
      this.size := size;
      pos := 0;
      rawAvail := size;
      start := memory[..];
      out := [];
      closed := false;
    }

    /** The context after a call, which did not fail if `ok`. */
    ghost function Now(ok: bool): PrintState
      reads this
    {
      PrintState(out, rawAvail, closed, ok)
    }

    /** The memory shown reaches behind the end of what is to be printed. */
    ghost predicate Shows(us: seq<Unit>)
      reads this
    {
      Reaches(Now(true), us, memory.Length)
    }

    /** What a printer does: the series of calls `us`; it reports their size, or a negative number if one of them fails. */
    twostate predicate Ran(w: int, us: seq<Unit>)
      reads this
    {
      Now(w >= 0) == Run(us, old(Now(true))) && (w >= 0 ==> w == |Bytes(us)|)
    }

    /** `print_n_strings`: prints a string `n` times; a style tag is printed once. */
    method PrintNStrings(n: nat, s: string, ghost u: Unit) returns (w: int)
      requires Valid() && Shows([u]) && IsCall(u, n, s)
      modifies this, memory
      ensures Valid() && Ran(w, [u])
      ensures w == if Times(n, |s|) < old(rawAvail) && Times(n, |s|) <= INT_MAX then Times(n, |s|) else -1
      ensures w < 0 ==> pos == old(pos) && memory[..] == old(memory[..])
    {
      hide Bytes, Unit.Content, Run, Times, Wrapped, Holds, IsCall;
      CallSize(n, s, u);
      RunSingle(u, Now(true));
      WrappedDifference(size - pos, |u.Content()|);
      HoldsSize(memory[..], start, pos, out, closed);
      var total := Times(n, |s|);
      if rawAvail <= total {
        return -1;
      }
      if n == 0 {
        HoldsNoMore(memory[..], start, pos, out, closed, u);
        out := out + [u];
        return 0;
      }
      if total > INT_MAX {
        return -1;
      }
      if |s| == 0 {
        HoldsNoMore(memory[..], start, pos, out, closed, u);
        out := out + [u];
        return 0;
      }
      ghost var before := memory[..];
      WriteCopies(memory, pos, n, s);
      HoldsMore(before, memory[..], start, pos, out, closed, u);
      pos := pos + total;
      rawAvail := Wrapped(rawAvail - total);
      out := out + [u];
      closed := true;
      return total;
    }

    /**
     * `ft_nprint`: prints a text once. Its test counts the byte for the end of the string on the wrong side: a text that
     * is as long as the room left, or by one longer, is let through, and only such a text is written behind the buffer.
     */
    method FtNprint(s: string) returns (w: int)
      requires Valid() && Shows(Text(s))
      modifies this, memory
      ensures Valid() && Ran(w, Text(s))
      ensures w == if Wrapped(old(rawAvail) + 1) < |s| then -1 else |s|
      ensures w < 0 ==> memory[..] == old(memory[..])
      ensures w >= 0 ==> pos == old(pos) + |s| && memory[pos] == '\0'
      ensures old(pos) < size ==> (pos < size <==> |s| < old(rawAvail) || old(rawAvail) + 1 < |s|)
    {
      hide Bytes, Unit.Content, Run, Wrapped, Holds;
      TextSize(s);
      RunSingle(Written(s), Now(true));
      WrappedDifference(size - pos, |s|);
      HoldsSize(memory[..], start, pos, out, closed);
      if Wrapped(rawAvail + 1) < |s| {
        return -1;
      }
      ghost var before := memory[..];
      CopyClosed(memory, pos, s);
      HoldsMore(before, memory[..], start, pos, out, closed, Written(s));
      pos := pos + |s|;
      rawAvail := Wrapped(rawAvail - |s|);
      out := out + Text(s);
      closed := true;
      return |s|;
    }

    /** The prints of `buffer_printf`, in their order. */
    method PrintAligned(line: string, left: nat, padding: nat, right: nat, tag: string, resetTag: string)
      returns (written: int)
      requires Valid() && Shows(Aligned(line, left, padding, right, tag, resetTag))
      modifies this, memory
      ensures Valid() && Ran(written, Aligned(line, left, padding, right, tag, resetTag))
    {
      hide Bytes, Run, Aligned, Reaches, Wrapped, Times, Valid, Unit.Content, TextLine;
      AlignedParts(line, left, padding, right, tag, resetTag);
      ghost var us := Aligned(line, left, padding, right, tag, resetTag);
      ghost var p1 := Spaces(left) + [Tag(tag)];
      ghost var p2 := p1 + Text(line);
      ghost var p3 := p2 + [Tag(resetTag)];
      ghost var p4 := p3 + Spaces(padding);
      ghost var st, n := Now(true), memory.Length;
      RunFirst(st, Spaces(left), us, n);
      var tmp := PrintNStrings(left, " ", Glyphs(left, " "));
      if tmp < 0 {
        return -1;
      }
      written := tmp;
      RunNext(st, Spaces(left), [Tag(tag)], us, n);
      tmp := PrintNStrings(1, tag, Tag(tag));
      if tmp < 0 {
        return -1;
      }
      written := written + tmp;
      RunNext(st, p1, Text(line), us, n);
      tmp := FtNprint(line);
      if tmp < 0 {
        return -1;
      }
      written := written + tmp;
      RunNext(st, p2, [Tag(resetTag)], us, n);
      tmp := PrintNStrings(1, resetTag, Tag(resetTag));
      if tmp < 0 {
        return -1;
      }
      written := written + tmp;
      RunNext(st, p3, Spaces(padding), us, n);
      tmp := PrintNStrings(padding, " ", Glyphs(padding, " "));
      if tmp < 0 {
        return -1;
      }
      written := written + tmp;
      RunNext(st, p4, Spaces(right), us, n);
      tmp := PrintNStrings(right, " ", Glyphs(right, " "));
      if tmp < 0 {
        return -1;
      }
      written := written + tmp;
    }

    /** `buffer_printf`: line `k` of a text, aligned within `visWidth` columns. */
    method BufferPrintf(text: string, p: Props, k: nat, visWidth: nat) returns (written: int)
      requires Valid()
      requires k < TextHeight(text) && TextWidth(text) <= visWidth ==> Shows(TextLine(text, p, k, visWidth))
      modifies this, memory
      ensures Valid()
      ensures (if k < TextHeight(text) && TextWidth(text) <= visWidth then Ran(written, TextLine(text, p, k, visWidth))
               else written == -1 && Now(true) == old(Now(true)) && memory[..] == old(memory[..]))
    {
      hide Bytes, Spaces, Text, AlignShare, Valid, Run, Reaches;
      var height := BufferTextVisibleHeight(text);
      if k >= height {
        return -1;
      }
      var contentWidth := BufferTextVisibleWidth(text);
      if visWidth < contentWidth {
        return -1;
      }
      var left := AlignShare(p.align, visWidth - contentWidth);
      var right := visWidth - contentWidth - left;
      var bounds := StrNSubstring(text, CellText.NEWLINE, k);
      if bounds.None? {
        return -1;
      }
      var line := text[bounds.value.0..bounds.value.1];
      if contentWidth < |line| {
        return -1;
      }
      var padding := contentWidth - |line|;
      written := PrintAligned(line, left, padding, right, p.contentTag, p.resetContentTag);
    }
  }
}
