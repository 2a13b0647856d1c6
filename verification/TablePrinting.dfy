/** `ft_to_string_impl` of src/fort.c: sizing, reserving and printing a whole table. */
module TablePrinting {
  import opened Common
  import opened TableModel
  import opened Layout
  import opened TableSizes
  import opened Units
  import opened PrintRuns
  import opened Rendering
  import opened TableText
  import opened ExactSize
  import opened TextPlaces
  import opened Printing
  import opened RowPrinting
  import opened SeparatorPrinting

  // ---- Margins ----

  lemma MarginStep(t: Table, i: nat, n: nat)
    requires i < n
    ensures Flat(MarginLines(t, i)) + MarginLine(t) == Flat(MarginLines(t, i + 1)) <= Flat(MarginLines(t, n))
  {
    hide CodWidth, Flat, MarginLine;
    assert MarginLines(t, i + 1) == MarginLines(t, i) + [MarginLine(t)];
    FlatLast(MarginLines(t, i), MarginLine(t));
    FlatConcat(MarginLines(t, n)[..i + 1], MarginLines(t, n)[i + 1..]);
    assert MarginLines(t, n)[..i + 1] == MarginLines(t, i + 1);
    assert MarginLines(t, n) == MarginLines(t, n)[..i + 1] + MarginLines(t, n)[i + 1..];
  }

  lemma NoMargin(t: Table)
    ensures Flat(MarginLines(t, 0)) == []
  {
  }

  /** One line of a margin. */
  method PrintMarginLine(t: Table, cntx: ConvContext, codWidth: nat) returns (ok: bool)
    requires cntx.Valid() && codWidth == CodWidth(t) && cntx.Shows(MarginLine(t))
    modifies cntx, cntx.memory
    ensures cntx.Valid() && cntx.Now(ok) == Run(MarginLine(t), old(cntx.Now(true)))
  {
    hide Bytes, CodWidth, Run, Reaches, ConvContext.Valid, Unit.Content, Times;
    ghost var st, n, us := cntx.Now(true), cntx.memory.Length, MarginLine(t);
    RunFirst(st, Spaces(codWidth - 1), us, n);
    var tmp := cntx.PrintNStrings(codWidth - 1, " ", Glyphs(codWidth - 1, " "));
    if tmp < 0 {
      return false;
    }
    RunNext(st, Spaces(codWidth - 1), [LINE_END], us, n);
    tmp := cntx.PrintNStrings(1, "\n", LINE_END);
    return tmp >= 0;
  }

  /** The loops that print the top and the bottom margin. */
  method PrintMargin(t: Table, n: nat, cntx: ConvContext, codWidth: nat) returns (ok: bool)
    requires cntx.Valid() && codWidth == CodWidth(t) && cntx.Shows(Flat(MarginLines(t, n)))
    modifies cntx, cntx.memory
    ensures cntx.Valid() && cntx.Now(ok) == Run(Flat(MarginLines(t, n)), old(cntx.Now(true)))
  {
    hide Bytes, CodWidth, MarginLines, MarginLine, Flat, Run, Reaches, ConvContext.Valid;
    ghost var st, len, us := cntx.Now(true), cntx.memory.Length, Flat(MarginLines(t, n));
    NoMargin(t);
    RunNothing(st);
    var i := 0;
    while i < n
      invariant i <= n && cntx.Valid() && cntx.Now(true) == Run(Flat(MarginLines(t, i)), st)
    {
      MarginStep(t, i, n);
      RunNext(st, Flat(MarginLines(t, i)), MarginLine(t), us, len);
      ok := PrintMarginLine(t, cntx, codWidth);
      if !ok {
        return;
      }
      i := i + 1;
    }
    ok := true;
  }

  // ---- Rows ----

  /** A row with the separator above it. */
  ghost function RowPart(t: Table, w: seq<nat>, r: nat): seq<Unit>
    requires Printable(t, w, r)
  {
    Flat(SeparatorLines(t, w, r)) + RowText(t, w, r, Heights(t)[r])
  }

  ghost function BodyText(t: Table, w: seq<nat>, r: nat): seq<Unit>
    requires Ready(t, w) && r <= |t.rows|
  {
    Flat(Body(t, w, r))
  }

  lemma BodyTextStep(t: Table, w: seq<nat>, r: nat)
    requires Ready(t, w) && r < |t.rows|
    ensures Printable(t, w, r)
    ensures BodyText(t, w, r + 1) == BodyText(t, w, r) + RowPart(t, w, r)
  {
    hide Flat, Heights, Printable, SeparatorLines, RowLines;
    var body, sep, rows := Body(t, w, r), SeparatorLines(t, w, r), RowLines(t, w, r, Heights(t)[r]);
    FlatConcat(body, sep);
    FlatConcat(body + sep, rows);
    Assoc(Flat(body), Flat(sep), Flat(rows));
  }

  lemma BodyTextGrows(t: Table, w: seq<nat>, r: nat, q: nat)
    requires Ready(t, w) && r <= q <= |t.rows|
    ensures BodyText(t, w, r) <= BodyText(t, w, q)
  {
    hide Flat, Body, Ready;
    BodyGrows(t, w, r, q);
    var rest := Body(t, w, q)[|Body(t, w, r)|..];
    assert Body(t, w, q) == Body(t, w, r) + rest;
    FlatConcat(Body(t, w, r), rest);
  }

  lemma NoBody(t: Table, w: seq<nat>)
    requires Ready(t, w)
    ensures BodyText(t, w, 0) == []
  {
  }

  /** One round of the loop over the rows: the separator above the row, and the row. */
  method PrintRow(t: Table, i: nat, cntx: ConvContext, colWidths: seq<nat>, rowHeight: nat) returns (ok: bool)
    requires cntx.Valid() && i < |t.rows| && Printable(t, colWidths, i)
    requires rowHeight == Heights(t)[i] && cntx.Shows(RowPart(t, colWidths, i))
    modifies cntx, cntx.memory
    ensures cntx.Valid() && cntx.Now(ok) == Run(RowPart(t, colWidths, i), old(cntx.Now(true)))
  {
    RowIsNotTooLong(t, colWidths, i);
    hide Bytes, Printable, SeparatorLines, RowText, Flat, Columns, Run, Reaches, ConvContext.Valid;
    ghost var st, n, us := cntx.Now(true), cntx.memory.Length, RowPart(t, colWidths, i);
    ghost var separator, row := Flat(SeparatorLines(t, colWidths, i)), RowText(t, colWidths, i, rowHeight);
    var upperRow := if i == 0 then None else Some(t.rows[i - 1]);
    var separatorPos := if i == 0 then TopSeparator else InsideSeparator;
    var enabled := i < |t.separators| && t.separators[i];
    RunFirst(st, separator, us, n);
    var tmp := PrintRowSeparator(t, i, cntx, colWidths, upperRow, Some(t.rows[i]), separatorPos, enabled);
    if tmp < 0 {
      return false;
    }
    RunNext(st, separator, row, us, n);
    tmp := SnprintfRow(t, i, cntx, colWidths, rowHeight);
    return tmp >= 0;
  }

  lemma RowIsNotTooLong(t: Table, w: seq<nat>, r: nat)
    requires Printable(t, w, r)
    ensures r < |t.rows| && |t.rows[r]| <= |w|
  {
  }

  /** The loop over the rows. */
  method PrintRows(t: Table, cntx: ConvContext, colWidths: seq<nat>, rowHeights: seq<nat>) returns (ok: bool)
    requires cntx.Valid() && Ready(t, colWidths) && rowHeights == Heights(t)
    requires cntx.Shows(BodyText(t, colWidths, |t.rows|))
    modifies cntx, cntx.memory
    ensures cntx.Valid() && cntx.Now(ok) == Run(BodyText(t, colWidths, |t.rows|), old(cntx.Now(true)))
  {
    hide Bytes, BodyText, RowPart, Ready, Printable, Run, Reaches, ConvContext.Valid, Heights;
    ghost var st, n, us := cntx.Now(true), cntx.memory.Length, BodyText(t, colWidths, |t.rows|);
    NoBody(t, colWidths);
    RunNothing(st);
    var i := 0;
    while i < |t.rows|
      invariant i <= |t.rows| && cntx.Valid() && cntx.Now(true) == Run(BodyText(t, colWidths, i), st)
    {
      BodyTextStep(t, colWidths, i);
      BodyTextGrows(t, colWidths, i + 1, |t.rows|);
      RunNext(st, BodyText(t, colWidths, i), RowPart(t, colWidths, i), us, n);
      ok := PrintRow(t, i, cntx, colWidths, rowHeights[i]);
      if !ok {
        return;
      }
      i := i + 1;
    }
    ok := true;
  }

  // ---- The table ----

  /** The calls for the whole table, in their order. */
  lemma Parts(t: Table, w: seq<nat>)
    requires Ready(t, w) && |t.rows| > 0
    ensures var us := Flat(TableLines(t, w));
            var p1 := Flat(MarginLines(t, t.margins.top));
            var p2 := p1 + BodyText(t, w, |t.rows|);
            var p3 := p2 + Flat(SeparatorLines(t, w, |t.rows|));
            p1 <= us && p2 <= us && p3 <= us && us == p3 + Flat(MarginLines(t, t.margins.bottom))
  {
    hide Flat, MarginLines, Body, SeparatorLines, Ready;
    var a, b, c, d := MarginLines(t, t.margins.top), Body(t, w, |t.rows|), SeparatorLines(t, w, |t.rows|),
                      MarginLines(t, t.margins.bottom);
    FlatConcat(a, b);
    FlatConcat(a + b, c);
    FlatConcat(a + b + c, d);
    assert Flat(a) <= Flat(a) + Flat(b) <= Flat(a) + Flat(b) + Flat(c);
  }

  /** Everything that `ft_to_string_impl` prints for a table with rows. */
  method PrintTable(t: Table, cntx: ConvContext, codWidth: nat, colWidths: seq<nat>, rowHeights: seq<nat>)
    returns (ok: bool)
    requires cntx.Valid() && |t.rows| > 0 && Ready(t, colWidths) && cntx.Shows(Flat(TableLines(t, colWidths)))
    requires codWidth == CodWidth(t) && rowHeights == Heights(t)
    modifies cntx, cntx.memory
    ensures cntx.Valid() && cntx.Now(ok) == Run(Flat(TableLines(t, colWidths)), old(cntx.Now(true)))
  {
    hide Flat, Bytes, MarginLines, BodyText, SeparatorLines, CodWidth, Ready, Heights, TableLines, Printable, Run, Reaches,
         ConvContext.Valid;
    Parts(t, colWidths);
    ghost var st, n, us := cntx.Now(true), cntx.memory.Length, Flat(TableLines(t, colWidths));
    ghost var top, body := Flat(MarginLines(t, t.margins.top)), BodyText(t, colWidths, |t.rows|);
    ghost var separator := Flat(SeparatorLines(t, colWidths, |t.rows|));
    RunFirst(st, top, us, n);
    ok := PrintMargin(t, t.margins.top, cntx, codWidth);
    if !ok {
      return;
    }
    RunNext(st, top, body, us, n);
    ok := PrintRows(t, cntx, colWidths, rowHeights);
    if !ok {
      return;
    }
    var enabled := |t.rows| < |t.separators| && t.separators[|t.rows|];
    RunNext(st, top + body, separator, us, n);
    var tmp := PrintRowSeparator(t, |t.rows|, cntx, colWidths, Some(t.rows[|t.rows| - 1]), None, BottomSeparator, enabled);
    if tmp < 0 {
      return false;
    }
    RunNext(st, top + body + separator, Flat(MarginLines(t, t.margins.bottom)), us, n);
    ok := PrintMargin(t, t.margins.bottom, cntx, codWidth);
  }

  /** What `ft_to_string` returns: NULL, the constant empty string, or the conversion buffer. */
  datatype Returned = Null | EmptyString | ConvBuffer

  /** The memory holds a part of the output from its beginning, and the end of the string behind the first `size` bytes. */
  ghost predicate LeftBuffer(memory: seq<char>, size: nat, output: string) {
    exists p: nat :: size <= p < |memory| && p <= |output| && memory[..p] == output[..p] && memory[p] == '\0'
  }

  /** The memory holds the string, closed by its end, and behind that what was found there. */
  ghost predicate HoldsString(memory: seq<char>, found: seq<char>, s: string) {
    |s| < |memory| == |found| && memory == s + ['\0'] + found[|s| + 1..]
  }

  /** The memory after a conversion into a buffer of `size` bytes, of which `found` is what was there before. */
  ghost predicate Converted(t: Table, size: nat, memory: seq<char>, found: seq<char>, pos: nat, st: PrintState)
    requires Ready(t, ColWidths(t))
  {
    && st == Conversion(t, size) && 0 < size < WORD - 1 && size <= |memory|
    && Holds(memory, found, pos, st.out, st.closed)
  }

  ghost predicate Sized(t: Table) {
    WellFormed(t) && PredictedSize(t) <= INT_MAX
  }

  lemma SomethingPrinted(t: Table, size: nat)
    requires Ready(t, ColWidths(t)) && Bytes(Conversion(t, size).out) != ""
    ensures Conversion(t, size).closed
  {
    hide Ready, ColWidths, Flat, TableLines, Run;
    RunCloses(Flat(TableLines(t, ColWidths(t))), PrintState([], size, false, true));
  }

  lemma NothingPrinted(t: Table, size: nat)
    requires WellFormed(t)
    ensures Ready(t, ColWidths(t))
    ensures Output(t) == "" ==> Conversion(t, size) == PrintState([], size, false, true)
  {
    hide WellFormed, Ready, ColWidths, TableLines, Flat, Run;
    SilentOutput(t);
    OutputHasSize(t);
    RunNothing(PrintState([], size, false, true));
  }

  /** A conversion that leaves its buffer. */
  lemma ConvertedBehind(t: Table, size: nat, memory: seq<char>, found: seq<char>, pos: nat, st: PrintState)
    requires Sized(t) && Ready(t, ColWidths(t)) && Converted(t, size, memory, found, pos, st)
    requires SomeTextMeetsEnd(t, size)
    ensures LeftBuffer(memory, size, Output(t))
  {
    hide Ready, ColWidths, WellFormed, PredictedSize, SomeTextMeetsEnd, Output, Conversion, Bytes;
    ConversionOutcome(t, size);
    HoldsSize(memory, found, pos, st.out, st.closed);
    SomethingPrinted(t, size);
  }

  /** A conversion that stays inside its buffer. */
  lemma ConvertedInside(t: Table, size: nat, memory: seq<char>, found: seq<char>, pos: nat, st: PrintState)
    requires Sized(t) && Ready(t, ColWidths(t)) && Converted(t, size, memory, found, pos, st)
    requires !SomeTextMeetsEnd(t, size)
    ensures st.ok <==> PredictedSize(t) < size
    ensures |found| == |memory| && memory[size..] == found[size..]
  {
    hide Ready, ColWidths, WellFormed, PredictedSize, SomeTextMeetsEnd, Output, Conversion, Bytes;
    ConversionOutcome(t, size);
    HoldsSize(memory, found, pos, st.out, st.closed);
  }

  /** A conversion into a buffer that is long enough. */
  lemma ConvertedFully(t: Table, size: nat, memory: seq<char>, found: seq<char>, pos: nat, st: PrintState)
    requires Sized(t) && Ready(t, ColWidths(t)) && Converted(t, size, memory, found, pos, st)
    requires PredictedSize(t) < size
    ensures st.ok
    ensures if Output(t) == "" then memory == found else HoldsString(memory, found, Output(t))
  {
    hide Ready, ColWidths, WellFormed, PredictedSize, SomeTextMeetsEnd, Output, Conversion, Bytes;
    LongBufferIsSafe(t, size);
    ConversionOutcome(t, size);
    HoldsSize(memory, found, pos, st.out, st.closed);
    if Output(t) == "" {
      NothingPrinted(t, size);
    } else {
      SomethingPrinted(t, size);
      assert memory == memory[..pos] + [memory[pos]] + memory[pos + 1..];
      assert memory[pos + 1..] == found[pos + 1..];
    }
  }

  lemma MemoryReaches(t: Table, st: PrintState, len: nat)
    requires WellFormed(t) && st.out == [] && PredictedSize(t) < len
    ensures Ready(t, ColWidths(t)) && Reaches(st, Flat(TableLines(t, ColWidths(t))), len)
  {
    hide WellFormed, Ready, ColWidths, TableLines, Flat, PredictedSize;
    OutputSizeIsPredicted(t);
  }

  lemma IsConversion(t: Table, w: seq<nat>, size: nat, st: PrintState)
    requires Ready(t, w) && w == ColWidths(t) && st == Run(Flat(TableLines(t, w)), PrintState([], size, false, true))
    ensures st == Conversion(t, size)
  {
  }

  /** The factor of so many doublings. */
  ghost function Power(n: nat): nat {
    if n == 0 then 1 else 2 * Power(n - 1)
  }

  lemma PowerNext(a: nat, n: nat)
    ensures a * Power(n + 1) == a * Power(n) * 2
  {
  }

  /** The part of a table that outlives a conversion. */
  class Converter {
    /** The buffer takes the first `dataSz` bytes of the memory; the model shows as many bytes behind it as `behind`. */
    var memory: array?<char>
    var dataSz: nat
    const behind: nat

    ghost predicate Valid()
      reads this
    {
      memory != null ==> 0 < dataSz < WORD - 1 && memory.Length == dataSz + behind
    }

    constructor (behind: nat)
      ensures Valid() && memory == null && this.behind == behind
    {
      memory := null;
      dataSz := 0;
      this.behind := behind;
    }

    /** Creates the buffer, or doubles it until it is large enough; a doubled buffer starts with arbitrary bytes. */
    method Reserve(n: nat) returns (ghost doublings: nat)
      requires Valid() && n >= 1 && 2 * n < WORD
      modifies this
      ensures Valid() && memory != null && dataSz >= n
      ensures memory == old(memory) || fresh(memory)
      ensures old(memory) != null && old(dataSz) >= n ==> memory == old(memory) && dataSz == old(dataSz)
      ensures old(memory) == null ==> dataSz == n && memory[0] == '\0'
      ensures old(memory) != null ==> dataSz == old(dataSz) * Power(doublings) && (doublings > 0 ==> dataSz < 2 * n)
    {
      doublings := 0;
      if memory == null {
        memory := new char[n + behind];
        dataSz := n;
        memory[0] := '\0';
      }
      while dataSz < n
        invariant Valid() && memory != null
        invariant memory == old(memory) || fresh(memory)
        invariant old(memory) != null && old(dataSz) >= n ==> memory == old(memory) && dataSz == old(dataSz)
        invariant old(memory) == null ==> dataSz == n && memory[0] == '\0'
        invariant old(memory) != null ==> dataSz == old(dataSz) * Power(doublings) && (doublings > 0 ==> dataSz < 2 * n)
        decreases n - dataSz
      {
        PowerNext(old(dataSz), doublings);
        doublings := doublings + 1;
        memory := new char[dataSz * 2 + behind];
        dataSz := dataSz * 2;
      }
    }

    /**
     * `ft_to_string_impl`. If no text of the table meets the end of the buffer, it returns the buffer exactly when that is
     * longer than the output, and NULL otherwise; no byte behind the buffer is written. Otherwise it writes behind it.
     * `found` is what the memory held before the printing began.
     */
    method ToString(t: Table) returns (returned: Returned, ghost found: seq<char>)
      requires Valid() && WellFormed(t)
      requires PredictedSize(t) <= INT_MAX && 2 * (Times(CodHeight(t), CodWidth(t)) + 1) < WORD
      requires behind >= PredictedSize(t) + 2
      modifies this, memory
      ensures Valid() && memory != null && dataSz > Times(CodHeight(t), CodWidth(t))
      ensures memory == old(memory) || fresh(memory)
      ensures old(memory) == null ==> dataSz == Times(CodHeight(t), CodWidth(t)) + 1 && |found| > 0 && found[0] == '\0'
      ensures (old(memory) != null && old(dataSz) > Times(CodHeight(t), CodWidth(t)) ==>
                 memory == old(memory) && dataSz == old(dataSz) && found == old(memory[..]))
      ensures |t.rows| == 0 ==> returned == EmptyString && memory[..] == found
      ensures Ready(t, ColWidths(t))
      ensures |t.rows| > 0 ==> returned == if Conversion(t, dataSz).ok then ConvBuffer else Null
      ensures (|t.rows| > 0 && !SomeTextMeetsEnd(t, dataSz) ==>
                 && returned == (if PredictedSize(t) < dataSz then ConvBuffer else Null)
                 && |found| == memory.Length && memory[dataSz..] == found[dataSz..])
      ensures (|t.rows| > 0 && PredictedSize(t) < dataSz ==>
                 && returned == ConvBuffer
                 && if Output(t) == "" then memory[..] == found else HoldsString(memory[..], found, Output(t)))
      ensures |t.rows| > 0 && SomeTextMeetsEnd(t, dataSz) ==> LeftBuffer(memory[..], dataSz, Output(t))
    {
      hide Ready, ColWidths, WellFormed, PredictedSize, SomeTextMeetsEnd, Output, Conversion, Bytes, Times, CodWidth, CodHeight,
           Flat, TableLines, Run, Reaches, Heights, Widths, LeftBuffer, HoldsString, Holds;
      var codHeight, codWidth := TableGeometry(t);
      var nCodepoints := Times(codHeight, codWidth) + 1;
      ghost var doublings := Reserve(nCodepoints);
      found := memory[..];
      var colVisWidthArr, rowVisHeightArr := TableRowsAndColsGeometry(t, VisibleGeometry);
      AreColWidths(t);
      RowsArePrintable(t);
      if |t.rows| == 0 {
        return EmptyString, found;
      }
      var cntx := new ConvContext(memory, dataSz);
      MemoryReaches(t, cntx.Now(true), memory.Length);
      var ok := PrintTable(t, cntx, codWidth, colVisWidthArr[..], rowVisHeightArr[..]);
      IsConversion(t, colVisWidthArr[..], dataSz, cntx.Now(ok));
      if SomeTextMeetsEnd(t, dataSz) {
        ConvertedBehind(t, dataSz, memory[..], found, cntx.pos, cntx.Now(ok));
      } else {
        ConvertedInside(t, dataSz, memory[..], found, cntx.pos, cntx.Now(ok));
      }
      if PredictedSize(t) < dataSz {
        ConvertedFully(t, dataSz, memory[..], found, cntx.pos, cntx.Now(ok));
      }
      returned := if ok then ConvBuffer else Null;
    }
  }

  lemma AreColWidths(t: Table)
    ensures Widths(t, VisibleGeometry) == ColWidths(t)
  {
  }
}
