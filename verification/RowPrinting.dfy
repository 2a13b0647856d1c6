/** The printers of src/fort.c for a cell and for a row. */
module RowPrinting {
  import opened CellText
  import opened TableModel
  import opened Layout
  import opened TableSizes
  import opened Units
  import opened PrintRuns
  import opened Rendering
  import opened Grid
  import opened TableText
  import opened Printing

  // ---- A cell ----

  ghost function BlankLine(p: Props, visWidth: nat): seq<Unit> {
    [Tag(p.cellTag)] + [Tag(p.contentTag)] + [Tag(p.resetContentTag)] + Spaces(visWidth) + [Tag(p.resetCellTag)]
  }

  lemma BlankParts(p: Props, visWidth: nat)
    ensures var us := BlankLine(p, visWidth);
            var p1 := [Tag(p.cellTag)] + [Tag(p.contentTag)];
            var p2 := p1 + [Tag(p.resetContentTag)];
            var p3 := p2 + Spaces(visWidth);
            && [Tag(p.cellTag)] <= us && p1 <= us && p2 <= us && p3 <= us && us == p3 + [Tag(p.resetCellTag)]
            && |Bytes([Tag(p.cellTag)])| == |p.cellTag| && |Bytes([Tag(p.contentTag)])| == |p.contentTag|
            && |Bytes([Tag(p.resetContentTag)])| == |p.resetContentTag|
  {
    hide Spaces, Bytes, Visible;
    TagMeasure(p.cellTag);
    TagMeasure(p.contentTag);
    TagMeasure(p.resetContentTag);
    var p1 := [Tag(p.cellTag)] + [Tag(p.contentTag)];
    var p2 := p1 + [Tag(p.resetContentTag)];
    assert [Tag(p.cellTag)] <= p1 <= p2 <= p2 + Spaces(visWidth);
  }

  /** The branch of `cell_printf` for a line without text. */
  method PrintBlankLine(p: Props, cntx: ConvContext, visWidth: nat) returns (written: int)
    requires cntx.Valid() && cntx.Shows(BlankLine(p, visWidth))
    modifies cntx, cntx.memory
    ensures cntx.Valid() && cntx.Ran(written, BlankLine(p, visWidth))
  {
    hide Bytes, Run, BlankLine, Reaches, Wrapped, Times, ConvContext.Valid, Unit.Content;
    BlankParts(p, visWidth);
    ghost var st, n, us := cntx.Now(true), cntx.memory.Length, BlankLine(p, visWidth);
    ghost var p1 := [Tag(p.cellTag)] + [Tag(p.contentTag)];
    ghost var p2 := p1 + [Tag(p.resetContentTag)];
    ghost var p3 := p2 + Spaces(visWidth);
    var bufLen := visWidth + |p.cellTag| + |p.resetCellTag| + |p.contentTag| + |p.resetContentTag|;
    RunFirst(st, [Tag(p.cellTag)], us, n);
    var tmp := cntx.PrintNStrings(1, p.cellTag, Tag(p.cellTag));
    if tmp < 0 {
      return -1;
    }
    written := tmp;
    RunNext(st, [Tag(p.cellTag)], [Tag(p.contentTag)], us, n);
    tmp := cntx.PrintNStrings(1, p.contentTag, Tag(p.contentTag));
    if tmp < 0 {
      return -1;
    }
    written := written + tmp;
    RunNext(st, p1, [Tag(p.resetContentTag)], us, n);
    tmp := cntx.PrintNStrings(1, p.resetContentTag, Tag(p.resetContentTag));
    if tmp < 0 {
      return -1;
    }
    written := written + tmp;
    RunNext(st, p2, Spaces(visWidth), us, n);
    tmp := cntx.PrintNStrings(bufLen - written - |p.resetCellTag|, " ", Glyphs(visWidth, " "));
    if tmp < 0 {
      return -1;
    }
    written := written + tmp;
    RunNext(st, p3, [Tag(p.resetCellTag)], us, n);
    tmp := cntx.PrintNStrings(1, p.resetCellTag, Tag(p.resetCellTag));
    if tmp < 0 {
      return -1;
    }
    written := written + tmp;
  }

  ghost function ShownLine(p: Props, inner: seq<Unit>): seq<Unit> {
    [Tag(p.cellTag)] + Spaces(p.paddingLeft) + inner + Spaces(p.paddingRight) + [Tag(p.resetCellTag)]
  }

  lemma ShownParts(p: Props, inner: seq<Unit>)
    ensures var us := ShownLine(p, inner);
            var p1 := [Tag(p.cellTag)] + Spaces(p.paddingLeft);
            var p2 := p1 + inner;
            var p3 := p2 + Spaces(p.paddingRight);
            [Tag(p.cellTag)] <= us && p1 <= us && p2 <= us && p3 <= us && us == p3 + [Tag(p.resetCellTag)]
  {
    hide Spaces;
    var p1 := [Tag(p.cellTag)] + Spaces(p.paddingLeft);
    assert [Tag(p.cellTag)] <= p1 <= p1 + inner <= p1 + inner + Spaces(p.paddingRight);
  }

  /** The branch of `cell_printf` for a line of text. */
  method PrintShownLine(text: string, p: Props, k: nat, cntx: ConvContext, visWidth: nat) returns (written: int)
    requires cntx.Valid()
    requires k < TextHeight(text) && p.paddingLeft + p.paddingRight + TextWidth(text) <= visWidth
    requires cntx.Shows(ShownLine(p, TextLine(text, p, k, visWidth - p.paddingLeft - p.paddingRight)))
    modifies cntx, cntx.memory
    ensures cntx.Valid()
    ensures cntx.Ran(written, ShownLine(p, TextLine(text, p, k, visWidth - p.paddingLeft - p.paddingRight)))
  {
    hide Bytes, Run, ShownLine, Reaches, Wrapped, Times, ConvContext.Valid, Unit.Content, TextLine, TextHeight, TextWidth;
    ghost var inner := TextLine(text, p, k, visWidth - p.paddingLeft - p.paddingRight);
    ShownParts(p, inner);
    ghost var st, n, us := cntx.Now(true), cntx.memory.Length, ShownLine(p, inner);
    ghost var p1 := [Tag(p.cellTag)] + Spaces(p.paddingLeft);
    ghost var p2 := p1 + inner;
    ghost var p3 := p2 + Spaces(p.paddingRight);
    RunFirst(st, [Tag(p.cellTag)], us, n);
    var tmp := cntx.PrintNStrings(1, p.cellTag, Tag(p.cellTag));
    if tmp < 0 {
      return -1;
    }
    written := tmp;
    RunNext(st, [Tag(p.cellTag)], Spaces(p.paddingLeft), us, n);
    tmp := cntx.PrintNStrings(p.paddingLeft, " ", Glyphs(p.paddingLeft, " "));
    if tmp < 0 {
      return -1;
    }
    written := written + tmp;
    RunNext(st, p1, inner, us, n);
    tmp := cntx.BufferPrintf(text, p, k, visWidth - p.paddingLeft - p.paddingRight);
    if tmp < 0 {
      return -1;
    }
    written := written + tmp;
    RunNext(st, p2, Spaces(p.paddingRight), us, n);
    tmp := cntx.PrintNStrings(p.paddingRight, " ", Glyphs(p.paddingRight, " "));
    if tmp < 0 {
      return -1;
    }
    written := written + tmp;
    RunNext(st, p3, [Tag(p.resetCellTag)], us, n);
    tmp := cntx.PrintNStrings(1, p.resetCellTag, Tag(p.resetCellTag));
    if tmp < 0 {
      return -1;
    }
    written := written + tmp;
  }

  /** `cell_printf`: line `row` of a cell that is `visWidth` columns wide; an error if the cell needs more. */
  method CellPrintf(cell: Cell, p: Props, row: nat, cntx: ConvContext, visWidth: nat) returns (written: int)
    requires cntx.Valid()
    requires VisWidth(cell, p) <= visWidth ==> cntx.Shows(CellLine(cell, p, row, visWidth))
    modifies cntx, cntx.memory
    ensures cntx.Valid()
    ensures (if VisWidth(cell, p) <= visWidth then cntx.Ran(written, CellLine(cell, p, row, visWidth))
             else && written == -1 && cntx.Now(true) == old(cntx.Now(true))
                  && cntx.memory[..] == old(cntx.memory[..]))
  {
    hide Bytes, Run, Spaces, TextLine, TextHeight, TextWidth, Reaches, Wrapped, ConvContext.Valid;
    var needed := CellVisWidth(cell, p);
    if visWidth < needed {
      return -1;
    }
    var height := HintHeightCell(cell, p);
    var textHeight := BufferTextVisibleHeight(cell.text);
    if row >= height || row < p.paddingTop || row >= p.paddingTop + textHeight {
      written := PrintBlankLine(p, cntx, visWidth);
    } else {
      written := PrintShownLine(cell.text, p, row - p.paddingTop, cntx, visWidth);
    }
  }

  // ---- A row ----

  /** What is printed at column `j` of line `i`. */
  method PrintCell(t: Table, r: nat, i: nat, j: nat, cntx: ConvContext, colWidths: seq<nat>)
    returns (written: int, last: nat)
    requires cntx.Valid() && Printable(t, colWidths, r) && j < |colWidths| && Starts(t.rows[r], j)
    requires cntx.Shows(Printed(t, colWidths, r, i, j))
    modifies cntx, cntx.memory
    ensures cntx.Valid() && last == Next(t.rows[r], j) - 1
    ensures cntx.Ran(written, Printed(t, colWidths, r, i, j))
  {
    ghost var w := colWidths;
    assert |w| == Columns(t) && r < |t.rows|;
    assert j < |t.rows[r]| ==> j + GroupSize(t.rows[r], j) <= |w|;
    assert j < |t.rows[r]| ==> VisWidth(t.rows[r][j], t.props(r, j)) <= PrintedWidth(t, w, r, j);
    hide Bytes, Run, CellLine, VisWidth, GroupWidth, Covers, WellFormedRow, Columns, ConvContext.Valid, Reaches;
    if j < |t.rows[r]| {
      var groupSlaveSz := GroupCellNumber(t.rows[r], j);
      var cellVisWidth := SumGroup(colWidths, j, j + groupSlaveSz);
      last := j + groupSlaveSz - 1;
      written := CellPrintf(t.rows[r][j], t.props(r, j), i, cntx, cellVisWidth);
    } else {
      last := j;
      written := cntx.PrintNStrings(colWidths[j], " ", Glyphs(colWidths[j], " "));
    }
  }

  /** The border behind a cell, unless the cell was the last one of the line. */
  method PrintBetween(t: Table, r: nat, j: nat, cntx: ConvContext, cols: nat) returns (written: int)
    requires cntx.Valid() && cntx.Shows(Between(t, RowBorder(t, r).iv, j + 1)) && cols == Columns(t) && cols > 0
    modifies cntx, cntx.memory
    ensures cntx.Valid() && cntx.Ran(written, Between(t, RowBorder(t, r).iv, j + 1))
  {
    hide Bytes, Run, Columns, ConvContext.Valid, Reaches;
    if j < cols - 1 {
      var iv := RowBorder(t, r).iv;
      written := cntx.PrintNStrings(1, iv, Glyph(iv));
    } else {
      RunNothing(cntx.Now(true));
      NothingMeasure();
      written := 0;
    }
  }

  /** A cell and the border behind it. */
  ghost function Piece(t: Table, w: seq<nat>, r: nat, i: nat, j: nat): seq<Unit>
    requires Printable(t, w, r) && j < |w| && Starts(t.rows[r], j)
  {
    Printed(t, w, r, i, j) + Between(t, RowBorder(t, r).iv, Next(t.rows[r], j))
  }

  /** A round of the loop over the cells of a line. */
  method PrintPiece(t: Table, r: nat, i: nat, j: nat, cntx: ConvContext, colWidths: seq<nat>)
    returns (written: int, next: nat)
    requires cntx.Valid() && Printable(t, colWidths, r) && j < |colWidths| && Starts(t.rows[r], j)
    requires cntx.Shows(Piece(t, colWidths, r, i, j))
    modifies cntx, cntx.memory
    ensures cntx.Valid() && next == Next(t.rows[r], j) && cntx.Ran(written, Piece(t, colWidths, r, i, j))
  {
    hide Bytes, Run, Printed, Between, WellFormedRow, GroupSize, ConvContext.Valid, Reaches;
    ghost var st, n, us := cntx.Now(true), cntx.memory.Length, Piece(t, colWidths, r, i, j);
    ghost var cell, between := Printed(t, colWidths, r, i, j), Between(t, RowBorder(t, r).iv, Next(t.rows[r], j));
    RunFirst(st, cell, us, n);
    var tmp, last := PrintCell(t, r, i, j, cntx, colWidths);
    next := last + 1;
    if tmp < 0 {
      return -1, next;
    }
    written := tmp;
    RunNext(st, cell, between, us, n);
    tmp := PrintBetween(t, r, last, cntx, |colWidths|);
    if tmp < 0 {
      return -1, next;
    }
    written := written + tmp;
  }

  /** What is left of a line when one cell and the border behind it are printed. */
  lemma CellsStep(t: Table, w: seq<nat>, r: nat, i: nat, j: nat, done: seq<Unit>)
    requires Printable(t, w, r) && Starts(t.rows[r], j) && j < |w|
    requires done + CellsLine(t, w, r, i, j) == CellsLine(t, w, r, i, 0)
    ensures Next(t.rows[r], j) <= |w| && Starts(t.rows[r], Next(t.rows[r], j))
    ensures done + Piece(t, w, r, i, j) + CellsLine(t, w, r, i, Next(t.rows[r], j)) == CellsLine(t, w, r, i, 0)
    ensures done + Piece(t, w, r, i, j) <= CellsLine(t, w, r, i, 0)
  {
    PrintedReach(t, w, r, j);
    var rest := CellsLine(t, w, r, i, Next(t.rows[r], j));
    assert CellsLine(t, w, r, i, j) == Piece(t, w, r, i, j) + rest;
    hide *;
    Assoc(done, Piece(t, w, r, i, j), rest);
  }

  lemma NothingLeft(t: Table, w: seq<nat>, r: nat, i: nat)
    requires Printable(t, w, r) && Starts(t.rows[r], |w|)
    ensures CellsLine(t, w, r, i, |w|) == []
  {
  }

  /** The cells of line `i` of a row, with the borders between them. */
  method PrintCells(t: Table, r: nat, i: nat, cntx: ConvContext, colWidths: seq<nat>) returns (written: int)
    requires cntx.Valid() && Printable(t, colWidths, r) && Starts(t.rows[r], 0)
    requires cntx.Shows(CellsLine(t, colWidths, r, i, 0))
    modifies cntx, cntx.memory
    ensures cntx.Valid() && cntx.Ran(written, CellsLine(t, colWidths, r, i, 0))
  {
    hide Bytes, Run, CellsLine, Piece, Printable, Starts, Next, ConvContext.Valid, Reaches;
    PrintableRow(t, colWidths, r);
    NothingLeft(t, colWidths, r, i);
    ghost var st, n, us := cntx.Now(true), cntx.memory.Length, CellsLine(t, colWidths, r, i, 0);
    ghost var done: seq<Unit> := [];
    RunNothing(st);
    NothingMeasure();
    written := 0;
    var j := 0;
    while j < |colWidths|
      invariant j <= |colWidths| && Starts(t.rows[r], j) && cntx.Valid()
      invariant done + CellsLine(t, colWidths, r, i, j) == us
      invariant cntx.Now(true) == Run(done, st) && written == |Bytes(done)|
      decreases |colWidths| - j
    {
      CellsStep(t, colWidths, r, i, j, done);
      ghost var piece := Piece(t, colWidths, r, i, j);
      RunNext(st, done, piece, us, n);
      var tmp, next := PrintPiece(t, r, i, j, cntx, colWidths);
      if tmp < 0 {
        return -1;
      }
      written := written + tmp;
      done := done + piece;
      j := next;
    }
    assert done + [] == done;
  }

  ghost function Line(left: seq<Unit>, l: string, cells: seq<Unit>, r: string, right: seq<Unit>): seq<Unit> {
    left + [Glyph(l)] + cells + [Glyph(r)] + right + [LINE_END]
  }

  lemma LineParts(left: seq<Unit>, l: string, cells: seq<Unit>, r: string, right: seq<Unit>)
    ensures var us := Line(left, l, cells, r, right);
            var p1 := left + [Glyph(l)];
            var p2 := p1 + cells;
            var p3 := p2 + [Glyph(r)];
            var p4 := p3 + right;
            left <= us && p1 <= us && p2 <= us && p3 <= us && p4 <= us && us == p4 + [LINE_END]
  {
    var p1 := left + [Glyph(l)];
    var p2 := p1 + cells;
    assert left <= p1 <= p2 <= p2 + [Glyph(r)] <= p2 + [Glyph(r)] + right;
  }

  lemma ContentLineIs(t: Table, w: seq<nat>, r: nat, i: nat)
    requires Printable(t, w, r) && Starts(t.rows[r], 0)
    ensures ContentLine(t, w, r, i)
            == Line(Spaces(t.margins.left), RowBorder(t, r).ll, CellsLine(t, w, r, i, 0), RowBorder(t, r).rr,
                    Spaces(t.margins.right))
  {
    hide CellsLine;
  }

  /** One line of a row. */
  method PrintContentLine(t: Table, r: nat, i: nat, cntx: ConvContext, colWidths: seq<nat>) returns (written: int)
    requires cntx.Valid() && Printable(t, colWidths, r) && Starts(t.rows[r], 0)
    requires cntx.Shows(ContentLine(t, colWidths, r, i))
    modifies cntx, cntx.memory
    ensures cntx.Valid() && cntx.Ran(written, ContentLine(t, colWidths, r, i))
  {
    hide Bytes, Run, Line, ContentLine, CellsLine, Printable, Starts, Wrapped, Times, ConvContext.Valid, Unit.Content, Reaches;
    ghost var st, n, us := cntx.Now(true), cntx.memory.Length, ContentLine(t, colWidths, r, i);
    var ll, rr := RowBorder(t, r).ll, RowBorder(t, r).rr;
    ghost var left, cells, right := Spaces(t.margins.left), CellsLine(t, colWidths, r, i, 0), Spaces(t.margins.right);
    ContentLineIs(t, colWidths, r, i);
    LineParts(left, ll, cells, rr, right);
    ghost var p1 := left + [Glyph(ll)];
    ghost var p2 := p1 + cells;
    ghost var p3 := p2 + [Glyph(rr)];
    ghost var p4 := p3 + right;
    RunFirst(st, left, us, n);
    var tmp := cntx.PrintNStrings(t.margins.left, " ", Glyphs(t.margins.left, " "));
    if tmp < 0 {
      return -1;
    }
    written := tmp;
    RunNext(st, left, [Glyph(ll)], us, n);
    tmp := cntx.PrintNStrings(1, ll, Glyph(ll));
    if tmp < 0 {
      return -1;
    }
    written := written + tmp;
    RunNext(st, p1, cells, us, n);
    tmp := PrintCells(t, r, i, cntx, colWidths);
    if tmp < 0 {
      return -1;
    }
    written := written + tmp;
    RunNext(st, p2, [Glyph(rr)], us, n);
    tmp := cntx.PrintNStrings(1, rr, Glyph(rr));
    if tmp < 0 {
      return -1;
    }
    written := written + tmp;
    RunNext(st, p3, right, us, n);
    tmp := cntx.PrintNStrings(t.margins.right, " ", Glyphs(t.margins.right, " "));
    if tmp < 0 {
      return -1;
    }
    written := written + tmp;
    RunNext(st, p4, [LINE_END], us, n);
    tmp := cntx.PrintNStrings(1, "\n", LINE_END);
    if tmp < 0 {
      return -1;
    }
    written := written + tmp;
  }

  ghost function RowText(t: Table, w: seq<nat>, r: nat, n: nat): seq<Unit>
    requires Printable(t, w, r)
  {
    Flat(RowLines(t, w, r, n))
  }

  lemma RowTextStep(t: Table, w: seq<nat>, r: nat, i: nat, n: nat)
    requires Printable(t, w, r) && i < n
    ensures RowText(t, w, r, i + 1) == RowText(t, w, r, i) + ContentLine(t, w, r, i) <= RowText(t, w, r, n)
  {
    hide Printable, ContentLine, Flat;
    assert RowLines(t, w, r, i + 1) == RowLines(t, w, r, i) + [ContentLine(t, w, r, i)];
    FlatLast(RowLines(t, w, r, i), ContentLine(t, w, r, i));
    FlatConcat(RowLines(t, w, r, n)[..i + 1], RowLines(t, w, r, n)[i + 1..]);
    assert RowLines(t, w, r, n)[..i + 1] == RowLines(t, w, r, i + 1);
    assert RowLines(t, w, r, n) == RowLines(t, w, r, n)[..i + 1] + RowLines(t, w, r, n)[i + 1..];
  }

  lemma NoRowText(t: Table, w: seq<nat>, r: nat)
    requires Printable(t, w, r)
    ensures RowText(t, w, r, 0) == []
  {
  }

  /** The loop of `snprintf_row` over the lines of a row. */
  method PrintRowLines(t: Table, r: nat, cntx: ConvContext, colWidths: seq<nat>, rowHeight: nat) returns (written: int)
    requires cntx.Valid() && Printable(t, colWidths, r) && cntx.Shows(RowText(t, colWidths, r, rowHeight))
    modifies cntx, cntx.memory
    ensures cntx.Valid() && cntx.Ran(written, RowText(t, colWidths, r, rowHeight))
  {
    hide Bytes, Run, RowText, ContentLine, Printable, Starts, ConvContext.Valid, Reaches;
    PrintableRow(t, colWidths, r);
    NoRowText(t, colWidths, r);
    ghost var st, n, us := cntx.Now(true), cntx.memory.Length, RowText(t, colWidths, r, rowHeight);
    RunNothing(st);
    NothingMeasure();
    written := 0;
    var i := 0;
    while i < rowHeight
      invariant i <= rowHeight && cntx.Valid()
      invariant cntx.Now(true) == Run(RowText(t, colWidths, r, i), st) && written == |Bytes(RowText(t, colWidths, r, i))|
    {
      RowTextStep(t, colWidths, r, i, rowHeight);
      RunNext(st, RowText(t, colWidths, r, i), ContentLine(t, colWidths, r, i), us, n);
      var tmp := PrintContentLine(t, r, i, cntx, colWidths);
      if tmp < 0 {
        return -1;
      }
      written := written + tmp;
      i := i + 1;
    }
  }

  /** `snprintf_row`: all lines of a row; an error if the row has more cells than there are columns. */
  method SnprintfRow(t: Table, r: nat, cntx: ConvContext, colWidths: seq<nat>, rowHeight: nat) returns (written: int)
    requires cntx.Valid() && r < |t.rows|
    requires (|t.rows[r]| <= |colWidths| ==>
               Printable(t, colWidths, r) && cntx.Shows(RowText(t, colWidths, r, rowHeight)))
    modifies cntx, cntx.memory
    ensures cntx.Valid()
    ensures (if |t.rows[r]| <= |colWidths| then cntx.Ran(written, RowText(t, colWidths, r, rowHeight))
             else && written == -1 && cntx.Now(true) == old(cntx.Now(true))
                  && cntx.memory[..] == old(cntx.memory[..]))
  {
    hide Bytes, Run, Printable, RowText, ConvContext.Valid, Reaches;
    if |t.rows[r]| > |colWidths| {
      return -1;
    }
    written := PrintRowLines(t, r, cntx, colWidths, rowHeight);
  }
}
