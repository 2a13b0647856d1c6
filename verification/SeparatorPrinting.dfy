/** `print_row_separator_impl` of src/fort.c. */
module SeparatorPrinting {
  import opened Common
  import opened TableModel
  import opened TableSizes
  import opened Units
  import opened PrintRuns
  import opened Separators
  import opened TableText
  import opened Printing

  datatype SeparatorPos = TopSeparator | InsideSeparator | BottomSeparator

  /** The row above separator `k`, if there is one. */
  function RowAbove(t: Table, k: nat): Option<CellRow> {
    if 0 < k <= |t.rows| then Some(t.rows[k - 1]) else None
  }

  function RowBelow(t: Table, k: nat): Option<CellRow> {
    if k < |t.rows| then Some(t.rows[k]) else None
  }

  function PosOf(t: Table, k: nat): SeparatorPos {
    if k == 0 then TopSeparator else if k < |t.rows| then InsideSeparator else BottomSeparator
  }

  /** `get_row_cell_types`; a row that does not exist counts as one span. */
  method RowCellTypes(row: Option<CellRow>, cols: nat) returns (types: array<CellKind>)
    ensures fresh(types) && types.Length == cols
    ensures (forall c :: 0 <= c < cols ==>
               types[c] == if row.None? then GroupSlave
                           else if c < |row.value| then row.value[c].kind else CommonCell)
  {
    types := new CellKind[cols](_ => CommonCell);
    if row.Some? {
      for i := 0 to cols
        invariant forall c :: 0 <= c < i ==> types[c] == if c < |row.value| then row.value[c].kind else CommonCell
      {
        var cell := CellAt(row.value, i);
        if cell.Some? {
          types[i] := cell.value.kind;
        } else {
          types[i] := CommonCell;
        }
      }
    } else {
      for i := 0 to cols
        invariant forall c :: 0 <= c < i ==> types[c] == GroupSlave
      {
        types[i] := GroupSlave;
      }
    }
  }

  /** The choice of the glyphs of a separator. */
  method ChooseGlyphs(t: Table, k: nat, upperRow: Option<CellRow>, lowerRow: Option<CellRow>, pos: SeparatorPos, enabled: bool)
    returns (g: SeparatorGlyphs)
    requires 0 < |t.rows| && k <= |t.rows|
    requires upperRow == RowAbove(t, k) && lowerRow == RowBelow(t, k) && pos == PosOf(t, k) && enabled == SwitchedOn(t, k)
    ensures g == GlyphsAt(t, k)
  {
    var lowerIsHeader := false;
    if lowerRow.Some? {
      lowerIsHeader := t.isHeader(k);
    }
    var upperIsHeader := false;
    if upperRow.Some? {
      upperIsHeader := t.isHeader(k - 1);
    }
    var b := t.border;
    if upperIsHeader || lowerIsHeader {
      b := t.headerBorder;
    }
    if enabled {
      var s := t.separatorStyle;
      g := SeparatorGlyphs(s.lh, s.ih, s.ii, s.rh, s.ti, s.bi, s.ih);
      if lowerRow.None? {
        g := g.(l := b.bl, r := b.br);
      } else if upperRow.None? {
        g := g.(l := b.tl, r := b.tr);
      }
    } else {
      match pos
      case TopSeparator => g := SeparatorGlyphs(b.tl, b.tt, b.tv, b.tr, b.tv, b.tv, b.tt);
      case InsideSeparator => g := SeparatorGlyphs(b.lh, b.ih, b.ii, b.rh, b.ti, b.bi, b.ih);
      case BottomSeparator => g := SeparatorGlyphs(b.bl, b.bb, b.bv, b.br, b.bv, b.bv, b.bb);
    }
  }

  /** One column of a separator. */
  ghost function SeparatorPiece(t: Table, w: seq<nat>, k: nat, c: nat): seq<Unit>
    requires c < |w|
  {
    [Glyph(Junction(t, k, c))] + Copies(w[c], GlyphsAt(t, k).i)
  }

  /** What one column of a separator adds to it. */
  lemma SeparatorStep(t: Table, w: seq<nat>, k: nat, c: nat)
    requires c < |w|
    ensures SeparatorCells(t, w, k, c) + SeparatorPiece(t, w, k, c) == SeparatorCells(t, w, k, c + 1)
    ensures SeparatorCells(t, w, k, c + 1) <= SeparatorCells(t, w, k, |w|)
    decreases |w| - c
  {
    hide Junction, GlyphsAt, Copies;
    Assoc(SeparatorCells(t, w, k, c), [Glyph(Junction(t, k, c))], Copies(w[c], GlyphsAt(t, k).i));
    if c + 1 < |w| {
      SeparatorStep(t, w, k, c + 1);
    }
  }

  /** One round of the loop over the columns. */
  method PrintSeparatorPiece(t: Table, k: nat, i: nat, g: SeparatorGlyphs, top: CellKind, bottom: CellKind,
                             cntx: ConvContext, colWidths: seq<nat>)
    returns (written: int)
    requires cntx.Valid() && i < |colWidths| && cntx.Shows(SeparatorPiece(t, colWidths, k, i)) && g == GlyphsAt(t, k)
    requires top == KindAt(t, k - 1, i) && bottom == KindAt(t, k, i)
    modifies cntx, cntx.memory
    ensures cntx.Valid() && cntx.Ran(written, SeparatorPiece(t, colWidths, k, i))
  {
    hide Bytes, Run, GlyphsAt, KindAt, Times, ConvContext.Valid, Reaches, Unit.Content;
    ghost var st, n, us := cntx.Now(true), cntx.memory.Length, SeparatorPiece(t, colWidths, k, i);
    var glyph;
    if i == 0 {
      glyph := g.l;
    } else if (top.CommonCell? || top.GroupMaster?) && (bottom.CommonCell? || bottom.GroupMaster?) {
      glyph := g.iv;
    } else if top.GroupSlave? && bottom.GroupSlave? {
      glyph := g.ii;
    } else if top.GroupSlave? {
      glyph := g.it;
    } else {
      glyph := g.ib;
    }
    assert glyph == Junction(t, k, i);
    RunFirst(st, [Glyph(glyph)], us, n);
    var tmp := cntx.PrintNStrings(1, glyph, Glyph(glyph));
    if tmp < 0 {
      return -1;
    }
    written := tmp;
    RunNext(st, [Glyph(glyph)], Copies(colWidths[i], g.i), us, n);
    tmp := cntx.PrintNStrings(colWidths[i], g.i, Glyphs(colWidths[i], g.i));
    if tmp < 0 {
      return -1;
    }
    written := written + tmp;
  }

  /** The loop over the columns. */
  method PrintSeparatorCells(t: Table, k: nat, g: SeparatorGlyphs, top: array<CellKind>, bottom: array<CellKind>,
                             cntx: ConvContext, colWidths: seq<nat>)
    returns (written: int)
    requires cntx.Valid() && cntx.Shows(SeparatorCells(t, colWidths, k, |colWidths|)) && g == GlyphsAt(t, k)
    requires top.Length == |colWidths| && forall c :: 0 <= c < top.Length ==> top[c] == KindAt(t, k - 1, c)
    requires bottom.Length == |colWidths| && forall c :: 0 <= c < bottom.Length ==> bottom[c] == KindAt(t, k, c)
    modifies cntx, cntx.memory
    ensures cntx.Valid() && cntx.Ran(written, SeparatorCells(t, colWidths, k, |colWidths|))
  {
    hide Bytes, Run, SeparatorCells, SeparatorPiece, GlyphsAt, KindAt, ConvContext.Valid, Reaches;
    ghost var st, n, us := cntx.Now(true), cntx.memory.Length, SeparatorCells(t, colWidths, k, |colWidths|);
    NoSeparatorCells(t, colWidths, k);
    RunNothing(st);
    NothingMeasure();
    written := 0;
    var i := 0;
    while i < |colWidths|
      invariant i <= |colWidths| && cntx.Valid()
      invariant cntx.Now(true) == Run(SeparatorCells(t, colWidths, k, i), st)
      invariant written == |Bytes(SeparatorCells(t, colWidths, k, i))|
    {
      SeparatorStep(t, colWidths, k, i);
      RunNext(st, SeparatorCells(t, colWidths, k, i), SeparatorPiece(t, colWidths, k, i), us, n);
      var tmp := PrintSeparatorPiece(t, k, i, g, top[i], bottom[i], cntx, colWidths);
      if tmp < 0 {
        return -1;
      }
      written := written + tmp;
      i := i + 1;
    }
  }

  lemma NoSeparatorCells(t: Table, w: seq<nat>, k: nat)
    ensures SeparatorCells(t, w, k, 0) == []
  {
  }

  const FT_ERROR: int := -2

  /** `print_row_separator_impl`: nothing if none of its glyphs can be seen, else one line. */
  method PrintRowSeparator(t: Table, k: nat, cntx: ConvContext, colWidths: seq<nat>,
                           upperRow: Option<CellRow>, lowerRow: Option<CellRow>, pos: SeparatorPos, enabled: bool)
    returns (status: int)
    requires cntx.Valid() && cntx.Shows(Flat(SeparatorLines(t, colWidths, k))) && 0 < |t.rows| && k <= |t.rows|
    requires upperRow == RowAbove(t, k) && lowerRow == RowBelow(t, k) && pos == PosOf(t, k) && enabled == SwitchedOn(t, k)
    modifies cntx, cntx.memory
    ensures cntx.Valid() && cntx.Ran(status, Flat(SeparatorLines(t, colWidths, k)))
  {
    hide Bytes, Run, SeparatorLine, GlyphsAt, SeparatorLines, Flat, ConvContext.Valid, Reaches;
    var topRowTypes := RowCellTypes(upperRow, |colWidths|);
    var bottomRowTypes := RowCellTypes(lowerRow, |colWidths|);
    var g := ChooseGlyphs(t, k, upperRow, lowerRow, pos, enabled);
    SeparatorText(t, colWidths, k);
    if Unseen(g.l) && Unseen(g.i) && Unseen(g.iv) && Unseen(g.r) {
      RunNothing(cntx.Now(true));
      NothingMeasure();
      return 0;
    }
    status := PrintSeparatorLine(t, k, g, topRowTypes, bottomRowTypes, cntx, colWidths);
  }

  lemma SeparatorParts(t: Table, w: seq<nat>, k: nat)
    ensures var us := SeparatorLine(t, w, k);
            var p0 := Spaces(t.margins.left);
            var p1 := p0 + SeparatorCells(t, w, k, |w|);
            var p2 := p1 + [Glyph(GlyphsAt(t, k).r)];
            var p3 := p2 + Spaces(t.margins.right);
            p0 <= us && p1 <= us && p2 <= us && p3 <= us && us == p3 + [LINE_END]
  {
    hide SeparatorCells, GlyphsAt, Spaces;
    var p0 := Spaces(t.margins.left);
    var p1 := p0 + SeparatorCells(t, w, k, |w|);
    var p2 := p1 + [Glyph(GlyphsAt(t, k).r)];
    assert p0 <= p1 <= p2 <= p2 + Spaces(t.margins.right);
  }

  /** The prints of a separator that can be seen. */
  method PrintSeparatorLine(t: Table, k: nat, g: SeparatorGlyphs, top: array<CellKind>, bottom: array<CellKind>,
                            cntx: ConvContext, colWidths: seq<nat>)
    returns (written: int)
    requires cntx.Valid() && cntx.Shows(SeparatorLine(t, colWidths, k)) && g == GlyphsAt(t, k)
    requires top.Length == |colWidths| && forall c :: 0 <= c < top.Length ==> top[c] == KindAt(t, k - 1, c)
    requires bottom.Length == |colWidths| && forall c :: 0 <= c < bottom.Length ==> bottom[c] == KindAt(t, k, c)
    modifies cntx, cntx.memory
    ensures cntx.Valid() && cntx.Ran(written, SeparatorLine(t, colWidths, k))
  {
    hide Bytes, Run, SeparatorLine, SeparatorCells, GlyphsAt, KindAt, Times, ConvContext.Valid, Reaches, Unit.Content;
    ghost var st, n, us := cntx.Now(true), cntx.memory.Length, SeparatorLine(t, colWidths, k);
    ghost var left, cells := Spaces(t.margins.left), SeparatorCells(t, colWidths, k, |colWidths|);
    ghost var p1 := left + cells;
    ghost var p2 := p1 + [Glyph(g.r)];
    ghost var p3 := p2 + Spaces(t.margins.right);
    SeparatorParts(t, colWidths, k);
    RunFirst(st, left, us, n);
    var tmp := cntx.PrintNStrings(t.margins.left, " ", Glyphs(t.margins.left, " "));
    if tmp < 0 {
      return FT_ERROR;
    }
    written := tmp;
    RunNext(st, left, cells, us, n);
    tmp := PrintSeparatorCells(t, k, g, top, bottom, cntx, colWidths);
    if tmp < 0 {
      return FT_ERROR;
    }
    written := written + tmp;
    RunNext(st, p1, [Glyph(g.r)], us, n);
    tmp := cntx.PrintNStrings(1, g.r, Glyph(g.r));
    if tmp < 0 {
      return FT_ERROR;
    }
    written := written + tmp;
    RunNext(st, p2, Spaces(t.margins.right), us, n);
    tmp := cntx.PrintNStrings(t.margins.right, " ", Glyphs(t.margins.right, " "));
    if tmp < 0 {
      return FT_ERROR;
    }
    written := written + tmp;
    RunNext(st, p3, [LINE_END], us, n);
    tmp := cntx.PrintNStrings(1, "\n", LINE_END);
    if tmp < 0 {
      return FT_ERROR;
    }
    written := written + tmp;
  }
}
