/** The tables of src/fort.c as the geometry and the printers see them. */
module TableModel {
  import opened Common
  import opened CellText

  datatype CellKind = CommonCell | GroupMaster | GroupSlave
  datatype Cell = Cell(text: string, kind: CellKind)
  datatype Align = AlignLeft | AlignCenter | AlignRight

  /** What the property container answers for one cell; the four tags are the style escapes around it. */
  datatype Props = Props(minWidth: nat, align: Align,
                         paddingTop: nat, paddingBottom: nat, paddingLeft: nat, paddingRight: nat,
                         emptyStrHeight: nat,
                         cellTag: string, resetCellTag: string, contentTag: string, resetContentTag: string)

  /** The glyphs of a border, named as in the diagrams of src/fort.c:1933-1961. */
  datatype Border = Border(tl: string, tt: string, tv: string, tr: string,
                           ll: string, iv: string, rr: string,
                           lh: string, ih: string, ii: string, rh: string,
                           bl: string, bb: string, bv: string, br: string,
                           li: string, ti: string, ri: string, bi: string)
  {
    function Glyphs(): seq<string> {
      [tl, tt, tv, tr, ll, iv, rr, lh, ih, ii, rh, bl, bb, bv, br, li, ti, ri, bi]
    }
  }

  /** The glyphs of a separator that the user switched on. */
  datatype SeparatorStyle = SeparatorStyle(lh: string, ih: string, ii: string, rh: string, ti: string, bi: string)
  {
    function Glyphs(): seq<string> {
      [lh, ih, ii, rh, ti, bi]
    }
  }

  datatype Margins = Margins(left: nat, top: nat, right: nat, bottom: nat)

  type CellRow = seq<Cell>

  datatype Table = Table(rows: seq<CellRow>, separators: seq<bool>, props: (nat, nat) -> Props, isHeader: nat -> bool,
                         border: Border, headerBorder: Border, separatorStyle: SeparatorStyle, margins: Margins)

  /** `get_cell_c`: no cell behind the end of a row. */
  function CellAt(row: CellRow, col: nat): Option<Cell> {
    if col < |row| then Some(row[col]) else None
  }

  // ---- Sizes of one cell ----

  ghost function VisWidth(cell: Cell, p: Props): nat {
    Max(p.paddingLeft + p.paddingRight + TextWidth(cell.text), p.minWidth)
  }

  function InvisWidth(p: Props): nat {
    |p.cellTag| + |p.resetCellTag| + |p.contentTag| + |p.resetContentTag|
  }

  ghost function HintHeight(cell: Cell, p: Props): nat {
    p.paddingTop + p.paddingBottom + if TextHeight(cell.text) == 0 then p.emptyStrHeight else TextHeight(cell.text)
  }

  /** A cell is as wide as it has to be: for each of its lines with the paddings, and for the minimal width. */
  lemma VisWidthIsLeast(cell: Cell, p: Props)
    ensures forall k :: 0 <= k < |Lines(cell.text)| ==>
                          p.paddingLeft + |Lines(cell.text)[k]| + p.paddingRight <= VisWidth(cell, p)
    ensures p.minWidth <= VisWidth(cell, p)
    ensures (VisWidth(cell, p) == p.minWidth
             || exists k :: 0 <= k < |Lines(cell.text)|
                            && VisWidth(cell, p) == p.paddingLeft + |Lines(cell.text)[k]| + p.paddingRight)
  {
    var lines := Lines(cell.text);
    assert TextWidth(cell.text) == Longest(lines, |lines|) && |lines| > 0;
    var k :| 0 <= k < |lines| && |lines[k]| == TextWidth(cell.text);
  }

  /** A cell is as high as its lines and the paddings; without text, the height of an empty string stands for the lines. */
  lemma HintHeightIsLines(cell: Cell, p: Props)
    ensures cell.text != "" ==> HintHeight(cell, p) == p.paddingTop + |Lines(cell.text)| + p.paddingBottom
    ensures cell.text == "" ==> HintHeight(cell, p) == p.paddingTop + p.emptyStrHeight + p.paddingBottom
  {
  }

  function Max(a: nat, b: nat): nat {
    if a > b then a else b
  }

  /** `cell_vis_width` */
  method CellVisWidth(cell: Cell, p: Props) returns (width: nat)
    ensures width == VisWidth(cell, p)
  {
    width := p.paddingLeft + p.paddingRight;
    var text := BufferTextVisibleWidth(cell.text);
    width := width + text;
    width := Max(width, p.minWidth);
  }

  /** `cell_invis_codes_width` */
  method CellInvisCodesWidth(p: Props) returns (width: nat)
    ensures width == InvisWidth(p)
  {
    width := 0;
    width := width + |p.cellTag|;
    width := width + |p.resetCellTag|;
    width := width + |p.contentTag|;
    width := width + |p.resetContentTag|;
  }

  /** `hint_height_cell` */
  method HintHeightCell(cell: Cell, p: Props) returns (height: nat)
    ensures height == HintHeight(cell, p)
  {
    height := p.paddingTop + p.paddingBottom;
    var text := BufferTextVisibleHeight(cell.text);
    height := height + if text == 0 then p.emptyStrHeight else text;
  }

  // ---- Spans ----

  /** How many slave cells stand side by side from `col` on. */
  ghost function Slaves(row: CellRow, col: nat): (n: nat)
    requires col <= |row|
    ensures col + n <= |row|
    ensures forall k :: col <= k < col + n ==> row[k].kind.GroupSlave?
    ensures col + n < |row| ==> !row[col + n].kind.GroupSlave?
    decreases |row| - col
  {
    if col < |row| && row[col].kind.GroupSlave? then 1 + Slaves(row, col + 1) else 0
  }

  /** The number of columns that the cell at `col` takes: a master and all slaves that follow it. */
  ghost function GroupSize(row: CellRow, col: nat): (n: nat)
    ensures col < |row| ==> 1 <= n && col + n <= |row|
  {
    if col >= |row| then 0
    else if row[col].kind.GroupMaster? then 1 + Slaves(row, col + 1)
    else 1
  }

  /** `group_cell_number` */
  method GroupCellNumber(row: CellRow, masterCol: nat) returns (n: nat)
    ensures n == GroupSize(row, masterCol)
  {
    if CellAt(row, masterCol).None? {
      return 0;
    }
    if !row[masterCol].kind.GroupMaster? {
      return 1;
    }
    var slaveCol := masterCol + 1;
    while slaveCol < |row|
      invariant slaveCol <= |row|
      invariant slaveCol - masterCol + Slaves(row, slaveCol) == GroupSize(row, masterCol)
    {
      if row[slaveCol].kind.GroupSlave? {
        slaveCol := slaveCol + 1;
      } else {
        break;
      }
    }
    return slaveCol - masterCol;
  }

  /** Every slave follows a master or a slave. */
  ghost predicate WellFormedRow(row: CellRow) {
    forall c :: 0 <= c < |row| && row[c].kind.GroupSlave? ==> c > 0 && !row[c - 1].kind.CommonCell?
  }

  ghost predicate WellFormed(t: Table) {
    forall r :: 0 <= r < |t.rows| ==> WellFormedRow(t.rows[r])
  }

  /** `get_cell_and_create_if_not_exists`: a row is filled up with empty common cells. */
  method FillUp(row: CellRow, col: nat) returns (filled: CellRow)
    ensures |filled| == if col < |row| then |row| else col + 1
    ensures forall c :: 0 <= c < |filled| ==> filled[c] == if c < |row| then row[c] else Cell("", CommonCell)
  {
    filled := row;
    while |filled| <= col
      invariant |row| <= |filled| && (|filled| <= col + 1 || filled == row)
      invariant forall c :: 0 <= c < |filled| ==> filled[c] == if c < |row| then row[c] else Cell("", CommonCell)
    {
      filled := filled + [Cell("", CommonCell)];
    }
  }

  /** The row with a span of `n` columns at `col`, as far as `upTo`; new cells are empty. */
  ghost predicate Spanned(row: CellRow, cells: CellRow, col: nat, upTo: nat) {
    && col < upTo && |cells| == Max(|row|, upTo)
    && (forall c :: 0 <= c < |cells| ==>
          cells[c] == Cell(if c < |row| then row[c].text else "",
                           if c == col then GroupMaster else if col < c < upTo then GroupSlave
                           else if c < |row| then row[c].kind else CommonCell))
  }

  /** A span leaves the rows well formed, and takes the columns that were asked for. */
  lemma SpannedIsWellFormed(row: CellRow, cells: CellRow, col: nat, upTo: nat)
    requires Spanned(row, cells, col, upTo)
    ensures GroupSize(cells, col) >= upTo - col
    ensures WellFormedRow(row) ==> WellFormedRow(cells)
  {
    SlavesReach(cells, col + 1, upTo - col - 1);
  }

  /** `row_set_cell_span`: builds well-formed spans only, and leaves every text in place. */
  method RowSetCellSpan(row: CellRow, cellColumn: nat, horSpan: nat) returns (spanned: Option<CellRow>)
    ensures spanned.None? <==> horSpan < 2
    ensures spanned.Some? ==> Spanned(row, spanned.value, cellColumn, cellColumn + horSpan)
    ensures spanned.Some? ==> GroupSize(spanned.value, cellColumn) >= horSpan
    ensures spanned.Some? && WellFormedRow(row) ==> WellFormedRow(spanned.value)
  {
    hide WellFormedRow, GroupSize;
    if horSpan < 2 {
      return None;
    }
    var cells := FillUp(row, cellColumn);
    cells := cells[cellColumn := cells[cellColumn].(kind := GroupMaster)];
    var left := horSpan - 1;
    var column := cellColumn + 1;
    while left > 0
      invariant column + left == cellColumn + horSpan && Spanned(row, cells, cellColumn, column)
    {
      cells := FillUp(cells, column);
      cells := cells[column := cells[column].(kind := GroupSlave)];
      left := left - 1;
      column := column + 1;
    }
    SpannedIsWellFormed(row, cells, cellColumn, column);
    return Some(cells);
  }

  lemma {:induction false} SlavesReach(row: CellRow, col: nat, n: nat)
    requires col + n <= |row| && forall c :: col <= c < col + n ==> row[c].kind.GroupSlave?
    ensures Slaves(row, col) >= n
    decreases n
  {
    if n > 0 {
      SlavesReach(row, col + 1, n - 1);
    }
  }
}
