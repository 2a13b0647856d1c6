/** `ft_row_printf` of src/fort.c, from the formatted string on: parsing, and putting the cells into the table. */
module FormattedRows {
  import opened Common
  import opened Fields
  import opened Vectors
  import opened Rows
  import opened RowParsing
  import opened TableRows

  /**
   * The fields that a formatted string stands for: its pieces, if there are as many as in the format; else the whole
   * string, if the format has no separator; else none, which is an error.
   */
  ghost function FieldsOf(fmt: string, s: string, sep: char): Option<seq<string>> {
    if |Split(s, sep)| == |Split(fmt, sep)| then Some(Split(s, sep))
    else if |Split(fmt, sep)| == 1 then Some([s])
    else None
  }

  /**
   * Fields are as many as the format has, hold no separator if the format has one, and are the string again when they are
   * joined, which is true of no other fields. There is an error if the string has another number of separators than the
   * format, unless the format has none.
   */
  lemma FieldsAre(fmt: string, s: string, sep: char)
    ensures FieldsOf(fmt, s, sep).None? <==> sep in fmt && multiset(s)[sep] != multiset(fmt)[sep]
    ensures (FieldsOf(fmt, s, sep).Some? ==>
              var fields := FieldsOf(fmt, s, sep).value;
              && |fields| == multiset(fmt)[sep] + 1 && Join(fields, sep) == s
              && (sep in fmt ==> forall k :: 0 <= k < |fields| ==> sep !in fields[k])
              && forall others :: OtherFields(others, fmt, s, sep) ==> others == fields)
  {
    hide Join, Split;
    PieceCount(s, sep);
    PieceCount(fmt, sep);
    JoinSplit(s, sep);
    JoinOne(s, sep);
    forall k | 0 <= k < |Split(s, sep)| ensures sep !in Split(s, sep)[k] {
      PiecesHaveNoSeparator(s, sep, k);
    }
    forall others | OtherFields(others, fmt, s, sep) ensures FieldsOf(fmt, s, sep) == Some(others) {
      OnlyFields(others, fmt, s, sep);
    }
  }

  /** Pieces that could be the fields of a formatted string. */
  ghost predicate OtherFields(fields: seq<string>, fmt: string, s: string, sep: char) {
    && |fields| == multiset(fmt)[sep] + 1 && Join(fields, sep) == s
    && (sep in fmt ==> forall k :: 0 <= k < |fields| ==> sep !in fields[k])
  }

  lemma JoinOne(s: string, sep: char)
    ensures Join([s], sep) == s
  {
  }

  lemma OnlyFields(fields: seq<string>, fmt: string, s: string, sep: char)
    requires OtherFields(fields, fmt, s, sep)
    ensures FieldsOf(fmt, s, sep) == Some(fields)
  {
    hide Split;
    PieceCount(s, sep);
    PieceCount(fmt, sep);
    if sep in fmt {
      SplitJoin(fields, sep);
    } else {
      assert fields == [fields[0]];
      JoinOne(fields[0], sep);
      SplitsIntoOne(s, sep);
    }
  }

  lemma SplitsIntoOne(s: string, sep: char)
    ensures |Split(s, sep)| == 1 ==> Split(s, sep) == [s]
  {
    JoinSplit(s, sep);
  }

  /** `create_row_from_fmt_string`, given what `vsnprintf` made of the format. */
  method CreateRowFromFmtString(fmt: string, s: string, sep: char) returns (row: Option<Row>)
    requires ZERO !in s && sep != ZERO
    ensures row.None? <==> FieldsOf(fmt, s, sep).None?
    ensures row.Some? ==> forall k :: 0 <= k < |row.value.cells| ==> fresh(row.value.cells[k])
    ensures (row.Some? ==> fresh(row.value) && row.value.Valid() && Texts(row.value.cells) == FieldsOf(fmt, s, sep).value)
  {
    hide Split;
    var colsOrigin := ColumnsNumber(fmt, sep);
    var cols := ColumnsNumber(s, sep);
    if cols == colsOrigin {
      var parsed := CreateRowFromString(s, sep);
      assert forall k :: 0 <= k < |parsed.cells| ==> parsed.cells[k] in parsed.cells;
      return Some(parsed);
    }
    if colsOrigin == 1 {
      var whole := new Row();
      var cell := new CellObject(s);
      whole.cells := whole.cells + [cell];
      return Some(whole);
    }
    return None;
  }

  /** Texts follow the cells wherever these go. */
  lemma TextsFollow(cur: seq<CellObject>, ins: seq<CellObject>, pos: nat)
    requires pos <= |cur|
    ensures |Texts(cur)| == |cur|
    ensures Texts(Inserted(cur, ins, pos)) == Inserted(Texts(cur), Texts(ins), pos)
    ensures Texts(Replaced(cur, ins, pos)) == Replaced(Texts(cur), Texts(ins), pos)
  {
  }

  /** The texts of a row after fields were put into it. */
  ghost function TextsWith(strategy: AddingStrategy, texts: seq<string>, fields: seq<string>, pos: nat): seq<string>
    requires pos <= |texts|
  {
    if strategy.InsertCells? then Inserted(texts, fields, pos) else Replaced(texts, fields, pos)
  }

  /** The row of fields goes into the table. */
  method PutFields(t: TableObject, row: nat, newRow: Row) returns (newCols: nat)
    requires t.Valid() && newRow.Valid() && newRow !in t.rows
    requires forall r :: r in t.rows ==> Apart(r.cells, newRow.cells)
    requires t.strategy.ReplaceCells? ==> t.curCol <= |t.CellsAt(row)|
    modifies t, t.rows, newRow, t.owned`live, newRow.cells`live
    ensures t.Valid() && t.strategy == old(t.strategy)
    ensures newCols == |old(newRow.cells)| && t.curCol == old(t.curCol) + newCols
    ensures row < |t.rows| && old(t.rows) <= t.rows
    ensures forall r :: 0 <= r < |t.rows| && r != row ==> t.rows[r].cells == old(t.CellsAt(r))
    ensures (old(t.curCol) <= |old(t.CellsAt(row))| ==>
              Texts(t.rows[row].cells)
              == TextsWith(t.strategy, old(Texts(t.CellsAt(row))), old(Texts(newRow.cells)), old(t.curCol)))
  {
    hide TableObject.Valid, Row.Valid, Replaced, Inserted, Displaced;
    ghost var before, given := t.CellsAt(row), newRow.cells;
    ghost var texts, fields := Texts(before), Texts(given);
    newCols := t.RowPrintf(row, newRow);
    if old(t.curCol) <= |before| {
      TextsFollow(before, given, old(t.curCol));
      assert Texts(before) == texts && Texts(given) == fields;
    }
  }

  /**
   * `ft_row_printf_impl_`: the fields of the formatted string are put into row `row` at the cursor, and the cursor goes
   * behind them; when the string has not the fields of its format, nothing happens.
   */
  method FtRowPrintf(t: TableObject, row: nat, fmt: string, s: string, sep: char) returns (newCols: int)
    requires t.Valid() && ZERO !in s && sep != ZERO
    requires t.strategy.ReplaceCells? ==> t.curCol <= |t.CellsAt(row)|
    modifies t, t.rows, t.owned`live
    ensures t.Valid() && t.strategy == old(t.strategy)
    ensures FieldsOf(fmt, s, sep).None? ==> newCols == -1 && t.rows == old(t.rows) && t.curCol == old(t.curCol)
    ensures FieldsOf(fmt, s, sep).None? ==> forall r :: 0 <= r < |t.rows| ==> t.rows[r].cells == old(t.CellsAt(r))
    ensures (FieldsOf(fmt, s, sep).Some? ==>
              && newCols == |FieldsOf(fmt, s, sep).value| && t.curCol == old(t.curCol) + newCols
              && row < |t.rows| && old(t.rows) <= t.rows)
    ensures (FieldsOf(fmt, s, sep).Some? ==>
              forall r :: 0 <= r < |t.rows| && r != row ==> t.rows[r].cells == old(t.CellsAt(r)))
    ensures (FieldsOf(fmt, s, sep).Some? && old(t.curCol) <= |old(t.CellsAt(row))| ==>
              Texts(t.rows[row].cells)
              == TextsWith(t.strategy, old(Texts(t.CellsAt(row))), FieldsOf(fmt, s, sep).value, old(t.curCol)))
  {
    hide FieldsOf, TextsWith, Replaced, Inserted;
    var newRow := CreateRowFromFmtString(fmt, s, sep);
    if newRow.None? {
      return -1;
    }
    ApartFromTable(t, newRow.value);
    newCols := PutFields(t, row, newRow.value);
  }

  /** A new row shares no cell with the table. */
  lemma ApartFromTable(t: TableObject, newRow: Row)
    requires t.Valid() && forall c :: c in newRow.cells ==> c !in t.owned
    ensures forall r :: r in t.rows ==> Apart(r.cells, newRow.cells)
  {
  }
}
