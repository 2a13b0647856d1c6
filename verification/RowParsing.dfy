/** Making a row from a string with column separators, as src/fort.c does it. */
module RowParsing {
  import opened Common
  import opened Fields
  import opened CellText
  import opened Rows

  const ZERO := '\0'

  /** The string that a pointer into a buffer denotes: everything up to the first zero. */
  method CString(buf: array<char>, base: nat, ghost end: nat) returns (s: string)
    requires base <= end < buf.Length && buf[end] == ZERO
    requires forall i :: base <= i < end ==> buf[i] != ZERO
    ensures s == buf[base..end]
  {
    var i := base;
    while buf[i] != ZERO
      invariant base <= i <= end
      decreases end - i
    {
      i := i + 1;
    }
    s := buf[base..i];
  }

  /** `columns_number_in_fmt_string`: the number of fields. */
  method ColumnsNumber(fmt: string, sep: char) returns (n: nat)
    ensures n == |Split(fmt, sep)|
  {
    var separators := StrChrCount(fmt, sep);
    PieceCount(fmt, sep);
    n := separators + 1;
  }

  /** The cells hold the first pieces of the string. */
  ghost predicate HoldPieces(cells: seq<CellObject>, s: string, sep: char)
    reads cells
  {
    |cells| <= |Split(s, sep)| && forall k :: 0 <= k < |cells| ==> cells[k].text == Split(s, sep)[k]
  }

  ghost function Texts(cells: seq<CellObject>): seq<string>
    reads cells
  {
    seq(|cells|, k requires 0 <= k < |cells| reads cells => cells[k].text)
  }

  /** The copy still reads as the string from `from` on. */
  ghost predicate CopyFrom(copy: array<char>, s: string, from: nat)
    reads copy
  {
    && copy.Length == |s| + 1 && copy[|s|] == ZERO
    && forall i :: from <= i < |s| ==> copy[i] == s[i]
  }

  /** The library's `strchr` on the copy. */
  method FindSeparator(copy: array<char>, pos: nat, sep: char, ghost s: string) returns (p: Option<nat>)
    requires pos <= |s| && CopyFrom(copy, s, pos) && ZERO !in s && sep != ZERO
    ensures var i := IndexFrom(s, sep, pos); p == if i == |s| then None else Some(i)
  {
    var i := pos;
    while copy[i] != ZERO && copy[i] != sep
      invariant pos <= i <= |s| && sep !in s[pos..i]
      decreases |s| - i
    {
      assert s[pos..i + 1] == s[pos..i] + [s[i]];
      i := i + 1;
    }
    IndexIs(s, sep, pos, i);
    p := if copy[i] == ZERO then None else Some(i);
  }

  /** A round of the loop of `create_row_from_string`: the separator becomes the end of the field in front of it. */
  method TakeField(copy: array<char>, pos: nat, sep: char, ghost s: string, ghost k: nat)
    returns (text: string, found: Option<nat>)
    requires ZERO !in s && sep != ZERO && k < |Split(s, sep)| && pos == Start(s, sep, k) && CopyFrom(copy, s, pos)
    modifies copy
    ensures text == Split(s, sep)[k]
    ensures found.Some? <==> k + 1 < |Split(s, sep)|
    ensures found.Some? ==> found.value < |s| && found.value + 1 == Start(s, sep, k + 1) && CopyFrom(copy, s, found.value + 1)
  {
    hide Split, Start, IndexFrom;
    PieceAt(s, sep, k);
    found := FindSeparator(copy, pos, sep, s);
    ghost var end := IndexFrom(s, sep, pos);
    if found.Some? {
      copy[found.value] := ZERO;
    }
    text := CString(copy, pos, end);
    assert text == s[pos..end];
  }

  /** A cell with the next field is pushed to the row. */
  method PushCell(row: Row, text: string, ghost s: string, ghost sep: char)
    requires row.Valid() && HoldPieces(row.cells, s, sep) && |row.cells| < |Split(s, sep)|
    requires text == Split(s, sep)[|row.cells|]
    modifies row
    ensures row.Valid() && HoldPieces(row.cells, s, sep) && |row.cells| == |old(row.cells)| + 1
    ensures forall c :: c in row.cells ==> c in old(row.cells) || fresh(c)
  {
    hide Split;
    var cell := new CellObject(text);
    row.cells := row.cells + [cell];
  }

  /** `create_row_from_string`: one cell for every field, also for empty ones in any place. */
  method CreateRowFromString(s: string, sep: char) returns (row: Row)
    requires ZERO !in s && sep != ZERO
    ensures fresh(row) && row.Valid() && forall c :: c in row.cells ==> fresh(c)
    ensures Texts(row.cells) == Split(s, sep) && Texts(row.cells) != [] && Join(Texts(row.cells), sep) == s
  {
    hide Split, Start, IndexFrom;
    row := new Row();
    var copy := new char[|s| + 1](i requires 0 <= i <= |s| => if i < |s| then s[i] else ZERO);
    var pos := 0;
    var numberOfSeparators := 0;
    var atEnd := false;
    StartOfFirst(s, sep);
    while !atEnd && copy[pos] != ZERO
      invariant row.Valid() && fresh(row) && (forall c :: c in row.cells ==> fresh(c)) && HoldPieces(row.cells, s, sep)
      invariant fresh(copy) && copy.Length == |s| + 1 && pos <= |s|
      invariant atEnd ==> |row.cells| == |Split(s, sep)| == numberOfSeparators + 1
      invariant !atEnd ==> |row.cells| == numberOfSeparators < |Split(s, sep)|
      invariant !atEnd ==> pos == Start(s, sep, |row.cells|) && CopyFrom(copy, s, pos)
      decreases !atEnd, |Split(s, sep)| - |row.cells|
    {
      var text, found := TakeField(copy, pos, sep, s, |row.cells|);
      PushCell(row, text, s, sep);
      if found.Some? {
        pos := found.value + 1;
        numberOfSeparators := numberOfSeparators + 1;
      } else {
        atEnd := true;
      }
    }
    if !atEnd {
      LastPieceIsEmpty(s, sep, |row.cells|);
    }
    while |row.cells| < numberOfSeparators + 1
      invariant row.Valid() && fresh(row) && (forall c :: c in row.cells ==> fresh(c)) && HoldPieces(row.cells, s, sep)
      invariant numberOfSeparators <= |row.cells| <= numberOfSeparators + 1 == |Split(s, sep)|
      invariant |row.cells| == numberOfSeparators ==> Split(s, sep)[|row.cells|] == ""
    {
      PushCell(row, "", s, sep);
    }
    assert Texts(row.cells) == Split(s, sep);
    JoinSplit(s, sep);
  }

  lemma LastPieceIsEmpty(s: string, sep: char, k: nat)
    requires k < |Split(s, sep)| && Start(s, sep, k) == |s|
    ensures k + 1 == |Split(s, sep)| && Split(s, sep)[k] == ""
  {
    PieceAt(s, sep, k);
    hide Split, Start;
  }
}
