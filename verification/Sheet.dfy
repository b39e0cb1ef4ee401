/**
 The cell grid of a workbook sheet (`core/features/documents/xlsx.ts`): column names
 as numbers, and sparse cells made into dense rows.
 */
module Sheet {
  import opened Wrappers
  import opened Text

  // ---- column names ---------------------------------------------------------

  predicate IsLetter(c: char) {
    'A' <= c <= 'Z'
  }

  predicate ColumnText(name: string) {
    forall i :: 0 <= i < |name| ==> IsLetter(name[i])
  }

  /** What the pattern `[A-Z]+` lets through. */
  predicate IsColumnName(name: string) {
    name != "" && ColumnText(name)
  }

  function LetterNumber(c: char): (n: nat)
    requires IsLetter(c)
    ensures 1 <= n <= 26
  {
    c as int - 64
  }

  /** The number a name writes in base 26 with digits from 1 to 26. */
  function ColumnNumber(name: string): nat
    requires ColumnText(name)
  {
    if name == "" then 0 else ColumnNumber(name[..|name| - 1]) * 26 + LetterNumber(name[|name| - 1])
  }

  method ColumnIndex(name: string) returns (n: int)
    requires ColumnText(name)
    ensures n == ColumnNumber(name) - 1
  {
    n := 0;
    for i := 0 to |name|
      invariant n == ColumnNumber(name[..i])
    {
      assert name[..i + 1][..i] == name[..i];
      n := n * 26 + (name[i] as int - 64);
    }
    assert name[..|name|] == name;
    n := n - 1;
  }

  function Letter(n: nat): (c: char)
    requires 1 <= n <= 26
    ensures IsLetter(c) && LetterNumber(c) == n
  {
    (n + 64) as char
  }

  /** The name that writes a number; the empty one writes 0. */
  function ColumnName(n: nat): (name: string)
    ensures ColumnText(name) && (name == "" <==> n == 0)
  {
    if n == 0 then "" else ColumnName((n - 1) / 26) + [Letter((n - 1) % 26 + 1)]
  }

  lemma {:induction false} NumberOfName(n: nat)
    ensures ColumnNumber(ColumnName(n)) == n
  {
    if n > 0 {
      NumberOfName((n - 1) / 26);
      var name := ColumnName(n);
      assert name[..|name| - 1] == ColumnName((n - 1) / 26);
    }
  }

  lemma {:induction false} NameOfNumber(name: string)
    requires ColumnText(name)
    ensures ColumnName(ColumnNumber(name)) == name
  {
    if name != "" {
      var init, last := name[..|name| - 1], name[|name| - 1];
      NameOfNumber(init);
      LastLetter(ColumnNumber(init), LetterNumber(last));
      assert name == init + [last];
    }
  }

  lemma LastLetter(k: nat, l: nat)
    requires 1 <= l <= 26
    ensures (k * 26 + l - 1) / 26 == k && (k * 26 + l - 1) % 26 + 1 == l
  {
  }

  /** The order of spreadsheet columns: shorter names first, then as strings. */
  predicate Shortlex(a: string, b: string) {
    |a| < |b| || (|a| == |b| && StrLt(a, b))
  }

  lemma {:induction false} ShortlexNumber(a: string, b: string)
    requires ColumnText(a) && ColumnText(b)
    ensures Shortlex(a, b) <==> ColumnNumber(a) < ColumnNumber(b)
    decreases |a| + |b|
  {
    if a != "" && b != "" {
      var i, j := a[..|a| - 1], b[..|b| - 1];
      var x, y := a[|a| - 1], b[|b| - 1];
      ShortlexNumber(i, j);
      ShortlexNumber(j, i);
      if |a| == |b| {
        assert a == i + [x] && b == j + [y];
        StrLtAppend(i, [x], j, [y]);
        StrLtTotal(i, j);
        assert StrLt([x], [y]) <==> x < y;
      }
      if ColumnNumber(i) == ColumnNumber(j) {
        NameOfNumber(i);
        NameOfNumber(j);
      }
    }
  }

  /**
   `columnIndex` is a bijection from the non-empty names onto the natural numbers,
   increasing from the shortlex order of names to the order of numbers.
   */
  lemma ColumnBijection(a: string, b: string, n: nat)
    requires IsColumnName(a) && IsColumnName(b)
    ensures ColumnNumber(a) - 1 >= 0
    ensures IsColumnName(ColumnName(n + 1)) && ColumnNumber(ColumnName(n + 1)) - 1 == n
    ensures a == b <==> ColumnNumber(a) == ColumnNumber(b)
    ensures Shortlex(a, b) <==> ColumnNumber(a) - 1 < ColumnNumber(b) - 1
  {
    NumberOfName(n + 1);
    NameOfNumber(a);
    NameOfNumber(b);
    ShortlexNumber(a, b);
  }

  // ---- the grid -------------------------------------------------------------

  /** A cell as its element gives it: the letters and the number of its reference, and its value. */
  datatype Cell = Cell(column: string, number: nat, value: string)

  type Grid = seq<seq<string>>

  type Values = map<(nat, nat), string>

  predicate ValidCell(c: Cell) {
    IsColumnName(c.column) && c.number >= 1
  }

  /** Row and column of a cell, from zero. */
  function PlaceOf(c: Cell): (nat, nat)
    requires ValidCell(c)
  {
    ColumnBijection(c.column, c.column, 0);
    (c.number - 1, ColumnNumber(c.column) - 1)
  }

  /** Rows count from 1 and columns from "A", and both from zero in the grid. */
  lemma PlaceExactly(c: Cell, row: nat, column: nat)
    requires ValidCell(c)
    ensures PlaceOf(c) == (row, column) <==> c.number == row + 1 && c.column == ColumnName(column + 1)
  {
    NameOfNumber(c.column);
    NumberOfName(column + 1);
  }

  /** The columns that carry: after "Z" comes "AA", after "ZZ" "AAA". */
  lemma ColumnsCarry()
    ensures ColumnName(1) == "A" && ColumnName(26) == "Z" && ColumnName(27) == "AA"
    ensures ColumnName(702) == "ZZ" && ColumnName(703) == "AAA"
  {
    assert ColumnName(1) == ColumnName(0) + [Letter(1)] == "A";
    assert ColumnName(26) == ColumnName(0) + [Letter(26)] == "Z";
    assert ColumnName(27) == ColumnName(1) + [Letter(1)] == "AA";
    assert ColumnName(702) == ColumnName(26) + [Letter(26)] == "ZZ";
    assert ColumnName(703) == ColumnName(27) + [Letter(1)] == "AAA";
  }

  /** The last value written at each place. */
  function Written(cells: seq<Cell>): Values
    requires forall i :: 0 <= i < |cells| ==> ValidCell(cells[i])
  {
    if cells == [] then map[]
    else
      var last := cells[|cells| - 1];
      Written(cells[..|cells| - 1])[PlaceOf(last) := last.value]
  }

  ghost predicate ValuesHeld(rows: Grid, values: Values) {
    forall p :: p in values ==> p.0 < |rows| && p.1 < |rows[p.0]| && rows[p.0][p.1] == values[p]
  }

  ghost predicate GapsEmpty(rows: Grid, values: Values) {
    forall r: nat, c: nat :: r < |rows| && c < |rows[r]| && (r, c) !in values ==> rows[r][c] == ""
  }

  ghost predicate EndsWritten(rows: Grid, values: Values) {
    && (forall r: nat :: r < |rows| && |rows[r]| > 0 ==> (r, |rows[r]| - 1) in values)
    && (|rows| > 0 ==> |rows[|rows| - 1]| > 0)
  }

  /** The dense rows of a set of values: gaps empty, each row and the whole ending with a written cell. */
  ghost predicate IsGrid(rows: Grid, values: Values) {
    ValuesHeld(rows, values) && GapsEmpty(rows, values) && EndsWritten(rows, values)
  }

  /** There is only one. */
  lemma GridUnique(a: Grid, b: Grid, values: Values)
    requires IsGrid(a, values) && IsGrid(b, values)
    ensures a == b
  {
    GridNotLonger(a, b, values);
    GridNotLonger(b, a, values);
    forall r | 0 <= r < |a| ensures a[r] == b[r] {
      RowNotLonger(a, b, values, r);
      RowNotLonger(b, a, values, r);
      forall c | 0 <= c < |a[r]| ensures a[r][c] == b[r][c] {
        if (r, c) in values {
          var p := (r, c);
          assert p in values && a[p.0][p.1] == values[p] && b[p.0][p.1] == values[p];
        }
      }
    }
  }

  lemma GridNotLonger(a: Grid, b: Grid, values: Values)
    requires IsGrid(a, values) && IsGrid(b, values)
    ensures |a| <= |b|
  {
    if |a| > 0 {
      var r := |a| - 1;
      var p := (r, |a[r]| - 1);
      assert p in values && p.0 < |b|;
    }
  }

  lemma RowNotLonger(a: Grid, b: Grid, values: Values, r: nat)
    requires IsGrid(a, values) && IsGrid(b, values) && r < |a| && r < |b|
    ensures |a[r]| <= |b[r]|
  {
    if |a[r]| > 0 {
      var p := (r, |a[r]| - 1);
      assert p in values && p.1 < |b[p.0]|;
    }
  }

  method PushRows(rows: Grid, index: nat) returns (grown: Grid)
    ensures |grown| == if |rows| <= index then index + 1 else |rows|
    ensures grown[..|rows|] == rows
    ensures forall r :: |rows| <= r < |grown| ==> grown[r] == []
  {
    grown := rows;
    while |grown| <= index
      invariant |rows| <= |grown| && (|grown| <= index + 1 || grown == rows)
      invariant grown[..|rows|] == rows
      invariant forall r :: |rows| <= r < |grown| ==> grown[r] == []
    {
      grown := grown + [[]];
    }
  }

  method SetCell(row: seq<string>, col: nat, value: string) returns (r: seq<string>)
    ensures |r| == if |row| <= col then col + 1 else |row|
    ensures forall c :: 0 <= c < |r| ==> r[c] == if c == col then value else if c < |row| then row[c] else ""
  {
    r := row;
    while |r| < col
      invariant |row| <= |r| && (|r| <= col || r == row)
      invariant forall c :: 0 <= c < |r| ==> r[c] == if c < |row| then row[c] else ""
    {
      r := r + [""];
    }
    r := if col == |r| then r + [value] else r[col := value];
  }

  /** The grid after one write: row `r` holds `value` at `c`, and all else is as it was, padded. */
  ghost predicate Wrote(rows: Grid, after: Grid, r: nat, c: nat, value: string) {
    && |after| == (if |rows| <= r then r + 1 else |rows|)
    && (forall i: nat :: i < |after| && i != r ==> after[i] == RowOf(rows, i))
    && |after[r]| == (if |RowOf(rows, r)| <= c then c + 1 else |RowOf(rows, r)|)
    && after[r][c] == value
    && (forall j: nat :: j < |after[r]| && j != c ==> after[r][j] == if j < |RowOf(rows, r)| then RowOf(rows, r)[j] else "")
  }

  function RowOf(rows: Grid, i: nat): seq<string> {
    if i < |rows| then rows[i] else []
  }

  lemma WroteValues(rows: Grid, after: Grid, values: Values, r: nat, c: nat, value: string)
    requires IsGrid(rows, values) && Wrote(rows, after, r, c, value)
    ensures ValuesHeld(after, values[(r, c) := value])
  {
    hide GapsEmpty, EndsWritten;
    var next := values[(r, c) := value];
    forall p | p in next ensures p.0 < |after| && p.1 < |after[p.0]| && after[p.0][p.1] == next[p] {
      if p != (r, c) {
        assert p in values && next[p] == values[p];
        assert p.0 < |rows| && p.1 < |rows[p.0]| && rows[p.0][p.1] == values[p];
        assert RowOf(rows, p.0) == rows[p.0];
      }
    }
  }

  lemma WroteGaps(rows: Grid, after: Grid, values: Values, r: nat, c: nat, value: string)
    requires IsGrid(rows, values) && Wrote(rows, after, r, c, value)
    ensures GapsEmpty(after, values[(r, c) := value])
  {
    var next := values[(r, c) := value];
    forall i: nat, j: nat | i < |after| && j < |after[i]| && (i, j) !in next ensures after[i][j] == "" {
      assert (i, j) !in values && (i, j) != (r, c);
      if i < |rows| && j < |rows[i]| {
        assert rows[i][j] == "";
      }
    }
  }

  lemma WroteRowEnd(rows: Grid, after: Grid, values: Values, r: nat, c: nat, value: string, i: nat)
    requires EndsWritten(rows, values) && Wrote(rows, after, r, c, value) && i < |after| && |after[i]| > 0
    ensures (i, |after[i]| - 1) in values[(r, c) := value]
  {
    if i != r || |after[r]| != c + 1 {
      assert i < |rows| && |after[i]| == |rows[i]|;
      assert (i, |rows[i]| - 1) in values;
    }
  }

  lemma WroteLast(rows: Grid, after: Grid, values: Values, r: nat, c: nat, value: string)
    requires EndsWritten(rows, values) && Wrote(rows, after, r, c, value)
    ensures |after| > 0 && |after[|after| - 1]| > 0
  {
    var last := |after| - 1;
    if last != r {
      assert after[last] == RowOf(rows, last);
    }
  }

  lemma WroteEnds(rows: Grid, after: Grid, values: Values, r: nat, c: nat, value: string)
    requires IsGrid(rows, values) && Wrote(rows, after, r, c, value)
    ensures EndsWritten(after, values[(r, c) := value])
  {
    hide Wrote, ValuesHeld, GapsEmpty;
    WroteLast(rows, after, values, r, c, value);
    forall i: nat | i < |after| && |after[i]| > 0 ensures (i, |after[i]| - 1) in values[(r, c) := value] {
      WroteRowEnd(rows, after, values, r, c, value, i);
    }
  }

  lemma GridStep(rows: Grid, after: Grid, values: Values, r: nat, c: nat, value: string)
    requires IsGrid(rows, values) && Wrote(rows, after, r, c, value)
    ensures IsGrid(after, values[(r, c) := value])
  {
    hide Wrote, ValuesHeld, GapsEmpty, EndsWritten;
    WroteValues(rows, after, values, r, c, value);
    WroteGaps(rows, after, values, r, c, value);
    WroteEnds(rows, after, values, r, c, value);
  }

  /** The rows without a trailing run of empty ones. */
  function WithoutEmptyTail(rows: Grid): Grid {
    if rows != [] && rows[|rows| - 1] == [] then WithoutEmptyTail(rows[..|rows| - 1]) else rows
  }

  /** `readSheetRows` on its cells; a row number of zero makes it throw. */
  method SheetRows(cells: seq<Cell>) returns (r: Option<Grid>)
    requires forall i :: 0 <= i < |cells| ==> IsColumnName(cells[i].column)
    ensures r.Some? <==> forall i :: 0 <= i < |cells| ==> cells[i].number >= 1
    ensures r.Some? ==> IsGrid(r.value, Written(cells))
  {
    hide IsGrid, ColumnText, ColumnNumber;
    var rows: Grid := [];
    NoCells();
    for i := 0 to |cells|
      invariant forall k :: 0 <= k < i ==> cells[k].number >= 1
      invariant IsGrid(rows, Written(cells[..i]))
    {
      var cell := cells[i];
      var col := ColumnIndex(cell.column);
      var rowIndex := cell.number - 1;
      if rowIndex < 0 {
        return None;
      }
      ColumnBijection(cell.column, cell.column, 0);
      var grown := PushRows(rows, rowIndex);
      var row := SetCell(grown[rowIndex], col, cell.value);
      var after := grown[rowIndex := row];
      assert Wrote(rows, after, rowIndex, col, cell.value) by {
        assert forall k :: 0 <= k < |rows| ==> grown[k] == rows[k];
      }
      GridStep(rows, after, Written(cells[..i]), rowIndex, col, cell.value);
      assert cells[..i + 1][..i] == cells[..i];
      rows := after;
    }
    assert cells[..|cells|] == cells;
    ghost var filled := rows;
    while |rows| > 0 && |rows[|rows| - 1]| == 0
      invariant WithoutEmptyTail(rows) == WithoutEmptyTail(filled)
    {
      rows := rows[..|rows| - 1];
    }
    LastRowWritten(filled, Written(cells));
    r := Some(rows);
  }

  lemma NoCells()
    ensures IsGrid([], Written([]))
  {
  }

  /** The loop that pops trailing empty rows never has one to pop. */
  lemma LastRowWritten(rows: Grid, values: Values)
    requires IsGrid(rows, values)
    ensures WithoutEmptyTail(rows) == rows
  {
  }

  /**
   What the rows say of the cells, in whatever order they came: the value at a place
   is the last one written there, a gap is empty, a row is one longer than its
   largest column and the sheet one longer than its largest row.
   */
  lemma GridMeans(cells: seq<Cell>, rows: Grid)
    requires forall i :: 0 <= i < |cells| ==> ValidCell(cells[i])
    requires IsGrid(rows, Written(cells))
    ensures forall i :: 0 <= i < |cells| ==>
              var (r, c) := PlaceOf(cells[i]);
              && r < |rows| && c < |rows[r]|
              && ((forall j :: i < j < |cells| ==> PlaceOf(cells[j]) != PlaceOf(cells[i])) ==> rows[r][c] == cells[i].value)
    ensures forall r: nat, c: nat :: r < |rows| && c < |rows[r]| && NotWritten(cells, r, c) ==> rows[r][c] == ""
    ensures forall r: nat :: r < |rows| && rows[r] != [] ==> !NotWritten(cells, r, |rows[r]| - 1)
    ensures rows != [] ==> rows[|rows| - 1] != []
  {
    hide PlaceOf, Written, NotWritten;
    forall i | 0 <= i < |cells|
      ensures PlaceOf(cells[i]) in Written(cells)
      ensures (forall j :: i < j < |cells| ==> PlaceOf(cells[j]) != PlaceOf(cells[i])) ==>
                Written(cells)[PlaceOf(cells[i])] == cells[i].value
    {
      WrittenLast(cells, i);
    }
    forall r: nat, c: nat ensures (r, c) in Written(cells) <==> !NotWritten(cells, r, c) {
      WrittenOnly(cells, r, c);
    }
  }

  predicate NotWritten(cells: seq<Cell>, r: nat, c: nat)
    requires forall i :: 0 <= i < |cells| ==> ValidCell(cells[i])
  {
    forall i :: 0 <= i < |cells| ==> PlaceOf(cells[i]) != (r, c)
  }

  lemma {:induction false} WrittenLast(cells: seq<Cell>, i: nat)
    requires forall k :: 0 <= k < |cells| ==> ValidCell(cells[k])
    requires i < |cells|
    ensures PlaceOf(cells[i]) in Written(cells)
    ensures (forall j :: i < j < |cells| ==> PlaceOf(cells[j]) != PlaceOf(cells[i])) ==>
              Written(cells)[PlaceOf(cells[i])] == cells[i].value
  {
    hide PlaceOf;
    if i < |cells| - 1 {
      var init := cells[..|cells| - 1];
      assert init[i] == cells[i];
      WrittenLast(init, i);
    }
  }

  lemma {:induction false} WrittenOnly(cells: seq<Cell>, r: nat, c: nat)
    requires forall k :: 0 <= k < |cells| ==> ValidCell(cells[k])
    ensures (r, c) in Written(cells) <==> !NotWritten(cells, r, c)
  {
    hide PlaceOf;
    if cells != [] {
      var init := cells[..|cells| - 1];
      WrittenOnly(init, r, c);
      assert forall i :: 0 <= i < |init| ==> init[i] == cells[i];
    }
  }
}
