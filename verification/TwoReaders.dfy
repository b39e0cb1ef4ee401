/**
 The document reader (`core/features/documents/csv.ts`) against the history
 parser (`core/features/history/csv.ts`): the texts on which they agree, exactly.
 */
module TwoReaders {
  import opened Wrappers
  import opened Text
  import opened Csv
  import opened CsvRoundTrip
  import opened Delimited
  import opened DelimitedLaws

  /**
   What lone carriage returns have done to the current line: nothing; ended its one
   record, `open` when that record's last cell is empty; or cut a record of empty cells.
   */
  datatype Line = Whole | Ended(open: bool) | Blank

  function Cut(line: Line, p: Reader): Line {
    var row := p.row + [p.field];
    if line != Whole || row == [""] then line
    else if Filled(row) then Ended(p.field == "")
    else Blank
  }

  /** May a quote open here? To the history parser only where its field is empty. */
  predicate MayOpen(line: Line, p: Reader) {
    match line
    case Whole => p.field == ""
    case Ended(open) => open
    case Blank => true
  }

  /**
   The texts both readers understand alike. Outside quotes a quote only opens a
   field. A carriage return without a line feed changes nothing on an empty record;
   after one that ends a record with content the line holds nothing more, and after
   one that cuts a record of empty cells the line holds empty cells only.
   */
  predicate Alike(s: string, d: char, p: Reader, line: Line)
    decreases |s|
  {
    if s == "" then true
    else
      var ch := s[0];
      if p.quoted then
        if ch != QUOTE then line == Whole && Alike(s[1..], d, p.(field := p.field + [ch]), line)
        else if |s| > 1 && s[1] == QUOTE then line == Whole && Alike(s[2..], d, p.(field := p.field + [QUOTE]), line)
        else Alike(s[1..], d, p.(quoted := false), line)
      else if ch == QUOTE then MayOpen(line, p) && Alike(s[1..], d, p.(quoted := true), line)
      else if ch == d then !line.Ended? && Alike(s[1..], d, p.(row := p.row + [p.field], field := ""), line)
      else if ch == '\n' then Alike(s[1..], d, EndRow(p), Whole)
      else if ch == '\r' then
        if |s| > 1 && s[1] == '\n' then Alike(s[2..], d, EndRow(p), Whole)
        else Alike(s[1..], d, EndRow(p), Cut(line, p))
      else line == Whole && Alike(s[1..], d, p.(field := p.field + [ch]), line)
  }

  /** What the history parser returns from here on, as a list of records. */
  function HistoryRecords(s: string, d: char, h: Parser): seq<seq<string>> {
    Finish(Scan(s, d, h)).records
  }

  /** What the document reader returns from here on, less the records that hold nothing. */
  function DocumentRecords(s: string, d: char, p: Reader): seq<seq<string>> {
    FilledOnly(Close(Read(s, d, p)))
  }

  // ---- what is read stays read ----------------------------------------------

  /** Record `k` begins with these cells and then a cell that begins with `field`. */
  predicate Begins(records: seq<seq<string>>, k: nat, cells: seq<string>, field: string) {
    && k < |records| && |cells| < |records[k]|
    && cells <= records[k] && field <= records[k][|cells|]
  }

  lemma FilledGrows(cells: seq<string>, field: string, more: string)
    ensures Filled(cells + [field]) ==> Filled(cells + [field + more]) && Filled(cells + [field] + [more])
    ensures field != "" ==> Filled(cells + [field])
  {
    var row := cells + [field];
    if Filled(row) {
      var i :| 0 <= i < |row| && row[i] != "";
      assert (cells + [field + more])[i] != "" && (row + [more])[i] != "";
    }
    assert row[|cells|] == field;
  }

  lemma BeginsShorter(records: seq<seq<string>>, k: nat, cells: seq<string>, field: string, more: string)
    ensures Begins(records, k, cells, field + more) ==> Begins(records, k, cells, field)
    ensures Begins(records, k, cells + [field], more) ==>
              Begins(records, k, cells, field) && records[k][|cells|] == field
  {
    if Begins(records, k, cells + [field], more) {
      assert records[k][|cells|] == (cells + [field])[|cells|];
    }
  }

  lemma {:induction false} FilledOnlyAppend(rows: seq<seq<string>>, row: seq<string>)
    ensures FilledOnly(rows + [row]) == FilledOnly(rows) + if Filled(row) then [row] else []
  {
    if rows == [] {
      assert [row][1..] == [] && rows + [row] == [row];
    } else {
      assert (rows + [row])[1..] == rows[1..] + [row];
      FilledOnlyAppend(rows[1..], row);
    }
  }

  lemma {:induction false} HistoryKeeps(s: string, d: char, h: Parser)
    requires Separator(d)
    ensures
      var all := HistoryRecords(s, d, h);
      && h.records <= all
      && (Filled(h.record + [h.field]) ==> Begins(all, |h.records|, h.record, h.field))
      && (!h.inQuotes && h.field != "" ==>
            && Begins(all, |h.records|, h.record, h.field)
            && '\r' !in all[|h.records|][|h.record|][|h.field|..])
    decreases |s|, 0
  {
    hide Filled;
    var all := HistoryRecords(s, d, h);
    var k := |h.records|;
    FilledGrows(h.record, h.field, "");
    if s == "" {
    } else if h.inQuotes && s[0] == QUOTE && |s| > 1 && s[1] == QUOTE {
      HistoryGrows(s[2..], d, h, QUOTE);
    } else if h.inQuotes && s[0] == QUOTE {
      HistoryKeeps(s[1..], d, h.(inQuotes := false));
    } else if h.inQuotes {
      HistoryGrows(s[1..], d, h, s[0]);
    } else if s[0] == QUOTE && h.field == "" {
      HistoryKeeps(s[1..], d, h.(inQuotes := true, quoted := true));
    } else if s[0] == d {
      HistoryKeeps(s[1..], d, EndField(h));
      BeginsShorter(all, k, h.record, h.field, "");
    } else if s[0] == '\r' {
      HistoryKeeps(s[1..], d, h);
    } else if s[0] == '\n' {
      HistoryKeeps(s[1..], d, EndRecord(h));
    } else {
      HistoryGrows(s[1..], d, h, s[0]);
    }
  }

  lemma HistoryGrows(s: string, d: char, h: Parser, ch: char)
    requires Separator(d)
    ensures
      var all := HistoryRecords(s, d, h.(field := h.field + [ch]));
      && h.records <= all
      && Begins(all, |h.records|, h.record, h.field + [ch])
      && Begins(all, |h.records|, h.record, h.field)
      && (!h.inQuotes && ch != '\r' ==> '\r' !in all[|h.records|][|h.record|][|h.field|..])
    decreases |s|, 1
  {
    hide Filled, Scan, Finish;
    var g := h.(field := h.field + [ch]);
    var all := HistoryRecords(s, d, g);
    FilledGrows(h.record, g.field, "");
    HistoryKeeps(s, d, g);
    BeginsShorter(all, |h.records|, h.record, h.field, [ch]);
    if !h.inQuotes && ch != '\r' {
      var cell := all[|h.records|][|h.record|];
      assert cell[|h.field|..] == [cell[|h.field|]] + cell[|g.field|..];
      assert cell[|h.field|] == ch by {
        assert g.field[|h.field|] == ch;
      }
    }
  }

  lemma {:induction false} DocumentKeeps(s: string, d: char, p: Reader)
    requires Separator(d)
    ensures
      var all := DocumentRecords(s, d, p);
      var before := FilledOnly(p.rows);
      && before <= all
      && (Filled(p.row + [p.field]) ==> Begins(all, |before|, p.row, p.field))
    decreases |s|, 0
  {
    hide Filled, FilledOnly;
    var all := DocumentRecords(s, d, p);
    var k := |FilledOnly(p.rows)|;
    FilledGrows(p.row, p.field, "");
    FilledOnlyAppend(p.rows, p.row + [p.field]);
    if s == "" {
    } else if p.quoted && s[0] == QUOTE && |s| > 1 && s[1] == QUOTE {
      DocumentGrows(s[2..], d, p, QUOTE);
    } else if p.quoted && s[0] == QUOTE {
      DocumentKeeps(s[1..], d, p.(quoted := false));
    } else if p.quoted {
      DocumentGrows(s[1..], d, p, s[0]);
    } else if s[0] == QUOTE {
      DocumentKeeps(s[1..], d, p.(quoted := true));
    } else if s[0] == d {
      DocumentKeeps(s[1..], d, p.(row := p.row + [p.field], field := ""));
      BeginsShorter(all, k, p.row, p.field, "");
    } else if s[0] == '\r' && |s| > 1 && s[1] == '\n' {
      DocumentKeeps(s[2..], d, EndRow(p));
    } else if s[0] == '\n' || s[0] == '\r' {
      DocumentKeeps(s[1..], d, EndRow(p));
    } else {
      DocumentGrows(s[1..], d, p, s[0]);
    }
  }

  lemma DocumentGrows(s: string, d: char, p: Reader, ch: char)
    requires Separator(d)
    ensures
      var all := DocumentRecords(s, d, p.(field := p.field + [ch]));
      var before := FilledOnly(p.rows);
      && before <= all
      && Begins(all, |before|, p.row, p.field + [ch])
      && Begins(all, |before|, p.row, p.field)
    decreases |s|, 1
  {
    hide Filled, FilledOnly, Read, Close;
    var g := p.(field := p.field + [ch]);
    FilledGrows(p.row, g.field, "");
    DocumentKeeps(s, d, g);
    BeginsShorter(DocumentRecords(s, d, g), |FilledOnly(p.rows)|, p.row, p.field, [ch]);
  }

  // ---- a quote inside a field -----------------------------------------------

  /**
   The history parser holds the text `x + u` of a field, the document reader
   `x + y` of the same one: `u` has no part of the structure, and `y` has fallen behind.
   */
  ghost predicate Behind(h: Parser, p: Reader, d: char, x: string, u: string, y: string) {
    && h.records == FilledOnly(p.rows) && h.record == p.row
    && !h.inQuotes && x != "" && h.field == x + u && p.field == x + y
    && d !in u && '\n' !in u && '\r' !in u
    && ('\r' in y || |y| < |u|)
  }

  lemma Apart(h: Parser, p: Reader, d: char, x: string, u: string, y: string, rest: string)
    requires Behind(h, p, d, x, u, y) && '\r' !in rest
    ensures x + u + rest != x + y
    ensures forall c :: c == d || c == '\n' ==> !(x + y + [c] <= x + u)
  {
    assert (x + u + rest)[|x|..] == u + rest && (x + y)[|x|..] == y;
    forall c | c == d || c == '\n' ensures !(x + y + [c] <= x + u) {
      assert (x + y + [c])[|x + y|] == c;
      assert |y| < |u| ==> (x + u)[|x + y|] == u[|y|];
    }
  }

  /** Once a quote has come inside a field, the two readers never agree again. */
  lemma {:induction false} NeverCatchesUp(s: string, d: char, h: Parser, p: Reader, x: string, u: string, y: string)
    requires Separator(d) && Behind(h, p, d, x, u, y)
    ensures HistoryRecords(s, d, h) != DocumentRecords(s, d, p)
    decreases |s|
  {
    hide Filled, FilledOnly, Finish, Close;
    if s == "" || (!p.quoted && s[0] in {d, '\n', '\r'}) {
      CellsDiffer(s, d, h, p, x, u, y);
    } else if s[0] in {d, '\n'} {
      SwallowedBreak(s, d, h, p, x, u, y);
    } else if s[0] == '\r' {
      assert x + y + ['\r'] == x + (y + ['\r']);
      NeverCatchesUp(s[1..], d, h, p.(field := p.field + ['\r']), x, u, y + ['\r']);
    } else if s[0] != QUOTE {
      assert x + u + [s[0]] == x + (u + [s[0]]) && x + y + [s[0]] == x + (y + [s[0]]);
      NeverCatchesUp(s[1..], d, h.(field := h.field + [s[0]]), p.(field := p.field + [s[0]]),
        x, u + [s[0]], y + [s[0]]);
    } else if p.quoted && |s| > 1 && s[1] == QUOTE {
      var g := h.(field := h.field + [QUOTE]);
      assert s[1..][1..] == s[2..];
      assert Scan(s[1..], d, g) == Scan(s[2..], d, g.(field := g.field + [QUOTE]));
      assert g.field + [QUOTE] == x + (u + [QUOTE, QUOTE]) && x + y + [QUOTE] == x + (y + [QUOTE]);
      NeverCatchesUp(s[2..], d, g.(field := g.field + [QUOTE]), p.(field := p.field + [QUOTE]),
        x, u + [QUOTE, QUOTE], y + [QUOTE]);
    } else {
      assert x + u + [QUOTE] == x + (u + [QUOTE]);
      NeverCatchesUp(s[1..], d, h.(field := h.field + [QUOTE]), p.(quoted := !p.quoted), x, u + [QUOTE], y);
    }
  }

  /** The document reader ends the field here. */
  lemma CellsDiffer(s: string, d: char, h: Parser, p: Reader, x: string, u: string, y: string)
    requires Separator(d) && Behind(h, p, d, x, u, y)
    requires s == "" || (!p.quoted && s[0] in {d, '\n', '\r'})
    ensures HistoryRecords(s, d, h) != DocumentRecords(s, d, p)
  {
    hide Filled, FilledOnly, HistoryRecords, DocumentRecords;
    HistoryKeeps(s, d, h);
    DocumentCell(s, d, p);
    var cell := HistoryRecords(s, d, h)[|h.records|][|h.record|];
    assert cell == x + u + cell[|x + u|..];
    Apart(h, p, d, x, u, y, cell[|x + u|..]);
  }

  /** The history parser ends the field here, while to the document reader this is text. */
  lemma SwallowedBreak(s: string, d: char, h: Parser, p: Reader, x: string, u: string, y: string)
    requires Separator(d) && Behind(h, p, d, x, u, y)
    requires s != "" && p.quoted && s[0] in {d, '\n'}
    ensures HistoryRecords(s, d, h) != DocumentRecords(s, d, p)
  {
    hide Filled, FilledOnly, HistoryRecords;
    HistoryCell(s, d, h);
    DocumentGrows(s[1..], d, p, s[0]);
    Apart(h, p, d, x, u, y, "");
    assert x + u + "" == x + u;
  }

  /** A field the history parser ends here is a cell of what it returns. */
  lemma HistoryCell(s: string, d: char, h: Parser)
    requires Separator(d) && !h.inQuotes && h.field != "" && s != "" && s[0] in {d, '\n'}
    ensures
      var all := HistoryRecords(s, d, h);
      Begins(all, |h.records|, h.record, h.field) && all[|h.records|][|h.record|] == h.field
  {
    hide Filled;
    FilledGrows(h.record, h.field, "");
    if s[0] == d {
      HistoryKeeps(s[1..], d, EndField(h));
      BeginsShorter(HistoryRecords(s, d, h), |h.records|, h.record, h.field, "");
    } else {
      HistoryKeeps(s[1..], d, EndRecord(h));
    }
  }

  /** A field the document reader ends here is a cell of what it returns. */
  lemma DocumentCell(s: string, d: char, p: Reader)
    requires Separator(d) && p.field != "" && (s == "" || (!p.quoted && s[0] in {d, '\n', '\r'}))
    ensures
      var all := DocumentRecords(s, d, p);
      var k := |FilledOnly(p.rows)|;
      Begins(all, k, p.row, p.field) && all[k][|p.row|] == p.field
  {
    hide Filled, FilledOnly;
    var k := |FilledOnly(p.rows)|;
    FilledGrows(p.row, p.field, "");
    FilledOnlyAppend(p.rows, p.row + [p.field]);
    if s == "" {
    } else if s[0] == d {
      DocumentKeeps(s[1..], d, p.(row := p.row + [p.field], field := ""));
      BeginsShorter(DocumentRecords(s, d, p), k, p.row, p.field, "");
    } else if s[0] == '\r' && |s| > 1 && s[1] == '\n' {
      DocumentKeeps(s[2..], d, EndRow(p));
    } else {
      DocumentKeeps(s[1..], d, EndRow(p));
    }
  }

  // ---- a carriage return inside a line --------------------------------------

  /** Every cell is empty. */
  predicate Empties(cells: seq<string>) {
    forall i :: 0 <= i < |cells| ==> cells[i] == ""
  }

  /** The history parser and the document reader at the same place of a text. */
  ghost predicate InStep(h: Parser, p: Reader, line: Line) {
    && h.inQuotes == p.quoted
    && (line != Whole ==> p.field == "")
    && match line
       case Whole => h.records == FilledOnly(p.rows) && h.record == p.row && h.field == p.field
       case Ended(open) =>
         var row := h.record + [h.field];
         && FilledOnly(p.rows) == h.records + [row] && Filled(row) && p.row == []
         && (open <==> h.field == "") && (p.quoted ==> open)
       case Blank =>
         && h.records == FilledOnly(p.rows) && Empties(h.record) && Empties(p.row)
         && h.field == "" && |p.row| < |h.record|
  }

  /** More of a record the document reader has ended: the history parser's is longer. */
  lemma RecordOutgrown(s: string, d: char, h: Parser, g: Parser, p: Reader, q: Reader)
    requires Separator(d) && InStep(h, p, Ended(h.field == "")) && q.rows == p.rows && g.records == h.records
    requires || g == EndField(h)
             || (g.record == h.record && h.field < g.field)
    ensures HistoryRecords(s, d, g) != DocumentRecords(s, d, q)
  {
    hide Filled, FilledOnly, HistoryRecords, DocumentRecords;
    var row := h.record + [h.field];
    FilledGrows(h.record, h.field, "");
    FilledGrows(g.record, g.field, "");
    assert g.field != "" ==> Filled(g.record + [g.field]);
    HistoryKeeps(s, d, g);
    DocumentKeeps(s, d, q);
    assert DocumentRecords(s, d, q)[|h.records|] == row;
    if g != EndField(h) {
      assert row[|h.record|] == h.field;
    }
  }

  /** Content after a cut in a blank record: it stands in different columns. */
  lemma ColumnsDiffer(s: string, d: char, h: Parser, p: Reader, ch: char)
    requires Separator(d) && InStep(h, p, Blank)
    ensures HistoryRecords(s, d, h.(field := h.field + [ch])) != DocumentRecords(s, d, p.(field := p.field + [ch]))
  {
    hide Filled, FilledOnly, HistoryRecords, DocumentRecords;
    var g, q := h.(field := h.field + [ch]), p.(field := p.field + [ch]);
    var a, b := HistoryRecords(s, d, g), DocumentRecords(s, d, q);
    FilledGrows(g.record, g.field, "");
    FilledGrows(q.row, q.field, "");
    HistoryKeeps(s, d, g);
    DocumentKeeps(s, d, q);
    assert a[|h.records|][|p.row|] == h.record[|p.row|] == "";
    assert b[|h.records|][|p.row|] != "";
  }

  // ---- the equivalence ------------------------------------------------------

  lemma {:induction false} EmptiesFilled(cells: seq<string>)
    ensures Empties(cells) <==> !Filled(cells)
    ensures Empties(cells + [""]) <==> Empties(cells)
  {
    assert forall i :: 0 <= i < |cells| ==> (cells + [""])[i] == cells[i];
  }

  /** A line feed, with or without a carriage return, brings the readers together. */
  lemma LineEndsInStep(h: Parser, p: Reader, line: Line)
    requires InStep(h, p, line) && !p.quoted
    ensures InStep(EndRecord(h), EndRow(p), Whole)
  {
    hide FilledOnly;
    FilledOnlyAppend(p.rows, p.row + [p.field]);
    EmptiesFilled(h.record);
    EmptiesFilled(h.record + [""]);
    EmptiesFilled(p.row);
    EmptiesFilled(p.row + [""]);
    assert [] + [""] == [""] && !Filled([""]);
  }

  /** A lone carriage return ends the document reader's record only. */
  lemma CutInStep(h: Parser, p: Reader, line: Line)
    requires InStep(h, p, line) && !p.quoted
    ensures InStep(h, EndRow(p), Cut(line, p))
  {
    hide FilledOnly, Filled, Empties;
    var row := p.row + [p.field];
    FilledOnlyAppend(p.rows, row);
    NothingFilled();
    EmptiesFilled([]);
    assert [] + [""] == [""] && row[|p.row|] == p.field;
    if line == Blank {
      EmptiesFilled(p.row);
      EmptiesFilled(row);
    } else if Cut(line, p) == Blank {
      EmptiesFilled(row);
      LastEmpty(p.row, p.field);
    }
  }

  lemma LastEmpty(cells: seq<string>, field: string)
    requires Empties(cells + [field])
    ensures Empties(cells) && field == ""
  {
    assert (cells + [field])[|cells|] == field;
    assert forall i :: 0 <= i < |cells| ==> (cells + [field])[i] == cells[i];
  }

  lemma EndsInStep(h: Parser, p: Reader, line: Line)
    requires InStep(h, p, line)
    ensures Finish(h).records == FilledOnly(Close(p))
  {
    hide FilledOnly;
    FilledOnlyAppend(p.rows, p.row + [p.field]);
    EmptiesFilled(h.record);
    EmptiesFilled(h.record + [""]);
    EmptiesFilled(p.row);
    EmptiesFilled(p.row + [""]);
    assert [] + [""] == [""] && !Filled([""]);
  }

  lemma LineFeed(s: string, d: char, h: Parser)
    requires Separator(d) && s != "" && s[0] == '\n' && !h.inQuotes
    ensures Scan(s, d, h) == Scan(s[1..], d, EndRecord(h))
  {
    hide EndRecord;
  }

  /** From any point at which the readers are in step, they agree exactly on these texts. */
  lemma {:induction false} AgreeFrom(s: string, d: char, h: Parser, p: Reader, line: Line)
    requires Separator(d) && InStep(h, p, line)
    ensures Alike(s, d, p, line) <==> HistoryRecords(s, d, h) == DocumentRecords(s, d, p)
    decreases |s|, 0
  {
    hide Filled, FilledOnly, Finish, Close, EndRecord, EndRow;
    if s == "" {
      EndsInStep(h, p, line);
    } else if p.quoted && s[0] == QUOTE && !(|s| > 1 && s[1] == QUOTE) {
      AgreeFrom(s[1..], d, h.(inQuotes := false), p.(quoted := false), line);
    } else if p.quoted || (s[0] !in {QUOTE, d, '\n', '\r'}) {
      var n := if p.quoted && s[0] == QUOTE then 2 else 1;
      ContentStep(s[n..], d, h, p, line, s[0]);
    } else if s[0] == QUOTE {
      QuoteStep(s[1..], d, h, p, line);
    } else if s[0] == d {
      DelimiterStep(s[1..], d, h, p, line);
    } else if s[0] == '\n' {
      LineEndsInStep(h, p, line);
      AgreeFrom(s[1..], d, EndRecord(h), EndRow(p), Whole);
    } else if |s| > 1 && s[1] == '\n' {
      LineEndsInStep(h, p, line);
      LineFeed(s[1..], d, h);
      assert s[1..][1..] == s[2..];
      AgreeFrom(s[2..], d, EndRecord(h), EndRow(p), Whole);
    } else {
      CutInStep(h, p, line);
      AgreeFrom(s[1..], d, h, EndRow(p), Cut(line, p));
    }
  }

  lemma ContentStep(s: string, d: char, h: Parser, p: Reader, line: Line, ch: char)
    requires Separator(d) && InStep(h, p, line)
    ensures
      var g, q := h.(field := h.field + [ch]), p.(field := p.field + [ch]);
      (line == Whole && Alike(s, d, q, line)) <==> HistoryRecords(s, d, g) == DocumentRecords(s, d, q)
    decreases |s|, 1
  {
    hide Filled, FilledOnly, HistoryRecords, DocumentRecords, Alike;
    var g, q := h.(field := h.field + [ch]), p.(field := p.field + [ch]);
    match line
    case Whole => AgreeFrom(s, d, g, q, line);
    case Ended(_) => RecordOutgrown(s, d, h, g, p, q);
    case Blank => ColumnsDiffer(s, d, h, p, ch);
  }

  lemma QuoteStep(s: string, d: char, h: Parser, p: Reader, line: Line)
    requires Separator(d) && InStep(h, p, line) && !p.quoted
    ensures
      var g := if h.field == "" then h.(inQuotes := true, quoted := true) else h.(field := h.field + [QUOTE]);
      (MayOpen(line, p) && Alike(s, d, p.(quoted := true), line))
      <==> HistoryRecords(s, d, g) == DocumentRecords(s, d, p.(quoted := true))
    decreases |s|, 1
  {
    hide Filled, FilledOnly, HistoryRecords, DocumentRecords, Alike;
    var q := p.(quoted := true);
    if h.field == "" {
      AgreeFrom(s, d, h.(inQuotes := true, quoted := true), q, line);
    } else if line == Whole {
      assert h.field + "" == h.field;
      NeverCatchesUp(s, d, h.(field := h.field + [QUOTE]), q, h.field, [QUOTE], "");
    } else {
      RecordOutgrown(s, d, h, h.(field := h.field + [QUOTE]), p, q);
    }
  }

  lemma DelimiterStep(s: string, d: char, h: Parser, p: Reader, line: Line)
    requires Separator(d) && InStep(h, p, line) && !p.quoted
    ensures
      var q := p.(row := p.row + [p.field], field := "");
      (!line.Ended? && Alike(s, d, q, line)) <==> HistoryRecords(s, d, EndField(h)) == DocumentRecords(s, d, q)
    decreases |s|, 1
  {
    hide Filled, FilledOnly, HistoryRecords, DocumentRecords, Alike;
    var q := p.(row := p.row + [p.field], field := "");
    if line.Ended? {
      RecordOutgrown(s, d, h, EndField(h), p, q);
    } else {
      EmptiesFilled(h.record);
      EmptiesFilled(p.row);
      AgreeFrom(s, d, EndField(h), q, line);
    }
  }

  predicate HaveCells(records: seq<seq<string>>) {
    forall i :: 0 <= i < |records| ==> records[i] != []
  }

  lemma {:induction false} RecordsHaveCells(s: string, d: char, h: Parser)
    requires Separator(d) && HaveCells(h.records)
    ensures HaveCells(HistoryRecords(s, d, h))
    decreases |s|
  {
    hide Filled;
    if s == "" {
    } else if h.inQuotes && s[0] == QUOTE && |s| > 1 && s[1] == QUOTE {
      RecordsHaveCells(s[2..], d, h.(field := h.field + [QUOTE]));
    } else if h.inQuotes && s[0] == QUOTE {
      RecordsHaveCells(s[1..], d, h.(inQuotes := false));
    } else if !h.inQuotes && s[0] == QUOTE && h.field == "" {
      RecordsHaveCells(s[1..], d, h.(inQuotes := true, quoted := true));
    } else if !h.inQuotes && s[0] == d {
      RecordsHaveCells(s[1..], d, EndField(h));
    } else if !h.inQuotes && s[0] == '\r' {
      RecordsHaveCells(s[1..], d, h);
    } else if !h.inQuotes && s[0] == '\n' {
      RecordsHaveCells(s[1..], d, EndRecord(h));
    } else {
      RecordsHaveCells(s[1..], d, h.(field := h.field + [s[0]]));
    }
  }

  /**
   The history parser returns what the document reader returns, less the records
   that hold nothing, on exactly the texts both understand alike.
   */
  lemma ReadersAgree(text: string, d: char)
    requires Separator(d)
    ensures Parsed(text, Some(d)) == TableOf(FilledOnly(Delimit(text, d)), d)
            <==> Alike(StripBom(text), d, FRESH, Whole)
  {
    hide Scan, Read, Finish, Close, Alike;
    var s := StripBom(text);
    AgreeFrom(s, d, START, FRESH, Whole);
    RecordsHaveCells(s, d, START);
    var a, b := HistoryRecords(s, d, START), DocumentRecords(s, d, FRESH);
    FilledHaveCells(Close(Read(s, d, FRESH)));
    assert a != [] ==> a == [a[0]] + a[1..];
    assert b != [] ==> b == [b[0]] + b[1..];
  }

  lemma {:induction false} FilledHaveCells(rows: seq<seq<string>>)
    ensures HaveCells(FilledOnly(rows))
  {
    if rows != [] {
      FilledHaveCells(rows[1..]);
    }
  }

  lemma {:induction false} KeptFilled(rows: seq<seq<string>>)
    requires rows != []
    ensures FilledOnly(Kept(rows)) == FilledOnly(rows)
  {
    hide Filled;
    NothingFilled();
    if |rows| == 1 {
      assert rows == [rows[0]] && rows[1..] == [];
    } else {
      KeptFilled(rows[1..]);
      assert Kept(rows)[1..] == Kept(rows[1..]);
    }
  }

  /** Whatever the printer writes, both readers understand alike. */
  lemma PrintedAlike(headers: seq<string>, rows: seq<seq<string>>, d: char)
    requires Separator(d)
    ensures Alike(ToCsv(headers, rows, d), d, FRESH, Whole)
  {
    hide Parsed, Delimit, ToCsv, Alike, Kept, FilledOnly;
    ParseOfPrint(headers, rows, d);
    DelimitOfPrint(headers, rows, d);
    KeptFilled([headers] + rows);
    ReadersAgree(ToCsv(headers, rows, d), d);
  }

  // ---- where they part ------------------------------------------------------

  /** Text neither reader gives a meaning to. */
  predicate Plain(v: string, d: char) {
    v != "" && d !in v && QUOTE !in v && '\n' !in v && '\r' !in v && v[0] != BOM
  }

  /** A pair of quotes inside a field: text to the one, an empty quoted stretch to the other. */
  lemma QuotesInside(a: string, b: string, d: char)
    requires Separator(d) && Plain(a, d) && Plain(b, d)
    ensures Delimit(a + [QUOTE, QUOTE] + b, d) == [[a + b]]
    ensures Parsed(a + [QUOTE, QUOTE] + b, Some(d)).headers == [a + [QUOTE, QUOTE] + b]
  {
    hide Read, Scan;
    var s := a + [QUOTE, QUOTE] + b;
    assert StripBom(s) == s == a + ([QUOTE, QUOTE] + b) && b + "" == b;
    ReadPlain(a, [QUOTE, QUOTE] + b, d, FRESH);
    assert "" + a == a;
    ReadPair(b, d, FRESH.(field := a), START.(field := a));
    ReadPlain(b, "", d, FRESH.(field := a));
    ReadPair(b, d, FRESH.(field := a + b), START.(field := s));
    ScanPlain(a, [QUOTE, QUOTE] + b, d, START);
    ScanPlain(b, "", d, START.(field := a + [QUOTE, QUOTE]));
    assert Filled([s]) by {
      assert [s][0] != "";
    }
    assert [] + [s] == [s] && [] + [[s]] == [[s]] && [] + [a + b] == [a + b] && [] + [[a + b]] == [[a + b]];
  }

  lemma ReadPair(b: string, d: char, p: Reader, h: Parser)
    requires Separator(d) && Plain(b, d) && !p.quoted && !h.inQuotes && h.field != ""
    ensures Read([QUOTE, QUOTE] + b, d, p) == Read(b, d, p)
    ensures Scan([QUOTE, QUOTE] + b, d, h) == Scan(b, d, h.(field := h.field + [QUOTE, QUOTE]))
    ensures Read("", d, p) == p && Scan("", d, h) == h
  {
    var s := [QUOTE, QUOTE] + b;
    assert s[1..] == [QUOTE] + b && s[1..][1..] == b;
    assert h.field + [QUOTE] + [QUOTE] == h.field + [QUOTE, QUOTE];
    assert p.(quoted := true).(quoted := false) == p;
  }

  /** A carriage return inside a line: nothing to the one, the end of a record to the other. */
  lemma ReturnsInside(a: string, b: string, d: char)
    requires Separator(d) && Plain(a, d) && Plain(b, d)
    ensures Delimit(a + ['\r'] + b, d) == [[a], [b]]
    ensures Parsed(a + ['\r'] + b, Some(d)) == CsvTable([a + b], [], d)
  {
    hide Read, Scan;
    var s := a + ['\r'] + b;
    var cut := EndRow(FRESH.(field := a));
    assert StripBom(s) == s == a + (['\r'] + b) && b + "" == b && "" + a == a && "" + b == b;
    ReadPlain(a, ['\r'] + b, d, FRESH);
    PassReturn(b, d, FRESH.(field := a), START.(field := a));
    ReadPlain(b, "", d, cut);
    ScanPlain(a, ['\r'] + b, d, START);
    ScanPlain(b, "", d, START.(field := a));
    assert Filled([a + b]) by {
      assert [a + b][0] != "";
    }
    assert cut.rows == [[a]] && [[a]] + [[b]] == [[a], [b]];
    assert [] + [a] == [a] && [] + [b] == [b] && [] + [a + b] == [a + b] && [] + [[a + b]] == [[a + b]];
  }

  lemma PassReturn(b: string, d: char, p: Reader, h: Parser)
    requires Separator(d) && Plain(b, d) && !p.quoted && !h.inQuotes
    ensures Read(['\r'] + b, d, p) == Read(b, d, EndRow(p))
    ensures Scan(['\r'] + b, d, h) == Scan(b, d, h)
    ensures Read("", d, EndRow(p).(field := b)) == EndRow(p).(field := b)
    ensures Scan("", d, h.(field := h.field + b)) == h.(field := h.field + b)
  {
    assert (['\r'] + b)[1..] == b;
  }
}
