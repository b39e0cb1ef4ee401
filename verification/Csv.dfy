/**
 The CSV dialect of the history transfer (`core/features/history/csv.ts`, on the
 format of section 2 of RFC 4180): delimiter sniffing, the quoting state machine
 and the printer.
 */
module Csv {
  import opened Wrappers
  import opened Text

  const QUOTE := '\"'

  const DELIMITERS: seq<char> := [',', ';', '\t', '|']

  // ---- sniffing the delimiter -----------------------------------------------

  function FirstLine(text: string): string {
    if text == "" || text[0] == '\n' then "" else [text[0]] + FirstLine(text[1..])
  }

  /** `line.split(d).length - 1` */
  function Occurrences(line: string, d: char): nat {
    |Split(line, d)| - 1
  }

  /** The first delimiter with the most occurrences, the comma when there is none. */
  ghost predicate IsBest(line: string, best: char, upTo: nat)
    requires upTo <= |DELIMITERS|
  {
    && (forall j :: 0 <= j < upTo ==> Occurrences(line, DELIMITERS[j]) <= Occurrences(line, best))
    && (|| (best == ',' && forall j :: 0 <= j < upTo ==> Occurrences(line, DELIMITERS[j]) == 0)
        || (Occurrences(line, best) > 0 && exists k :: 0 <= k < upTo && FirstWith(line, best, k)))
  }

  /** Delimiter `k`, and more often in the line than any before it. */
  ghost predicate FirstWith(line: string, best: char, k: nat) {
    && k < |DELIMITERS| && DELIMITERS[k] == best
    && forall j :: 0 <= j < k ==> Occurrences(line, DELIMITERS[j]) < Occurrences(line, best)
  }

  function BestOf(line: string, best: char, bestCount: nat, i: nat): char
    requires i <= |DELIMITERS|
    decreases |DELIMITERS| - i
  {
    if i == |DELIMITERS| then best
    else
      var count := Occurrences(line, DELIMITERS[i]);
      if count > bestCount then BestOf(line, DELIMITERS[i], count, i + 1)
      else BestOf(line, best, bestCount, i + 1)
  }

  function SniffedDelimiter(text: string): char {
    BestOf(FirstLine(text), ',', 0, 0)
  }

  /** `detectDelimiter` */
  method DetectDelimiter(text: string) returns (best: char)
    ensures best == SniffedDelimiter(text)
    ensures IsBest(FirstLine(text), best, |DELIMITERS|)
  {
    hide Split, FirstLine;
    var firstLine := FirstLine(text);
    best := ',';
    var bestCount := 0;
    for i := 0 to |DELIMITERS|
      invariant BestOf(firstLine, ',', 0, 0) == BestOf(firstLine, best, bestCount, i)
      invariant bestCount == 0 ==> best == ','
      invariant bestCount > 0 ==> bestCount == Occurrences(firstLine, best)
      invariant forall j :: 0 <= j < i ==> Occurrences(firstLine, DELIMITERS[j]) <= bestCount
      invariant bestCount > 0 ==> exists k :: 0 <= k < i && FirstWith(firstLine, best, k)
    {
      var d := DELIMITERS[i];
      var count := Occurrences(firstLine, d);
      if count > bestCount {
        best := d;
        bestCount := count;
        assert FirstWith(firstLine, best, i);
      }
    }
  }

  /** Of the four delimiters the one the line has most of, and of those it has as many of the first. */
  lemma SniffedExactly(text: string)
    ensures
      var n := (d: char) => Occurrences(FirstLine(text), d);
      SniffedDelimiter(text)
      == if n(',') >= n(';') && n(',') >= n('\t') && n(',') >= n('|') then ','
         else if n(';') >= n('\t') && n(';') >= n('|') then ';'
         else if n('\t') >= n('|') then '\t'
         else '|'
  {
    hide Occurrences, FirstLine;
    var line := FirstLine(text);
    var a, b, c, d := Occurrences(line, ','), Occurrences(line, ';'), Occurrences(line, '\t'), Occurrences(line, '|');
    assert BestOf(line, ',', 0, 0) == BestOf(line, ',', a, 1);
    var best, most := if b > a then ';' else ',', if b > a then b else a;
    assert BestOf(line, ',', a, 1) == BestOf(line, best, most, 2);
    var better, more := if c > most then '\t' else best, if c > most then c else most;
    assert BestOf(line, best, most, 2) == BestOf(line, better, more, 3);
    assert BestOf(line, better, more, 3) == if d > more then '|' else better;
  }

  // ---- the parser -----------------------------------------------------------

  /** The parser's variables. */
  datatype Parser = Parser(
    records: seq<seq<string>>,
    record: seq<string>,
    field: string,
    quoted: bool,
    inQuotes: bool)

  const START := Parser([], [], "", false, false)

  predicate Filled(record: seq<string>) {
    exists i :: 0 <= i < |record| && record[i] != ""
  }

  function EndField(p: Parser): Parser {
    p.(record := p.record + [p.field], field := "", quoted := false)
  }

  /** Ends the record; a record of empty cells is dropped. */
  function EndRecord(p: Parser): Parser {
    var q := EndField(p);
    q.(records := if Filled(q.record) then q.records + [q.record] else q.records, record := [])
  }

  function Scan(s: string, sep: char, p: Parser): Parser
    decreases |s|
  {
    if s == "" then p
    else
      var ch := s[0];
      if p.inQuotes then
        if ch == QUOTE then
          if |s| > 1 && s[1] == QUOTE then Scan(s[2..], sep, p.(field := p.field + [QUOTE]))
          else Scan(s[1..], sep, p.(inQuotes := false))
        else Scan(s[1..], sep, p.(field := p.field + [ch]))
      else if ch == QUOTE && p.field == "" then Scan(s[1..], sep, p.(inQuotes := true, quoted := true))
      else if ch == sep then Scan(s[1..], sep, EndField(p))
      else if ch == '\r' then Scan(s[1..], sep, p)
      else if ch == '\n' then Scan(s[1..], sep, EndRecord(p))
      else Scan(s[1..], sep, p.(field := p.field + [ch]))
  }

  /** The last record, when the text does not end with a line break. */
  function Finish(p: Parser): Parser {
    if p.field != "" || p.quoted || p.record != [] then EndRecord(p) else p
  }

  function StripBom(input: string): string {
    if input != "" && input[0] == BOM then input[1..] else input
  }

  datatype CsvTable = CsvTable(headers: seq<string>, rows: seq<seq<string>>, delimiter: char)

  function TableOf(records: seq<seq<string>>, sep: char): CsvTable {
    if records == [] then CsvTable([], [], sep) else CsvTable(records[0], records[1..], sep)
  }

  /** What `parseCsv` computes. */
  function Parsed(input: string, delimiter: Option<char>): CsvTable {
    var text := StripBom(input);
    var sep := if delimiter.Some? then delimiter.value else SniffedDelimiter(text);
    TableOf(Finish(Scan(text, sep, START)).records, sep)
  }

  method ParseCsv(input: string, delimiter: Option<char>) returns (table: CsvTable)
    ensures table == Parsed(input, delimiter)
  {
    hide SniffedDelimiter;
    var text := StripBom(input);
    var sep;
    if delimiter.Some? {
      sep := delimiter.value;
    } else {
      sep := DetectDelimiter(text);
    }
    var records: seq<seq<string>>, record: seq<string>, field := [], [], "";
    var quoted, inQuotes := false, false;
    var i := 0;
    assert text[0..] == text;
    while i < |text|
      invariant 0 <= i <= |text|
      invariant Scan(text, sep, START) == Scan(text[i..], sep, Parser(records, record, field, quoted, inQuotes))
    {
      var ch := text[i];
      assert text[i..][1..] == text[i + 1..];
      if inQuotes {
        if ch == QUOTE {
          if i + 1 < |text| && text[i + 1] == QUOTE {
            assert text[i..][2..] == text[i + 2..];
            field := field + [QUOTE];
            i := i + 1;
          } else {
            inQuotes := false;
          }
        } else {
          field := field + [ch];
        }
      } else if ch == QUOTE && field == "" {
        inQuotes := true;
        quoted := true;
      } else if ch == sep {
        record := record + [field];
        field, quoted := "", false;
      } else if ch == '\r' {
      } else if ch == '\n' {
        record := record + [field];
        if Filled(record) {
          records := records + [record];
        }
        record, field, quoted := [], "", false;
      } else {
        field := field + [ch];
      }
      i := i + 1;
    }
    assert text[i..] == "";
    if field != "" || quoted || record != [] {
      record := record + [field];
      if Filled(record) {
        records := records + [record];
      }
    }
    table := TableOf(records, sep);
  }

  // ---- the printer ----------------------------------------------------------

  /** `value.replaceAll('"', '""')` */
  function Escape(value: string): string {
    if value == "" then ""
    else (if value[0] == QUOTE then [QUOTE, QUOTE] else [value[0]]) + Escape(value[1..])
  }

  predicate NeedsQuotes(value: string, delimiter: char) {
    || delimiter in value
    || QUOTE in value
    || '\n' in value
    || '\r' in value
    || value != Trim(value)
  }

  function EncodeCell(value: string, delimiter: char): string {
    if NeedsQuotes(value, delimiter) then [QUOTE] + Escape(value) + [QUOTE] else value
  }

  /** What needs it stands between double quotes, and what is its own trimmed text without any special character does not. */
  lemma CellShown(value: string, d: char)
    ensures d in value || '\"' in value || '\n' in value || '\r' in value || value != Trim(value) ==>
              EncodeCell(value, d) == "\"" + Escape(value) + "\""
    ensures !(d in value || '\"' in value || '\n' in value || '\r' in value || value != Trim(value)) ==>
              EncodeCell(value, d) == value
  {
    hide Trim, Escape;
  }

  function EncodeRow(row: seq<string>, delimiter: char): string {
    Join(seq(|row|, i requires 0 <= i < |row| => EncodeCell(row[i], delimiter)), delimiter)
  }

  /** `toCsv` */
  function ToCsv(headers: seq<string>, rows: seq<seq<string>>, delimiter: char): string {
    var all := [headers] + rows;
    Join(seq(|all|, i requires 0 <= i < |all| => EncodeRow(all[i], delimiter)), '\n')
  }
}

/** What the printer writes the parser reads back. */
module CsvRoundTrip {
  import opened Wrappers
  import opened Text
  import opened Csv

  /** A delimiter that is no part of the quoting or of a line break. */
  predicate Separator(d: char) {
    d != QUOTE && d != '\n' && d != '\r' && d != BOM
  }

  // ---- cells ----------------------------------------------------------------

  lemma {:induction false} ScanPlain(v: string, rest: string, sep: char, p: Parser)
    requires !p.inQuotes && sep !in v && QUOTE !in v && '\n' !in v && '\r' !in v
    ensures Scan(v + rest, sep, p) == Scan(rest, sep, p.(field := p.field + v))
  {
    if v == "" {
      assert v + rest == rest && p.field + v == p.field;
    } else {
      assert (v + rest)[1..] == v[1..] + rest;
      ScanPlain(v[1..], rest, sep, p.(field := p.field + [v[0]]));
      assert p.field + [v[0]] + v[1..] == p.field + v;
    }
  }

  lemma {:induction false} ScanEscaped(v: string, rest: string, sep: char, p: Parser)
    requires p.inQuotes && (rest == "" || rest[0] != QUOTE)
    ensures Scan(Escape(v) + ([QUOTE] + rest), sep, p)
            == Scan(rest, sep, p.(field := p.field + v, inQuotes := false))
  {
    var tail := [QUOTE] + rest;
    if v == "" {
      assert Escape(v) + tail == tail && p.field + v == p.field;
      assert tail[1..] == rest;
    } else {
      var q := p.(field := p.field + [v[0]]);
      EscapeStep(v, tail, sep, p);
      ScanEscaped(v[1..], rest, sep, q);
      assert q.field + v[1..] == p.field + v;
    }
  }

  lemma EscapeStep(v: string, tail: string, sep: char, p: Parser)
    requires p.inQuotes && v != ""
    ensures Scan(Escape(v) + tail, sep, p) == Scan(Escape(v[1..]) + tail, sep, p.(field := p.field + [v[0]]))
  {
    var s := Escape(v) + tail;
    var rest := Escape(v[1..]) + tail;
    if v[0] == QUOTE {
      assert s == [QUOTE, QUOTE] + rest;
      assert s[2..] == rest;
    } else {
      assert s == [v[0]] + rest;
      assert s[1..] == rest;
    }
  }

  /** Between cells: nothing read of the next one yet. */
  predicate AtCell(p: Parser) {
    p.field == "" && !p.quoted && !p.inQuotes
  }

  lemma ScanCell(v: string, rest: string, sep: char, p: Parser)
    requires AtCell(p) && (rest == "" || rest[0] != QUOTE)
    ensures Scan(EncodeCell(v, sep) + rest, sep, p)
            == Scan(rest, sep, p.(field := v, quoted := NeedsQuotes(v, sep)))
  {
    hide Escape, Trim, Scan;
    assert "" + v == v;
    if NeedsQuotes(v, sep) {
      assert EncodeCell(v, sep) + rest == [QUOTE] + (Escape(v) + ([QUOTE] + rest));
      ScanQuoted(v, rest, sep, p);
    } else {
      ScanPlain(v, rest, sep, p);
    }
  }

  lemma ScanQuoted(v: string, rest: string, sep: char, p: Parser)
    requires AtCell(p) && (rest == "" || rest[0] != QUOTE)
    ensures Scan([QUOTE] + (Escape(v) + ([QUOTE] + rest)), sep, p)
            == Scan(rest, sep, p.(field := "" + v, quoted := true))
  {
    hide Escape;
    var tail := Escape(v) + ([QUOTE] + rest);
    assert ([QUOTE] + tail)[1..] == tail;
    ScanEscaped(v, rest, sep, p.(inQuotes := true, quoted := true));
  }

  // ---- rows -----------------------------------------------------------------

  lemma EncodeRowStep(row: seq<string>, sep: char)
    requires |row| > 1
    ensures EncodeRow(row, sep) == EncodeCell(row[0], sep) + [sep] + EncodeRow(row[1..], sep)
  {
    hide EncodeCell;
    var cells := seq(|row|, i requires 0 <= i < |row| => EncodeCell(row[i], sep));
    assert cells[1..] == seq(|row[1..]|, i requires 0 <= i < |row[1..]| => EncodeCell(row[1..][i], sep));
  }

  lemma {:induction false} ScanRow(row: seq<string>, rest: string, sep: char, p: Parser)
    requires Separator(sep) && row != [] && AtCell(p) && (rest == "" || rest[0] == '\n')
    ensures
      var last := row[|row| - 1];
      Scan(EncodeRow(row, sep) + rest, sep, p)
      == Scan(rest, sep, p.(record := p.record + row[..|row| - 1], field := last, quoted := NeedsQuotes(last, sep)))
  {
    hide EncodeCell, NeedsQuotes;
    if |row| == 1 {
      assert EncodeRow(row, sep) == EncodeCell(row[0], sep);
      ScanCell(row[0], rest, sep, p);
      assert p.record + row[..0] == p.record;
    } else {
      EncodeRowStep(row, sep);
      var after := [sep] + (EncodeRow(row[1..], sep) + rest);
      assert EncodeRow(row, sep) + rest == EncodeCell(row[0], sep) + after;
      ScanCell(row[0], after, sep, p);
      assert after[1..] == EncodeRow(row[1..], sep) + rest;
      var q := EndField(p.(field := row[0], quoted := NeedsQuotes(row[0], sep)));
      ScanRow(row[1..], rest, sep, q);
      assert q.record + row[1..][..|row| - 2] == p.record + row[..|row| - 1];
    }
  }

  /** The rows that survive: those with a non-empty cell. */
  function FilledOnly(rows: seq<seq<string>>): (r: seq<seq<string>>)
  {
    if rows == [] then []
    else (if Filled(rows[0]) then [rows[0]] else []) + FilledOnly(rows[1..])
  }

  lemma {:induction false} FilledOnlyAll(rows: seq<seq<string>>)
    ensures FilledOnly(rows) == rows <==> forall i :: 0 <= i < |rows| ==> Filled(rows[i])
    ensures |FilledOnly(rows)| <= |rows|
  {
    if rows != [] {
      FilledOnlyAll(rows[1..]);
      assert rows == [rows[0]] + rows[1..];
      assert forall i :: 1 <= i < |rows| ==> rows[i] == rows[1..][i - 1];
      if FilledOnly(rows) == rows {
        assert |FilledOnly(rows[1..])| <= |rows| - 1;
        assert Filled(rows[0]);
        assert FilledOnly(rows)[1..] == FilledOnly(rows[1..]);
      } else if Filled(rows[0]) {
        assert FilledOnly(rows[1..]) != rows[1..];
      }
    }
  }

  function Lines(rows: seq<seq<string>>, sep: char): string {
    Join(seq(|rows|, i requires 0 <= i < |rows| => EncodeRow(rows[i], sep)), '\n')
  }

  lemma LinesStep(rows: seq<seq<string>>, sep: char)
    requires |rows| > 1
    ensures Lines(rows, sep) == EncodeRow(rows[0], sep) + (['\n'] + Lines(rows[1..], sep))
  {
    hide EncodeRow;
    var lines := seq(|rows|, i requires 0 <= i < |rows| => EncodeRow(rows[i], sep));
    assert lines[1..] == seq(|rows[1..]|, i requires 0 <= i < |rows[1..]| => EncodeRow(rows[1..][i], sep));
    assert lines[0] + ['\n'] + Join(lines[1..], '\n') == lines[0] + (['\n'] + Join(lines[1..], '\n'));
  }

  /** The state after a row, before what ends it. */
  function AfterRow(p: Parser, row: seq<string>, sep: char): Parser {
    if row == [] then p
    else p.(record := row[..|row| - 1], field := row[|row| - 1], quoted := NeedsQuotes(row[|row| - 1], sep))
  }

  lemma ScanRowAny(row: seq<string>, rest: string, sep: char, p: Parser)
    requires Separator(sep) && AtCell(p) && p.record == [] && (rest == "" || rest[0] == '\n')
    ensures Scan(EncodeRow(row, sep) + rest, sep, p) == Scan(rest, sep, AfterRow(p, row, sep))
  {
    hide EncodeCell, NeedsQuotes, Scan;
    if row == [] {
      assert EncodeRow(row, sep) + rest == rest;
    } else {
      ScanRow(row, rest, sep, p);
      assert [] + row[..|row| - 1] == row[..|row| - 1];
    }
  }

  lemma EndAfterRow(p: Parser, row: seq<string>, sep: char)
    requires AtCell(p) && p.record == []
    ensures EndRecord(AfterRow(p, row, sep)) == p.(records := p.records + FilledOnly([row]))
    ensures Finish(AfterRow(p, row, sep)).records == p.records + FilledOnly([row])
  {
    hide NeedsQuotes, Filled;
    NothingFilled();
    var a := AfterRow(p, row, sep);
    assert FilledOnly([row]) == if Filled(row) then [row] else [] by {
      assert [row][1..] == [];
    }
    if row == [] {
      assert [] + [""] == [""];
    } else {
      assert row[..|row| - 1] + [row[|row| - 1]] == row;
    }
  }

  lemma {:induction false} ScanLines(rows: seq<seq<string>>, sep: char, p: Parser)
    requires Separator(sep) && rows != [] && AtCell(p) && p.record == []
    ensures Finish(Scan(Lines(rows, sep), sep, p)).records == p.records + FilledOnly(rows)
  {
    hide EncodeRow, AfterRow, Finish, EndRecord, Filled, Scan;
    var a := AfterRow(p, rows[0], sep);
    EndAfterRow(p, rows[0], sep);
    if |rows| == 1 {
      ScanNothing(sep, a);
      assert rows == [rows[0]];
      ScanRowAny(rows[0], "", sep, p);
      assert Lines(rows, sep) == EncodeRow(rows[0], sep);
      assert EncodeRow(rows[0], sep) + "" == EncodeRow(rows[0], sep);
    } else {
      var rest := ['\n'] + Lines(rows[1..], sep);
      LinesStep(rows, sep);
      ScanRowAny(rows[0], rest, sep, p);
      AfterRowPlain(p, rows[0], sep);
      ScanBreak(Lines(rows[1..], sep), sep, a);
      ScanLines(rows[1..], sep, EndRecord(a));
      assert FilledOnly(rows) == FilledOnly([rows[0]]) + FilledOnly(rows[1..]) by {
        assert [rows[0]][1..] == [];
      }
    }
  }

  lemma ScanNothing(sep: char, p: Parser)
    ensures Scan("", sep, p) == p
  {
  }

  lemma ScanBreak(s: string, sep: char, p: Parser)
    requires Separator(sep) && !p.inQuotes
    ensures Scan(['\n'] + s, sep, p) == Scan(s, sep, EndRecord(p))
  {
    hide EndRecord;
    assert (['\n'] + s)[1..] == s;
  }

  lemma AfterRowPlain(p: Parser, row: seq<string>, sep: char)
    requires AtCell(p)
    ensures !AfterRow(p, row, sep).inQuotes
  {
  }

  lemma {:induction false} LineStart(rows: seq<seq<string>>, sep: char)
    requires Separator(sep) && rows != []
    ensures Lines(rows, sep) == "" || Lines(rows, sep)[0] != BOM
  {
    hide EncodeRow;
    RowStart(rows[0], sep);
    if |rows| > 1 {
      LinesStep(rows, sep);
    } else {
      assert Lines(rows, sep) == EncodeRow(rows[0], sep);
    }
  }

  lemma RowStart(row: seq<string>, sep: char)
    requires Separator(sep)
    ensures EncodeRow(row, sep) == "" || EncodeRow(row, sep)[0] != BOM
  {
    if row != [] {
      CellStart(row[0], sep);
      if |row| > 1 {
        EncodeRowStep(row, sep);
      }
    }
  }

  /** A cell that starts with a byte-order mark has an edge to trim, and is quoted. */
  lemma CellStart(v: string, sep: char)
    ensures EncodeCell(v, sep) == "" || EncodeCell(v, sep)[0] != BOM
  {
    TrimFixes(v);
  }

  // ---- the theorems ---------------------------------------------------------

  /**
   Whatever the cells hold — quotes, delimiters, line breaks, edge spaces, a
   byte-order mark — parsing a printed table gives back its rows in order, less
   those with no non-empty cell; with or without a byte-order mark in front.
   */
  lemma ParseOfPrint(headers: seq<string>, rows: seq<seq<string>>, d: char)
    requires Separator(d)
    ensures
      var text := ToCsv(headers, rows, d);
      && Parsed(text, Some(d)) == TableOf(FilledOnly([headers] + rows), d)
      && Parsed([BOM] + text, Some(d)) == Parsed(text, Some(d))
      && StripBom([BOM] + text) == StripBom(text) == text
  {
    hide EncodeRow, Scan;
    var all := [headers] + rows;
    assert ToCsv(headers, rows, d) == Lines(all, d);
    LineStart(all, d);
    ScanLines(all, d, START);
    assert [] + FilledOnly(all) == FilledOnly(all);
    assert ([BOM] + Lines(all, d))[1..] == Lines(all, d);
  }

  /** The round trip is exact if and only if the header and every row hold something. */
  lemma RoundTripExactly(headers: seq<string>, rows: seq<seq<string>>, d: char)
    requires Separator(d)
    ensures Parsed(ToCsv(headers, rows, d), Some(d)) == CsvTable(headers, rows, d)
            <==> (Filled(headers) && forall i :: 0 <= i < |rows| ==> Filled(rows[i])) || (headers == [] && rows == [])
  {
    hide Parsed, ToCsv, Filled;
    ParseOfPrint(headers, rows, d);
    var all := [headers] + rows;
    FilledOnlyAll(all);
    var kept := FilledOnly(all);
    assert all[0] == headers && all[1..] == rows;
    assert forall i :: 0 <= i < |rows| ==> all[i + 1] == rows[i];
    if TableOf(kept, d) == CsvTable(headers, rows, d) && kept != [] {
      assert kept == [kept[0]] + kept[1..] == all;
    }
    NothingFilled();
    if headers == [] && rows == [] {
      assert all[1..] == [];
    }
  }

  lemma NothingFilled()
    ensures !Filled([]) && !Filled([""])
  {
  }

  // ---- sniffing what was printed --------------------------------------------

  lemma {:induction false} SplitCount(s: string, c: char, rest: string)
    requires c !in s
    ensures Occurrences(s + rest, c) == Occurrences(rest, c)
  {
    if s == "" {
      assert s + rest == rest;
    } else {
      assert (s + rest)[1..] == s[1..] + rest;
      SplitCount(s[1..], c, rest);
    }
  }

  /** A header a delimiter can be sniffed from. */
  predicate PlainHeader(h: string) {
    && Trimmed(h)
    && QUOTE !in h && '\n' !in h && '\r' !in h
    && forall i :: 0 <= i < |DELIMITERS| ==> DELIMITERS[i] !in h
  }

  lemma {:induction false} HeaderLine(headers: seq<string>, d: char, c: char)
    requires d in DELIMITERS && c in DELIMITERS && headers != []
    requires forall i :: 0 <= i < |headers| ==> PlainHeader(headers[i])
    ensures Occurrences(EncodeRow(headers, d), c) == if c == d then |headers| - 1 else 0
    ensures '\n' !in EncodeRow(headers, d)
  {
    hide Trim, Split;
    var h := headers[0];
    assert EncodeCell(h, d) == h by {
      TrimFixes(h);
    }
    SplitEmpty(c);
    if |headers| == 1 {
      assert EncodeRow(headers, d) == h;
      SplitCount(h, c, "");
      assert h + "" == h;
    } else {
      EncodeRowStep(headers, d);
      HeaderLine(headers[1..], d, c);
      var rest := EncodeRow(headers[1..], d);
      assert h + [d] + rest == h + ([d] + rest);
      SplitCount(h, c, [d] + rest);
      SplitOne(d, rest, c);
    }
  }

  lemma SplitEmpty(c: char)
    ensures Occurrences("", c) == 0
  {
  }

  lemma SplitOne(d: char, rest: string, c: char)
    ensures Occurrences([d] + rest, c) == Occurrences(rest, c) + if c == d then 1 else 0
  {
    assert ([d] + rest)[1..] == rest;
  }

  lemma {:induction false} FirstLineOf(a: string, rest: string)
    requires '\n' !in a && (rest == "" || rest[0] == '\n')
    ensures FirstLine(a + rest) == a
  {
    if a == "" {
      assert a + rest == rest;
    } else {
      assert (a + rest)[1..] == a[1..] + rest;
      FirstLineOf(a[1..], rest);
      assert [a[0]] + a[1..] == a;
    }
  }

  lemma OnlyOneCounts(line: string, d: char, n: nat)
    requires d in DELIMITERS && n > 0
    requires forall i :: 0 <= i < |DELIMITERS| ==>
               Occurrences(line, DELIMITERS[i]) == if DELIMITERS[i] == d then n else 0
    ensures BestOf(line, ',', 0, 0) == d
  {
    hide Occurrences;
    var k :| 0 <= k < |DELIMITERS| && DELIMITERS[k] == d;
    BestReaches(line, d, n, k, 0);
  }

  lemma {:induction false} BestReaches(line: string, d: char, n: nat, k: nat, i: nat)
    requires i <= k < |DELIMITERS| && DELIMITERS[k] == d && n > 0
    requires forall j :: 0 <= j < |DELIMITERS| ==>
               Occurrences(line, DELIMITERS[j]) == if DELIMITERS[j] == d then n else 0
    ensures BestOf(line, ',', 0, i) == d
    decreases k - i
  {
    hide Occurrences;
    if DELIMITERS[i] == d {
      BestStays(line, d, n, i + 1);
    } else {
      BestReaches(line, d, n, k, i + 1);
    }
  }

  lemma {:induction false} BestStays(line: string, d: char, n: nat, i: nat)
    requires i <= |DELIMITERS| && n > 0
    requires forall j :: 0 <= j < |DELIMITERS| ==> Occurrences(line, DELIMITERS[j]) <= n
    ensures BestOf(line, d, n, i) == d
    decreases |DELIMITERS| - i
  {
    hide Occurrences;
    if i < |DELIMITERS| {
      BestStays(line, d, n, i + 1);
    }
  }

  /**
   A printed table with two or more plain headers gives its delimiter away, so
   that it parses back without being told: export and import agree by themselves.
   */
  lemma SniffedRoundTrip(headers: seq<string>, rows: seq<seq<string>>, d: char)
    requires d in DELIMITERS && |headers| >= 2
    requires forall i :: 0 <= i < |headers| ==> PlainHeader(headers[i])
    ensures
      var text := ToCsv(headers, rows, d);
      && SniffedDelimiter(text) == d
      && Parsed(text, None) == Parsed([BOM] + text, None) == TableOf(FilledOnly([headers] + rows), d)
  {
    hide EncodeRow, PlainHeader, Scan, Occurrences, BestOf, FilledOnly;
    var all := [headers] + rows;
    var line := EncodeRow(headers, d);
    var text := ToCsv(headers, rows, d);
    assert text == Lines(all, d);
    ParseOfPrint(headers, rows, d);
    forall i | 0 <= i < |DELIMITERS|
      ensures Occurrences(line, DELIMITERS[i]) == if DELIMITERS[i] == d then |headers| - 1 else 0
    {
      HeaderLine(headers, d, DELIMITERS[i]);
    }
    HeaderLine(headers, d, d);
    OnlyOneCounts(line, d, |headers| - 1);
    if rows == [] {
      assert Lines(all, d) == line + "";
      FirstLineOf(line, "");
    } else {
      LinesStep(all, d);
      FirstLineOf(line, ['\n'] + Lines(all[1..], d));
    }
  }
}
