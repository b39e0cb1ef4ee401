/**
 The delimited reader of the document tool (`core/features/documents/csv.ts`).
 Unlike the history parser it keeps empty records, ends a record at a lone
 carriage return, and lets a quote open anywhere in a field.
 */
module Delimited {
  import opened Text
  import opened Csv

  /** The reader's variables. */
  datatype Reader = Reader(rows: seq<seq<string>>, row: seq<string>, field: string, quoted: bool)

  const FRESH := Reader([], [], "", false)

  function EndRow(p: Reader): Reader {
    p.(rows := p.rows + [p.row + [p.field]], row := [], field := "")
  }

  function Read(s: string, d: char, p: Reader): Reader
    decreases |s|
  {
    if s == "" then p
    else
      var ch := s[0];
      if p.quoted then
        if ch == QUOTE then
          if |s| > 1 && s[1] == QUOTE then Read(s[2..], d, p.(field := p.field + [QUOTE]))
          else Read(s[1..], d, p.(quoted := false))
        else Read(s[1..], d, p.(field := p.field + [ch]))
      else if ch == QUOTE then Read(s[1..], d, p.(quoted := true))
      else if ch == d then Read(s[1..], d, p.(row := p.row + [p.field], field := ""))
      else if ch == '\n' then Read(s[1..], d, EndRow(p))
      else if ch == '\r' then
        if |s| > 1 && s[1] == '\n' then Read(s[2..], d, EndRow(p)) else Read(s[1..], d, EndRow(p))
      else Read(s[1..], d, p.(field := p.field + [ch]))
  }

  /** The last record, when the text does not end with a line break. */
  function Close(p: Reader): seq<seq<string>> {
    if p.field != "" || p.row != [] then EndRow(p).rows else p.rows
  }

  /** What `parseDelimited` computes. */
  function Delimit(text: string, d: char): seq<seq<string>> {
    Close(Read(StripBom(text), d, FRESH))
  }

  method ParseDelimited(text: string, d: char) returns (rows: seq<seq<string>>)
    ensures rows == Delimit(text, d)
  {
    rows := [];
    var row: seq<string>, field, quoted := [], "", false;
    var i := if text != "" && text[0] == BOM then 1 else 0;
    while i < |text|
      invariant 0 <= i <= |text|
      invariant Read(StripBom(text), d, FRESH) == Read(text[i..], d, Reader(rows, row, field, quoted))
    {
      var ch := text[i];
      assert text[i..][1..] == text[i + 1..];
      assert i + 1 < |text| ==> text[i..][2..] == text[i + 2..] && text[i..][1] == text[i + 1];
      if quoted {
        if ch == QUOTE {
          if i + 1 < |text| && text[i + 1] == QUOTE {
            field := field + [QUOTE];
            i := i + 1;
          } else {
            quoted := false;
          }
        } else {
          field := field + [ch];
        }
      } else if ch == QUOTE {
        quoted := true;
      } else if ch == d {
        row := row + [field];
        field := "";
      } else if ch == '\n' || ch == '\r' {
        if ch == '\r' && i + 1 < |text| && text[i + 1] == '\n' {
          i := i + 1;
        }
        row := row + [field];
        rows := rows + [row];
        row, field := [], "";
      } else {
        field := field + [ch];
      }
      i := i + 1;
    }
    assert text[i..] == "";
    if field != "" || row != [] {
      row := row + [field];
      rows := rows + [row];
    }
  }
}

/** The document reader against the printer, and its line endings. */
module DelimitedLaws {
  import opened Wrappers
  import opened Text
  import opened Csv
  import opened CsvRoundTrip
  import opened Delimited

  // ---- printed cells --------------------------------------------------------

  lemma {:induction false} ReadPlain(v: string, rest: string, d: char, p: Reader)
    requires !p.quoted && d !in v && QUOTE !in v && '\n' !in v && '\r' !in v
    ensures Read(v + rest, d, p) == Read(rest, d, p.(field := p.field + v))
  {
    if v == "" {
      assert v + rest == rest && p.field + v == p.field;
    } else {
      assert (v + rest)[1..] == v[1..] + rest;
      ReadPlain(v[1..], rest, d, p.(field := p.field + [v[0]]));
      assert p.field + [v[0]] + v[1..] == p.field + v;
    }
  }

  lemma EscapedStep(v: string, tail: string, d: char, p: Reader)
    requires p.quoted && v != ""
    ensures Read(Escape(v) + tail, d, p) == Read(Escape(v[1..]) + tail, d, p.(field := p.field + [v[0]]))
  {
    var s := Escape(v) + tail;
    var rest := Escape(v[1..]) + tail;
    if v[0] == QUOTE {
      assert s == [QUOTE, QUOTE] + rest;
      assert s[2..] == rest;
    } else {
      assert s == [v[0]] + rest;
      assert s[1..] == rest;
    }
  }

  lemma {:induction false} ReadEscaped(v: string, rest: string, d: char, p: Reader)
    requires p.quoted && (rest == "" || rest[0] != QUOTE)
    ensures Read(Escape(v) + ([QUOTE] + rest), d, p) == Read(rest, d, p.(field := p.field + v, quoted := false))
  {
    var tail := [QUOTE] + rest;
    if v == "" {
      assert Escape(v) + tail == tail && p.field + v == p.field;
      assert tail[1..] == rest;
    } else {
      var q := p.(field := p.field + [v[0]]);
      EscapedStep(v, tail, d, p);
      ReadEscaped(v[1..], rest, d, q);
      assert q.field + v[1..] == p.field + v;
    }
  }

  lemma ReadCell(v: string, rest: string, d: char, p: Reader)
    requires Separator(d) && !p.quoted && p.field == "" && (rest == "" || rest[0] != QUOTE)
    ensures Read(EncodeCell(v, d) + rest, d, p) == Read(rest, d, p.(field := v))
  {
    hide Escape, Trim, Read;
    assert "" + v == v;
    if NeedsQuotes(v, d) {
      var tail := Escape(v) + ([QUOTE] + rest);
      assert EncodeCell(v, d) + rest == [QUOTE] + tail;
      OpenQuote(tail, d, p);
      ReadEscaped(v, rest, d, p.(quoted := true));
    } else {
      ReadPlain(v, rest, d, p);
    }
  }

  lemma OpenQuote(tail: string, d: char, p: Reader)
    requires !p.quoted
    ensures Read([QUOTE] + tail, d, p) == Read(tail, d, p.(quoted := true))
  {
    assert ([QUOTE] + tail)[1..] == tail;
  }

  lemma {:induction false} ReadRow(row: seq<string>, rest: string, d: char, p: Reader)
    requires Separator(d) && row != [] && !p.quoted && p.field == "" && (rest == "" || rest[0] == '\n')
    ensures Read(EncodeRow(row, d) + rest, d, p)
            == Read(rest, d, p.(row := p.row + row[..|row| - 1], field := row[|row| - 1]))
  {
    hide EncodeCell, NeedsQuotes;
    if |row| == 1 {
      assert EncodeRow(row, d) == EncodeCell(row[0], d);
      ReadCell(row[0], rest, d, p);
      assert p.row + row[..0] == p.row;
    } else {
      EncodeRowStep(row, d);
      var after := [d] + (EncodeRow(row[1..], d) + rest);
      assert EncodeRow(row, d) + rest == EncodeCell(row[0], d) + after;
      ReadCell(row[0], after, d, p);
      assert after[1..] == EncodeRow(row[1..], d) + rest;
      var q := p.(row := p.row + [row[0]], field := "");
      ReadRow(row[1..], rest, d, q);
      assert q.row + row[1..][..|row| - 2] == p.row + row[..|row| - 1];
    }
  }

  // ---- line endings ---------------------------------------------------------

  /** The text with every line feed written as `end`. */
  function WithEnds(s: string, end: string): string {
    if s == "" then "" else (if s[0] == '\n' then end else [s[0]]) + WithEnds(s[1..], end)
  }

  lemma {:induction false} ReadAnyEnds(s: string, end: string, d: char, p: Reader)
    requires Separator(d) && QUOTE !in s && '\r' !in s && !p.quoted && (end == "\r\n" || end == "\r")
    ensures Read(WithEnds(s, end), d, p) == Read(s, d, p)
  {
    if s != "" {
      var rest := WithEnds(s[1..], end);
      var t := WithEnds(s, end);
      if s[0] == '\n' {
        assert t == end + rest;
        EndsStart(s[1..], end);
        if end == "\r" {
          assert t[1..] == rest;
        } else {
          assert t[0] == '\r' && t[1] == '\n' && t[2..] == rest;
        }
        ReadAnyEnds(s[1..], end, d, EndRow(p));
      } else {
        assert t[1..] == rest;
        ReadAnyEnds(s[1..], end, d,
          if s[0] == d then p.(row := p.row + [p.field], field := "") else p.(field := p.field + [s[0]]));
      }
    }
  }

  lemma EndsStart(s: string, end: string)
    requires '\r' !in s && (end == "\r\n" || end == "\r")
    ensures WithEnds(s, end) == "" || WithEnds(s, end)[0] != '\n'
  {
  }

  /** Records end alike at a line feed, a carriage return, or both. */
  lemma LineEndings(text: string, end: string, d: char)
    requires Separator(d) && QUOTE !in text && '\r' !in text && (end == "\r\n" || end == "\r")
    ensures Delimit(WithEnds(text, end), d) == Delimit(text, d)
  {
    hide Read;
    var s := StripBom(text);
    assert StripBom(WithEnds(text, end)) == WithEnds(s, end) by {
      if text != "" && text[0] == BOM {
        assert WithEnds(text, end)[1..] == WithEnds(text[1..], end);
      }
    }
    ReadAnyEnds(s, end, d, FRESH);
  }

  // ---- printed tables -------------------------------------------------------

  /** A record without cells prints as an empty line, which reads as one empty cell. */
  function Shown(row: seq<string>): seq<string> {
    if row == [] then [""] else row
  }

  /** What reading gives of a printed table: an empty last line is no record. */
  function Kept(rows: seq<seq<string>>): seq<seq<string>>
    requires rows != []
  {
    if |rows| == 1 then if Shown(rows[0]) == [""] then [] else [rows[0]]
    else [Shown(rows[0])] + Kept(rows[1..])
  }

  lemma {:induction false} KeptAt(rows: seq<seq<string>>)
    requires rows != []
    ensures
      var kept := Kept(rows);
      && |kept| == (if Shown(rows[|rows| - 1]) == [""] then |rows| - 1 else |rows|)
      && forall i :: 0 <= i < |kept| ==> kept[i] == Shown(rows[i])
  {
    hide Shown;
    if |rows| == 1 {
      ShownCells(rows[0]);
    } else {
      KeptAt(rows[1..]);
      forall i | 0 <= i < |Kept(rows)| ensures Kept(rows)[i] == Shown(rows[i]) {
        assert i > 0 ==> rows[1..][i - 1] == rows[i];
      }
    }
  }

  lemma ShownCells(row: seq<string>)
    ensures Shown(row) != [] && (Shown(row) != [""] ==> Shown(row) == row) && (Shown(row) == row <==> row != [])
  {
  }

  lemma ReadShown(row: seq<string>, rest: string, d: char, p: Reader)
    requires Separator(d) && !p.quoted && p.field == "" && p.row == [] && (rest == "" || rest[0] == '\n')
    ensures
      var shown := Shown(row);
      Read(EncodeRow(row, d) + rest, d, p)
      == Read(rest, d, p.(row := shown[..|shown| - 1], field := shown[|shown| - 1]))
  {
    hide EncodeCell, Read;
    if row == [] {
      assert EncodeRow(row, d) + rest == rest;
      assert [""][..0] == p.row;
    } else {
      ReadRow(row, rest, d, p);
      assert [] + row[..|row| - 1] == row[..|row| - 1];
    }
  }

  lemma {:induction false} ReadLines(rows: seq<seq<string>>, d: char, p: Reader)
    requires Separator(d) && rows != [] && !p.quoted && p.field == "" && p.row == []
    ensures Close(Read(Lines(rows, d), d, p)) == p.rows + Kept(rows)
  {
    hide EncodeRow;
    var shown := Shown(rows[0]);
    var a := p.(row := shown[..|shown| - 1], field := shown[|shown| - 1]);
    assert shown[..|shown| - 1] + [shown[|shown| - 1]] == shown;
    if |rows| == 1 {
      ReadShown(rows[0], "", d, p);
      assert Lines(rows, d) == EncodeRow(rows[0], d);
      assert EncodeRow(rows[0], d) + "" == EncodeRow(rows[0], d);
    } else {
      var rest := ['\n'] + Lines(rows[1..], d);
      LinesStep(rows, d);
      ReadShown(rows[0], rest, d, p);
      assert rest[1..] == Lines(rows[1..], d);
      ReadLines(rows[1..], d, EndRow(a));
      assert EndRow(a).rows == p.rows + [shown];
      assert p.rows + [shown] + Kept(rows[1..]) == p.rows + Kept(rows);
    }
  }

  /**
   Reading a printed table gives its records in order, whatever the cells hold,
   save that an empty last line is dropped; a byte-order mark in front is no part of it.
   */
  lemma DelimitOfPrint(headers: seq<string>, rows: seq<seq<string>>, d: char)
    requires Separator(d)
    ensures Delimit(ToCsv(headers, rows, d), d) == Kept([headers] + rows)
    ensures Delimit([BOM] + ToCsv(headers, rows, d), d) == Delimit(ToCsv(headers, rows, d), d)
    ensures StripBom([BOM] + ToCsv(headers, rows, d)) == ToCsv(headers, rows, d) == StripBom(ToCsv(headers, rows, d))
  {
    hide EncodeRow, Read;
    var all := [headers] + rows;
    assert ToCsv(headers, rows, d) == Lines(all, d);
    LineStart(all, d);
    ReadLines(all, d, FRESH);
    assert [] + Kept(all) == Kept(all);
    assert ([BOM] + Lines(all, d))[1..] == Lines(all, d);
  }

  /** The round trip is exact if and only if every record has a cell and the last is not one empty cell. */
  lemma DelimitExactly(headers: seq<string>, rows: seq<seq<string>>, d: char)
    requires Separator(d)
    ensures
      var all := [headers] + rows;
      Delimit(ToCsv(headers, rows, d), d) == all
      <==> all[|all| - 1] != [""] && forall i :: 0 <= i < |all| ==> all[i] != []
  {
    hide Delimit, ToCsv;
    var all := [headers] + rows;
    DelimitOfPrint(headers, rows, d);
    KeptAt(all);
    var kept := Kept(all);
    if kept == all {
      forall i | 0 <= i < |all| ensures all[i] != [] {
        assert kept[i] == Shown(all[i]);
      }
    } else if |kept| == |all| {
      var i :| 0 <= i < |all| && kept[i] != all[i];
      assert all[i] == [];
    }
  }
}
