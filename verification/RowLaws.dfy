/** What an imported row holds, for any file and any mapping (`core/features/history/csv.ts`). */
module RowLaws {
  import opened Wrappers
  import opened Text
  import opened Csv
  import opened HistoryRows
  import HistoryTransfer

  // ---- the text of a field --------------------------------------------------

  /** Header `i` is the first of its name. */
  predicate FirstNamed(headers: seq<string>, header: string, i: nat) {
    i < |headers| && headers[i] == header && forall j :: 0 <= j < i ==> headers[j] != header
  }

  /**
   What a mapping gives a field of a row: a fixed value, or the cell below the first
   header of the mapped name, either trimmed; nothing for a field that is not mapped,
   for a header the file has not, and where the row is too short.
   */
  ghost predicate Gives(row: seq<string>, headers: seq<string>, mapping: ColumnMapping, f: Field, text: string) {
    if f !in mapping then text == ""
    else
      match mapping[f]
      case Constant(value) => text == Trim(value)
      case Column(header) =>
        if header !in headers then text == ""
        else exists i: nat :: FirstNamed(headers, header, i) && text == if i < |row| then Trim(row[i]) else ""
  }

  lemma {:induction false} ColumnIsFirst(headers: seq<string>, header: string)
    ensures ColumnOf(headers, header) >= 0 <==> header in headers
    ensures header in headers ==> FirstNamed(headers, header, ColumnOf(headers, header))
  {
    if headers != [] && headers[0] != header {
      ColumnIsFirst(headers[1..], header);
      assert forall j :: 0 < j < |headers| ==> headers[j] == headers[1..][j - 1];
    }
  }

  lemma GivesValue(row: seq<string>, headers: seq<string>, mapping: ColumnMapping, f: Field)
    ensures Gives(row, headers, mapping, f, ValueFor(row, headers, mapping, f))
  {
    hide Trim, ColumnOf;
    TrimNothing();
    if f in mapping && mapping[f].Column? {
      ColumnIsFirst(headers, mapping[f].header);
    }
  }

  lemma TrimNothing()
    ensures Trim("") == ""
  {
  }

  /** And only that. */
  lemma GivesOne(row: seq<string>, headers: seq<string>, mapping: ColumnMapping, f: Field, a: string, b: string)
    requires Gives(row, headers, mapping, f, a) && Gives(row, headers, mapping, f, b)
    ensures a == b
  {
    hide Trim;
  }

  // ---- what the row holds ---------------------------------------------------

  lemma {:induction false} FirstInvalidSame(fields: seq<Field>, get: Field -> string, text: Field -> string, dates: DateText)
    requires forall f: Field :: get(f) == text(f)
    ensures FirstInvalid(fields, get, dates) == FirstInvalid(fields, text, dates)
  {
    hide ValidField;
    if fields != [] {
      FirstInvalidSame(fields[1..], get, text, dates);
    }
  }

  /** A row's outcome depends on the texts of its fields and nothing else. */
  lemma OutcomeSame(get: Field -> string, text: Field -> string, dates: DateText)
    requires forall f: Field :: get(f) == text(f)
    ensures RowOutcome(get, dates) == RowOutcome(text, dates)
  {
    hide ValidField, FirstInvalid, RoleOf, ParseDate, ParseId;
    FirstInvalidSame(FIELDS, get, text, dates);
  }

  lemma OutcomeOf(row: seq<string>, headers: seq<string>, mapping: ColumnMapping, dates: DateText, text: Field -> string)
    requires forall f: Field :: Gives(row, headers, mapping, f, text(f))
    ensures RowOutcome(Getter(row, headers, mapping), dates) == RowOutcome(text, dates)
  {
    hide Gives, ValueFor, RowOutcome;
    var get := Getter(row, headers, mapping);
    forall f: Field ensures get(f) == text(f) {
      GivesValue(row, headers, mapping, f);
      GivesOne(row, headers, mapping, f, get(f), text(f));
    }
    OutcomeSame(get, text, dates);
  }

  /** The instant a text means: a count of seconds below 100 000 000 000, of milliseconds from there on, or a date text. */
  predicate MeansInstant(text: string, t: int, dates: DateText) {
    && text != ""
    && if AllDigits(text) then
         var n := NumberOf(text);
         t == (if n < 100_000_000_000 then 1_000 * n else n) && t <= 8_640_000_000_000_000
       else dates.read(text) == Some(t)
  }

  lemma MeansRead(text: string, t: int, dates: DateText)
    ensures ParseDate(text, dates) == Value(t) <==> MeansInstant(text, t, dates)
  {
    hide AllDigits, NumberOf;
  }

  /** A date of the row: none where the text is empty, and otherwise what the text means. */
  predicate DateHeld(t: Option<int>, text: string, dates: DateText) {
    if text == "" then t == None else t.Some? && MeansInstant(text, t.value, dates)
  }

  /** The row holds these texts: ids, content and chat as they are, the sender of a user's row, role and dates read. */
  predicate Holds(r: ImportRow, text: Field -> string, dates: DateText) {
    && r.chatRef == text(ChatRef) && r.sourceMessageId == text(SourceMessageId) && r.content == text(Content)
    && RoleOf(text(Role)) == Some(r.role)
    && r.userId == (if r.role == Assistant || text(UserId) == "" then None else Some(text(UserId)))
    && r.replyTo == (if text(ReplyTo) == "" then None else Some(text(ReplyTo)))
    && MeansInstant(text(SentAt), r.sentAt, dates)
    && DateHeld(r.editedAt, text(EditedAt), dates) && DateHeld(r.deletedAt, text(DeletedAt), dates)
  }

  /** What a field accepts, in terms of its text. */
  predicate Accepts(f: Field, text: string, dates: DateText) {
    match f
    case ChatRef => IsChatRef(text)
    case SourceMessageId => text != "" && AllDigits(text)
    case Role => RoleOf(text).Some?
    case Content => |text| <= 8192
    case SentAt => ReadsAsDate(text, dates)
    case UserId => true
    case ReplyTo => AllDigits(text)
    case EditedAt => text == "" || ReadsAsDate(text, dates)
    case DeletedAt => text == "" || ReadsAsDate(text, dates)
  }

  /** A count of seconds or of milliseconds that a date can hold, or a date text. */
  predicate ReadsAsDate(text: string, dates: DateText) {
    && text != ""
    && if AllDigits(text) then NumberOf(text) <= 8_640_000_000_000_000 else dates.read(text).Some?
  }

  lemma AcceptsExactly(f: Field, text: string, dates: DateText)
    ensures ValidField(f, text, dates) <==> Accepts(f, text, dates)
  {
    hide IsChatRef, RoleOf, AllDigits, NumberOf;
    NoDigits();
  }

  lemma NoDigits()
    ensures AllDigits("")
  {
  }

  lemma HeldRow(text: Field -> string, dates: DateText)
    requires AllValid(text, dates)
    ensures Holds(Coerced(text, dates), text, dates)
  {
    hide IsChatRef, RoleOf, AllDigits, NumberOf;
    assert ValidField(SourceMessageId, text(SourceMessageId), dates) && ValidField(ReplyTo, text(ReplyTo), dates);
    assert ValidField(Role, text(Role), dates) && ValidField(SentAt, text(SentAt), dates);
    assert ValidField(EditedAt, text(EditedAt), dates) && ValidField(DeletedAt, text(DeletedAt), dates);
  }

  /**
   For any row of any file under any mapping: it is imported if and only if every
   field accepts the text the mapping gives it, and then it holds those texts;
   otherwise it is refused for the first field, in the order of the columns, that does not.
   */
  lemma RowHolds(row: seq<string>, headers: seq<string>, mapping: ColumnMapping, dates: DateText, text: Field -> string)
    requires forall f: Field :: Gives(row, headers, mapping, f, text(f))
    ensures
      match RowOutcome(Getter(row, headers, mapping), dates)
      case Success(r) => Holds(r, text, dates) && forall f: Field :: Accepts(f, text(f), dates)
      case Failure(f) =>
        !Accepts(f, text(f), dates) && forall g: Field :: PlaceOf(g) < PlaceOf(f) ==> Accepts(g, text(g), dates)
  {
    hide Gives, Getter, Holds, ValidField, Accepts, Coerced, FirstInvalid, PlaceOf, AllValid;
    OutcomeOf(row, headers, mapping, dates, text);
    ValidExactly(text, dates);
    forall f: Field ensures ValidField(f, text(f), dates) <==> Accepts(f, text(f), dates) {
      AcceptsExactly(f, text(f), dates);
    }
    if AllValid(text, dates) {
      HeldRow(text, dates);
      EveryValid(text, dates);
    } else {
      RefusedFirst(text, dates);
    }
  }

  lemma EveryValid(text: Field -> string, dates: DateText)
    requires AllValid(text, dates)
    ensures forall f: Field :: ValidField(f, text(f), dates)
  {
  }

  lemma {:induction false} BeforeInvalid(fields: seq<Field>, text: Field -> string, dates: DateText)
    ensures
      match FirstInvalid(fields, text, dates)
      case None => true
      case Some(f) =>
        && !ValidField(f, text(f), dates)
        && exists k: nat ::
             k < |fields| && fields[k] == f && forall j :: 0 <= j < k ==> ValidField(fields[j], text(fields[j]), dates)
  {
    hide ValidField;
    if fields != [] && ValidField(fields[0], text(fields[0]), dates) {
      BeforeInvalid(fields[1..], text, dates);
      if FirstInvalid(fields, text, dates).Some? {
        var f := FirstInvalid(fields, text, dates).value;
        var k: nat :| k < |fields[1..]| && fields[1..][k] == f
          && forall j :: 0 <= j < k ==> ValidField(fields[1..][j], text(fields[1..][j]), dates);
        assert fields[k + 1] == f;
        forall j | 0 <= j < k + 1 ensures ValidField(fields[j], text(fields[j]), dates) {
          assert j > 0 ==> fields[j] == fields[1..][j - 1];
        }
      }
    }
  }

  lemma RefusedFirst(text: Field -> string, dates: DateText)
    requires FirstInvalid(FIELDS, text, dates).Some?
    ensures
      var f := FirstInvalid(FIELDS, text, dates).value;
      && !ValidField(f, text(f), dates)
      && forall g: Field :: PlaceOf(g) < PlaceOf(f) ==> ValidField(g, text(g), dates)
  {
    hide ValidField, FirstInvalid;
    BeforeInvalid(FIELDS, text, dates);
    var f := FirstInvalid(FIELDS, text, dates).value;
    var k: nat :| k < |FIELDS| && FIELDS[k] == f && forall j :: 0 <= j < k ==> ValidField(FIELDS[j], text(FIELDS[j]), dates);
    forall g: Field | PlaceOf(g) < PlaceOf(f) ensures ValidField(g, text(g), dates) {
      assert FIELDS[PlaceOf(g)] == g;
    }
  }

  // ---- a fixed value is a column ----------------------------------------------

  function Padded(row: seq<string>, n: nat): (r: seq<string>)
    ensures |r| == n && forall i :: 0 <= i < n ==> r[i] == if i < |row| then row[i] else ""
  {
    seq(n, i requires 0 <= i < n => if i < |row| then row[i] else "")
  }

  /** The same table with one more column, the same value in each row. */
  function WithColumn(table: CsvTable, header: string, value: string): CsvTable {
    CsvTable(
      table.headers + [header],
      seq(|table.rows|, i requires 0 <= i < |table.rows| => Padded(table.rows[i], |table.headers|) + [value]),
      table.delimiter)
  }

  /** A header the file has not and no field is mapped to. */
  predicate Fresh(header: string, headers: seq<string>, mapping: ColumnMapping) {
    header !in headers && forall g :: g in mapping ==> mapping[g] != Column(header)
  }

  lemma NewColumn(row: seq<string>, headers: seq<string>, mapping: ColumnMapping, f: Field, h: string, v: string)
    requires h !in headers
    ensures Gives(Padded(row, |headers|) + [v], headers + [h], mapping[f := Column(h)], f, Trim(v))
  {
    hide Trim;
    var wide, names := Padded(row, |headers|) + [v], headers + [h];
    assert names[|headers|] == h;
    assert FirstNamed(names, h, |headers|) && wide[|headers|] == v;
  }

  lemma OldColumn(row: seq<string>, headers: seq<string>, header: string, h: string, v: string, i: nat)
    requires FirstNamed(headers, header, i)
    ensures FirstNamed(headers + [h], header, i)
    ensures (Padded(row, |headers|) + [v])[i] == if i < |row| then row[i] else ""
  {
  }

  lemma GivesAsColumn(row: seq<string>, headers: seq<string>, mapping: ColumnMapping, f: Field, h: string, v: string,
                      g: Field, text: string)
    requires f in mapping && mapping[f] == Constant(v) && Fresh(h, headers, mapping)
    requires Gives(row, headers, mapping, g, text)
    ensures Gives(Padded(row, |headers|) + [v], headers + [h], mapping[f := Column(h)], g, text)
  {
    hide Trim, FirstNamed, Padded;
    TrimNothing();
    if g == f {
      NewColumn(row, headers, mapping, f, h, v);
    } else if g in mapping && mapping[g].Column? {
      var header := mapping[g].header;
      if header in headers {
        var i: nat :| FirstNamed(headers, header, i) && text == if i < |row| then Trim(row[i]) else "";
        OldColumn(row, headers, header, h, v, i);
        InBounds(headers, header, i);
        assert header in headers + [h];
      } else {
        assert header !in headers + [h];
      }
    }
  }

  lemma InBounds(headers: seq<string>, header: string, i: nat)
    requires FirstNamed(headers, header, i)
    ensures i < |headers|
  {
  }

  lemma RowAsColumn(
    row: seq<string>, headers: seq<string>, mapping: ColumnMapping, f: Field, h: string, v: string, dates: DateText)
    requires f in mapping && mapping[f] == Constant(v) && Fresh(h, headers, mapping)
    ensures RowOutcome(Getter(row, headers, mapping), dates)
            == RowOutcome(Getter(Padded(row, |headers|) + [v], headers + [h], mapping[f := Column(h)]), dates)
  {
    hide Gives, ValueFor, RowOutcome, Padded, Fresh;
    var text := Getter(row, headers, mapping);
    forall g: Field
      ensures Gives(row, headers, mapping, g, text(g))
      ensures Gives(Padded(row, |headers|) + [v], headers + [h], mapping[f := Column(h)], g, text(g))
    {
      GivesValue(row, headers, mapping, g);
      GivesAsColumn(row, headers, mapping, f, h, v, g, text(g));
    }
    OutcomeOf(Padded(row, |headers|) + [v], headers + [h], mapping[f := Column(h)], dates, text);
  }

  /**
   A fixed value for a field is a column that holds it: the file with that column
   added, and the field mapped to it, gives row by row the same records and errors.
   */
  lemma {:induction false} ConstantIsColumn(table: CsvTable, mapping: ColumnMapping, f: Field, h: string, v: string,
                                            dates: DateText, n: nat)
    requires f in mapping && mapping[f] == Constant(v) && Fresh(h, table.headers, mapping) && n <= |table.rows|
    ensures |WithColumn(table, h, v).rows| == |table.rows|
    ensures MapFrom(table, mapping, dates, n) == MapFrom(WithColumn(table, h, v), mapping[f := Column(h)], dates, n)
  {
    hide RowOutcome, Getter, Fresh, Padded;
    if n > 0 {
      ConstantIsColumn(table, mapping, f, h, v, dates, n - 1);
      RowAsColumn(table.rows[n - 1], table.headers, mapping, f, h, v, dates);
    }
  }

  lemma {:induction false} SameMappingFaults(
    fields: seq<Field>, mapping: ColumnMapping, f: Field, h: string, v: string, dates: DateText)
    requires f in mapping && mapping[f] == Constant(v)
    ensures Missing(fields, mapping) == Missing(fields, mapping[f := Column(h)])
    ensures BadConstants(fields, mapping, dates) == [] ==> BadConstants(fields, mapping[f := Column(h)], dates) == []
  {
    hide ValidField;
    if fields != [] {
      SameMappingFaults(fields[1..], mapping, f, h, v, dates);
    }
  }

  /** And so does the whole import, once the mapping's fixed values are accepted. */
  lemma ConstantImports(table: CsvTable, mapping: ColumnMapping, f: Field, h: string, v: string, dates: DateText)
    requires f in mapping && mapping[f] == Constant(v) && Fresh(h, table.headers, mapping)
    requires BadConstants(FIELDS, mapping, dates) == []
    ensures Mapped(table, mapping, dates) == Mapped(WithColumn(table, h, v), mapping[f := Column(h)], dates)
  {
    hide MapFrom, Missing, BadConstants, Fresh, WithColumn;
    ConstantIsColumn(table, mapping, f, h, v, dates, |table.rows|);
    SameMappingFaults(FIELDS, mapping, f, h, v, dates);
  }

  // ---- the whole import -------------------------------------------------------

  function OutcomeAt(table: CsvTable, mapping: ColumnMapping, dates: DateText, k: nat): Result<ImportRow, Field>
    requires k < |table.rows|
  {
    RowOutcome(Getter(table.rows[k], table.headers, mapping), dates)
  }

  /** These rows are those at these places, which rise and leave out no row that is accepted. */
  predicate TakenFrom(rows: seq<ImportRow>, places: seq<nat>, n: nat, table: CsvTable, mapping: ColumnMapping, dates: DateText)
    requires n <= |table.rows|
  {
    && |places| == |rows|
    && (forall i, j :: 0 <= i < j < |places| ==> places[i] < places[j])
    && (forall i :: 0 <= i < |places| ==> places[i] < n && OutcomeAt(table, mapping, dates, places[i]) == Success(rows[i]))
    && forall k :: 0 <= k < n && OutcomeAt(table, mapping, dates, k).Success? ==> k in places
  }

  lemma {:induction false} RowsTaken(table: CsvTable, mapping: ColumnMapping, dates: DateText, n: nat)
    returns (places: seq<nat>)
    requires n <= |table.rows|
    ensures TakenFrom(MapFrom(table, mapping, dates, n).0, places, n, table, mapping, dates)
    ensures forall e :: e in MapFrom(table, mapping, dates, n).1 ==>
              1 <= e.line <= n && OutcomeAt(table, mapping, dates, e.line - 1) == Failure(e.field)
  {
    hide RowOutcome, Getter;
    places := [];
    if n > 0 {
      places := RowsTaken(table, mapping, dates, n - 1);
      if OutcomeAt(table, mapping, dates, n - 1).Success? {
        places := places + [n - 1];
      }
    }
  }

  /** Some required field is left out, or some fixed value refused. */
  predicate Faulty(mapping: ColumnMapping, dates: DateText) {
    exists f: Field :: f in Missing(FIELDS, mapping) || f in BadConstants(FIELDS, mapping, dates)
  }

  lemma FaultyExactly(mapping: ColumnMapping, dates: DateText)
    ensures Faulty(mapping, dates) <==> Missing(FIELDS, mapping) != [] || BadConstants(FIELDS, mapping, dates) != []
  {
    hide Missing, BadConstants;
    var missing, bad := Missing(FIELDS, mapping), BadConstants(FIELDS, mapping, dates);
    if missing != [] {
      var f := missing[0];
      assert f in Missing(FIELDS, mapping);
    } else if bad != [] {
      var f := bad[0];
      assert f in BadConstants(FIELDS, mapping, dates);
    }
  }

  /**
   With a required field unmapped or a fixed value refused nothing is imported.
   Otherwise the rows accepted come in the order of the file, and each other row is
   an error by line and field.
   */
  lemma ImportExactly(table: CsvTable, mapping: ColumnMapping, dates: DateText)
    ensures
      var m := Mapped(table, mapping, dates);
      && (Faulty(mapping, dates) ==> m.rows == [] && m.errors == [])
      && (!Faulty(mapping, dates) ==>
            && (exists places :: TakenFrom(m.rows, places, |table.rows|, table, mapping, dates))
            && |m.rows| + |m.errors| == |table.rows|
            && (forall i, j :: 0 <= i < j < |m.errors| ==> m.errors[i].line < m.errors[j].line)
            && forall e :: e in m.errors ==>
                 1 <= e.line <= |table.rows| && OutcomeAt(table, mapping, dates, e.line - 1) == Failure(e.field))
  {
    hide OutcomeAt, MapFrom, Missing, BadConstants, TakenFrom, Faulty;
    var n := |table.rows|;
    var missing, bad := Missing(FIELDS, mapping), BadConstants(FIELDS, mapping, dates);
    FaultyExactly(mapping, dates);
    var places := RowsTaken(table, mapping, dates, n);
    var (rows, errors) := MapFrom(table, mapping, dates, n);
    assert TakenFrom(rows, places, n, table, mapping, dates);
    HistoryTransfer.NoRowLost(table, mapping, dates, n);
    if missing == [] && bad == [] {
      assert Mapped(table, mapping, dates) == MappedRows(rows, errors, missing, bad);
    } else {
      assert Mapped(table, mapping, dates) == MappedRows([], [], missing, bad);
    }
  }

  // ---- fixed values -----------------------------------------------------------

  /**
   The fixed values refused are that of the message id, whatever it is, and those
   whose field does not accept them, trimmed; the required fields left out are those
   without any source.
   */
  lemma FaultsExactly(mapping: ColumnMapping, dates: DateText, f: Field)
    ensures f in BadConstants(FIELDS, mapping, dates)
            <==> f in mapping && mapping[f].Constant?
                 && (f == SourceMessageId || !Accepts(f, Trim(mapping[f].value), dates))
    ensures f in Missing(FIELDS, mapping)
            <==> f !in mapping && f in {ChatRef, SourceMessageId, Role, Content, SentAt}
  {
    hide ValidField, Accepts, Trim;
    FaultsOf(FIELDS, mapping, dates, f);
    assert FIELDS[PlaceOf(f)] == f;
    if f in mapping && mapping[f].Constant? {
      AcceptsExactly(f, Trim(mapping[f].value), dates);
    }
  }

  lemma {:induction false} FaultsOf(fields: seq<Field>, mapping: ColumnMapping, dates: DateText, f: Field)
    ensures f in BadConstants(fields, mapping, dates) <==> f in fields && BadConstant(f, mapping, dates)
    ensures f in Missing(fields, mapping) <==> f in fields && Required(f) && f !in mapping
  {
    hide BadConstant;
    if fields != [] {
      FaultsOf(fields[1..], mapping, dates, f);
    }
  }
}
