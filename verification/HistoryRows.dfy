/**
 The typed side of the history transfer (`core/features/history/csv.ts`):
 mapping headers to fields, validating and coercing rows, and the export.
 */
module HistoryRows {
  import opened Inherited
  import opened Wrappers
  import opened Text
  import opened Csv

  datatype Field =
    | ChatRef | SourceMessageId | Role | Content | SentAt
    | UserId | ReplyTo | EditedAt | DeletedAt

  /** The canonical column order. */
  const FIELDS: seq<Field> :=
    [ChatRef, SourceMessageId, Role, Content, SentAt, UserId, ReplyTo, EditedAt, DeletedAt]

  /** The words of a field's canonical header. */
  function Words(f: Field): seq<string> {
    match f
    case ChatRef => ["chat", "ref"]
    case SourceMessageId => ["source", "message", "id"]
    case Role => ["role"]
    case Content => ["content"]
    case SentAt => ["sent", "at"]
    case UserId => ["user", "id"]
    case ReplyTo => ["reply", "to", "message", "id"]
    case EditedAt => ["edited", "at"]
    case DeletedAt => ["deleted", "at"]
  }

  /** The canonical header of a field: `chat_ref`, `source_message_id` and so on. */
  function Header(f: Field): string {
    Join(Words(f), '_')
  }

  function Aliases(f: Field): seq<string> {
    match f
    case ChatRef => ["chat", "chatid", "chatref", "conversation", "conversationid", "peerid", "dialogid"]
    case SourceMessageId => ["messageid", "msgid", "id", "sourcemessageid"]
    case Role => ["who", "sender", "from", "speaker", "direction", "type"]
    case Content => ["text", "message", "body", "msg"]
    case SentAt => ["sent", "date", "timestamp", "time", "when", "createdat"]
    case UserId => ["userid", "fromid", "senderid", "authorid", "author"]
    case ReplyTo => ["replyto", "replytomessageid", "replytoid", "inreplyto", "replytosourcemessageid"]
    case EditedAt => ["edited", "editdate", "editedat"]
    case DeletedAt => ["deleted", "deletedat"]
  }

  predicate Required(f: Field) {
    f in [ChatRef, SourceMessageId, Role, Content, SentAt]
  }

  /** Whether a fixed value may stand in for a column. */
  predicate ConstantAllowed(f: Field) {
    f != SourceMessageId
  }

  const HEADERS: seq<string> :=
    [Header(ChatRef), Header(SourceMessageId), Header(Role), Header(Content), Header(SentAt),
     Header(UserId), Header(ReplyTo), Header(EditedAt), Header(DeletedAt)]

  // ---- lower case -----------------------------------------------------------

  /**
   `toLowerCase` of one code unit, as far as it can reach ASCII: besides A-Z only
   the Kelvin sign and the dotted capital I do. Others are left alone.
   */
  function LowerChar(c: char): string {
    if 'A' <= c <= 'Z' then [(c as int + 32) as char]
    else if c == '\U{212A}' then "k"
    else if c == '\U{0130}' then "i\U{0307}"
    else [c]
  }

  function Lower(s: string): string {
    if s == "" then "" else LowerChar(s[0]) + Lower(s[1..])
  }

  function KeepAlnum(s: string): string {
    if s == "" then ""
    else (if 'a' <= s[0] <= 'z' || IsDigit(s[0]) then [s[0]] else "") + KeepAlnum(s[1..])
  }

  function NormalizeHeader(header: string): string {
    KeepAlnum(Lower(header))
  }

  // ---- guessing the mapping -------------------------------------------------

  datatype ColumnSource = Column(header: string) | Constant(value: string)

  type ColumnMapping = map<Field, ColumnSource>

  function Candidates(f: Field): seq<string> {
    [NormalizeHeader(Header(f))]
    + seq(|Aliases(f)|, i requires 0 <= i < |Aliases(f)| => NormalizeHeader(Aliases(f)[i]))
  }

  /** The first free header of this normal form; an empty one counts as none. */
  function FindHeader(headers: seq<string>, taken: set<string>, candidate: string): Option<string> {
    if headers == [] then None
    else if headers[0] !in taken && NormalizeHeader(headers[0]) == candidate then
      (if headers[0] == "" then None else Some(headers[0]))
    else FindHeader(headers[1..], taken, candidate)
  }

  function PickHeader(headers: seq<string>, taken: set<string>, candidates: seq<string>): Option<string> {
    if candidates == [] then None
    else
      var found := FindHeader(headers, taken, candidates[0]);
      if found.Some? then found else PickHeader(headers, taken, candidates[1..])
  }

  function GuessFrom(fields: seq<Field>, headers: seq<string>, taken: set<string>, mapping: ColumnMapping): ColumnMapping {
    if fields == [] then mapping
    else
      var found := PickHeader(headers, taken, Candidates(fields[0]));
      if found.None? then GuessFrom(fields[1..], headers, taken, mapping)
      else GuessFrom(fields[1..], headers, taken + {found.value}, mapping[fields[0] := Column(found.value)])
  }

  /** What `guessMapping` computes. */
  function Guessed(headers: seq<string>): ColumnMapping {
    GuessFrom(FIELDS, headers, {}, map[])
  }

  method GuessMapping(headers: seq<string>) returns (mapping: ColumnMapping)
    ensures mapping == Guessed(headers)
  {
    hide FindHeader, Candidates;
    mapping := map[];
    var taken: set<string> := {};
    assert FIELDS[0..] == FIELDS;
    for i := 0 to |FIELDS|
      invariant Guessed(headers) == GuessFrom(FIELDS[i..], headers, taken, mapping)
    {
      assert FIELDS[i..][1..] == FIELDS[i + 1..];
      var candidates := Candidates(FIELDS[i]);
      var found: Option<string> := None;
      var j := 0;
      assert candidates[0..] == candidates;
      while j < |candidates| && found.None?
        invariant 0 <= j <= |candidates|
        invariant PickHeader(headers, taken, candidates)
                  == if found.Some? then found else PickHeader(headers, taken, candidates[j..])
      {
        assert candidates[j..][1..] == candidates[j + 1..];
        found := FindHeader(headers, taken, candidates[j]);
        j := j + 1;
      }
      if found.Some? {
        mapping := mapping[FIELDS[i] := Column(found.value)];
        taken := taken + {found.value};
      }
    }
  }

  // ---- what a field accepts -------------------------------------------------

  /** `undefined` is Bad, `null` is Empty. */
  datatype Parse<+T> = Empty | Bad | Value(value: T)

  function ParseId(value: string): Parse<string> {
    if value == "" then Empty else if AllDigits(value) then Value(value) else Bad
  }

  /** `new Date(text)` and `toISOString`: reading and printing a date text. */
  datatype DateText = DateText(read: string -> Option<int>, show: int -> string)

  const MAX_TIME := 8_640_000_000_000_000

  /** A Unix timestamp in seconds or milliseconds, or a date text. */
  function ParseDate(value: string, dates: DateText): Parse<int> {
    if value == "" then Empty
    else if AllDigits(value) then
      var n := NumberOf(value);
      var ms := if n < 100_000_000_000 then n * 1000 else n;
      if ms <= MAX_TIME then Value(ms) else Bad
    else
      match dates.read(value)
      case Some(t) => Value(t)
      case None => Bad
  }

  predicate IsSourceId(s: string) {
    && 1 <= |s| <= 32
    && 'a' <= s[0] <= 'z'
    && forall i :: 1 <= i < |s| ==> 'a' <= s[i] <= 'z' || IsDigit(s[i]) || s[i] == '-'
  }

  /** `tryParseScopedRef(value)?.kind === "chat"` (`packages/contracts/src/scoped-ref.ts`) */
  predicate IsChatRef(value: string) {
    var parts := Split(value, ':');
    && |parts| >= 3
    && IsSourceId(parts[0])
    && parts[1] == "chat"
    && |parts[0]| + |parts[1]| + 2 < |value|
  }

  /** A role a row can get: the last is something every JavaScript object inherits. */
  datatype RoleValue = User | Assistant | Inheritance

  /** The lookup in the alias table, a plain object: its own names first, then those it inherits. */
  function RoleOf(raw: string): Option<RoleValue> {
    var key := Lower(raw);
    if key == "user" || key == "human" || key == "person" then Some(User)
    else if key == "assistant" || key == "bot" || key == "ai" then Some(Assistant)
    else if Inherits(key) then Some(Inheritance)
    else None
  }

  const MAX_CONTENT_CHARS := 8192

  /** `validateFieldValue(key, raw) === null` */
  predicate ValidField(f: Field, raw: string, dates: DateText) {
    match f
    case ChatRef => IsChatRef(raw)
    case SourceMessageId => ParseId(raw).Value?
    case Role => RoleOf(raw).Some?
    case Content => |raw| <= MAX_CONTENT_CHARS
    case SentAt => ParseDate(raw, dates).Value?
    case UserId => true
    case ReplyTo => ParseId(raw) != Bad
    case EditedAt => ParseDate(raw, dates) != Bad
    case DeletedAt => ParseDate(raw, dates) != Bad
  }

  // ---- mapping rows ---------------------------------------------------------

  datatype ImportRow = ImportRow(
    chatRef: string,
    sourceMessageId: string,
    role: RoleValue,
    userId: Option<string>,
    content: string,
    replyTo: Option<string>,
    sentAt: int,
    editedAt: Option<int>,
    deletedAt: Option<int>)

  datatype RowError = RowError(line: nat, field: Field)

  datatype MappedRows = MappedRows(
    rows: seq<ImportRow>,
    errors: seq<RowError>,
    missing: seq<Field>,
    invalidConstants: seq<Field>)

  function Missing(fields: seq<Field>, mapping: ColumnMapping): seq<Field> {
    if fields == [] then []
    else (if Required(fields[0]) && fields[0] !in mapping then [fields[0]] else []) + Missing(fields[1..], mapping)
  }

  predicate BadConstant(f: Field, mapping: ColumnMapping, dates: DateText) {
    && f in mapping && mapping[f].Constant?
    && (!ConstantAllowed(f) || !ValidField(f, Trim(mapping[f].value), dates))
  }

  function BadConstants(fields: seq<Field>, mapping: ColumnMapping, dates: DateText): seq<Field> {
    if fields == [] then []
    else (if BadConstant(fields[0], mapping, dates) then [fields[0]] else []) + BadConstants(fields[1..], mapping, dates)
  }

  /** `headers.indexOf(header)` */
  function ColumnOf(headers: seq<string>, header: string): (i: int)
    ensures -1 <= i < |headers|
    ensures i >= 0 ==> headers[i] == header
  {
    if headers == [] then -1
    else if headers[0] == header then 0
    else var i := ColumnOf(headers[1..], header); if i < 0 then -1 else i + 1
  }

  /** A field's value for a row: the mapped cell or the fixed value, trimmed. */
  function ValueFor(row: seq<string>, headers: seq<string>, mapping: ColumnMapping, f: Field): string {
    if f !in mapping then ""
    else
      match mapping[f]
      case Constant(value) => Trim(value)
      case Column(header) =>
        var i := ColumnOf(headers, header);
        if i == -1 then "" else if i < |row| then Trim(row[i]) else Trim("")
  }

  /** The first field, in column order, whose value is refused. */
  function FirstInvalid(fields: seq<Field>, get: Field -> string, dates: DateText): Option<Field> {
    if fields == [] then None
    else if !ValidField(fields[0], get(fields[0]), dates) then Some(fields[0])
    else FirstInvalid(fields[1..], get, dates)
  }

  function IdOf(value: string): Option<string> {
    var p := ParseId(value);
    if p.Value? then Some(p.value) else None
  }

  function DateOf(value: string, dates: DateText): Option<int> {
    var p := ParseDate(value, dates);
    if p.Value? then Some(p.value) else None
  }

  predicate AllValid(get: Field -> string, dates: DateText) {
    forall f: Field :: ValidField(f, get(f), dates)
  }

  function Coerced(get: Field -> string, dates: DateText): ImportRow
    requires AllValid(get, dates)
  {
    assert ValidField(SourceMessageId, get(SourceMessageId), dates);
    assert ValidField(Role, get(Role), dates);
    assert ValidField(SentAt, get(SentAt), dates);
    var role := RoleOf(get(Role)).value;
    ImportRow(
      get(ChatRef),
      ParseId(get(SourceMessageId)).value,
      role,
      if role == Assistant || get(UserId) == "" then None else Some(get(UserId)),
      get(Content),
      IdOf(get(ReplyTo)),
      ParseDate(get(SentAt), dates).value,
      DateOf(get(EditedAt), dates),
      DateOf(get(DeletedAt), dates))
  }

  lemma {:induction false} NoneInvalid(fields: seq<Field>, get: Field -> string, dates: DateText)
    ensures FirstInvalid(fields, get, dates).None?
            <==> forall i :: 0 <= i < |fields| ==> ValidField(fields[i], get(fields[i]), dates)
    ensures FirstInvalid(fields, get, dates).Some?
            ==> !ValidField(FirstInvalid(fields, get, dates).value, get(FirstInvalid(fields, get, dates).value), dates)
  {
    hide ValidField;
    if fields != [] {
      NoneInvalid(fields[1..], get, dates);
      assert fields == [fields[0]] + fields[1..];
    }
  }

  /** A field's place in the canonical order. */
  function PlaceOf(f: Field): (i: nat)
    ensures i < |FIELDS| && FIELDS[i] == f
  {
    match f
    case ChatRef => 0
    case SourceMessageId => 1
    case Role => 2
    case Content => 3
    case SentAt => 4
    case UserId => 5
    case ReplyTo => 6
    case EditedAt => 7
    case DeletedAt => 8
  }

  /** A row is coerced exactly when no field refuses its value. */
  lemma ValidExactly(get: Field -> string, dates: DateText)
    ensures FirstInvalid(FIELDS, get, dates).None? <==> AllValid(get, dates)
  {
    hide ValidField, FirstInvalid, PlaceOf;
    NoneInvalid(FIELDS, get, dates);
    if FirstInvalid(FIELDS, get, dates).None? {
      forall f: Field ensures ValidField(f, get(f), dates) {
        assert FIELDS[PlaceOf(f)] == f;
      }
    }
  }

  /** The values of a row, by field. */
  function Getter(row: seq<string>, headers: seq<string>, mapping: ColumnMapping): Field -> string {
    (f: Field) => ValueFor(row, headers, mapping, f)
  }

  function RowOutcome(get: Field -> string, dates: DateText): Result<ImportRow, Field> {
    ValidExactly(get, dates);
    match FirstInvalid(FIELDS, get, dates)
    case Some(f) => Failure(f)
    case None => Success(Coerced(get, dates))
  }

  /** The rows that coerce, and the others as errors by line, both in order. */
  function MapFrom(table: CsvTable, mapping: ColumnMapping, dates: DateText, n: nat): (seq<ImportRow>, seq<RowError>)
    requires n <= |table.rows|
  {
    if n == 0 then ([], [])
    else
      var (rows, errors) := MapFrom(table, mapping, dates, n - 1);
      match RowOutcome(Getter(table.rows[n - 1], table.headers, mapping), dates)
      case Success(row) => (rows + [row], errors)
      case Failure(f) => (rows, errors + [RowError(n, f)])
  }

  /** What `mapCsvRows` computes. */
  function Mapped(table: CsvTable, mapping: ColumnMapping, dates: DateText): MappedRows {
    var missing := Missing(FIELDS, mapping);
    var bad := BadConstants(FIELDS, mapping, dates);
    if missing != [] || bad != [] then MappedRows([], [], missing, bad)
    else
      var (rows, errors) := MapFrom(table, mapping, dates, |table.rows|);
      MappedRows(rows, errors, missing, bad)
  }

  lemma BadConstantsStep(fields: seq<Field>, i: nat, mapping: ColumnMapping, dates: DateText, errors: seq<Field>)
    requires i < |fields|
    ensures
      var next := if BadConstant(fields[i], mapping, dates) then errors + [fields[i]] else errors;
      errors + BadConstants(fields[i..], mapping, dates) == next + BadConstants(fields[i + 1..], mapping, dates)
  {
    hide BadConstant;
    assert fields[i..][1..] == fields[i + 1..];
  }

  method InvalidConstants(mapping: ColumnMapping, dates: DateText) returns (errors: seq<Field>)
    ensures errors == BadConstants(FIELDS, mapping, dates)
  {
    hide ValidField, Trim, BadConstants, ConstantAllowed;
    errors := [];
    assert FIELDS[0..] == FIELDS && FIELDS[|FIELDS|..] == [];
    for i := 0 to |FIELDS|
      invariant errors + BadConstants(FIELDS[i..], mapping, dates) == [] + BadConstants(FIELDS, mapping, dates)
    {
      BadConstantsStep(FIELDS, i, mapping, dates, errors);
      var f := FIELDS[i];
      if f in mapping && mapping[f].Constant? {
        if !ConstantAllowed(f) {
          errors := errors + [f];
        } else if !ValidField(f, Trim(mapping[f].value), dates) {
          errors := errors + [f];
        }
      }
    }
    NoBadConstants(mapping, dates);
    assert errors + [] == errors && [] + BadConstants(FIELDS, mapping, dates) == BadConstants(FIELDS, mapping, dates);
  }

  lemma NoBadConstants(mapping: ColumnMapping, dates: DateText)
    ensures BadConstants([], mapping, dates) == []
  {
  }

  method MapCsvRows(table: CsvTable, mapping: ColumnMapping, dates: DateText) returns (r: MappedRows)
    ensures r == Mapped(table, mapping, dates)
  {
    hide RowOutcome, BadConstants, Missing, Getter;
    var missing := Missing(FIELDS, mapping);
    var badConstants := InvalidConstants(mapping, dates);
    var rows: seq<ImportRow>, errors: seq<RowError> := [], [];
    if |missing| > 0 || |badConstants| > 0 {
      return MappedRows(rows, errors, missing, badConstants);
    }
    for i := 0 to |table.rows|
      invariant (rows, errors) == MapFrom(table, mapping, dates, i)
    {
      var outcome := RowOutcome(Getter(table.rows[i], table.headers, mapping), dates);
      if outcome.Failure? {
        errors := errors + [RowError(i + 1, outcome.error)];
      } else {
        rows := rows + [outcome.value];
      }
    }
    return MappedRows(rows, errors, missing, badConstants);
  }

  // ---- the export -----------------------------------------------------------

  datatype MirrorRow = MirrorRow(
    chatRef: string,
    sourceMessageId: string,
    assistant: bool,
    userId: Option<string>,
    content: string,
    replyTo: Option<string>,
    sentAt: int,
    editedAt: Option<int>,
    deletedAt: Option<int>)

  function OrEmpty(s: Option<string>): string {
    if s.Some? then s.value else ""
  }

  function DateOrEmpty(t: Option<int>, dates: DateText): string {
    if t.Some? then dates.show(t.value) else ""
  }

  /** The cell a record's field is exported in. */
  function CellFor(r: MirrorRow, f: Field, dates: DateText): string {
    match f
    case ChatRef => r.chatRef
    case SourceMessageId => r.sourceMessageId
    case Role => if r.assistant then "assistant" else "user"
    case Content => r.content
    case SentAt => dates.show(r.sentAt)
    case UserId => OrEmpty(r.userId)
    case ReplyTo => OrEmpty(r.replyTo)
    case EditedAt => DateOrEmpty(r.editedAt, dates)
    case DeletedAt => DateOrEmpty(r.deletedAt, dates)
  }

  function ExportRow(r: MirrorRow, dates: DateText): seq<string> {
    [CellFor(r, ChatRef, dates), CellFor(r, SourceMessageId, dates), CellFor(r, Role, dates),
     CellFor(r, Content, dates), CellFor(r, SentAt, dates), CellFor(r, UserId, dates),
     CellFor(r, ReplyTo, dates), CellFor(r, EditedAt, dates), CellFor(r, DeletedAt, dates)]
  }

  function ExportRows(records: seq<MirrorRow>, dates: DateText): seq<seq<string>> {
    seq(|records|, i requires 0 <= i < |records| => ExportRow(records[i], dates))
  }

  /** `rowsToCsv`, the dates printed. */
  function RowsToCsv(records: seq<MirrorRow>, dates: DateText): string {
    ToCsv(HEADERS, ExportRows(records, dates), ',')
  }
}
