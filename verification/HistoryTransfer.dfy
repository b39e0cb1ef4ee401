/** An export of the history mirror round-trips through its own import. */
module HistoryTransfer {
  import opened Inherited
  import opened Wrappers
  import opened Text
  import opened Csv
  import opened CsvRoundTrip
  import opened HistoryRows

  /** The identity mapping: every field from the column that bears its name. */
  const CANONICAL: ColumnMapping := map[
    ChatRef := Column(Header(ChatRef)),
    SourceMessageId := Column(Header(SourceMessageId)),
    Role := Column(Header(Role)),
    Content := Column(Header(Content)),
    SentAt := Column(Header(SentAt)),
    UserId := Column(Header(UserId)),
    ReplyTo := Column(Header(ReplyTo)),
    EditedAt := Column(Header(EditedAt)),
    DeletedAt := Column(Header(DeletedAt))]

  // ---- the canonical header maps itself -------------------------------------

  predicate Word(s: string) {
    forall i :: 0 <= i < |s| ==> 'a' <= s[i] <= 'z'
  }

  lemma {:induction false} LowerKeepsWord(a: string, b: string)
    requires Word(a)
    ensures Lower(a + b) == a + Lower(b)
  {
    if a == "" {
      assert a + b == b;
    } else {
      assert (a + b)[1..] == a[1..] + b;
      LowerKeepsWord(a[1..], b);
      assert [a[0]] + (a[1..] + Lower(b)) == a + Lower(b);
    }
  }

  lemma {:induction false} KeepAlnumWord(a: string, b: string)
    requires Word(a)
    ensures KeepAlnum(a + b) == a + KeepAlnum(b)
  {
    if a == "" {
      assert a + b == b;
    } else {
      assert (a + b)[1..] == a[1..] + b;
      KeepAlnumWord(a[1..], b);
      assert [a[0]] + (a[1..] + KeepAlnum(b)) == a + KeepAlnum(b);
    }
  }

  lemma NormalizeWord(a: string, b: string)
    requires Word(a)
    ensures NormalizeHeader(a + b) == a + NormalizeHeader(b)
  {
    LowerKeepsWord(a, b);
    KeepAlnumWord(a, Lower(b));
  }

  lemma NormalizeUnderscore(b: string)
    ensures NormalizeHeader(['_'] + b) == NormalizeHeader(b)
  {
    assert (['_'] + b)[1..] == b;
    assert Lower(['_'] + b)[1..] == Lower(b);
  }

  function Concat(words: seq<string>): string {
    if words == [] then "" else words[0] + Concat(words[1..])
  }

  predicate AllWords(words: seq<string>) {
    forall i :: 0 <= i < |words| ==> words[i] != "" && Word(words[i])
  }

  /** Words joined by underscores normalize to the words run together. */
  lemma {:induction false} NormalizeJoined(words: seq<string>)
    requires AllWords(words)
    ensures NormalizeHeader(Join(words, '_')) == Concat(words)
  {
    hide NormalizeHeader;
    if words == [] {
      NormalizeWord("", "");
      NormalizeEmpty();
    } else if |words| == 1 {
      NormalizeWord(words[0], "");
      NormalizeEmpty();
      assert words[0] + "" == words[0] && words[1..] == [];
    } else {
      var rest := Join(words[1..], '_');
      assert Join(words, '_') == words[0] + (['_'] + rest);
      NormalizeWord(words[0], ['_'] + rest);
      NormalizeUnderscore(rest);
      NormalizeJoined(words[1..]);
    }
  }

  lemma NormalizeEmpty()
    ensures NormalizeHeader("") == ""
  {
  }

  lemma WordsOf(f: Field)
    ensures AllWords(Words(f)) && Words(f) != []
  {
  }

  /** The first two characters and the length of a normal form. */
  function Signature(f: Field): (char, char, nat) {
    match f
    case ChatRef => ('c', 'h', 7)
    case SourceMessageId => ('s', 'o', 15)
    case Role => ('r', 'o', 4)
    case Content => ('c', 'o', 7)
    case SentAt => ('s', 'e', 6)
    case UserId => ('u', 's', 6)
    case ReplyTo => ('r', 'e', 16)
    case EditedAt => ('e', 'd', 8)
    case DeletedAt => ('d', 'e', 9)
  }

  lemma SignatureOf(f: Field)
    ensures
      var n := Concat(Words(f));
      |n| >= 2 && Signature(f) == (n[0], n[1], |n|)
  {
    var w := Words(f);
    LengthOf(w);
    assert w[0] <= Concat(w);
  }

  lemma LengthOf(w: seq<string>)
    ensures |w| == 1 ==> |Concat(w)| == |w[0]|
    ensures |w| == 2 ==> |Concat(w)| == |w[0]| + |w[1]|
    ensures |w| == 3 ==> |Concat(w)| == |w[0]| + |w[1]| + |w[2]|
    ensures |w| == 4 ==> |Concat(w)| == |w[0]| + |w[1]| + |w[2]| + |w[3]|
  {
    if 1 < |w| <= 4 {
      LengthOf(w[1..]);
    }
  }

  /** Different fields have different headers, even loosely compared. */
  lemma NormalDistinct(f: Field, g: Field)
    ensures NormalizeHeader(Header(f)) == NormalizeHeader(Header(g)) <==> f == g
  {
    hide NormalizeHeader, Concat, Words;
    WordsOf(f);
    WordsOf(g);
    NormalizeJoined(Words(f));
    NormalizeJoined(Words(g));
    SignatureOf(f);
    SignatureOf(g);
  }

  lemma HeaderNotEmpty(f: Field)
    ensures Header(f) != ""
  {
  }

  lemma {:induction false} FindAt(headers: seq<string>, taken: set<string>, candidate: string, k: nat)
    requires k < |headers| && headers[k] !in taken && headers[k] != ""
    requires NormalizeHeader(headers[k]) == candidate
    requires forall j :: 0 <= j < k ==> NormalizeHeader(headers[j]) != candidate
    ensures FindHeader(headers, taken, candidate) == Some(headers[k])
  {
    hide NormalizeHeader;
    if k > 0 {
      assert NormalizeHeader(headers[0]) != candidate;
      FindAt(headers[1..], taken, candidate, k - 1);
    }
  }

  lemma HeaderAt(i: nat)
    requires i < |FIELDS|
    ensures HEADERS[i] == Header(FIELDS[i])
  {
    hide Header;
  }

  lemma PickOwn(i: nat, taken: set<string>)
    requires i < |FIELDS| && Header(FIELDS[i]) !in taken
    ensures PickHeader(HEADERS, taken, Candidates(FIELDS[i])) == Some(Header(FIELDS[i]))
  {
    hide NormalizeHeader, FindHeader, Header;
    var f := FIELDS[i];
    HeaderAt(i);
    HeaderNotEmpty(f);
    forall j | 0 <= j < i ensures NormalizeHeader(HEADERS[j]) != NormalizeHeader(Header(f)) {
      HeaderAt(j);
      NormalDistinct(FIELDS[j], f);
      assert FIELDS[j] != f;
    }
    FindAt(HEADERS, taken, NormalizeHeader(Header(f)), i);
  }

  /** The headers of the first `n` fields. */
  function TakenBy(n: nat): set<string>
    requires n <= |FIELDS|
  {
    if n == 0 then {} else TakenBy(n - 1) + {Header(FIELDS[n - 1])}
  }

  function FirstMapped(n: nat): ColumnMapping
    requires n <= |FIELDS|
  {
    if n == 0 then map[] else FirstMapped(n - 1)[FIELDS[n - 1] := Column(Header(FIELDS[n - 1]))]
  }

  lemma {:induction false} NotTaken(i: nat, n: nat)
    requires n <= i < |FIELDS|
    ensures Header(FIELDS[i]) !in TakenBy(n)
  {
    hide Header, NormalizeHeader;
    if n > 0 {
      NotTaken(i, n - 1);
      NormalDistinct(FIELDS[i], FIELDS[n - 1]);
      assert FIELDS[i] != FIELDS[n - 1];
    }
  }

  lemma {:induction false} GuessFirst(n: nat)
    requires n <= |FIELDS|
    ensures Guessed(HEADERS) == GuessFrom(FIELDS[n..], HEADERS, TakenBy(n), FirstMapped(n))
  {
    hide Header, PickHeader, Candidates;
    if n == 0 {
      assert FIELDS[0..] == FIELDS;
    } else {
      GuessFirst(n - 1);
      NotTaken(n - 1, n - 1);
      PickOwn(n - 1, TakenBy(n - 1));
      assert FIELDS[n - 1..][1..] == FIELDS[n..];
    }
  }

  lemma AllMapped()
    ensures FirstMapped(9) == CANONICAL
  {
    hide Header;
    assert FirstMapped(1) == map[ChatRef := Column(Header(ChatRef))];
    assert FirstMapped(3) == FirstMapped(1)[SourceMessageId := Column(Header(SourceMessageId))][Role := Column(Header(Role))];
    assert FirstMapped(5) == FirstMapped(3)[Content := Column(Header(Content))][SentAt := Column(Header(SentAt))];
    assert FirstMapped(7) == FirstMapped(5)[UserId := Column(Header(UserId))][ReplyTo := Column(Header(ReplyTo))];
  }

  /** The canonical header maps every field to the column of its own name. */
  lemma CanonicalGuess()
    ensures Guessed(HEADERS) == CANONICAL
  {
    hide Header;
    GuessFirst(9);
    AllMapped();
    assert FIELDS[9..] == [];
  }

  // ---- one exported record read back ----------------------------------------

  predicate IdText(s: string) {
    s != "" && AllDigits(s)
  }

  predicate DateReadsBack(t: int, dates: DateText) {
    ParseDate(Trim(dates.show(t)), dates) == Value(t)
  }

  predicate DateReadsBackIfAny(t: Option<int>, dates: DateText) {
    t.Some? ==> DateReadsBack(t.value, dates)
  }

  /**
   The records the import takes as the export wrote them. The mirror holds others as
   well: it takes any id from a platform, digits or not, and content of any length.
   */
  predicate ReadsBack(r: MirrorRow, dates: DateText) {
    && IsChatRef(r.chatRef) && Trimmed(r.chatRef)
    && IdText(r.sourceMessageId)
    && |Trim(r.content)| <= MAX_CONTENT_CHARS
    && (!r.assistant && r.userId.Some? ==> r.userId.value != "" && Trimmed(r.userId.value))
    && (r.replyTo.Some? ==> IdText(r.replyTo.value))
    && DateReadsBack(r.sentAt, dates)
    && DateReadsBackIfAny(r.editedAt, dates) && DateReadsBackIfAny(r.deletedAt, dates)
  }

  /** What comes back: the content trimmed, and no sender on the assistant's own rows. */
  function Imported(r: MirrorRow): ImportRow {
    ImportRow(
      r.chatRef,
      r.sourceMessageId,
      if r.assistant then Assistant else User,
      if r.assistant then None else r.userId,
      Trim(r.content),
      r.replyTo,
      r.sentAt,
      r.editedAt,
      r.deletedAt)
  }

  function ImportedAll(records: seq<MirrorRow>): (rows: seq<ImportRow>)
    ensures |rows| == |records| && forall i :: 0 <= i < |records| ==> rows[i] == Imported(records[i])
  {
    if records == [] then []
    else ImportedAll(records[..|records| - 1]) + [Imported(records[|records| - 1])]
  }

  lemma {:induction false} ColumnFound(headers: seq<string>, k: nat)
    requires k < |headers| && forall j :: 0 <= j < k ==> headers[j] != headers[k]
    ensures ColumnOf(headers, headers[k]) == k
  {
    if k > 0 {
      assert headers[0] != headers[k];
      ColumnFound(headers[1..], k - 1);
    }
  }

  lemma OwnColumn(f: Field)
    ensures ColumnOf(HEADERS, Header(f)) == PlaceOf(f)
  {
    hide Header, ColumnOf, NormalizeHeader;
    var k := PlaceOf(f);
    HeaderAt(k);
    forall j | 0 <= j < k ensures HEADERS[j] != HEADERS[k] {
      HeaderAt(j);
      NormalDistinct(FIELDS[j], f);
    }
    ColumnFound(HEADERS, k);
  }

  /** Each field reads its own cell of an exported row, trimmed. */
  lemma OwnValue(r: MirrorRow, f: Field, dates: DateText)
    ensures ValueFor(ExportRow(r, dates), HEADERS, CANONICAL, f) == Trim(CellFor(r, f, dates))
  {
    hide Header, ColumnOf, Trim;
    OwnColumn(f);
    assert CANONICAL[f] == Column(Header(f));
  }

  lemma {:induction false} LowerWord(a: string)
    requires Word(a)
    ensures Lower(a) == a
  {
    if a != "" {
      LowerWord(a[1..]);
    }
  }

  lemma DigitsTrimmed(s: string)
    requires AllDigits(s)
    ensures Trim(s) == s
  {
    TrimFixes(s);
  }

  lemma RoleOfUser()
    ensures Trim("user") == "user" && RoleOf("user") == Some(User)
  {
    hide Trim, Lower, Inherits;
    LowerWord("user");
    TrimFixes("user");
  }

  lemma RoleOfAssistant()
    ensures Trim("assistant") == "assistant" && RoleOf("assistant") == Some(Assistant)
  {
    hide Trim, Lower, Inherits;
    LowerWord("assistant");
    TrimFixes("assistant");
    assert |"assistant"| == 9;
  }

  lemma OwnRole(assistant: bool)
    ensures
      var cell := if assistant then "assistant" else "user";
      Trim(cell) == cell && RoleOf(cell) == Some(if assistant then Assistant else User)
  {
    hide Trim, RoleOf;
    RoleOfUser();
    RoleOfAssistant();
  }

  lemma OwnDate(t: Option<int>, dates: DateText)
    ensures
      var p := ParseDate(Trim(DateOrEmpty(t, dates)), dates);
      p != Bad && (if p.Value? then Some(p.value) else None) == t <==> DateReadsBackIfAny(t, dates)
  {
    hide AllDigits, NumberOf;
    TrimFixes("");
  }

  lemma OwnId(id: string)
    ensures ParseId(Trim(id)) == Value(id) <==> IdText(id)
  {
    hide Trim;
    if IdText(id) {
      DigitsTrimmed(id);
    }
  }

  lemma OwnReply(id: Option<string>)
    ensures
      var cell := Trim(OrEmpty(id));
      ParseId(cell) != Bad && IdOf(cell) == id <==> (id.Some? ==> IdText(id.value))
  {
    hide Trim, AllDigits;
    TrimFixes("");
    OwnId(OrEmpty(id));
  }

  lemma OwnSender(id: Option<string>)
    ensures
      var cell := Trim(OrEmpty(id));
      (if cell == "" then None else Some(cell)) == id <==> (id.Some? ==> id.value != "" && Trimmed(id.value))
  {
    hide Trim;
    TrimFixes(OrEmpty(id));
  }

  /** The value of every field is its own cell, trimmed. */
  ghost predicate ReadsOwn(get: Field -> string, r: MirrorRow, dates: DateText) {
    forall f: Field :: get(f) == Trim(CellFor(r, f, dates))
  }

  lemma OwnCells(get: Field -> string, r: MirrorRow, dates: DateText)
    requires ReadsOwn(get, r, dates)
    ensures get(ChatRef) == Trim(r.chatRef) && get(SourceMessageId) == Trim(r.sourceMessageId)
    ensures get(Role) == Trim(if r.assistant then "assistant" else "user") && get(Content) == Trim(r.content)
    ensures get(SentAt) == Trim(dates.show(r.sentAt)) && get(UserId) == Trim(OrEmpty(r.userId))
    ensures get(ReplyTo) == Trim(OrEmpty(r.replyTo)) && get(EditedAt) == Trim(DateOrEmpty(r.editedAt, dates))
    ensures get(DeletedAt) == Trim(DateOrEmpty(r.deletedAt, dates))
  {
    hide Trim, OrEmpty, DateOrEmpty, ReadsOwn;
    OwnCell(get, r, ChatRef, dates);
    OwnCell(get, r, SourceMessageId, dates);
    OwnCell(get, r, Role, dates);
    OwnCell(get, r, Content, dates);
    OwnCell(get, r, SentAt, dates);
    OwnCell(get, r, UserId, dates);
    OwnCell(get, r, ReplyTo, dates);
    OwnCell(get, r, EditedAt, dates);
    OwnCell(get, r, DeletedAt, dates);
  }

  lemma OwnCell(get: Field -> string, r: MirrorRow, f: Field, dates: DateText)
    requires ReadsOwn(get, r, dates)
    ensures get(f) == Trim(CellFor(r, f, dates))
  {
    hide Trim, CellFor;
  }

  /** What the checks of the nine fields come to on an exported row. */
  lemma CellsValid(get: Field -> string, r: MirrorRow, dates: DateText)
    requires ReadsOwn(get, r, dates)
    ensures AllValid(get, dates)
            <==> && IsChatRef(Trim(r.chatRef))
                 && ParseId(Trim(r.sourceMessageId)).Value?
                 && |Trim(r.content)| <= MAX_CONTENT_CHARS
                 && ParseDate(Trim(dates.show(r.sentAt)), dates).Value?
                 && ParseId(Trim(OrEmpty(r.replyTo))) != Bad
                 && ParseDate(Trim(DateOrEmpty(r.editedAt, dates)), dates) != Bad
                 && ParseDate(Trim(DateOrEmpty(r.deletedAt, dates)), dates) != Bad
    ensures RoleOf(get(Role)) == Some(if r.assistant then Assistant else User)
  {
    hide Trim, IsChatRef, RoleOf, ParseDate, ParseId, OrEmpty, DateOrEmpty, ReadsOwn, CellFor;
    OwnCells(get, r, dates);
    OwnRole(r.assistant);
    if AllValid(get, dates) {
      assert ValidField(ChatRef, get(ChatRef), dates) && ValidField(SourceMessageId, get(SourceMessageId), dates);
      assert ValidField(Content, get(Content), dates) && ValidField(SentAt, get(SentAt), dates);
      assert ValidField(ReplyTo, get(ReplyTo), dates);
      assert ValidField(EditedAt, get(EditedAt), dates) && ValidField(DeletedAt, get(DeletedAt), dates);
    }
  }

  lemma CellsCoerce(get: Field -> string, r: MirrorRow, dates: DateText)
    requires ReadsOwn(get, r, dates) && AllValid(get, dates)
    ensures Coerced(get, dates) == Imported(r) <==> ReadsBack(r, dates)
  {
    hide Trim, IsChatRef, RoleOf, ParseDate, ParseId, IdText, OrEmpty, DateOrEmpty, AllValid, Trimmed;
    CellsValid(get, r, dates);
    TrimFixes(r.chatRef);
    OwnId(r.sourceMessageId);
    OwnSender(r.userId);
    OwnReply(r.replyTo);
    OwnDate(r.editedAt, dates);
    OwnDate(r.deletedAt, dates);
  }

  /** A record that reads back has cells that are valid. */
  lemma ReadsBackValid(get: Field -> string, r: MirrorRow, dates: DateText)
    requires ReadsOwn(get, r, dates) && ReadsBack(r, dates)
    ensures AllValid(get, dates)
  {
    hide Trim, IsChatRef, ParseDate, ParseId, IdText, OrEmpty, DateOrEmpty, AllValid, Trimmed;
    CellsValid(get, r, dates);
    TrimFixes(r.chatRef);
    OwnId(r.sourceMessageId);
    OwnReply(r.replyTo);
    OwnDate(r.editedAt, dates);
    OwnDate(r.deletedAt, dates);
  }

  lemma GetsOwn(r: MirrorRow, dates: DateText)
    ensures ReadsOwn(Getter(ExportRow(r, dates), HEADERS, CANONICAL), r, dates)
  {
    hide Header, Trim, ValueFor, ExportRow, CellFor;
    var get := Getter(ExportRow(r, dates), HEADERS, CANONICAL);
    forall f: Field ensures get(f) == Trim(CellFor(r, f, dates)) {
      OwnValue(r, f, dates);
    }
  }

  /** An exported record comes back as itself exactly when every cell reads back. */
  lemma RecordReadsBack(r: MirrorRow, dates: DateText)
    ensures RowOutcome(Getter(ExportRow(r, dates), HEADERS, CANONICAL), dates) == Success(Imported(r))
            <==> ReadsBack(r, dates)
  {
    hide Header, Getter, FirstInvalid, Coerced, Imported, AllValid, ReadsBack, ReadsOwn;
    var get := Getter(ExportRow(r, dates), HEADERS, CANONICAL);
    GetsOwn(r, dates);
    ValidExactly(get, dates);
    if ReadsBack(r, dates) {
      ReadsBackValid(get, r, dates);
    }
    if AllValid(get, dates) {
      CellsCoerce(get, r, dates);
    }
  }

  /** A message id that is not made of digits is exported all the same, and refused by the import. */
  lemma ForeignIdRefused(r: MirrorRow, dates: DateText)
    requires IsChatRef(Trim(r.chatRef)) && !IdText(Trim(r.sourceMessageId))
    ensures RowOutcome(Getter(ExportRow(r, dates), HEADERS, CANONICAL), dates) == Failure(SourceMessageId)
  {
    hide Header, Getter, Trim, IsChatRef, ReadsOwn, AllDigits;
    var get := Getter(ExportRow(r, dates), HEADERS, CANONICAL);
    GetsOwn(r, dates);
    OwnCells(get, r, dates);
    assert FirstInvalid(FIELDS, get, dates) == FirstInvalid(FIELDS[1..], get, dates);
  }

  /** Content over the cap is exported all the same, and refused by the import. */
  lemma LongContentRefused(r: MirrorRow, dates: DateText)
    requires IsChatRef(Trim(r.chatRef)) && IdText(Trim(r.sourceMessageId)) && |Trim(r.content)| > MAX_CONTENT_CHARS
    ensures RowOutcome(Getter(ExportRow(r, dates), HEADERS, CANONICAL), dates) == Failure(Content)
  {
    hide Header, Getter, Trim, IsChatRef, RoleOf, ReadsOwn, AllDigits;
    var get := Getter(ExportRow(r, dates), HEADERS, CANONICAL);
    GetsOwn(r, dates);
    OwnCells(get, r, dates);
    OwnRole(r.assistant);
    assert FirstInvalid(FIELDS, get, dates) == FirstInvalid(FIELDS[1..], get, dates);
    assert FirstInvalid(FIELDS[1..], get, dates) == FirstInvalid(FIELDS[1..][1..], get, dates);
    assert FirstInvalid(FIELDS[1..][1..], get, dates) == FirstInvalid(FIELDS[1..][1..][1..], get, dates);
  }

  /** One such id. */
  lemma ForeignId()
    ensures !IdText(Trim("wamid.1"))
  {
    hide Trim;
    TrimFixes("wamid.1");
    assert !IsDigit("wamid.1"[0]);
  }

  // ---- the whole file -------------------------------------------------------

  lemma {:induction false} MapExported(records: seq<MirrorRow>, dates: DateText, n: nat)
    requires n <= |records|
    ensures
      MapFrom(CsvTable(HEADERS, ExportRows(records, dates), ','), CANONICAL, dates, n)
      == (ImportedAll(records[..n]), [])
      <==> forall i :: 0 <= i < n ==> ReadsBack(records[i], dates)
  {
    hide Header, RowOutcome, Getter, Imported, ExportRow, ReadsBack;
    if n > 0 {
      var table := CsvTable(HEADERS, ExportRows(records, dates), ',');
      MapExported(records, dates, n - 1);
      RecordReadsBack(records[n - 1], dates);
      assert records[..n][..n - 1] == records[..n - 1];
      var (before, errors) := MapFrom(table, CANONICAL, dates, n - 1);
      var all := ImportedAll(records[..n - 1]) + [Imported(records[n - 1])];
      assert all == ImportedAll(records[..n]) && all[..n - 1] == ImportedAll(records[..n - 1]);
      var outcome := RowOutcome(Getter(table.rows[n - 1], table.headers, CANONICAL), dates);
      if outcome.Success? && before + [outcome.value] == all {
        assert (before + [outcome.value])[..n - 1] == before && (before + [outcome.value])[n - 1] == outcome.value;
      }
    }
  }

  lemma CanonicalColumn(f: Field)
    ensures f in CANONICAL && CANONICAL[f] == Column(Header(f))
  {
    hide Header;
  }

  lemma {:induction false} NothingMissing(fields: seq<Field>, dates: DateText)
    ensures Missing(fields, CANONICAL) == [] && BadConstants(fields, CANONICAL, dates) == []
  {
    hide Header, ValidField;
    if fields != [] {
      NothingMissing(fields[1..], dates);
      CanonicalColumn(fields[0]);
    }
  }

  lemma {:induction false} JoinedChars(words: seq<string>, i: nat)
    requires AllWords(words) && i < |Join(words, '_')|
    ensures Join(words, '_')[i] == '_' || 'a' <= Join(words, '_')[i] <= 'z'
  {
    if |words| > 1 {
      var rest := Join(words[1..], '_');
      assert Join(words, '_') == words[0] + ['_'] + rest;
      if i > |words[0]| {
        JoinedChars(words[1..], i - |words[0]| - 1);
      }
    }
  }

  lemma HeaderIsPlain(f: Field)
    ensures PlainHeader(Header(f))
  {
    hide Words, Join;
    WordsOf(f);
    forall i | 0 <= i < |Header(f)| ensures Header(f)[i] == '_' || 'a' <= Header(f)[i] <= 'z' {
      JoinedChars(Words(f), i);
    }
  }

  lemma ExportedFilled(records: seq<MirrorRow>, dates: DateText)
    ensures FilledOnly([HEADERS] + ExportRows(records, dates)) == [HEADERS] + ExportRows(records, dates)
  {
    hide Header;
    var all := [HEADERS] + ExportRows(records, dates);
    HeaderNotEmpty(ChatRef);
    forall i | 0 <= i < |all| ensures Filled(all[i]) {
      if i == 0 {
        assert HEADERS[0] == Header(ChatRef);
      } else {
        assert all[i] == ExportRow(records[i - 1], dates);
        assert all[i][2] != "";
      }
    }
    FilledOnlyAll(all);
  }

  function Download(records: seq<MirrorRow>, dates: DateText, bom: bool): string {
    (if bom then [BOM] else "") + RowsToCsv(records, dates)
  }

  lemma ExportParses(records: seq<MirrorRow>, dates: DateText, bom: bool)
    ensures Parsed(Download(records, dates, bom), None) == CsvTable(HEADERS, ExportRows(records, dates), ',')
  {
    hide Header, PlainHeader, ToCsv, Parsed, Filled, FilledOnly, ExportRow;
    var rows := ExportRows(records, dates);
    forall i | 0 <= i < |HEADERS| ensures PlainHeader(HEADERS[i]) {
      HeaderAt(i);
      HeaderIsPlain(FIELDS[i]);
    }
    SniffedRoundTrip(HEADERS, rows, ',');
    ExportedFilled(records, dates);
    assert "" + RowsToCsv(records, dates) == RowsToCsv(records, dates);
    assert ([HEADERS] + rows)[1..] == rows;
  }

  /**
   Exporting records and importing the file again, with the delimiter sniffed, the
   mapping guessed, and the byte-order mark of the download or without it, gives no
   errors and the same records in order exactly when each record reads back; only the
   content comes back trimmed and the assistant's own rows without a sender.
   */
  lemma ExportImports(records: seq<MirrorRow>, dates: DateText, bom: bool)
    ensures
      var table := Parsed(Download(records, dates, bom), None);
      Mapped(table, Guessed(table.headers), dates) == MappedRows(ImportedAll(records), [], [], [])
      <==> forall i :: 0 <= i < |records| ==> ReadsBack(records[i], dates)
  {
    hide Header, Parsed, Download, MapFrom, ImportedAll, ReadsBack, Missing, BadConstants, Guessed;
    ExportParses(records, dates, bom);
    CanonicalGuess();
    NothingMissing(FIELDS, dates);
    MapExported(records, dates, |records|);
    assert records[..|records|] == records;
  }

  // ---- guessing on any file -------------------------------------------------

  /** Some field is mapped to the header. */
  ghost predicate Uses(mapping: ColumnMapping, header: string) {
    exists f :: f in mapping && mapping[f] == Column(header)
  }

  ghost predicate Names(headers: seq<string>, f: Field, source: ColumnSource) {
    source.Column? && source.header in headers && NormalizeHeader(source.header) in Candidates(f)
  }

  /** Fields on headers that name them, no header twice, and exactly the taken ones used. */
  ghost predicate Placed(headers: seq<string>, mapping: ColumnMapping, taken: set<string>) {
    && (forall f :: f in mapping ==> Names(headers, f, mapping[f]))
    && (forall f, g :: f in mapping && g in mapping && f != g ==> mapping[f] != mapping[g])
    && (forall h :: h in taken <==> Uses(mapping, h))
  }

  /** Every header that would name the field is used by another. */
  ghost predicate NoneFree(headers: seq<string>, f: Field, mapping: ColumnMapping) {
    forall h :: h in headers && NormalizeHeader(h) != "" && NormalizeHeader(h) in Candidates(f) ==> Uses(mapping, h)
  }

  lemma {:induction false} FoundHeader(headers: seq<string>, taken: set<string>, candidate: string)
    ensures
      var found := FindHeader(headers, taken, candidate);
      && (found.Some? ==> found.value in headers && found.value !in taken && NormalizeHeader(found.value) == candidate)
      && (found.None? && candidate != "" ==>
            forall h :: h in headers && NormalizeHeader(h) == candidate ==> h in taken)
  {
    if headers != [] {
      FoundHeader(headers[1..], taken, candidate);
      assert headers == [headers[0]] + headers[1..];
      EmptyNormal();
    }
  }

  lemma EmptyNormal()
    ensures NormalizeHeader("") == ""
  {
  }

  lemma {:induction false} PickedHeader(headers: seq<string>, taken: set<string>, candidates: seq<string>)
    ensures
      var found := PickHeader(headers, taken, candidates);
      && (found.Some? ==> found.value in headers && found.value !in taken && NormalizeHeader(found.value) in candidates)
      && (found.None? ==>
            forall h :: h in headers && NormalizeHeader(h) != "" && NormalizeHeader(h) in candidates ==> h in taken)
  {
    hide FindHeader, NormalizeHeader;
    if candidates != [] {
      FoundHeader(headers, taken, candidates[0]);
      PickedHeader(headers, taken, candidates[1..]);
      assert candidates == [candidates[0]] + candidates[1..];
    }
  }

  lemma PlaceOne(headers: seq<string>, mapping: ColumnMapping, taken: set<string>, f: Field, header: string)
    requires Placed(headers, mapping, taken) && f !in mapping && header !in taken
    requires header in headers && NormalizeHeader(header) in Candidates(f)
    ensures Placed(headers, mapping[f := Column(header)], taken + {header})
    ensures forall h :: Uses(mapping, h) ==> Uses(mapping[f := Column(header)], h)
  {
    hide NormalizeHeader, Candidates;
    var next := mapping[f := Column(header)];
    assert forall g :: g in mapping ==> g in next && next[g] == mapping[g];
    assert next[f] == Column(header);
    forall g | g in mapping ensures mapping[g] != Column(header) {
      assert mapping[g] == Column(header) ==> Uses(mapping, header);
    }
    forall h ensures h in taken + {header} <==> Uses(next, h) {
      if Uses(next, h) && h != header {
        var g :| g in next && next[g] == Column(h);
        assert g in mapping && mapping[g] == Column(h);
      }
      if h in taken {
        var g :| g in mapping && mapping[g] == Column(h);
        assert g in next && next[g] == Column(h);
      }
    }
  }

  lemma {:induction false} GuessPlaces(fields: seq<Field>, headers: seq<string>, taken: set<string>, mapping: ColumnMapping)
    returns (used: set<string>)
    requires Placed(headers, mapping, taken)
    requires forall i :: 0 <= i < |fields| ==> fields[i] !in mapping
    requires forall i, j :: 0 <= i < j < |fields| ==> fields[i] != fields[j]
    ensures
      var m := GuessFrom(fields, headers, taken, mapping);
      && Placed(headers, m, used)
      && (forall h :: Uses(mapping, h) ==> Uses(m, h))
      && (forall i :: 0 <= i < |fields| && fields[i] !in m ==> NoneFree(headers, fields[i], m))
      && (forall f :: f in m ==> f in mapping || f in fields)
      && (forall f :: f in mapping ==> f in m)
  {
    hide FindHeader, PickHeader, NormalizeHeader, Candidates, Placed, Uses;
    if fields != [] {
      var f := fields[0];
      var rest := fields[1..];
      assert forall i :: 0 < i < |fields| ==> fields[i] == rest[i - 1];
      PickedHeader(headers, taken, Candidates(f));
      var found := PickHeader(headers, taken, Candidates(f));
      var m := GuessFrom(fields, headers, taken, mapping);
      if found.Some? {
        PlaceOne(headers, mapping, taken, f, found.value);
        assert m == GuessFrom(rest, headers, taken + {found.value}, mapping[f := Column(found.value)]);
        used := GuessPlaces(rest, headers, taken + {found.value}, mapping[f := Column(found.value)]);
      } else {
        assert m == GuessFrom(rest, headers, taken, mapping);
        used := GuessPlaces(rest, headers, taken, mapping);
        TakenUsed(headers, mapping, taken);
        assert NoneFree(headers, f, m);
      }
    } else {
      used := taken;
    }
  }

  lemma TakenUsed(headers: seq<string>, mapping: ColumnMapping, taken: set<string>)
    requires Placed(headers, mapping, taken)
    ensures forall h :: h in taken <==> Uses(mapping, h)
  {
  }

  lemma NothingPlaced(headers: seq<string>)
    ensures Placed(headers, map[], {})
  {
  }

  /**
   What the mapping guessed for any file says: a field is only put on a header that
   names it, no header serves two fields, and a field is left out only when every
   header that would name it serves another.
   */
  lemma GuessSound(headers: seq<string>)
    ensures
      var m := Guessed(headers);
      && (forall f :: f in m ==> Names(headers, f, m[f]))
      && (forall f, g :: f in m && g in m && f != g ==> m[f] != m[g])
      && (forall f: Field :: f !in m ==> NoneFree(headers, f, m))
  {
    hide GuessFrom, Names, NoneFree, Uses;
    NothingPlaced(headers);
    assert forall i, j :: 0 <= i < j < |FIELDS| ==> FIELDS[i] != FIELDS[j];
    var used := GuessPlaces(FIELDS, headers, {}, map[]);
    var m := Guessed(headers);
    forall f: Field | f !in m ensures NoneFree(headers, f, m) {
      assert FIELDS[PlaceOf(f)] == f;
    }
  }

  // ---- no row is lost -------------------------------------------------------

  ghost predicate Refused(table: CsvTable, mapping: ColumnMapping, dates: DateText, k: nat) {
    k < |table.rows| && RowOutcome(Getter(table.rows[k], table.headers, mapping), dates).Failure?
  }

  ghost predicate Reported(errors: seq<RowError>, line: nat) {
    exists e :: e in errors && e.line == line
  }

  /**
   Every row of any file is accounted for, once and in order: the coerced rows and
   the reported lines together are as many as the rows of the file, and a line is
   reported exactly when its row is refused.
   */
  lemma {:induction false} NoRowLost(table: CsvTable, mapping: ColumnMapping, dates: DateText, n: nat)
    requires n <= |table.rows|
    ensures
      var (rows, errors) := MapFrom(table, mapping, dates, n);
      && |rows| + |errors| == n
      && (forall i, j :: 0 <= i < j < |errors| ==> errors[i].line < errors[j].line)
      && (forall e :: e in errors ==> 1 <= e.line <= n)
      && (forall k :: 0 <= k < n ==> (Refused(table, mapping, dates, k) <==> Reported(errors, k + 1)))
  {
    hide RowOutcome, Getter;
    if n > 0 {
      NoRowLost(table, mapping, dates, n - 1);
      var before := MapFrom(table, mapping, dates, n - 1).1;
      var errors := MapFrom(table, mapping, dates, n).1;
      forall k | 0 <= k < n ensures Refused(table, mapping, dates, k) <==> Reported(errors, k + 1) {
        ReportedStep(before, errors, n, k);
      }
    }
  }

  lemma ReportedStep(before: seq<RowError>, errors: seq<RowError>, n: nat, k: nat)
    requires k < n && forall e :: e in before ==> 1 <= e.line <= n - 1
    requires errors == before || (|errors| == |before| + 1 && errors[..|before|] == before && errors[|before|].line == n)
    ensures Reported(errors, k + 1) <==> if k == n - 1 then errors != before else Reported(before, k + 1)
  {
    if errors != before {
      assert errors == before + [errors[|before|]];
      assert errors[|before|] in errors;
      assert forall e :: e in before ==> e in errors;
    }
  }

  predicate ChatRefOf(value: string, source: string, id: string) {
    IsSourceId(source) && id != "" && value == source + ":chat:" + id
  }

  lemma {:induction false} SplitFirst(s: string, sep: char)
    requires |Split(s, sep)| >= 2
    ensures
      var first := Split(s, sep)[0];
      && |first| < |s| && s == first + [sep] + s[|first| + 1..]
      && Split(s[|first| + 1..], sep) == Split(s, sep)[1..]
  {
    if s[0] != sep {
      SplitFirst(s[1..], sep);
      var first := Split(s[1..], sep)[0];
      assert Split(s, sep)[0] == [s[0]] + first;
      assert s[1..][|first| + 1..] == s[|first| + 2..];
      assert s == [s[0]] + s[1..];
    }
  }

  /** A source is named by 1 to 32 of a-z, 0-9 and the hyphen, a letter first. */
  lemma SourceIdExactly(s: string)
    ensures IsSourceId(s)
            <==> 1 <= |s| <= 32 && s[0] != '-' && !('0' <= s[0] <= '9')
                 && forall i :: 0 <= i < |s| ==> 97 <= s[i] as int <= 122 || 48 <= s[i] as int <= 57 || s[i] as int == 45
  {
  }

  /** A chat reference is a source id, the word `chat` and an id of any text, colons included. */
  lemma ChatRefExactly(value: string)
    ensures IsChatRef(value) <==> exists source, id :: ChatRefOf(value, source, id)
  {
    hide IsChatRef, ChatRefOf;
    if IsChatRef(value) {
      var source, id := ChatRefParts(value);
    }
    if source, id :| ChatRefOf(value, source, id) {
      PartsMakeChatRef(value, source, id);
    }
  }

  lemma ChatRefParts(value: string) returns (source: string, id: string)
    requires IsChatRef(value)
    ensures ChatRefOf(value, source, id)
  {
    hide Split, IsSourceId;
    SplitFirst(value, ':');
    source := Split(value, ':')[0];
    var rest := value[|source| + 1..];
    SplitFirst(rest, ':');
    id := rest[5..];
    assert rest == "chat" + [':'] + id;
    assert value == source + [':'] + ("chat" + [':'] + id);
    assert source + ":chat:" + id == source + [':'] + ("chat" + [':'] + id);
  }

  lemma PartsMakeChatRef(value: string, source: string, id: string)
    requires ChatRefOf(value, source, id)
    ensures IsChatRef(value)
  {
    hide Split, IsSourceId;
    NoColon(source);
    var rest := "chat" + [':'] + id;
    assert value == source + [':'] + rest;
    SplitHead(source, ':', rest);
    SplitHead("chat", ':', id);
    assert Split(value, ':') == [source] + (["chat"] + Split(id, ':'));
  }

  lemma NoColon(source: string)
    requires IsSourceId(source)
    ensures ':' !in source
  {
  }

  /**
   An instant from the epoch on, written in seconds and in milliseconds, reads alike
   exactly from 1973 to 5138, and at the epoch: an earlier count of milliseconds is
   taken for seconds, and a later count of seconds for milliseconds.
   */
  lemma UnixTimes(n: nat, dates: DateText)
    requires n * 1000 <= MAX_TIME
    ensures ParseDate(Decimal(n), dates) == ParseDate(Decimal(n * 1000), dates)
            <==> n == 0 || 100_000_000 <= n < 100_000_000_000
    ensures n < 100_000_000_000 ==> ParseDate(Decimal(n), dates) == Value(n * 1000)
  {
    hide Decimal, NumberOf;
    NumberOfDecimal(n);
    NumberOfDecimal(n * 1000);
  }

  // ---- roles ----------------------------------------------------------------

  lemma {:induction false} LowerHasNoCapital(s: string)
    ensures !HasCapital(Lower(s))
  {
    if s != "" {
      LowerHasNoCapital(s[1..]);
      var head, tail := LowerChar(s[0]), Lower(s[1..]);
      forall i | 0 <= i < |Lower(s)| ensures !IsCapital(Lower(s)[i]) {
        assert Lower(s)[i] == if i < |head| then head[i] else tail[i - |head|];
      }
    }
  }

  /**
   Which role cells are accepted: the six aliases, in any case, and, because the
   alias table is a plain object, the inherited names that survive lower-casing.
   Of the twelve only `constructor` and `__proto__` do.
   */
  lemma AcceptedRoles(raw: string, dates: DateText)
    ensures ValidField(Role, raw, dates)
            <==> (var key := Lower(raw);
                  || key == "user" || key == "human" || key == "person"
                  || key == "assistant" || key == "bot" || key == "ai"
                  || key == "constructor" || key == "__proto__")
    ensures RoleOf(raw) == Some(Inheritance) <==> Lower(raw) == "constructor" || Lower(raw) == "__proto__"
  {
    hide Lower, Inherits, HasCapital;
    var key := Lower(raw);
    LowerHasNoCapital(raw);
    OnlyTwoWithout();
    if Inherits(key) {
      MostHaveCapitals(key);
    }
  }
}
