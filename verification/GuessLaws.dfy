/** Which column each field is guessed to be in, for any header row (`core/features/history/csv.ts`). */
module GuessLaws {
  import opened Wrappers
  import opened Text
  import opened HistoryRows
  import opened HistoryTransfer

  // ---- how headers are compared ---------------------------------------------

  /** The text in capitals, as far as a-z go. */
  function Shout(s: string): string {
    if s == "" then ""
    else [if 'a' <= s[0] <= 'z' then (s[0] as int - 32) as char else s[0]] + Shout(s[1..])
  }

  lemma {:induction false} CaseIgnored(s: string)
    ensures Lower(Shout(s)) == Lower(s) && NormalizeHeader(Shout(s)) == NormalizeHeader(s)
  {
    if s != "" {
      CaseIgnored(s[1..]);
      assert Shout(s)[1..] == Shout(s[1..]);
    }
  }

  lemma {:induction false} LowerAppend(a: string, b: string)
    ensures Lower(a + b) == Lower(a) + Lower(b)
  {
    hide LowerChar;
    if a == "" {
      assert a + b == b;
    } else {
      assert (a + b)[1..] == a[1..] + b;
      LowerAppend(a[1..], b);
      assert LowerChar(a[0]) + (Lower(a[1..]) + Lower(b)) == Lower(a) + Lower(b);
    }
  }

  lemma {:induction false} KeepAppend(a: string, b: string)
    ensures KeepAlnum(a + b) == KeepAlnum(a) + KeepAlnum(b)
  {
    if a == "" {
      assert a + b == b;
    } else {
      assert (a + b)[1..] == a[1..] + b;
      KeepAppend(a[1..], b);
      var kept := if 'a' <= a[0] <= 'z' || IsDigit(a[0]) then [a[0]] else "";
      assert kept + (KeepAlnum(a[1..]) + KeepAlnum(b)) == (kept + KeepAlnum(a[1..])) + KeepAlnum(b);
    }
  }

  /** Besides the capitals of ASCII two characters lower-case into it, U+0130 with a dot that stays. */
  lemma OddCapitals()
    ensures Lower("\U{212A}") == "k" && Lower("\U{0130}") == "i\U{0307}"
    ensures NormalizeHeader("\U{212A}") == "k" && NormalizeHeader("\U{0130}") == "i"
  {
    var kelvin, dotted := "\U{212A}", "\U{0130}";
    assert Lower(kelvin) == LowerChar(kelvin[0]) + Lower(kelvin[1..]) == "k";
    assert Lower(dotted) == LowerChar(dotted[0]) + Lower(dotted[1..]) == "i\U{0307}";
    assert KeepAlnum("k") == "k" + KeepAlnum("") == "k";
    assert "i\U{0307}"[1..] == "\U{0307}";
    assert KeepAlnum("\U{0307}") == "" + KeepAlnum("") == "";
    assert KeepAlnum("i\U{0307}") == "i" + KeepAlnum("\U{0307}") == "i";
  }

  /** A character that headers are compared without: no letter of ASCII, nor one that lower-cases to it, and no digit. */
  predicate IsMark(c: char) {
    !('a' <= c <= 'z') && !('A' <= c <= 'Z') && !IsDigit(c) && c != '\U{212A}' && c != '\U{0130}'
  }

  lemma MarkIgnored(a: string, c: char, b: string)
    requires IsMark(c)
    ensures NormalizeHeader(a + [c] + b) == NormalizeHeader(a + b)
  {
    LowerAppend(a + [c], b);
    LowerAppend(a, [c]);
    LowerAppend(a, b);
    KeepAppend(Lower(a) + [c], Lower(b));
    KeepAppend(Lower(a), [c]);
    KeepAppend(Lower(a), Lower(b));
    OneMark(c);
  }

  lemma OneMark(c: char)
    requires IsMark(c)
    ensures Lower([c]) == [c] && KeepAlnum([c]) == ""
  {
    assert [c][1..] == "";
  }

  /** Letters and digits as they are in lower case are all that counts. */
  lemma {:induction false} LettersCount(s: string)
    requires forall i :: 0 <= i < |s| ==> 'a' <= s[i] <= 'z' || IsDigit(s[i])
    ensures NormalizeHeader(s) == s && Lower(s) == s
  {
    if s != "" {
      LettersCount(s[1..]);
      assert [s[0]] + s[1..] == s;
      assert Lower(s)[1..] == Lower(s[1..]);
    }
  }

  lemma JoinTwo(a: string, b: string)
    ensures Join([a, b], '_') == a + "_" + b && Join([a], '_') == a
  {
    assert [a, b][1..] == [b];
  }

  lemma JoinFour(a: string, b: string, c: string, d: string)
    ensures Join([a, b, c], '_') == a + "_" + b + "_" + c
    ensures Join([a, b, c, d], '_') == a + "_" + b + "_" + c + "_" + d
  {
    JoinTwo(b, c);
    JoinTwo(c, d);
    assert [a, b, c][1..] == [b, c] && [a, b, c, d][1..] == [b, c, d] && [b, c, d][1..] == [c, d];
    assert Join([b, c, d], '_') == b + "_" + (c + "_" + d);
    assert a + "_" + (b + "_" + c) == a + "_" + b + "_" + c;
    assert a + "_" + (b + "_" + (c + "_" + d)) == a + "_" + b + "_" + c + "_" + d;
  }

  /** The header of a field in an export. */
  function HeaderText(f: Field): string {
    match f
    case ChatRef => "chat_ref"
    case SourceMessageId => "source_message_id"
    case Role => "role"
    case Content => "content"
    case SentAt => "sent_at"
    case UserId => "user_id"
    case ReplyTo => "reply_to_message_id"
    case EditedAt => "edited_at"
    case DeletedAt => "deleted_at"
  }

  lemma ShortSpellings()
    ensures "chat" + "_" + "ref" == "chat_ref" && "sent" + "_" + "at" == "sent_at" && "user" + "_" + "id" == "user_id"
    ensures "edited" + "_" + "at" == "edited_at" && "deleted" + "_" + "at" == "deleted_at"
  {
  }

  lemma LongSpellings()
    ensures "source" + "_" + "message" + "_" + "id" == "source_message_id"
    ensures "reply" + "_" + "to" + "_" + "message" + "_" + "id" == "reply_to_message_id"
  {
  }

  lemma ShortHeaders()
    ensures Header(ChatRef) == "chat_ref" && Header(SentAt) == "sent_at" && Header(UserId) == "user_id"
    ensures Header(EditedAt) == "edited_at" && Header(DeletedAt) == "deleted_at"
    ensures Header(Role) == "role" && Header(Content) == "content"
  {
    hide Join;
    ShortSpellings();
    JoinTwo("chat", "ref");
    JoinTwo("role", "");
    JoinTwo("content", "");
    JoinTwo("sent", "at");
    JoinTwo("user", "id");
    JoinTwo("edited", "at");
    JoinTwo("deleted", "at");
  }

  lemma LongHeaders()
    ensures Header(SourceMessageId) == "source_message_id" && Header(ReplyTo) == "reply_to_message_id"
  {
    hide Join;
    LongSpellings();
    JoinFour("source", "message", "id", "");
    JoinFour("reply", "to", "message", "id");
  }

  lemma HeaderReads(f: Field)
    ensures Header(f) == HeaderText(f)
  {
    hide Header;
    ShortHeaders();
    LongHeaders();
  }

  /** The header row of an export, in this order. */
  lemma HeadersRead()
    ensures |HEADERS| == 9 && forall i: nat :: i < 9 ==> HEADERS[i] == HeaderText(FIELDS[i])
  {
    hide Header, HeaderText;
    forall i: nat | i < 9 ensures HEADERS[i] == HeaderText(FIELDS[i]) {
      HeaderAt(i);
      HeaderReads(FIELDS[i]);
    }
  }

  // ---- which header is taken ------------------------------------------------

  /** Header `i` is the first free one of this normal form. */
  predicate FirstFree(headers: seq<string>, taken: set<string>, candidate: string, i: nat) {
    && i < |headers| && headers[i] !in taken && NormalizeHeader(headers[i]) == candidate
    && forall j :: 0 <= j < i && headers[j] !in taken ==> NormalizeHeader(headers[j]) != candidate
  }

  /** No free header has the normal form. */
  predicate NoneHas(headers: seq<string>, taken: set<string>, candidate: string) {
    forall j :: 0 <= j < |headers| && headers[j] !in taken ==> NormalizeHeader(headers[j]) != candidate
  }

  /** Of the names a field goes by the first that any free header has, and of these headers the first. */
  ghost predicate Preferred(headers: seq<string>, taken: set<string>, candidates: seq<string>, header: string) {
    exists c: nat, i: nat ::
      && c < |candidates| && i < |headers| && FirstFree(headers, taken, candidates[c], i) && headers[i] == header
      && forall b :: 0 <= b < c ==> NoneHas(headers, taken, candidates[b])
  }

  lemma {:induction false} FindsFirst(headers: seq<string>, taken: set<string>, candidate: string)
    requires candidate != ""
    ensures FindHeader(headers, taken, candidate).None? ==> NoneHas(headers, taken, candidate)
    ensures FindHeader(headers, taken, candidate).Some? ==>
              exists i: nat :: i < |headers| && FirstFree(headers, taken, candidate, i)
                               && headers[i] == FindHeader(headers, taken, candidate).value
  {
    hide NormalizeHeader;
    if headers != [] {
      NormalizeEmpty();
      FindsFirst(headers[1..], taken, candidate);
      assert forall j :: 0 < j < |headers| ==> headers[j] == headers[1..][j - 1];
      if headers[0] !in taken && NormalizeHeader(headers[0]) == candidate {
        assert FirstFree(headers, taken, candidate, 0);
      } else if FindHeader(headers, taken, candidate).Some? {
        var i: nat :| i < |headers[1..]| && FirstFree(headers[1..], taken, candidate, i)
          && headers[1..][i] == FindHeader(headers[1..], taken, candidate).value;
        assert FirstFree(headers, taken, candidate, i + 1);
      }
    }
  }

  lemma {:induction false} PicksPreferred(headers: seq<string>, taken: set<string>, candidates: seq<string>)
    requires forall c :: 0 <= c < |candidates| ==> candidates[c] != ""
    ensures PickHeader(headers, taken, candidates).Some? ==>
              Preferred(headers, taken, candidates, PickHeader(headers, taken, candidates).value)
  {
    hide FindHeader, FirstFree, NoneHas;
    if candidates != [] {
      FindsFirst(headers, taken, candidates[0]);
      var found := FindHeader(headers, taken, candidates[0]);
      if found.Some? {
        var i: nat :| i < |headers| && FirstFree(headers, taken, candidates[0], i) && headers[i] == found.value;
        assert Preferred(headers, taken, candidates, found.value);
      } else {
        var rest := candidates[1..];
        PicksPreferred(headers, taken, rest);
        if PickHeader(headers, taken, candidates).Some? {
          var header := PickHeader(headers, taken, candidates).value;
          var c: nat, i: nat :| c < |rest| && i < |headers| && FirstFree(headers, taken, rest[c], i) && headers[i] == header
            && forall b :: 0 <= b < c ==> NoneHas(headers, taken, rest[b]);
          assert candidates[c + 1] == rest[c];
          forall b | 0 <= b < c + 1 ensures NoneHas(headers, taken, candidates[b]) {
            assert b > 0 ==> candidates[b] == rest[b - 1];
          }
        }
      }
    }
  }

  lemma ChatRefWords()
    ensures AllWords(["chat", "chatid", "chatref", "conversation", "conversationid", "peerid", "dialogid"])
  {
    assert Word("chat") && Word("chatid") && Word("chatref") && Word("conversation");
    assert Word("conversationid") && Word("peerid") && Word("dialogid");
  }

  lemma SourceMessageIdWords()
    ensures AllWords(["messageid", "msgid", "id", "sourcemessageid"])
  {
    assert Word("messageid") && Word("msgid") && Word("id") && Word("sourcemessageid");
  }

  lemma RoleWords()
    ensures AllWords(["who", "sender", "from", "speaker", "direction", "type"])
  {
    assert Word("who") && Word("sender") && Word("from") && Word("speaker");
    assert Word("direction") && Word("type");
  }

  lemma ContentWords()
    ensures AllWords(["text", "message", "body", "msg"])
  {
    assert Word("text") && Word("message") && Word("body") && Word("msg");
  }

  lemma SentAtWords()
    ensures AllWords(["sent", "date", "timestamp", "time", "when", "createdat"])
  {
    assert Word("sent") && Word("date") && Word("timestamp") && Word("time");
    assert Word("when") && Word("createdat");
  }

  lemma UserIdWords()
    ensures AllWords(["userid", "fromid", "senderid", "authorid", "author"])
  {
    assert Word("userid") && Word("fromid") && Word("senderid") && Word("authorid");
    assert Word("author");
  }

  lemma ReplyToWords()
    ensures AllWords(["replyto", "replytomessageid", "replytoid", "inreplyto", "replytosourcemessageid"])
  {
    assert Word("replyto") && Word("replytomessageid") && Word("replytoid") && Word("inreplyto");
    assert Word("replytosourcemessageid");
  }

  lemma EditedAtWords()
    ensures AllWords(["edited", "editdate", "editedat"])
  {
    assert Word("edited") && Word("editdate") && Word("editedat");
  }

  lemma DeletedAtWords()
    ensures AllWords(["deleted", "deletedat"])
  {
    assert Word("deleted") && Word("deletedat");
  }

  lemma AliasWords(f: Field)
    ensures AllWords(Aliases(f))
  {
    hide AllWords;
    match f
    case ChatRef => ChatRefWords();
    case SourceMessageId => SourceMessageIdWords();
    case Role => RoleWords();
    case Content => ContentWords();
    case SentAt => SentAtWords();
    case UserId => UserIdWords();
    case ReplyTo => ReplyToWords();
    case EditedAt => EditedAtWords();
    case DeletedAt => DeletedAtWords();
  }

  lemma CandidatesFilled(f: Field)
    ensures forall c :: 0 <= c < |Candidates(f)| ==> Candidates(f)[c] != ""
    ensures Candidates(f) == [Concat(Words(f))] + Aliases(f)
  {
    hide NormalizeHeader, Words, Aliases, Concat;
    AliasWords(f);
    WordsOf(f);
    NormalizeJoined(Words(f));
    SignatureOf(f);
    forall i | 0 <= i < |Aliases(f)| ensures NormalizeHeader(Aliases(f)[i]) == Aliases(f)[i] {
      LettersCount(Aliases(f)[i]);
    }
  }

  /** The headers a mapping puts these fields on. */
  function HeadersOf(mapping: ColumnMapping, fields: seq<Field>): set<string> {
    set k | 0 <= k < |fields| && fields[k] in mapping && mapping[fields[k]].Column? :: mapping[fields[k]].header
  }

  predicate AllDifferent(fields: seq<Field>) {
    forall i, j :: 0 <= i < j < |fields| ==> fields[i] != fields[j]
  }

  lemma {:induction false} GuessStays(
    fields: seq<Field>, headers: seq<string>, taken: set<string>, mapping: ColumnMapping, g: Field)
    requires g !in fields
    ensures
      var all := GuessFrom(fields, headers, taken, mapping);
      (g in all <==> g in mapping) && (g in mapping ==> all[g] == mapping[g])
  {
    hide PickHeader;
    if fields != [] {
      assert g !in fields[1..] && fields[0] in fields;
      var found := PickHeader(headers, taken, Candidates(fields[0]));
      if found.None? {
        GuessStays(fields[1..], headers, taken, mapping, g);
      } else {
        GuessStays(fields[1..], headers, taken + {found.value}, mapping[fields[0] := Column(found.value)], g);
      }
    }
  }

  lemma HeadersOfRest(mapping: ColumnMapping, fields: seq<Field>, k: nat)
    requires 0 < k < |fields|
    ensures HeadersOf(mapping, fields[..k]) == HeadersOf(mapping, fields[..1]) + HeadersOf(mapping, fields[1..][..k - 1])
  {
    var all, rest := fields[..k], fields[1..][..k - 1];
    assert forall i :: 0 <= i < k - 1 ==> rest[i] == all[i + 1];
    forall h | h in HeadersOf(mapping, all) ensures h in HeadersOf(mapping, fields[..1]) + HeadersOf(mapping, rest) {
      var i :| 0 <= i < k && all[i] in mapping && mapping[all[i]].Column? && mapping[all[i]].header == h;
      if i > 0 {
        assert rest[i - 1] == all[i];
      } else {
        assert fields[..1][0] == all[0];
      }
    }
    forall h | h in HeadersOf(mapping, fields[..1]) + HeadersOf(mapping, rest) ensures h in HeadersOf(mapping, all) {
      if h in HeadersOf(mapping, fields[..1]) {
        assert fields[..1][0] == all[0];
      } else {
        var i :| 0 <= i < |rest| && rest[i] in mapping && mapping[rest[i]].Column? && mapping[rest[i]].header == h;
        assert all[i + 1] == rest[i];
      }
    }
  }

  lemma {:induction false} GuessPrefersFrom(
      fields: seq<Field>, headers: seq<string>, taken: set<string>, mapping: ColumnMapping, k: nat)
    requires k < |fields| && AllDifferent(fields) && forall f :: f in fields ==> f !in mapping
    ensures
      var all := GuessFrom(fields, headers, taken, mapping);
      fields[k] in all ==>
        && all[fields[k]].Column?
        && Preferred(headers, taken + HeadersOf(all, fields[..k]), Candidates(fields[k]), all[fields[k]].header)
  {
    hide PickHeader, Candidates, Preferred, HeadersOf;
    var f, rest := fields[0], fields[1..];
    var found := PickHeader(headers, taken, Candidates(f));
    var next := if found.None? then mapping else mapping[f := Column(found.value)];
    var used := if found.None? then taken else taken + {found.value};
    var all := GuessFrom(fields, headers, taken, mapping);
    assert all == GuessFrom(rest, headers, used, next);
    assert fields == [f] + rest && f !in rest;
    GuessStays(rest, headers, used, next, f);
    CandidatesFilled(f);
    PicksPreferred(headers, taken, Candidates(f));
    if k == 0 {
      assert fields[..0] == [];
      NoHeaders(all);
      assert taken + {} == taken;
    } else {
      GuessPrefersFrom(rest, headers, used, next, k - 1);
      HeadersOfRest(all, fields, k);
      OneHeader(all, fields, f);
      assert used + HeadersOf(all, rest[..k - 1]) == taken + HeadersOf(all, fields[..k]);
    }
  }

  lemma NoHeaders(mapping: ColumnMapping)
    ensures HeadersOf(mapping, []) == {}
  {
  }

  lemma OneHeader(mapping: ColumnMapping, fields: seq<Field>, f: Field)
    requires fields != [] && fields[0] == f
    ensures HeadersOf(mapping, fields[..1]) == if f in mapping && mapping[f].Column? then {mapping[f].header} else {}
  {
    assert fields[..1][0] == f;
  }

  /**
   The header a field is put on is, of those no earlier field has taken, the first that
   bears the first of the field's names that any of them bears.
   */
  lemma GuessPrefers(headers: seq<string>, f: Field)
    requires f in Guessed(headers)
    ensures Guessed(headers)[f].Column?
    ensures Preferred(headers, HeadersOf(Guessed(headers), FIELDS[..PlaceOf(f)]), [Concat(Words(f))] + Aliases(f),
                      Guessed(headers)[f].header)
  {
    hide GuessFrom, Preferred, HeadersOf, PlaceOf, Words, Aliases, Concat;
    AllFieldsDiffer();
    GuessPrefersFrom(FIELDS, headers, {}, map[], PlaceOf(f));
    CandidatesFilled(f);
    var used := HeadersOf(Guessed(headers), FIELDS[..PlaceOf(f)]);
    assert {} + used == used;
  }

  lemma AllFieldsDiffer()
    ensures AllDifferent(FIELDS)
  {
  }
}
