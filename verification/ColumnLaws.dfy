/** Normal forms: what the rules accept they accept again, unchanged. */
module ColumnLaws {
  import opened Inherited
  import opened Numbers
  import opened Wrappers
  import opened Text
  import opened Host
  import opened Columns

  // ---- values ---------------------------------------------------------------

  predicate SolidItems(items: seq<string>) {
    forall i :: 0 <= i < |items| ==> Solid(items[i])
  }

  predicate IsHttp(url: Option<Url>) {
    url.Some? && (url.value.protocol == "http:" || url.value.protocol == "https:")
  }

  /** A value as a row of the store holds it. */
  predicate IsNormal(c: Column, v: Value, lib: Library) {
    v == Null
    || match c.kind
       case TextType => v.Str? && Solid(v.text) && |v.text| <= MAX_TEXT_LENGTH
       case LongTextType => v.Str? && Solid(v.text) && |v.text| <= MAX_LONG_TEXT_LENGTH
       case NumberType => v.Num? && v.number.Finite?
       case DateType =>
         v.Str? && Solid(v.text) && lib.parseDate(v.text).Some?
         && (IsDateOnly(v.text) || v.text == lib.iso(lib.parseDate(v.text).value))
       case UrlType => v.Str? && IsHttp(lib.url(v.text)) && lib.url(v.text).value.href == v.text
       case ImageType => v.Str? && IsHttp(lib.url(v.text)) && lib.url(v.text).value.href == v.text
       case ListType =>
         v.Arr? && 1 <= |v.items| <= MAX_LIST_ITEMS
         && forall i :: 0 <= i < |v.items| ==> v.items[i].Str? && Solid(v.items[i].text)
       case EnumType => v.Str? && c.options.Some? && v.text in c.options.value
                        && FindOption(c.options.value, lib.lower(v.text), lib) == Some(v.text)
       case RatingType => v.Num? && v.number.Finite? && 0.0 <= v.number.value <= RatingScale(c) as real
       case BooleanType => v.Bool?
  }

  /** The options of an enum as a schema holds them. */
  predicate OptionsOk(c: Column) {
    c.kind == EnumType ==> c.options.Some? && SolidItems(c.options.value)
  }

  lemma {:induction false} FoundOption(options: seq<string>, text: string, lib: Library)
    ensures
      var found := FindOption(options, text, lib);
      found.Some? ==> found.value in options && lib.lower(found.value) == text
  {
    if options != [] {
      FoundOption(options[1..], text, lib);
    }
  }

  lemma {:induction false} ItemsSolid(values: seq<Value>, lib: Library)
    ensures SolidItems(Items(values, lib)) && |Items(values, lib)| <= |values|
  {
    hide Solid, Trim;
    if values != [] {
      ItemsSolid(values[1..], lib);
      TrimSolid(lib.show(values[0]));
    }
  }

  lemma {:induction false} ItemsOfSolid(values: seq<Value>, lib: Library)
    requires Lawful(lib) && forall i :: 0 <= i < |values| ==> values[i].Str? && Solid(values[i].text)
    ensures StringValues(Items(values, lib)) == values && |Items(values, lib)| == |values|
  {
    hide Trim, Solid, Lawful;
    if values != [] {
      ItemsOfSolid(values[1..], lib);
      TrimSolid(values[0].text);
      ShowText(values[0].text, lib);
      var rest := Items(values[1..], lib);
      assert values[0].text != "" by { NotEmptySolid(values[0].text); }
      assert Items(values, lib) == [values[0].text] + rest;
      assert StringValues([values[0].text] + rest) == [values[0]] + StringValues(rest);
    }
  }

  lemma ShowText(s: string, lib: Library)
    requires Lawful(lib)
    ensures lib.show(Str(s)) == s
  {
  }

  lemma NotEmptySolid(s: string)
    requires Solid(s)
    ensures s != ""
  {
  }

  lemma TextNormal(c: Column, v: Value, max: nat, lib: Library)
    requires Lawful(lib) && !IsEmptyValue(v) && NormalText(v, max, lib).Success?
    ensures
      var w := NormalText(v, max, lib).value;
      w.Str? && Solid(w.text) && |w.text| <= max
  {
    hide Trim, Solid;
    TrimSolid(TextOfValue(v, lib).value);
  }

  lemma DateNormal(v: Value, lib: Library)
    requires Lawful(lib) && NormalDate(v, lib).Success?
    ensures
      var w := NormalDate(v, lib).value;
      && w.Str? && Solid(w.text) && lib.parseDate(w.text).Some?
      && (IsDateOnly(w.text) || w.text == lib.iso(lib.parseDate(w.text).value))
  {
    hide Trim, Solid, IsDateOnly;
    if v.Str? {
      TrimSolid(v.text);
    }
  }

  /** Every accepted value is in normal form. */
  lemma AcceptedIsNormal(c: Column, v: Value, lib: Library)
    requires Lawful(lib) && OptionsOk(c) && NormalizeValue(c, v, lib).Success?
    ensures IsNormal(c, NormalizeValue(c, v, lib).value, lib)
  {
    hide Trim, Solid, NormalText, NormalDate, Lawful, IsEmptyValue, IsDateOnly, Items, FindOption, Blank;
    if !IsEmptyValue(v) {
      match c.kind {
        case TextType => TextNormal(c, v, MAX_TEXT_LENGTH, lib);
        case LongTextType => TextNormal(c, v, MAX_LONG_TEXT_LENGTH, lib);
        case NumberType =>
        case DateType => DateNormal(v, lib);
        case UrlType => UrlNormal(v, lib);
        case ImageType => UrlNormal(v, lib);
        case ListType =>
          if v.Arr? {
            ItemsSolid(v.items, lib);
          } else {
            ItemsSolid(StringValues(SplitItems(v.text)), lib);
          }
        case EnumType => FoundOption(c.options.value, lib.lower(if v.Str? then Trim(v.text) else lib.show(v)), lib);
        case RatingType =>
        case BooleanType =>
      }
    }
  }

  lemma UrlNormal(v: Value, lib: Library)
    requires Lawful(lib) && CheckUrl(v, lib).Success?
    ensures
      var w := CheckUrl(v, lib).value;
      w.Str? && IsHttp(lib.url(w.text)) && lib.url(w.text).value.href == w.text
  {
    hide Trim, Solid;
  }

  lemma NormalNotEmpty(c: Column, v: Value, lib: Library)
    requires Lawful(lib) && OptionsOk(c) && IsNormal(c, v, lib) && v != Null
    ensures !IsEmptyValue(v)
    ensures v.Str? ==> Solid(v.text) && Trim(v.text) == v.text
  {
    hide Trim, Solid, IsDateOnly, FindOption, Blank;
    if v.Str? {
      if c.kind == UrlType || c.kind == ImageType {
        assert lib.url(v.text).Some?;
      } else if c.kind == EnumType {
        var i :| 0 <= i < |c.options.value| && c.options.value[i] == v.text;
        assert Solid(c.options.value[i]);
      }
      TrimSolid(v.text);
    }
  }

  /** Every normal form is accepted, and comes out as it went in. */
  lemma NormalIsKept(c: Column, v: Value, lib: Library)
    requires Lawful(lib) && OptionsOk(c) && IsNormal(c, v, lib)
    ensures NormalizeValue(c, v, lib) == Success(v)
  {
    hide Trim, Solid, Lawful, IsEmptyValue, IsDateOnly, Items, FindOption, Blank, StringValues;
    if v == Null {
      assert IsEmptyValue(Null) by { NullIsEmpty(); }
    } else {
      NormalNotEmpty(c, v, lib);
      if c.kind == ListType {
        ItemsOfSolid(v.items, lib);
      } else if v.Str? {
        NotEmptySolid(v.text);
      }
    }
  }

  lemma NullIsEmpty()
    ensures IsEmptyValue(Null)
  {
  }

  /** Normalizing is a projection, for all ten types. */
  lemma NormalizeTwice(c: Column, v: Value, lib: Library)
    requires Lawful(lib) && OptionsOk(c) && NormalizeValue(c, v, lib).Success?
    ensures NormalizeValue(c, NormalizeValue(c, v, lib).value, lib) == NormalizeValue(c, v, lib)
  {
    hide NormalizeValue, IsNormal, Lawful;
    AcceptedIsNormal(c, v, lib);
    NormalIsKept(c, NormalizeValue(c, v, lib).value, lib);
  }

  // ---- which values a column takes ------------------------------------------

  /** The kinds of values a column type can take at all; an enum compares anything as text. */
  predicate Takes(kind: ColumnType, v: Value) {
    match kind
    case TextType => v.Str? || v.Num? || v.Bool?
    case LongTextType => v.Str? || v.Num? || v.Bool?
    case NumberType => v.Str? || v.Num?
    case DateType => v.Str?
    case UrlType => v.Str?
    case ImageType => v.Str?
    case ListType => v.Str? || v.Arr?
    case EnumType => true
    case RatingType => v.Str? || v.Num?
    case BooleanType => v.Str? || v.Bool?
  }

  /** What a column type says of a value it cannot read. */
  function Complaint(kind: ColumnType): Reason {
    match kind
    case TextType => NotText
    case LongTextType => NotText
    case NumberType => NotANumber
    case DateType => NotADate
    case UrlType => NotAUrl
    case ImageType => NotAUrl
    case ListType => NotAList
    case EnumType => NotAnOption
    case RatingType => NotARating
    case BooleanType => NotABoolean
  }

  /** More than the column holds: too long a text, untrimmed, or too many items. */
  predicate Excessive(c: Column, v: Value, lib: Library) {
    match c.kind
    case TextType => TextOfValue(v, lib).Some? && |TextOfValue(v, lib).value| > MAX_TEXT_LENGTH
    case LongTextType => TextOfValue(v, lib).Some? && |TextOfValue(v, lib).value| > MAX_LONG_TEXT_LENGTH
    case ListType => ItemsOfValue(v, lib).Some? && |ItemsOfValue(v, lib).value| > MAX_LIST_ITEMS
    case _ => false
  }

  lemma TextRefusals(v: Value, max: nat, lib: Library)
    ensures NormalText(v, max, lib) == Failure(NotText) <==> !(v.Str? || v.Num? || v.Bool?)
    ensures NormalText(v, max, lib) == Failure(TooLong)
            <==> TextOfValue(v, lib).Some? && |TextOfValue(v, lib).value| > max
    ensures
      var r := NormalText(v, max, lib);
      r.Failure? ==> r.error == NotText || r.error == TooLong
  {
    hide Trim;
  }

  lemma ListRefusals(v: Value, lib: Library)
    ensures NormalList(v, lib) == Failure(NotAList) <==> !(v.Str? || v.Arr?)
    ensures NormalList(v, lib) == Failure(TooManyItems)
            <==> ItemsOfValue(v, lib).Some? && |ItemsOfValue(v, lib).value| > MAX_LIST_ITEMS
    ensures NormalList(v, lib).Failure? ==> NormalList(v, lib).error == NotAList || NormalList(v, lib).error == TooManyItems
  {
    hide Items, SplitItems;
  }

  lemma OtherRefusals(v: Value, options: seq<string>, lib: Library)
    requires lib.url("").None?
    ensures CheckUrl(v, lib).Failure? ==> CheckUrl(v, lib).error == NotAUrl
    ensures !v.Str? ==> CheckUrl(v, lib).Failure?
    ensures NormalDate(v, lib).Failure? ==> NormalDate(v, lib).error == NotADate
    ensures !v.Str? ==> NormalDate(v, lib).Failure?
    ensures NormalBoolean(v, lib).Failure? ==> NormalBoolean(v, lib).error == NotABoolean
    ensures !v.Str? && !v.Bool? ==> NormalBoolean(v, lib).Failure?
    ensures NormalOption(v, options, lib).Failure? ==> NormalOption(v, options, lib).error == NotAnOption
  {
    hide Trim, FindOption, IsDateOnly, SaysTrue, SaysFalse;
    EmptySaysNothing();
  }

  /**
   A filled value of a kind the column does not take is refused with the column
   type's own complaint. Any other refusal is that complaint too, unless the value is
   more than the column holds; and text and lists refuse for no other reason.
   */
  lemma RefusedWithReason(c: Column, v: Value, lib: Library)
    requires Lawful(lib) && !IsEmptyValue(v)
    ensures !Takes(c.kind, v) ==> NormalizeValue(c, v, lib) == Failure(Complaint(c.kind))
    ensures Excessive(c, v, lib)
            <==> NormalizeValue(c, v, lib) == Failure(TooLong) || NormalizeValue(c, v, lib) == Failure(TooManyItems)
    ensures NormalizeValue(c, v, lib).Failure? && !Excessive(c, v, lib) ==>
              NormalizeValue(c, v, lib) == Failure(Complaint(c.kind))
    ensures Takes(c.kind, v) && !Excessive(c, v, lib)
            && (c.kind == TextType || c.kind == LongTextType || c.kind == ListType) ==>
              NormalizeValue(c, v, lib).Success?
  {
    hide NormalText, NormalList, CheckUrl, NormalDate, NormalBoolean, NormalOption, IsEmptyValue, TextOfValue, ItemsOfValue;
    hide RatingScale;
    NoEmptyUrl(lib);
    hide Lawful;
    match c.kind {
      case TextType => TextRefusals(v, MAX_TEXT_LENGTH, lib);
      case LongTextType => TextRefusals(v, MAX_LONG_TEXT_LENGTH, lib);
      case ListType => ListRefusals(v, lib);
      case _ => OtherRefusals(v, if c.options.Some? then c.options.value else [], lib);
    }
  }

  lemma NoEmptyUrl(lib: Library)
    requires Lawful(lib)
    ensures lib.url("").None?
  {
  }

  lemma EmptySaysNothing()
    ensures !SaysTrue("") && !SaysFalse("")
  {
  }

  // ---- options ---------------------------------------------------------------

  predicate IsFirstOption(options: seq<string>, k: nat, text: string, lib: Library)
    requires k < |options|
  {
    lib.lower(options[k]) == text && forall j :: 0 <= j < k ==> lib.lower(options[j]) != text
  }

  /** The search finds the first option that reads alike in lower case, when there is one. */
  lemma {:induction false} OptionFound(options: seq<string>, text: string, lib: Library)
    ensures FindOption(options, text, lib).None? <==> forall j :: 0 <= j < |options| ==> lib.lower(options[j]) != text
    ensures forall k :: 0 <= k < |options| && IsFirstOption(options, k, text, lib) ==>
              FindOption(options, text, lib) == Some(options[k])
    ensures FindOption(options, text, lib).Some? ==>
              exists k :: 0 <= k < |options| && IsFirstOption(options, k, text, lib)
  {
    if options != [] {
      var rest := options[1..];
      OptionFound(rest, text, lib);
      assert forall j :: 0 < j < |options| ==> options[j] == rest[j - 1];
      if lib.lower(options[0]) == text {
        assert IsFirstOption(options, 0, text, lib);
      } else {
        forall k | 0 <= k < |options| && IsFirstOption(options, k, text, lib)
          ensures FindOption(options, text, lib) == Some(options[k])
        {
          assert IsFirstOption(rest, k - 1, text, lib);
        }
        if FindOption(options, text, lib).Some? {
          var k :| 0 <= k < |rest| && IsFirstOption(rest, k, text, lib);
          assert IsFirstOption(options, k + 1, text, lib);
        }
      }
    }
  }

  // ---- list texts and their pieces ------------------------------------------

  predicate NoBreaks(s: string) {
    forall i :: 0 <= i < |s| ==> !IsBreak(s[i])
  }

  /** A piece ends at a comma, a semicolon or a line feed. */
  lemma BreaksExactly(s: string)
    ensures NoBreaks(s) <==> ',' !in s && ';' !in s && '\n' !in s
  {
  }

  lemma {:induction false} SplitAt(a: string, c: char, b: string)
    requires NoBreaks(a) && IsBreak(c)
    ensures SplitItems(a + ([c] + b)) == [a] + SplitItems(b)
  {
    if a == "" {
      assert a + ([c] + b) == [c] + b;
    } else {
      assert (a + ([c] + b))[1..] == a[1..] + ([c] + b);
      SplitAt(a[1..], c, b);
      assert [a[0]] + a[1..] == a;
    }
  }

  lemma {:induction false} SplitNone(a: string)
    requires NoBreaks(a)
    ensures SplitItems(a) == [a]
  {
    if a != "" {
      SplitNone(a[1..]);
      assert [a[0]] + a[1..] == a;
    }
  }

  lemma {:induction false} SplitHasNone(s: string)
    ensures SplitItems(s) != [] && forall i :: 0 <= i < |SplitItems(s)| ==> NoBreaks(SplitItems(s)[i])
  {
    if s != "" {
      SplitHasNone(s[1..]);
    }
  }

  function Weave(pieces: seq<string>, breaks: string): string
    requires |pieces| == |breaks| + 1
  {
    if breaks == "" then pieces[0] else pieces[0] + ([breaks[0]] + Weave(pieces[1..], breaks[1..]))
  }

  /** The text is the pieces with one break between each two. */
  predicate Weaves(pieces: seq<string>, breaks: string, s: string) {
    |pieces| == |breaks| + 1 && (forall i :: 0 <= i < |breaks| ==> IsBreak(breaks[i])) && s == Weave(pieces, breaks)
  }

  lemma {:induction false} SplitOfWeave(pieces: seq<string>, breaks: string)
    requires |pieces| == |breaks| + 1 && Weaves(pieces, breaks, Weave(pieces, breaks)) && AllUnbroken(pieces)
    ensures SplitItems(Weave(pieces, breaks)) == pieces
  {
    if breaks == "" {
      SplitNone(pieces[0]);
      assert pieces == [pieces[0]];
    } else {
      SplitOfWeave(pieces[1..], breaks[1..]);
      SplitAt(pieces[0], breaks[0], Weave(pieces[1..], breaks[1..]));
      assert pieces == [pieces[0]] + pieces[1..];
    }
  }

  lemma {:induction false} SplitWeaves(s: string) returns (breaks: string)
    ensures Weaves(SplitItems(s), breaks, s)
  {
    hide Weave;
    if s == "" {
      breaks := "";
      WeaveNone("");
    } else {
      var rest := SplitItems(s[1..]);
      var more := SplitWeaves(s[1..]);
      assert s == [s[0]] + s[1..];
      if IsBreak(s[0]) {
        breaks := [s[0]] + more;
        WeaveBreak(s[0], rest, more);
      } else {
        breaks := more;
        WeaveChar(s[0], rest, more);
      }
    }
  }

  lemma WeaveNone(piece: string)
    ensures Weave([piece], "") == piece
  {
  }

  lemma WeaveBreak(c: char, rest: seq<string>, more: string)
    requires |rest| == |more| + 1
    ensures Weave([""] + rest, [c] + more) == [c] + Weave(rest, more)
  {
    assert ([c] + more)[1..] == more && ([""] + rest)[1..] == rest;
  }

  lemma WeaveChar(c: char, rest: seq<string>, more: string)
    requires |rest| == |more| + 1
    ensures Weave([[c] + rest[0]] + rest[1..], more) == [c] + Weave(rest, more)
  {
    var pieces := [[c] + rest[0]] + rest[1..];
    assert pieces[1..] == rest[1..];
    if more != "" {
      var tail := [more[0]] + Weave(rest[1..], more[1..]);
      assert [c] + rest[0] + tail == [c] + (rest[0] + tail);
    }
  }

  /** A list text splits into the only pieces without a break that make it up, breaks between them. */
  lemma SplitExactly(s: string, pieces: seq<string>)
    ensures SplitItems(s) == pieces <==> AllUnbroken(pieces) && exists breaks :: Weaves(pieces, breaks, s)
  {
    hide SplitItems, NoBreaks, Weave;
    if SplitItems(s) == pieces {
      var breaks := SplitWeaves(s);
      SplitHasNone(s);
    }
    if breaks :| Weaves(pieces, breaks, s) {
      if AllUnbroken(pieces) {
        SplitOfWeave(pieces, breaks);
      }
    }
  }

  predicate BlankPiece(v: Value, lib: Library) {
    Trim(lib.show(v)) == ""
  }

  /** How many of the first `n` pieces hold something. */
  function Rank(values: seq<Value>, n: nat, lib: Library): nat
    requires n <= |values|
  {
    if n == 0 then 0 else Rank(values, n - 1, lib) + if BlankPiece(values[n - 1], lib) then 0 else 1
  }

  lemma {:induction false} RankOfRest(values: seq<Value>, n: nat, lib: Library)
    requires 1 <= n <= |values|
    ensures Rank(values, n, lib) == (if BlankPiece(values[0], lib) then 0 else 1) + Rank(values[1..], n - 1, lib)
  {
    hide BlankPiece;
    if n > 1 {
      RankOfRest(values, n - 1, lib);
    }
  }

  /**
   The items of a list are its pieces that hold something, trimmed, in order: there
   are as many, and each is at the place its rank among them gives it.
   */
  lemma {:induction false} ItemAt(values: seq<Value>, i: nat, lib: Library)
    requires i < |values|
    ensures |Items(values, lib)| == Rank(values, |values|, lib)
    ensures !BlankPiece(values[i], lib) ==>
              && Rank(values, i, lib) < |Items(values, lib)|
              && Items(values, lib)[Rank(values, i, lib)] == Trim(lib.show(values[i]))
  {
    hide Trim;
    var rest := values[1..];
    RankOfRest(values, |values|, lib);
    if rest == [] {
      assert Items(rest, lib) == [];
    } else {
      ItemAt(rest, if i > 0 then i - 1 else 0, lib);
      if i > 0 {
        RankOfRest(values, i, lib);
      }
    }
  }

  // ---- which texts store the same value -------------------------------------

  /** The pieces without a break that make up a text, breaks between them. */
  ghost predicate PiecesOf(s: string, pieces: seq<string>) {
    AllUnbroken(pieces) && exists breaks :: Weaves(pieces, breaks, s)
  }

  /** As many pieces hold something in the one as in the other, and those of one rank read alike, trimmed. */
  ghost predicate SameItems(a: seq<Value>, b: seq<Value>, lib: Library) {
    && Rank(a, |a|, lib) == Rank(b, |b|, lib)
    && forall i: nat, j: nat :: i < |a| && j < |b| && !BlankPiece(a[i], lib) && !BlankPiece(b[j], lib)
                                && Rank(a, i, lib) == Rank(b, j, lib) ==>
         Trim(lib.show(a[i])) == Trim(lib.show(b[j]))
  }

  lemma {:induction false} PieceOfRank(values: seq<Value>, n: nat, r: nat, lib: Library) returns (i: nat)
    requires n <= |values| && r < Rank(values, n, lib)
    ensures i < n && !BlankPiece(values[i], lib) && Rank(values, i, lib) == r
  {
    hide BlankPiece;
    if r == Rank(values, n - 1, lib) {
      i := n - 1;
    } else {
      i := PieceOfRank(values, n - 1, r, lib);
    }
  }

  lemma ItemCount(values: seq<Value>, lib: Library)
    ensures |Items(values, lib)| == Rank(values, |values|, lib)
  {
    if values != [] {
      ItemAt(values, 0, lib);
    }
  }

  lemma ItemsSame(a: seq<Value>, b: seq<Value>, lib: Library)
    ensures Items(a, lib) == Items(b, lib) <==> SameItems(a, b, lib)
  {
    hide Items, Rank, BlankPiece, Trim;
    ItemCount(a, lib);
    ItemCount(b, lib);
    forall i: nat | i < |a| && !BlankPiece(a[i], lib)
      ensures Rank(a, i, lib) < |Items(a, lib)| && Items(a, lib)[Rank(a, i, lib)] == Trim(lib.show(a[i]))
    {
      ItemAt(a, i, lib);
    }
    forall j: nat | j < |b| && !BlankPiece(b[j], lib)
      ensures Rank(b, j, lib) < |Items(b, lib)| && Items(b, lib)[Rank(b, j, lib)] == Trim(lib.show(b[j]))
    {
      ItemAt(b, j, lib);
    }
    if SameItems(a, b, lib) {
      forall r: nat | r < |Items(a, lib)| ensures Items(a, lib)[r] == Items(b, lib)[r] {
        var i := PieceOfRank(a, |a|, r, lib);
        var j := PieceOfRank(b, |b|, r, lib);
      }
    }
  }

  lemma PiecesSame(s: string, t: string, lib: Library)
    ensures Items(StringValues(SplitItems(s)), lib) == Items(StringValues(SplitItems(t)), lib)
            <==> exists p, q :: PiecesOf(s, p) && PiecesOf(t, q) && SameItems(StringValues(p), StringValues(q), lib)
  {
    hide Items, SplitItems, SameItems, Weaves, AllUnbroken, StringValues;
    SplitExactly(s, SplitItems(s));
    SplitExactly(t, SplitItems(t));
    ItemsSame(StringValues(SplitItems(s)), StringValues(SplitItems(t)), lib);
    forall p, q | PiecesOf(s, p) && PiecesOf(t, q) ensures p == SplitItems(s) && q == SplitItems(t) {
      SplitExactly(s, p);
      SplitExactly(t, q);
    }
  }

  /** Two texts mean the same to a column type. */
  ghost predicate SameMeaning(kind: ColumnType, s: string, t: string, lib: Library) {
    var a, b := Trim(s), Trim(t);
    match kind
    case TextType => a == b
    case LongTextType => a == b
    case NumberType => lib.number(Str(a)) == lib.number(Str(b))
    case DateType =>
      lib.parseDate(a) == lib.parseDate(b) && (IsDateOnly(a) || IsDateOnly(b) ==> a == b)
    case UrlType => lib.url(a) == lib.url(b)
    case ImageType => lib.url(a) == lib.url(b)
    case ListType =>
      exists p, q :: PiecesOf(s, p) && PiecesOf(t, q) && SameItems(StringValues(p), StringValues(q), lib)
    case EnumType => lib.lower(a) == lib.lower(b)
    case RatingType => lib.number(Str(a)) == lib.number(Str(b))
    case BooleanType => SaysTrue(lib.lower(a)) == SaysTrue(lib.lower(b))
  }

  lemma DatesSame(a: string, b: string, lib: Library)
    requires Lawful(lib) && lib.parseDate(a).Some? && lib.parseDate(b).Some?
    ensures
      var x := if IsDateOnly(a) then a else lib.iso(lib.parseDate(a).value);
      var y := if IsDateOnly(b) then b else lib.iso(lib.parseDate(b).value);
      x == y <==> lib.parseDate(a) == lib.parseDate(b) && (IsDateOnly(a) || IsDateOnly(b) ==> a == b)
  {
    hide IsDateOnly, Solid;
    var x := lib.iso(lib.parseDate(a).value);
    assert lib.parseDate(x) == lib.parseDate(a) && !IsDateOnly(x);
    var y := lib.iso(lib.parseDate(b).value);
    assert lib.parseDate(y) == lib.parseDate(b) && !IsDateOnly(y);
  }

  lemma UrlsSame(a: string, b: string, lib: Library)
    requires Lawful(lib) && lib.url(a).Some? && lib.url(b).Some?
    ensures lib.url(a).value.href == lib.url(b).value.href <==> lib.url(a) == lib.url(b)
  {
    hide Solid;
    assert lib.url(lib.url(a).value.href) == lib.url(a);
    assert lib.url(lib.url(b).value.href) == lib.url(b);
  }

  lemma ListsSame(a: seq<string>, b: seq<string>)
    ensures StringValues(a) == StringValues(b) <==> a == b
  {
    if StringValues(a) == StringValues(b) {
      assert |StringValues(a)| == |a| && |StringValues(b)| == |b|;
      forall i | 0 <= i < |a| ensures a[i] == b[i] {
        assert StringValues(a)[i] == Str(a[i]) && StringValues(b)[i] == Str(b[i]);
      }
    }
  }

  lemma OptionsSame(options: seq<string>, s: string, t: string, lib: Library)
    requires FindOption(options, s, lib).Some? && FindOption(options, t, lib).Some?
    ensures FindOption(options, s, lib) == FindOption(options, t, lib) <==> s == t
  {
    hide FindOption;
    FoundOption(options, s, lib);
    FoundOption(options, t, lib);
  }

  /** Two filled texts a column accepts are stored as one value exactly when they mean the same to its type. */
  lemma StoredAlike(c: Column, s: string, t: string, lib: Library)
    requires Lawful(lib) && !Blank(s) && !Blank(t)
    requires NormalizeValue(c, Str(s), lib).Success? && NormalizeValue(c, Str(t), lib).Success?
    ensures NormalizeValue(c, Str(s), lib) == NormalizeValue(c, Str(t), lib) <==> SameMeaning(c.kind, s, t, lib)
  {
    hide Trim, Items, SplitItems, FindOption, IsDateOnly, SaysTrue, SaysFalse, Lawful, StringValues;
    hide PiecesOf, SameItems;
    var a, b := Trim(s), Trim(t);
    match c.kind {
      case DateType => DatesSame(a, b, lib);
      case UrlType => UrlsSame(a, b, lib);
      case ImageType => UrlsSame(a, b, lib);
      case EnumType => OptionsSame(if c.options.Some? then c.options.value else [], lib.lower(a), lib.lower(b), lib);
      case ListType =>
        PiecesSame(s, t, lib);
        ListsSame(Items(StringValues(SplitItems(s)), lib), Items(StringValues(SplitItems(t)), lib));
        ListsSame([], Items(StringValues(SplitItems(s)), lib));
        ListsSame([], Items(StringValues(SplitItems(t)), lib));
      case _ =>
    }
  }

  // ---- rendered and read back -----------------------------------------------

  lemma {:induction false} TrimHasNone(s: string)
    requires NoBreaks(s)
    ensures NoBreaks(Trim(s))
  {
    TrimStartKeeps(s);
    TrimEndKeeps(TrimStart(s));
  }

  lemma {:induction false} TrimStartKeeps(s: string)
    requires NoBreaks(s)
    ensures NoBreaks(TrimStart(s))
  {
    if s != "" && IsSpace(s[0]) {
      TrimStartKeeps(s[1..]);
    }
  }

  lemma {:induction false} TrimEndKeeps(s: string)
    requires NoBreaks(s)
    ensures NoBreaks(TrimEnd(s))
  {
    if s != "" && IsSpace(s[|s| - 1]) {
      TrimEndKeeps(s[..|s| - 1]);
    }
  }

  predicate AllUnbroken(items: seq<string>) {
    forall i :: 0 <= i < |items| ==> NoBreaks(items[i])
  }

  lemma {:induction false} ItemsUnbroken(pieces: seq<string>, lib: Library)
    requires Lawful(lib) && AllUnbroken(pieces)
    ensures AllUnbroken(Items(StringValues(pieces), lib))
  {
    hide Trim, Lawful, NoBreaks;
    if pieces != [] {
      assert StringValues(pieces)[1..] == StringValues(pieces[1..]);
      ItemsUnbroken(pieces[1..], lib);
      ShowText(pieces[0], lib);
      TrimHasNone(pieces[0]);
    }
  }

  lemma SpaceInFront(s: string)
    ensures Trim([' '] + s) == Trim(s)
    ensures SplitItems([' '] + s) == [[' '] + SplitItems(s)[0]] + SplitItems(s)[1..]
  {
    SplitHasNone(s);
    assert ([' '] + s)[1..] == s;
  }

  lemma ItemsCons(a: string, pieces: seq<string>, lib: Library)
    requires Lawful(lib)
    ensures Items(StringValues([a] + pieces), lib)
            == (if Trim(a) != "" then [Trim(a)] else []) + Items(StringValues(pieces), lib)
  {
    hide Trim, Lawful;
    ShowText(a, lib);
    assert StringValues([a] + pieces)[1..] == StringValues(pieces);
  }

  /** Solid items joined by a comma and a space split into themselves, a space in front or not. */
  lemma {:induction false} JoinedItems(items: seq<string>, lib: Library)
    requires Lawful(lib) && items != [] && SolidItems(items) && AllUnbroken(items)
    ensures Items(StringValues(SplitItems(JoinComma(items))), lib) == items
    ensures Items(StringValues(SplitItems([' '] + JoinComma(items))), lib) == items
  {
    hide Trim, Lawful, Solid, NoBreaks, Items, SplitItems, StringValues;
    var a, text := items[0], JoinComma(items);
    TrimSolid(a);
    NotEmptySolid(a);
    SpaceInFront(text);
    SpaceInFront(a);
    var pieces: seq<string>;
    var rest: seq<string>;
    if |items| == 1 {
      SplitNone(a);
      pieces, rest := [], [];
      assert SplitItems(text) == [a] + pieces;
      NoItems(lib);
    } else {
      pieces, rest := SplitItems([' '] + JoinComma(items[1..])), items[1..];
      assert ", " + JoinComma(rest) == [','] + ([' '] + JoinComma(rest));
      SplitAt(a, ',', [' '] + JoinComma(rest));
      JoinedItems(rest, lib);
    }
    assert SplitItems(text) == [a] + pieces;
    assert SplitItems([' '] + text) == [[' '] + a] + pieces;
    ItemsCons(a, pieces, lib);
    ItemsCons([' '] + a, pieces, lib);
    assert items == [a] + rest;
  }

  lemma NoItems(lib: Library)
    ensures Items(StringValues([]), lib) == []
  {
  }

  lemma ListRendered(v: Value, lib: Library)
    requires Lawful(lib) && v.Arr? && 1 <= |v.items| <= MAX_LIST_ITEMS
    requires forall i :: 0 <= i < |v.items| ==> v.items[i].Str? && Solid(v.items[i].text)
    ensures NormalList(Str(RenderValue(v, lib)), lib) == Success(v) <==> AllUnbroken(TextsOf(v.items, lib))
  {
    hide Trim, Lawful, Solid, NoBreaks, Items, SplitItems, JoinComma;
    var texts := TextsOf(v.items, lib);
    forall i | 0 <= i < |texts| ensures texts[i] == v.items[i].text {
      ShowText(v.items[i].text, lib);
    }
    assert StringValues(texts) == v.items;
    var pieces := SplitItems(JoinComma(texts));
    SplitHasNone(JoinComma(texts));
    ItemsUnbroken(pieces, lib);
    var items := Items(StringValues(pieces), lib);
    if AllUnbroken(texts) {
      JoinedItems(texts, lib);
    }
    if StringValues(items) == v.items {
      forall i | 0 <= i < |texts| ensures texts[i] == items[i] {
        assert StringValues(items)[i] == v.items[i];
      }
    }
  }

  /**
   A stored value as the prompt shows it is accepted back as itself, but for a list
   one of whose items holds what separates items.
   */
  lemma RenderReadsBack(c: Column, v: Value, lib: Library)
    requires Lawful(lib) && OptionsOk(c) && IsNormal(c, v, lib)
    ensures NormalizeValue(c, Str(RenderValue(v, lib)), lib) == Success(v)
            <==> (v.Arr? ==> AllUnbroken(TextsOf(v.items, lib)))
  {
    hide Trim, Solid, IsDateOnly, FindOption, Items, NoBreaks, JoinComma, TextsOf, Blank, Lawful;
    hide NormalText, NormalDate, NormalOption, CheckUrl;
    if v == Null {
      BlankIsEmpty();
    } else {
      NormalNotEmpty(c, v, lib);
      match v {
        case Str(text) =>
          ShowText(text, lib);
          NormalIsKept(c, v, lib);
        case Num(n) =>
          NumberRendered(n, lib);
        case Bool(b) =>
          FlagRendered(b, lib);
        case Arr(items) =>
          ListRendered(v, lib);
          RenderedNotBlank(v, lib);
        case _ =>
      }
    }
  }

  lemma BlankIsEmpty()
    ensures IsEmptyValue(Str(""))
  {
    TrimFixes("");
  }

  lemma NumberRendered(n: Number, lib: Library)
    requires Lawful(lib) && n.Finite?
    ensures
      var s := lib.show(Num(n));
      !Blank(s) && Trim(s) == s && lib.number(Str(s)) == n
  {
    hide Trim;
    TrimSolid(lib.show(Num(n)));
  }

  lemma FlagRendered(b: bool, lib: Library)
    requires Lawful(lib)
    ensures
      var s := if b then "yes" else "no";
      !Blank(s) && Trim(s) == s && lib.lower(s) == s && (SaysTrue(s) <==> b) && (SaysFalse(s) <==> !b)
  {
    hide Trim;
    TrimSolid("yes");
    TrimSolid("no");
    assert "yes"[0] == 'y' && "no"[0] == 'n';
    assert Solid("yes") && Solid("no");
  }

  lemma RenderedNotBlank(v: Value, lib: Library)
    requires Lawful(lib) && v.Arr? && v.items != [] && v.items[0].Str? && Solid(v.items[0].text)
    ensures !Blank(RenderValue(v, lib))
  {
    hide Lawful;
    var text := v.items[0].text;
    ShowText(text, lib);
    var texts := TextsOf(v.items, lib);
    assert texts[0] == text && JoinComma(texts)[0] == text[0];
    SomethingThere(JoinComma(texts));
  }

  lemma SomethingThere(s: string)
    requires s != "" && !IsSpace(s[0])
    ensures Trim(s) != ""
  {
    assert TrimStart(s) == s;
    FrontStays(s);
  }

  lemma {:induction false} FrontStays(s: string)
    requires s != "" && !IsSpace(s[0])
    ensures TrimEnd(s) != ""
  {
    if |s| > 1 && IsSpace(s[|s| - 1]) {
      FrontStays(s[..|s| - 1]);
    }
  }

  // ---- the schema -----------------------------------------------------------

  predicate DistinctItems(items: seq<string>) {
    forall i, j :: 0 <= i < j < |items| ==> items[i] != items[j]
  }

  predicate EnumOk(c: Column) {
    if c.kind == EnumType then
      && c.options.Some? && 1 <= |c.options.value| <= MAX_ENUM_OPTIONS
      && SolidItems(c.options.value) && DistinctItems(c.options.value)
    else c.options.None?
  }

  predicate ScaleOk(c: Column) {
    if c.kind == RatingType then c.scale.Some? && 1 <= c.scale.value <= MAX_RATING_SCALE else c.scale.None?
  }

  /** A column as the store holds it. */
  predicate ColumnOk(c: Column) {
    && IsKey(c.key) && Solid(c.title) && |c.title| <= MAX_LABEL_LENGTH
    && EnumOk(c) && ScaleOk(c) && (c.isKey ==> Keyable(c.kind))
  }

  predicate DistinctKeys(columns: seq<Column>) {
    forall i, j :: 0 <= i < j < |columns| ==> columns[i].key != columns[j].key
  }

  predicate AllOk(columns: seq<Column>) {
    forall i :: 0 <= i < |columns| ==> ColumnOk(columns[i])
  }

  /** A schema as the store holds it: up to 64 columns of distinct keys, exactly one of them the key. */
  predicate SchemaOk(columns: seq<Column>) {
    1 <= |columns| <= MAX_COLUMNS && AllOk(columns) && DistinctKeys(columns) && CountKeys(columns) == 1
  }

  lemma {:induction false} UniqueItems(items: seq<string>)
    ensures DistinctItems(Unique(items))
    ensures forall item :: item in Unique(items) ==> item in items
    ensures items != [] ==> Unique(items) != []
  {
    if items != [] {
      var init := items[..|items| - 1];
      UniqueItems(init);
      assert items == init + [items[|items| - 1]];
    }
  }

  lemma {:induction false} UniqueKeeps(items: seq<string>)
    requires DistinctItems(items)
    ensures Unique(items) == items
  {
    if items != [] {
      var init := items[..|items| - 1];
      UniqueKeeps(init);
      assert items == init + [items[|items| - 1]];
      assert items[|items| - 1] !in init;
    }
  }

  lemma OptionsSolid(v: Value, lib: Library)
    ensures SolidItems(OptionsOf(v, lib)) && DistinctItems(OptionsOf(v, lib))
  {
    hide Solid;
    if v.Arr? {
      var items := Items(v.items, lib);
      ItemsSolid(v.items, lib);
      UniqueItems(items);
      assert forall i :: 0 <= i < |Unique(items)| ==> Unique(items)[i] in items;
    }
  }

  lemma KeySolid(key: string)
    requires IsKey(key)
    ensures Solid(key)
  {
    assert !IsSpace(key[0]) && !IsSpace(key[|key| - 1]);
  }

  /** A column that passes is one the store may hold, and its key is new. */
  lemma CheckedColumnOk(raw: RawColumn, keys: set<string>, lib: Library)
    requires CheckColumn(raw, keys, lib).Success?
    ensures ColumnOk(CheckColumn(raw, keys, lib).value) && CheckColumn(raw, keys, lib).value.key !in keys
  {
    hide Trim, Solid, IsKey, OptionsOf, KindOf, SolidItems, DistinctItems;
    var c := CheckColumn(raw, keys, lib).value;
    KeySolid(c.key);
    if raw.title.Str? {
      TrimSolid(raw.title.text);
    }
    OptionsSolid(raw.options, lib);
  }

  /** The column a proposal describes, valid or not. */
  predicate Proposes(raw: RawColumn, c: Column, lib: Library) {
    && raw.RawColumn? && raw.key.Str? && c.key == Trim(raw.key.text)
    && c.title == TitleOf(raw.title, c.key) && KindOf(raw.kind) == Some(c.kind)
    && c.options == (if c.kind == EnumType then Some(OptionsOf(raw.options, lib)) else None)
    && c.scale == (if c.kind == RatingType then ScaleOf(raw.scale, lib) else None)
    && c.isKey == (raw.isKey == Bool(true)) && c.requiredForComplete == (raw.required == Bool(true))
  }

  /** A proposal is accepted exactly when the column it describes is valid and its key new. */
  lemma CheckedColumnExactly(raw: RawColumn, keys: set<string>, c: Column, lib: Library)
    ensures CheckColumn(raw, keys, lib) == Success(c)
            <==> Proposes(raw, c, lib) && ColumnOk(c) && c.key !in keys
  {
    hide Trim, Solid, IsKey, OptionsOf, KindOf, SolidItems, DistinctItems, ScaleOf;
    NoKey();
    if CheckColumn(raw, keys, lib) == Success(c) {
      CheckedColumnOk(raw, keys, lib);
    }
  }

  lemma NoKey()
    ensures !IsKey("")
  {
  }

  lemma {:induction false} CheckedFromOk(raws: seq<RawColumn>, columns: seq<Column>, lib: Library)
    requires AllOk(columns) && DistinctKeys(columns) && CheckFrom(raws, columns, lib).Success?
    ensures
      var cs := CheckFrom(raws, columns, lib).value;
      AllOk(cs) && DistinctKeys(cs) && CountKeys(cs) == 1 && |cs| == |columns| + |raws|
    decreases |raws|
  {
    hide CheckColumn, ColumnOk, CountKeys;
    if raws != [] {
      var column := CheckColumn(raws[0], KeysOf(columns), lib).value;
      CheckedColumnOk(raws[0], KeysOf(columns), lib);
      assert forall i :: 0 <= i < |columns| ==> columns[i].key in KeysOf(columns);
      CheckedFromOk(raws[1..], columns + [column], lib);
    }
  }

  /** What `checkColumns` accepts is a schema. */
  lemma AcceptedIsSchema(input: Option<seq<RawColumn>>, lib: Library)
    requires Checked(input, lib).Success?
    ensures SchemaOk(Checked(input, lib).value)
  {
    hide CheckFrom, ColumnOk, CountKeys;
    CheckedFromOk(input.value, [], lib);
  }

  /** A stored column, proposed again. */
  function AsRaw(c: Column): RawColumn
    requires ColumnOk(c)
  {
    RawColumn(
      Str(c.key), Str(c.title), Str(KindText(c.kind)),
      if c.options.Some? then Arr(StringValues(c.options.value)) else Undefined,
      if c.scale.Some? then Num(WholeNumber(c.scale.value)) else Undefined,
      Bool(c.isKey), Bool(c.requiredForComplete))
  }

  lemma KindRead(k: ColumnType)
    ensures KindOf(Str(KindText(k))) == Some(k)
  {
  }

  lemma OptionsRead(c: Column, lib: Library)
    requires Lawful(lib) && ColumnOk(c) && c.kind == EnumType
    ensures OptionsOf(AsRaw(c).options, lib) == c.options.value
  {
    hide Solid, Trim, Lawful, Items, KindText;
    var values := StringValues(c.options.value);
    ItemsOfSolid(values, lib);
    var items := Items(values, lib);
    assert items == c.options.value by {
      forall i | 0 <= i < |items| ensures items[i] == c.options.value[i] {
        assert StringValues(items)[i] == values[i];
      }
    }
    UniqueKeeps(items);
  }

  lemma ScaleRead(n: int, lib: Library)
    requires Lawful(lib) && 1 <= n <= MAX_RATING_SCALE
    ensures ScaleOf(Num(WholeNumber(n)), lib) == Some(n)
  {
    assert (n as real).Floor == n;
  }

  lemma ColumnKept(c: Column, keys: set<string>, lib: Library)
    requires Lawful(lib) && ColumnOk(c) && c.key !in keys
    ensures CheckColumn(AsRaw(c), keys, lib) == Success(c)
  {
    hide Trim, Solid, IsKey, OptionsOf, KindOf, KindText, SolidItems, DistinctItems, ScaleOf, Lawful, StringValues;
    KeySolid(c.key);
    TrimSolid(c.key);
    TrimSolid(c.title);
    NotEmptySolid(c.title);
    KindRead(c.kind);
    if c.kind == EnumType {
      OptionsRead(c, lib);
    }
    if c.kind == RatingType {
      ScaleRead(c.scale.value, lib);
    }
  }

  function AllRaw(columns: seq<Column>): seq<RawColumn>
    requires AllOk(columns)
  {
    seq(|columns|, i requires 0 <= i < |columns| => AsRaw(columns[i]))
  }

  lemma {:induction false} ColumnsKept(columns: seq<Column>, n: nat, lib: Library)
    requires Lawful(lib) && n <= |columns| && AllOk(columns) && DistinctKeys(columns) && CountKeys(columns) == 1
    ensures CheckFrom(AllRaw(columns[n..]), columns[..n], lib) == Success(columns)
    decreases |columns| - n
  {
    hide CheckColumn, ColumnOk, AsRaw, Lawful;
    if n == |columns| {
      assert columns[..n] == columns;
    } else {
      var c := columns[n];
      assert AllRaw(columns[n..])[1..] == AllRaw(columns[n + 1..]);
      assert AllRaw(columns[n..])[0] == AsRaw(c);
      assert c.key !in KeysOf(columns[..n]);
      ColumnKept(c, KeysOf(columns[..n]), lib);
      assert columns[..n] + [c] == columns[..n + 1];
      ColumnsKept(columns, n + 1, lib);
    }
  }

  /** Every schema is accepted as it stands, so checking is a projection onto the schemas. */
  lemma SchemaIsKept(columns: seq<Column>, lib: Library)
    requires Lawful(lib) && SchemaOk(columns)
    ensures Checked(Some(AllRaw(columns)), lib) == Success(columns)
  {
    hide CheckFrom, ColumnOk, CountKeys, AsRaw, Lawful;
    ColumnsKept(columns, 0, lib);
    assert columns[0..] == columns && columns[..0] == [];
  }

  lemma CheckTwice(input: Option<seq<RawColumn>>, lib: Library)
    requires Lawful(lib) && Checked(input, lib).Success?
    ensures AllOk(Checked(input, lib).value)
    ensures Checked(Some(AllRaw(Checked(input, lib).value)), lib) == Checked(input, lib)
  {
    hide Checked, Lawful, ColumnOk;
    AcceptedIsSchema(input, lib);
    SchemaIsKept(Checked(input, lib).value, lib);
  }

  lemma {:induction false} CountedKeys(columns: seq<Column>, i: nat, j: nat)
    requires i < j < |columns| && columns[i].isKey && columns[j].isKey
    ensures CountKeys(columns) >= 2
  {
    var init := columns[..|columns| - 1];
    if j < |columns| - 1 {
      CountedKeys(init, i, j);
    } else {
      CountedKey(init, i);
    }
  }

  lemma {:induction false} CountedKey(columns: seq<Column>, i: nat)
    requires i < |columns| && columns[i].isKey
    ensures CountKeys(columns) >= 1
  {
    if i < |columns| - 1 {
      CountedKey(columns[..|columns| - 1], i);
    }
  }

  lemma {:induction false} NoKeyCounted(columns: seq<Column>)
    requires forall i :: 0 <= i < |columns| ==> !columns[i].isKey
    ensures CountKeys(columns) == 0
  {
    if columns != [] {
      NoKeyCounted(columns[..|columns| - 1]);
    }
  }

  lemma {:induction false} KeyFound(columns: seq<Column>)
    ensures KeyColumnOf(columns).None? <==> forall i :: 0 <= i < |columns| ==> !columns[i].isKey
    ensures KeyColumnOf(columns).Some? ==> KeyColumnOf(columns).value in columns && KeyColumnOf(columns).value.isKey
  {
    if columns != [] {
      KeyFound(columns[1..]);
      assert columns == [columns[0]] + columns[1..];
    }
  }

  /** An accepted schema has a key column and no other, so `keyColumnOf` never throws on it. */
  lemma OneKeyColumn(input: Option<seq<RawColumn>>, lib: Library)
    requires Checked(input, lib).Success?
    ensures
      var columns := Checked(input, lib).value;
      && KeyColumnOf(columns).Some?
      && forall i :: 0 <= i < |columns| ==> (columns[i].isKey <==> columns[i] == KeyColumnOf(columns).value)
  {
    hide Checked, CountKeys, KeyColumnOf, ColumnOk;
    var columns := Checked(input, lib).value;
    AcceptedIsSchema(input, lib);
    KeyFound(columns);
    if forall i :: 0 <= i < |columns| ==> !columns[i].isKey {
      NoKeyCounted(columns);
    }
    var key := KeyColumnOf(columns).value;
    var k :| 0 <= k < |columns| && columns[k] == key;
    forall i | 0 <= i < |columns| && columns[i].isKey ensures columns[i] == key {
      if i < k {
        CountedKeys(columns, i, k);
      } else if k < i {
        CountedKeys(columns, k, i);
      }
    }
  }

  // ---- rows -----------------------------------------------------------------

  /** A row of the store: every column present, each value normal. */
  predicate RowOk(columns: seq<Column>, values: Record, lib: Library) {
    && values.Keys == KeysOf(columns)
    && forall i :: 0 <= i < |columns| && columns[i].key in values ==> IsNormal(columns[i], values[columns[i].key], lib)
  }

  lemma NeverUndefined(c: Column, v: Value, lib: Library)
    requires NormalizeValue(c, v, lib).Success?
    ensures NormalizeValue(c, v, lib).value != Undefined
  {
    hide Trim, IsEmptyValue, Items, FindOption, IsDateOnly;
  }

  /** The values a partial write gives are of columns it was given. */
  lemma {:induction false} PartialGiven(columns: seq<Column>, n: nat, given: Record, lib: Library)
    requires n <= |columns| && ValuesOf(columns, n, given, true, lib).Success?
    ensures
      var p := ValuesOf(columns, n, given, true, lib).value;
      forall key :: key in p <==> In(given, key) && key in KeysOf(columns[..n])
  {
    hide NormalizeValue;
    if n > 0 {
      PartialGiven(columns, n - 1, given, lib);
      assert columns[..n] == columns[..n - 1] + [columns[n - 1]];
      CountMore(columns[..n - 1], columns[n - 1]);
    }
  }

  lemma ReshapedSet(columns: seq<Column>, c: Column, p: Record, v: Value)
    requires v != Undefined
    ensures Reshaped(columns + [c], p[c.key := v]) == Reshaped(columns, p)[c.key := v]
  {
    CountMore(columns, c);
  }

  lemma ReshapedGap(columns: seq<Column>, c: Column, p: Record)
    requires c.key !in p && !Inherits(c.key)
    ensures Reshaped(columns + [c], p) == Reshaped(columns, p)[c.key := Null]
  {
    CountMore(columns, c);
  }

  /** A full write of the first `n` columns is the partial one, reshaped. */
  lemma {:induction false} FullIsReshaped(columns: seq<Column>, n: nat, given: Record, lib: Library)
    requires n <= |columns|
    ensures
      var partial := ValuesOf(columns, n, given, true, lib);
      ValuesOf(columns, n, given, false, lib)
      == match partial case Failure(reason) => Failure(reason) case Success(p) => Success(Reshaped(columns[..n], p))
  {
    hide NormalizeValue, Reshaped;
    if n == 0 {
      assert Reshaped(columns[..0], map[]) == map[] by { NothingReshaped(columns); }
    } else {
      FullIsReshaped(columns, n - 1, given, lib);
      var c := columns[n - 1];
      var before := ValuesOf(columns, n - 1, given, true, lib);
      assert columns[..n] == columns[..n - 1] + [c];
      if before.Success? {
        PartialGiven(columns, n - 1, given, lib);
        if !In(given, c.key) {
          ReshapedGap(columns[..n - 1], c, before.value);
        } else if NormalizeValue(c, Get(given, c.key), lib).Success? {
          var v := NormalizeValue(c, Get(given, c.key), lib).value;
          NeverUndefined(c, Get(given, c.key), lib);
          ReshapedSet(columns[..n - 1], c, before.value, v);
        }
      }
    }
  }

  lemma NothingReshaped(columns: seq<Column>)
    ensures Reshaped(columns[..0], map[]) == map[]
  {
  }

  /** A full write is the partial write brought to the columns, and each is refused exactly when the other is. */
  lemma FullWriteIsReshapedPartial(columns: seq<Column>, input: Option<Record>, lib: Library)
    ensures
      Normalized(columns, input, false, lib)
      == match Normalized(columns, input, true, lib)
         case Failure(reason) => Failure(reason)
         case Success(p) => Success(Reshaped(columns, p))
  {
    hide Reshaped, ValuesOf, AllKnown;
    if input.Some? && AllKnown(columns, input.value) {
      FullIsReshaped(columns, |columns|, input.value, lib);
      assert columns[..|columns|] == columns;
    }
  }

  lemma RowGrows(columns: seq<Column>, c: Column, values: Record, v: Value, lib: Library)
    requires RowOk(columns, values, lib) && IsNormal(c, v, lib) && c.key !in KeysOf(columns)
    ensures RowOk(columns + [c], values[c.key := v], lib)
  {
    hide IsNormal;
    CountMore(columns, c);
    var more := columns + [c];
    var next := values[c.key := v];
    forall i | 0 <= i < |more| ensures IsNormal(more[i], next[more[i].key], lib) {
      if i < |columns| {
        assert columns[i].key in KeysOf(columns) && more[i] == columns[i];
      }
    }
  }

  lemma EmptyRow(lib: Library)
    ensures RowOk([], map[], lib)
  {
  }

  lemma {:induction false} FullRow(columns: seq<Column>, n: nat, given: Record, lib: Library)
    requires n <= |columns| && Lawful(lib) && AllOk(columns) && DistinctKeys(columns)
    requires ValuesOf(columns, n, given, false, lib).Success?
    ensures RowOk(columns[..n], ValuesOf(columns, n, given, false, lib).value, lib)
  {
    hide NormalizeValue, IsNormal, Lawful, ColumnOk, RowOk;
    if n == 0 {
      EmptyRow(lib);
      assert columns[..0] == [];
    } else {
      var c := columns[n - 1];
      FullRow(columns, n - 1, given, lib);
      var before := ValuesOf(columns, n - 1, given, false, lib).value;
      assert columns[..n] == columns[..n - 1] + [c];
      assert c.key !in KeysOf(columns[..n - 1]);
      if In(given, c.key) {
        OkOptions(c);
        AcceptedIsNormal(c, Get(given, c.key), lib);
        RowGrows(columns[..n - 1], c, before, NormalizeValue(c, Get(given, c.key), lib).value, lib);
      } else {
        NullIsNormal(c, lib);
        RowGrows(columns[..n - 1], c, before, Null, lib);
      }
    }
  }

  lemma RowValue(columns: seq<Column>, values: Record, i: nat, lib: Library)
    requires RowOk(columns, values, lib) && i < |columns|
    ensures columns[i].key in values && IsNormal(columns[i], values[columns[i].key], lib)
  {
    hide IsNormal;
    assert columns[i].key in KeysOf(columns);
  }

  lemma NullIsNormal(c: Column, lib: Library)
    ensures IsNormal(c, Null, lib)
  {
  }

  lemma OkOptions(c: Column)
    requires ColumnOk(c)
    ensures OptionsOk(c)
  {
  }

  lemma {:induction false} RowKept(columns: seq<Column>, n: nat, values: Record, partial: bool, lib: Library)
    requires n <= |columns| && Lawful(lib) && AllOk(columns) && RowOk(columns, values, lib)
    ensures
      var r := ValuesOf(columns, n, values, partial, lib);
      && r.Success? && r.value.Keys == KeysOf(columns[..n])
      && forall key :: key in r.value ==> key in values && r.value[key] == values[key]
  {
    hide NormalizeValue, IsNormal, Lawful, ColumnOk, RowOk, KeysOf;
    if n == 0 {
      CountNothing(columns);
    } else {
      var c := columns[n - 1];
      RowKept(columns, n - 1, values, partial, lib);
      RowValue(columns, values, n - 1, lib);
      assert columns[..n] == columns[..n - 1] + [c];
      CountMore(columns[..n - 1], c);
      OkOptions(c);
      NormalIsKept(c, values[c.key], lib);
    }
  }

  lemma CountNothing(columns: seq<Column>)
    ensures KeysOf(columns[..0]) == {}
  {
  }

  /** A full write gives a row of the store, and writing that row again changes nothing. */
  lemma WriteTwice(columns: seq<Column>, input: Option<Record>, partial: bool, lib: Library)
    requires Lawful(lib) && SchemaOk(columns) && Normalized(columns, input, false, lib).Success?
    ensures
      var row := Normalized(columns, input, false, lib).value;
      RowOk(columns, row, lib) && Normalized(columns, Some(row), partial, lib) == Success(row)
  {
    hide ValuesOf, Lawful, AllOk, CountKeys;
    FullRow(columns, |columns|, input.value, lib);
    assert columns[..|columns|] == columns;
    var row := Normalized(columns, input, false, lib).value;
    RowKept(columns, |columns|, row, partial, lib);
    var again := ValuesOf(columns, |columns|, row, partial, lib).value;
    assert again == row;
  }

  // ---- gaps and keys --------------------------------------------------------

  predicate IsGap(c: Column, values: Record) {
    c.requiredForComplete && IsEmptyValue(Get(values, c.key))
  }

  /** The gaps are the required columns without a value; a row is complete exactly when it has none. */
  lemma {:induction false} CompleteMeansNoGaps(columns: seq<Column>, values: Record)
    ensures IsComplete(columns, values) <==> GapsOf(columns, values) == []
    ensures forall key :: key in GapsOf(columns, values) <==>
              exists i :: 0 <= i < |columns| && columns[i].key == key && IsGap(columns[i], values)
  {
    hide IsEmptyValue, Get;
    if columns != [] {
      CompleteMeansNoGaps(columns[1..], values);
      assert columns == [columns[0]] + columns[1..];
      forall key ensures key in GapsOf(columns, values) <==>
                    exists i :: 0 <= i < |columns| && columns[i].key == key && IsGap(columns[i], values) {
        GapStep(columns, values, key);
      }
    }
  }

  lemma GapStep(columns: seq<Column>, values: Record, key: string)
    requires columns != []
    ensures (exists i :: 0 <= i < |columns| && columns[i].key == key && IsGap(columns[i], values))
            <==> || (columns[0].key == key && IsGap(columns[0], values))
                 || exists i :: 0 <= i < |columns[1..]| && columns[1..][i].key == key && IsGap(columns[1..][i], values)
  {
    hide IsGap;
    var rest := columns[1..];
    if i :| 0 <= i < |columns| && columns[i].key == key && IsGap(columns[i], values) {
      if i > 0 {
        assert rest[i - 1] == columns[i];
      }
    }
    if i :| 0 <= i < |rest| && rest[i].key == key && IsGap(rest[i], values) {
      assert columns[i + 1] == rest[i];
    }
  }

  /** A row of an accepted schema has a row key exactly when its key column is filled, and the key holds something. */
  lemma RowKeys(input: Option<seq<RawColumn>>, row: Record, lib: Library)
    requires Lawful(lib) && Checked(input, lib).Success? && RowOk(Checked(input, lib).value, row, lib)
    ensures
      var columns := Checked(input, lib).value;
      var key := KeyValueOf(columns, row, lib);
      && KeyColumnOf(columns).Some? && key.Some? && KeyColumnOf(columns).value.key in row
      && (key.value.Success? <==> row[KeyColumnOf(columns).value.key] != Null)
      && (key.value.Success? ==> key.value.value != "")
      && (key.value.Success? ==> key.value.value == Trim(lib.show(row[KeyColumnOf(columns).value.key])))
      && (key.value.Success? && row[KeyColumnOf(columns).value.key].Str? ==>
            key.value.value == row[KeyColumnOf(columns).value.key].text)
  {
    hide Checked, KeyColumnOf, Trim, Solid, IsDateOnly, CountKeys;
    var columns := Checked(input, lib).value;
    AcceptedIsSchema(input, lib);
    OneKeyColumn(input, lib);
    KeyFound(columns);
    var c := KeyColumnOf(columns).value;
    var k :| 0 <= k < |columns| && columns[k] == c;
    assert c.key in KeysOf(columns);
    var v := row[c.key];
    OkOptions(c);
    if v != Null {
      NormalNotEmpty(c, v, lib);
      if v.Str? {
        ShowText(v.text, lib);
        NotEmptySolid(v.text);
      }
    }
  }

  // ---- an inherited name ----------------------------------------------------

  /** Of the names every object inherits only `constructor` has the shape of a column key. */
  lemma InheritedKeys(name: string)
    ensures IsKey(name) && Inherits(name) <==> name == "constructor"
  {
    OnlyTwoWithout();
    if IsKey(name) && Inherits(name) {
      NoCapitalInKey(name);
      MostHaveCapitals(name);
    }
  }

  lemma NoCapitalInKey(name: string)
    requires IsKey(name)
    ensures !HasCapital(name) && name != "__proto__"
  {
    assert "__proto__"[0] == '_';
  }

  /** Whatever is inherited is never taken for an empty value. */
  lemma InheritedNotNull(c: Column, name: string, lib: Library)
    ensures NormalizeValue(c, InheritedValue(name), lib) != Success(Null)
  {
    hide Trim, Items, SplitItems, IsDateOnly, FindOption, SaysTrue, SaysFalse;
    EmptySaysNothing();
  }

  /**
   A full write leaves a column it is not given empty exactly when the column is not
   called `constructor`: under that name it finds what every object inherits.
   */
  lemma ConstructorColumn(c: Column, given: Record, lib: Library)
    requires IsKey(c.key) && c.key !in given
    ensures ValuesOf([c], 1, given, false, lib) == Success(map[c.key := Null]) <==> c.key != "constructor"
  {
    hide NormalizeValue, Inherits, IsKey, InheritedValue;
    InheritedKeys(c.key);
    InheritedNotNull(c, c.key, lib);
    assert ValuesOf([c], 0, given, false, lib) == Success(map[]);
    assert [c][0] == c;
    var m: Record := map[];
    if NormalizeValue(c, InheritedValue(c.key), lib).Success? {
      var v := NormalizeValue(c, InheritedValue(c.key), lib).value;
      assert m[c.key := v][c.key] == v && map[c.key := Null][c.key] == Null;
    }
  }

  /** Every value given is one its column accepts. */
  predicate AllAccepted(columns: seq<Column>, given: Record, lib: Library) {
    forall i :: 0 <= i < |columns| && columns[i].key in given ==>
                  NormalizeValue(columns[i], given[columns[i].key], lib).Success?
  }

  /** The full write is accepted, and what was not given is empty. */
  predicate GapsLeftEmpty(columns: seq<Column>, r: Result<Record, Reason>, given: Record) {
    && r.Success?
    && forall i :: 0 <= i < |columns| && columns[i].key !in given ==>
                     columns[i].key in r.value && r.value[columns[i].key] == Null
  }

  lemma GapsGrow(columns: seq<Column>, c: Column, values: Record, given: Record, v: Value)
    requires values.Keys == KeysOf(columns) && c.key !in values
    ensures GapsLeftEmpty(columns + [c], Success(values[c.key := v]), given)
            <==> GapsLeftEmpty(columns, Success(values), given) && (c.key !in given ==> v == Null)
    ensures values[c.key := v].Keys == KeysOf(columns + [c])
  {
    CountMore(columns, c);
    var more, all := columns + [c], values[c.key := v];
    assert more[|columns|] == c;
    forall i | 0 <= i < |columns| ensures more[i] == columns[i] && columns[i].key in values && columns[i].key != c.key {
      KeyListed(columns, i);
    }
    hide KeysOf;
    assert all.Keys == values.Keys + {c.key};
    if GapsLeftEmpty(more, Success(all), given) {
      forall i | 0 <= i < |columns| && columns[i].key !in given ensures values[columns[i].key] == Null {
        assert more[i].key !in given;
      }
      assert more[|columns|].key == c.key && all[c.key] == v;
    }
    if GapsLeftEmpty(columns, Success(values), given) && (c.key !in given ==> v == Null) {
      forall i | 0 <= i < |more| && more[i].key !in given ensures more[i].key in all && all[more[i].key] == Null {
        assert i < |columns| ==> columns[i].key !in given;
      }
    }
  }

  lemma KeyListed(columns: seq<Column>, i: nat)
    requires i < |columns|
    ensures columns[i].key in KeysOf(columns)
  {
  }

  lemma RefusalLeavesNone(columns: seq<Column>, reason: Reason, given: Record)
    ensures !GapsLeftEmpty(columns, Failure(reason), given)
  {
  }

  lemma NothingGiven(columns: seq<Column>, given: Record)
    ensures GapsLeftEmpty(columns[..0], Success(map[]), given) && KeysOf(columns[..0]) == {}
  {
  }

  lemma {:induction false} GapsFilled(columns: seq<Column>, n: nat, given: Record, lib: Library)
    requires n <= |columns| && AllOk(columns) && DistinctKeys(columns) && AllAccepted(columns, given, lib)
    ensures GapsLeftEmpty(columns[..n], ValuesOf(columns, n, given, false, lib), given)
            <==> ("constructor" in KeysOf(columns[..n]) ==> "constructor" in given)
    ensures ValuesOf(columns, n, given, false, lib).Success? ==>
              ValuesOf(columns, n, given, false, lib).value.Keys == KeysOf(columns[..n])
  {
    hide NormalizeValue, Inherits, ColumnOk, InheritedValue, GapsLeftEmpty, KeysOf;
    if n == 0 {
      NothingGiven(columns, given);
    } else {
      var c := columns[n - 1];
      GapsFilled(columns, n - 1, given, lib);
      var before := ValuesOf(columns, n - 1, given, false, lib);
      assert columns[..n] == columns[..n - 1] + [c];
      CountMore(columns[..n - 1], c);
      KeyIsNew(columns, n - 1);
      OkKey(c);
      InheritedKeys(c.key);
      InheritedNotNull(c, c.key, lib);
      match before {
        case Failure(reason) =>
          RefusalLeavesNone(columns[..n - 1], reason, given);
          RefusalLeavesNone(columns[..n], reason, given);
        case Success(values) =>
          if !In(given, c.key) {
            GapsGrow(columns[..n - 1], c, values, given, Null);
          } else {
            match NormalizeValue(c, Get(given, c.key), lib) {
              case Failure(reason) => RefusalLeavesNone(columns[..n], reason, given);
              case Success(v) => GapsGrow(columns[..n - 1], c, values, given, v);
            }
          }
      }
    }
  }

  lemma KeyIsNew(columns: seq<Column>, k: nat)
    requires k < |columns| && DistinctKeys(columns)
    ensures columns[k].key !in KeysOf(columns[..k])
  {
  }

  lemma OkKey(c: Column)
    requires ColumnOk(c)
    ensures IsKey(c.key)
  {
  }

  /**
   A full write of acceptable values leaves the columns it is not given empty if and
   only if it is given the column called `constructor`, should the schema have one.
   */
  lemma GapsStayGaps(columns: seq<Column>, given: Record, lib: Library)
    requires SchemaOk(columns) && AllKnown(columns, given) && AllAccepted(columns, given, lib)
    ensures GapsLeftEmpty(columns, Normalized(columns, Some(given), false, lib), given)
            <==> ("constructor" in KeysOf(columns) ==> "constructor" in given)
  {
    hide ValuesOf, CountKeys, AllAccepted, GapsLeftEmpty, AllOk;
    GapsFilled(columns, |columns|, given, lib);
    assert columns[..|columns|] == columns;
  }
}
