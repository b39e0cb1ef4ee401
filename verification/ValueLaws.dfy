/**
 What each column type accepts and stores, and what becomes of a whole row or schema,
 in terms of the values themselves (`core/features/collections/columns.ts`).
 */
module ValueLaws {
  import opened Inherited
  import opened Numbers
  import opened Wrappers
  import opened Text
  import opened Host
  import opened Columns
  import opened ColumnLaws

  // ---- empty values ---------------------------------------------------------

  /** Nothing, a text of white space, or a list without items. */
  predicate SaysNothing(v: Value) {
    match v
    case Undefined => true
    case Null => true
    case Str(text) => AllSpaces(text)
    case Arr(items) => |items| == 0
    case _ => false
  }

  lemma EmptyExactly(v: Value)
    ensures IsEmptyValue(v) <==> SaysNothing(v)
  {
    hide Trim;
    if v.Str? {
      TrimExactly(v.text, "");
      if AllSpaces(v.text) {
        assert v.text == v.text[..|v.text|] + "" + v.text[|v.text|..];
        assert Around(v.text, "", v.text[..|v.text|], v.text[|v.text|..]);
      }
      if a, b :| Around(v.text, "", a, b) {
        assert v.text == a + b;
      }
    }
  }

  /** The pieces of a list value: its items as texts, or what a text splits into. */
  ghost predicate PiecesHeld(v: Value, pieces: seq<Value>) {
    match v
    case Arr(items) => pieces == items
    case Str(text) => exists p :: PiecesOf(text, p) && pieces == StringValues(p)
    case _ => false
  }

  lemma PiecesRead(v: Value, pieces: seq<Value>, lib: Library)
    requires PiecesHeld(v, pieces)
    ensures ItemsOfValue(v, lib) == Some(Items(pieces, lib))
  {
    hide Items, SplitItems, PiecesOf, StringValues, AllUnbroken, Weaves;
    if v.Str? {
      var p :| PiecesOf(v.text, p) && pieces == StringValues(p);
      PiecesSplit(v.text, p);
    }
  }

  lemma PiecesSplit(s: string, p: seq<string>)
    requires PiecesOf(s, p)
    ensures p == SplitItems(s)
  {
    hide SplitItems, Weaves, AllUnbroken;
    SplitExactly(s, p);
  }

  // ---- what each type takes -------------------------------------------------

  /** A text column takes texts, numbers and booleans as text, up to its length, and stores them trimmed. */
  lemma TextTaken(c: Column, v: Value, lib: Library)
    requires Lawful(lib) && !SaysNothing(v) && (c.kind == TextType || c.kind == LongTextType)
    ensures
      var shown := lib.show(v);
      var fits := (v.Str? || v.Num? || v.Bool?) && |shown| <= if c.kind == TextType then 2_000 else 20_000;
      && (fits <==> NormalizeValue(c, v, lib).Success?)
      && (fits ==> NormalizeValue(c, v, lib) == Success(Str(Trim(shown))))
      && (v.Str? ==> shown == v.text)
  {
    hide Trim, IsEmptyValue;
    EmptyExactly(v);
    if v.Str? {
      ShowText(v.text, lib);
    }
  }

  /** What a text or a number reads as, for the columns that want one. */
  predicate ReadsAs(v: Value, n: Number, lib: Library) {
    match v
    case Num(m) => n == m
    case Str(text) => n == lib.number(Str(Trim(text)))
    case _ => false
  }

  /** A number column takes what reads as a finite number, and stores the number. */
  lemma NumberTaken(c: Column, v: Value, x: Double, lib: Library)
    requires !SaysNothing(v) && c.kind == NumberType
    ensures NormalizeValue(c, v, lib) == Success(Num(Finite(x))) <==> ReadsAs(v, Finite(x), lib)
    ensures
      var r := NormalizeValue(c, v, lib);
      r.Success? ==> r.value.Num? && r.value.number.Finite?
  {
    hide Trim, IsEmptyValue;
    EmptyExactly(v);
  }

  /** A rating column takes what reads as a number from 0 to its scale, 10 unless it has one. */
  lemma RatingTaken(c: Column, v: Value, x: Double, lib: Library)
    requires !SaysNothing(v) && c.kind == RatingType
    ensures NormalizeValue(c, v, lib) == Success(Num(Finite(x)))
            <==> ReadsAs(v, Finite(x), lib) && 0.0 <= x <= (if c.scale.Some? then c.scale.value else 10) as real
    ensures
      var r := NormalizeValue(c, v, lib);
      r.Success? ==> r.value.Num? && r.value.number.Finite?
  {
    hide Trim, IsEmptyValue, NormalText, NormalDate, NormalList, NormalOption, NormalBoolean, CheckUrl;
    EmptyExactly(v);
  }

  /** A date column takes texts that parse; a bare date is stored as it is, any other as the instant it names. */
  lemma DateTaken(c: Column, v: Value, lib: Library)
    requires !SaysNothing(v) && c.kind == DateType
    ensures
      var takes := v.Str? && lib.parseDate(Trim(v.text)).Some?;
      && (NormalizeValue(c, v, lib).Success? <==> takes)
      && (takes && IsDateOnly(Trim(v.text)) ==> NormalizeValue(c, v, lib) == Success(Str(Trim(v.text))))
      && (takes && !IsDateOnly(Trim(v.text)) ==>
            NormalizeValue(c, v, lib) == Success(Str(lib.iso(lib.parseDate(Trim(v.text)).value))))
  {
    hide Trim, IsDateOnly;
    EmptyExactly(v);
  }

  /** A bare date: four, two and two digits with hyphens between them. */
  lemma DateOnlyExactly(s: string)
    ensures IsDateOnly(s)
            <==> |s| == 10 && forall i :: 0 <= i < 10 ==> if i == 4 || i == 7 then s[i] == '-' else '0' <= s[i] <= '9'
  {
    if |s| == 10 {
      assert forall i :: 0 <= i < 4 ==> s[..4][i] == s[i];
      assert forall i :: 5 <= i < 7 ==> s[5..7][i - 5] == s[i];
      assert forall i :: 8 <= i < 10 ==> s[8..][i - 8] == s[i];
    }
  }

  /** A url or image column takes texts that are URLs of one of the two schemes of the web, and stores their normal form. */
  lemma UrlTaken(c: Column, v: Value, lib: Library)
    requires Lawful(lib) && !SaysNothing(v) && (c.kind == UrlType || c.kind == ImageType)
    ensures
      var takes := v.Str? && lib.url(Trim(v.text)).Some? && lib.url(Trim(v.text)).value.protocol in {"http:", "https:"};
      && (NormalizeValue(c, v, lib).Success? <==> takes)
      && (takes ==> NormalizeValue(c, v, lib) == Success(Str(lib.url(Trim(v.text)).value.href)))
  {
    hide Trim;
    EmptyExactly(v);
    NoEmptyUrl(lib);
  }

  /** A boolean column takes booleans and eight words, in any case. */
  lemma BooleanTaken(c: Column, v: Value, b: bool, lib: Library)
    requires !SaysNothing(v) && c.kind == BooleanType
    ensures
      var word := if v.Str? then lib.lower(Trim(v.text)) else "";
      NormalizeValue(c, v, lib) == Success(Bool(b))
      <==> v == Bool(b) || (v.Str? && word in if b then {"true", "yes", "y", "1"} else {"false", "no", "n", "0"})
    ensures NormalizeValue(c, v, lib).Success? ==> NormalizeValue(c, v, lib).value.Bool?
  {
    hide Trim, IsEmptyValue;
    EmptyExactly(v);
    EmptySaysNothing();
  }

  /**
   An enum column takes a value when its text is spelled like one of the options, but
   for case, and stores the first such option as it is written there.
   */
  lemma OptionTaken(c: Column, v: Value, lib: Library)
    requires !SaysNothing(v) && c.kind == EnumType
    ensures
      var options := if c.options.Some? then c.options.value else [];
      var text := lib.lower(if v.Str? then Trim(v.text) else lib.show(v));
      && (NormalizeValue(c, v, lib).Success?
          <==> exists k: nat :: k < |options| && IsFirstOption(options, k, text, lib) && options[k] != "")
      && (forall k: nat :: k < |options| && IsFirstOption(options, k, text, lib) && options[k] != "" ==>
            NormalizeValue(c, v, lib) == Success(Str(options[k])))
  {
    hide Trim, IsEmptyValue, IsFirstOption, FindOption;
    EmptyExactly(v);
    var options := if c.options.Some? then c.options.value else [];
    var text := lib.lower(if v.Str? then Trim(v.text) else lib.show(v));
    OptionFound(options, text, lib);
    if k: nat :| k < |options| && IsFirstOption(options, k, text, lib) {
      assert FindOption(options, text, lib) == Some(options[k]);
    }
  }

  /** A list column takes lists and texts of up to 200 items that hold something, and stores these. */
  lemma ListTaken(c: Column, v: Value, pieces: seq<Value>, lib: Library)
    requires !SaysNothing(v) && c.kind == ListType && PiecesHeld(v, pieces)
    ensures NormalizeValue(c, v, lib).Success? <==> Rank(pieces, |pieces|, lib) <= 200
    ensures Rank(pieces, |pieces|, lib) == 0 ==> NormalizeValue(c, v, lib) == Success(Null)
    ensures 0 < Rank(pieces, |pieces|, lib) <= 200 ==>
              && NormalizeValue(c, v, lib).value.Arr? && |NormalizeValue(c, v, lib).value.items| == Rank(pieces, |pieces|, lib)
              && forall i: nat :: i < |pieces| && !BlankPiece(pieces[i], lib) ==>
                   && Rank(pieces, i, lib) < Rank(pieces, |pieces|, lib)
                   && NormalizeValue(c, v, lib).value.items[Rank(pieces, i, lib)] == Str(Trim(lib.show(pieces[i])))
  {
    hide Trim, IsEmptyValue, Items, SplitItems, Rank, BlankPiece, ItemsOfValue, PiecesHeld;
    EmptyExactly(v);
    PiecesRead(v, pieces, lib);
    ItemCount(pieces, lib);
    var items := Items(pieces, lib);
    assert |StringValues(items)| == |items|;
    forall i: nat | i < |pieces| && !BlankPiece(pieces[i], lib)
      ensures Rank(pieces, i, lib) < |items| && StringValues(items)[Rank(pieces, i, lib)] == Str(Trim(lib.show(pieces[i])))
    {
      ItemAt(pieces, i, lib);
    }
  }

  /** A list column takes nothing else. */
  lemma ListOnly(c: Column, v: Value, lib: Library)
    requires !SaysNothing(v) && c.kind == ListType && NormalizeValue(c, v, lib).Success?
    ensures exists pieces :: PiecesHeld(v, pieces)
  {
    hide IsEmptyValue, Items, SplitItems, Weaves;
    EmptyExactly(v);
    if v.Str? {
      SplitExactly(v.text, SplitItems(v.text));
      assert PiecesOf(v.text, SplitItems(v.text));
      assert PiecesHeld(v, StringValues(SplitItems(v.text)));
    } else {
      assert PiecesHeld(v, v.items);
    }
  }

  /** What says nothing is stored as null, whatever the column. */
  lemma NothingTaken(c: Column, v: Value, lib: Library)
    requires SaysNothing(v)
    ensures NormalizeValue(c, v, lib) == Success(Null)
  {
    hide IsEmptyValue;
    EmptyExactly(v);
  }

  // ---- whole rows -----------------------------------------------------------

  /** The value a row is given under a column's name, when it is given or inherits one. */
  ghost predicate IsGiven(given: Record, key: string, v: Value) {
    if key in given then v == given[key]
    else key == "constructor" && v == Fn
  }

  lemma GivenExactly(given: Record, key: string, v: Value)
    requires IsKey(key)
    ensures In(given, key) && Get(given, key) == v <==> IsGiven(given, key, v)
  {
    hide IsKey, Inherits;
    InheritedKeys(key);
  }

  /** What column `i` contributes to a row: its value, null for a gap of a full write, or nothing. */
  ghost predicate Contributes(c: Column, given: Record, partial: bool, values: Record, lib: Library) {
    && (forall v :: IsGiven(given, c.key, v) ==>
          NormalizeValue(c, v, lib).Success? && c.key in values && values[c.key] == NormalizeValue(c, v, lib).value)
    && ((forall v :: !IsGiven(given, c.key, v)) ==>
          if partial then c.key !in values else c.key in values && values[c.key] == Null)
  }

  /** The first column of the row whose value is refused, and why. */
  ghost predicate FirstRefused(columns: seq<Column>, n: nat, given: Record, i: nat, reason: Reason, lib: Library)
    requires n <= |columns|
  {
    && i < n
    && (exists v :: IsGiven(given, columns[i].key, v) && NormalizeValue(columns[i], v, lib) == Failure(reason))
    && forall j, v :: 0 <= j < i && IsGiven(given, columns[j].key, v) ==> NormalizeValue(columns[j], v, lib).Success?
  }

  lemma OneGiven(given: Record, key: string)
    requires IsKey(key)
    ensures In(given, key) ==> IsGiven(given, key, Get(given, key))
    ensures forall v :: IsGiven(given, key, v) ==> In(given, key) && v == Get(given, key)
  {
    hide IsKey, Inherits, IsGiven, In, Get;
    GivenExactly(given, key, Get(given, key));
    forall v | IsGiven(given, key, v) ensures In(given, key) && v == Get(given, key) {
      GivenExactly(given, key, v);
    }
  }

  /** The row so far: what the first `n` columns contribute, or the first of them refused. */
  ghost predicate RowSoFar(columns: seq<Column>, n: nat, given: Record, partial: bool, r: Result<Record, Reason>, lib: Library)
    requires n <= |columns|
  {
    match r
    case Success(values) =>
      && (forall i :: 0 <= i < n ==> Contributes(columns[i], given, partial, values, lib))
      && forall key :: key in values ==> exists i :: 0 <= i < n && columns[i].key == key
    case Failure(reason) => exists i: nat :: FirstRefused(columns, n, given, i, reason, lib)
  }

  lemma OtherColumn(c: Column, key: string, v: Value, given: Record, partial: bool, values: Record, lib: Library)
    requires Contributes(c, given, partial, values, lib) && c.key != key
    ensures Contributes(c, given, partial, values[key := v], lib)
  {
    hide IsGiven, NormalizeValue;
  }

  /** The row with one more column that contributes to it. */
  lemma RowGoesOn(columns: seq<Column>, n: nat, given: Record, partial: bool, before: Record, after: Record, v: Value,
                  lib: Library)
    requires 0 < n <= |columns| && DistinctKeys(columns) && RowSoFar(columns, n - 1, given, partial, Success(before), lib)
    requires Contributes(columns[n - 1], given, partial, after, lib)
    requires after == before || after == before[columns[n - 1].key := v]
    ensures RowSoFar(columns, n, given, partial, Success(after), lib)
  {
    hide Contributes;
    forall i | 0 <= i < n ensures Contributes(columns[i], given, partial, after, lib) {
      if i < n - 1 && after != before {
        OtherColumn(columns[i], columns[n - 1].key, v, given, partial, before, lib);
      }
    }
    forall key | key in after ensures exists i :: 0 <= i < n && columns[i].key == key {
      if key != columns[n - 1].key {
        assert key in before;
      }
    }
  }

  lemma ColumnContributes(c: Column, given: Record, partial: bool, values: Record, v: Value, lib: Library)
    requires IsKey(c.key) && c.key !in values
    requires In(given, c.key) ==> NormalizeValue(c, Get(given, c.key), lib) == Success(v)
    ensures !In(given, c.key) ==>
              Contributes(c, given, partial, if partial then values else values[c.key := Null], lib)
    ensures In(given, c.key) ==> Contributes(c, given, partial, values[c.key := v], lib)
  {
    hide IsKey, In, Get, IsGiven, NormalizeValue;
    OneGiven(given, c.key);
  }

  lemma StillRefused(columns: seq<Column>, n: nat, given: Record, i: nat, reason: Reason, lib: Library)
    requires 0 < n <= |columns| && FirstRefused(columns, n - 1, given, i, reason, lib)
    ensures FirstRefused(columns, n, given, i, reason, lib)
  {
    hide IsGiven, NormalizeValue;
  }

  lemma NowRefused(columns: seq<Column>, n: nat, given: Record, partial: bool, values: Record, reason: Reason, lib: Library)
    requires 0 < n <= |columns| && RowSoFar(columns, n - 1, given, partial, Success(values), lib)
    requires IsKey(columns[n - 1].key) && In(given, columns[n - 1].key)
    requires NormalizeValue(columns[n - 1], Get(given, columns[n - 1].key), lib) == Failure(reason)
    ensures FirstRefused(columns, n, given, n - 1, reason, lib)
  {
    hide IsGiven, NormalizeValue, IsKey, In, Get;
    OneGiven(given, columns[n - 1].key);
    forall j, v | 0 <= j < n - 1 && IsGiven(given, columns[j].key, v) ensures NormalizeValue(columns[j], v, lib).Success? {
      assert Contributes(columns[j], given, partial, values, lib);
    }
  }

  lemma {:induction false} ValuesExactly(columns: seq<Column>, n: nat, given: Record, partial: bool, lib: Library)
    requires n <= |columns| && AllOk(columns) && DistinctKeys(columns)
    ensures RowSoFar(columns, n, given, partial, ValuesOf(columns, n, given, partial, lib), lib)
  {
    hide NormalizeValue, ColumnOk, In, Get, Contributes, FirstRefused;
    if n > 0 {
      ValuesExactly(columns, n - 1, given, partial, lib);
      var c := columns[n - 1];
      OkKey(c);
      match ValuesOf(columns, n - 1, given, partial, lib)
      case Failure(reason) =>
        var i: nat :| FirstRefused(columns, n - 1, given, i, reason, lib);
        StillRefused(columns, n, given, i, reason, lib);
      case Success(values) =>
        if In(given, c.key) && NormalizeValue(c, Get(given, c.key), lib).Failure? {
          NowRefused(columns, n, given, partial, values, NormalizeValue(c, Get(given, c.key), lib).error, lib);
        } else {
          var v := if In(given, c.key) then NormalizeValue(c, Get(given, c.key), lib).value else Null;
          ColumnContributes(c, given, partial, values, v, lib);
          RowGoesOn(columns, n, given, partial, values,
            if !In(given, c.key) && partial then values else values[c.key := v], v, lib);
        }
    }
  }

  /**
   A write is accepted with exactly what its columns contribute, or refused for the
   first column whose value is; and for a name the schema does not have before all.
   */
  lemma RowExactly(columns: seq<Column>, input: Option<Record>, partial: bool, lib: Library)
    requires AllOk(columns) && DistinctKeys(columns)
    ensures
      match Normalized(columns, input, partial, lib)
      case Success(values) =>
        && input.Some? && (forall key :: key in input.value ==> exists i :: 0 <= i < |columns| && columns[i].key == key)
        && (forall i :: 0 <= i < |columns| ==> Contributes(columns[i], input.value, partial, values, lib))
        && forall key :: key in values ==> exists i :: 0 <= i < |columns| && columns[i].key == key
      case Failure(reason) =>
        if input.None? then reason == NotARecord
        else if exists key :: key in input.value && forall i :: 0 <= i < |columns| ==> columns[i].key != key then
          reason == UnknownColumn
        else exists i: nat :: FirstRefused(columns, |columns|, input.value, i, reason, lib)
  {
    hide ValuesOf, NormalizeValue, AllOk, DistinctKeys, Contributes, FirstRefused;
    if input.Some? {
      ValuesExactly(columns, |columns|, input.value, partial, lib);
      assert AllKnown(columns, input.value)
             <==> forall key :: key in input.value ==> exists i :: 0 <= i < |columns| && columns[i].key == key;
    }
  }

  // ---- whole schemas --------------------------------------------------------

  /** Column `i` of the result is what proposal `i` describes. */
  lemma {:induction false} ColumnsFollow(raws: seq<RawColumn>, columns: seq<Column>, lib: Library)
    requires CheckFrom(raws, columns, lib).Success?
    ensures
      var all := CheckFrom(raws, columns, lib).value;
      && |all| == |columns| + |raws| && all[..|columns|] == columns
      && forall i :: 0 <= i < |raws| ==> Proposes(raws[i], all[|columns| + i], lib)
    decreases |raws|
  {
    hide CheckColumn, Proposes, CountKeys;
    if raws != [] {
      var keys := KeysOf(columns);
      var column := CheckColumn(raws[0], keys, lib).value;
      CheckedColumnExactly(raws[0], keys, column, lib);
      ColumnsFollow(raws[1..], columns + [column], lib);
      var all := CheckFrom(raws, columns, lib).value;
      assert all[..|columns| + 1][..|columns|] == all[..|columns|];
      assert all[|columns|] == all[..|columns| + 1][|columns|] == column;
      forall i | 0 <= i < |raws| ensures Proposes(raws[i], all[|columns| + i], lib) {
        if i > 0 {
          assert raws[i] == raws[1..][i - 1];
        }
      }
    }
  }

  /** The columns accepted are those proposed, one for one and in order. */
  lemma SchemaFollows(input: Option<seq<RawColumn>>, lib: Library)
    requires Checked(input, lib).Success?
    ensures
      var columns := Checked(input, lib).value;
      && input.Some? && |columns| == |input.value|
      && forall i :: 0 <= i < |columns| ==> Proposes(input.value[i], columns[i], lib)
  {
    hide CheckFrom, Proposes;
    ColumnsFollow(input.value, [], lib);
  }

  /** The columns a schema may have so far: those proposed, each valid and with a key of its own. */
  ghost predicate Stand(raws: seq<RawColumn>, columns: seq<Column>, lib: Library) {
    && |columns| == |raws| && AllOk(columns) && DistinctKeys(columns)
    && forall i :: 0 <= i < |raws| ==> Proposes(raws[i], columns[i], lib)
  }

  /** Columns that stand are taken one after the other, up to what comes after them. */
  lemma {:induction false} CheckedSoFar(raws: seq<RawColumn>, columns: seq<Column>, n: nat, lib: Library)
    requires n <= |columns| <= |raws| && Stand(raws[..|columns|], columns, lib)
    ensures CheckFrom(raws[n..], columns[..n], lib) == CheckFrom(raws[|columns|..], columns, lib)
    decreases |columns| - n
  {
    hide CheckColumn, Proposes, CountKeys, ColumnOk;
    if n == |columns| {
      assert columns[..n] == columns;
    } else {
      var c := columns[n];
      assert raws[n] == raws[..|columns|][n];
      forall i | 0 <= i < n ensures columns[i].key != c.key {
      }
      assert c.key !in KeysOf(columns[..n]);
      CheckedColumnExactly(raws[n], KeysOf(columns[..n]), c, lib);
      CheckedSoFar(raws, columns, n + 1, lib);
      assert columns[..n] + [c] == columns[..n + 1] && raws[n..][1..] == raws[n + 1..];
    }
  }

  /**
   Proposals are accepted exactly when there are 1 to 64 of them and they describe
   valid columns with keys of their own, one of which is the key column.
   */
  lemma SchemaExactly(input: Option<seq<RawColumn>>, columns: seq<Column>, lib: Library)
    ensures Checked(input, lib) == Success(columns)
            <==> input.Some? && 1 <= |columns| <= 64 && Stand(input.value, columns, lib) && CountKeys(columns) == 1
  {
    hide CheckFrom, Proposes, ColumnOk, CountKeys, Stand;
    if Checked(input, lib) == Success(columns) {
      AcceptedIsSchema(input, lib);
      SchemaFollows(input, lib);
      assert Stand(input.value, columns, lib) by {
        Standing(input.value, columns, lib);
      }
    }
    if input.Some? && 1 <= |columns| <= 64 && Stand(input.value, columns, lib) && CountKeys(columns) == 1 {
      var raws := input.value;
      SameSize(raws, columns, lib);
      assert raws[0..] == raws && raws[..|columns|] == raws && columns[..0] == [] && raws[|columns|..] == [];
      CheckedSoFar(raws, columns, 0, lib);
      NothingLeft(columns, lib);
    }
  }

  /** Otherwise the first proposal that does not stand names the reason, or the key columns that are none or two. */
  lemma SchemaRefused(raws: seq<RawColumn>, columns: seq<Column>, lib: Library)
    requires |columns| <= |raws| && Stand(raws[..|columns|], columns, lib)
    ensures Checked(None, lib) == Failure(NoColumns) && (raws == [] ==> Checked(Some(raws), lib) == Failure(NoColumns))
    ensures |raws| > 64 ==> Checked(Some(raws), lib) == Failure(TooManyColumns)
    ensures 1 <= |raws| <= 64 && |columns| < |raws| ==>
              var next := CheckColumn(raws[|columns|], KeysOf(columns), lib);
              next.Failure? ==> Checked(Some(raws), lib) == Failure(next.error)
    ensures 1 <= |raws| <= 64 && |columns| == |raws| && (forall i :: 0 <= i < |columns| ==> !columns[i].isKey) ==>
              Checked(Some(raws), lib) == Failure(NoKeyColumn)
    ensures 1 <= |raws| <= 64 && |columns| == |raws|
            && (exists i, j :: 0 <= i < j < |columns| && columns[i].isKey && columns[j].isKey) ==>
              Checked(Some(raws), lib) == Failure(ManyKeyColumns)
  {
    hide CheckColumn, Proposes, ColumnOk, CountKeys, Stand;
    assert raws[0..] == raws && columns[..0] == [];
    CheckedSoFar(raws, columns, 0, lib);
    if forall i :: 0 <= i < |columns| ==> !columns[i].isKey {
      NoKeyCounted(columns);
    }
    if i, j :| 0 <= i < j < |columns| && columns[i].isKey && columns[j].isKey {
      CountedKeys(columns, i, j);
    }
  }

  lemma Standing(raws: seq<RawColumn>, columns: seq<Column>, lib: Library)
    requires |columns| == |raws| && AllOk(columns) && DistinctKeys(columns)
    requires forall i :: 0 <= i < |columns| ==> Proposes(raws[i], columns[i], lib)
    ensures Stand(raws, columns, lib)
  {
    hide Proposes, ColumnOk;
  }

  lemma SameSize(raws: seq<RawColumn>, columns: seq<Column>, lib: Library)
    requires Stand(raws, columns, lib)
    ensures |columns| == |raws|
  {
  }

  lemma NothingLeft(columns: seq<Column>, lib: Library)
    requires CountKeys(columns) == 1
    ensures CheckFrom([], columns, lib) == Success(columns)
  {
  }

  // ---- the parts of a proposal ----------------------------------------------

  /** A type is named by its own word and no other value. */
  lemma KindExactly(v: Value, k: ColumnType)
    ensures KindOf(v) == Some(k) <==> v == Str(KindText(k))
  {
  }

  /** A label is the trimmed text given, or the key when none is. */
  lemma TitleExactly(v: Value, key: string)
    ensures v.Str? && !AllSpaces(v.text) ==> TitleOf(v, key) == Trim(v.text)
    ensures !v.Str? || AllSpaces(v.text) ==> TitleOf(v, key) == key
  {
    hide Trim;
    EmptyExactly(v);
  }

  /** A scale is 10 when none is given, and otherwise the whole number from 1 to 1000 that the value reads as. */
  lemma ScaleExactly(v: Value, n: int, lib: Library)
    ensures ScaleOf(v, lib) == Some(n)
            <==> if v == Undefined || v == Null then n == 10
                 else 1 <= n <= 1_000 && lib.number(v).Finite? && lib.number(v).value == n as real
  {
    assert (n as real).Floor == n;
  }

  predicate FirstAt(items: seq<string>, item: string, i: nat) {
    i < |items| && items[i] == item && forall j :: 0 <= j < i ==> items[j] != item
  }

  /** What is listed first was mentioned first. */
  ghost predicate InFirstOrder(items: seq<string>, listed: seq<string>) {
    forall i, j, a: nat, b: nat ::
      0 <= i < j < |listed| && FirstAt(items, listed[i], a) && FirstAt(items, listed[j], b) ==> a < b
  }

  /** Options are listed once each, in the order of their first mention. */
  lemma {:induction false} UniqueExactly(items: seq<string>)
    ensures forall item :: item in Unique(items) <==> item in items
    ensures InFirstOrder(items, Unique(items))
  {
    if items != [] {
      var init, last := items[..|items| - 1], items[|items| - 1];
      UniqueExactly(init);
      assert items == init + [last];
      OrderGrows(init, last, Unique(init));
    }
  }

  lemma OrderGrows(init: seq<string>, last: string, listed: seq<string>)
    requires InFirstOrder(init, listed) && forall i :: 0 <= i < |listed| ==> listed[i] in init
    ensures InFirstOrder(init + [last], listed)
    ensures last !in init ==> InFirstOrder(init + [last], listed + [last])
  {
    hide FirstAt;
    var items := init + [last];
    forall i, j, a: nat, b: nat | 0 <= i < j < |listed| && FirstAt(items, listed[i], a) && FirstAt(items, listed[j], b)
      ensures a < b
    {
      FirstBefore(init, last, listed[i], a);
      FirstBefore(init, last, listed[j], b);
    }
    if last !in init {
      forall i, b: nat, a: nat | 0 <= i < |listed| && FirstAt(items, listed[i], a) && FirstAt(items, last, b)
        ensures a < b
      {
        FirstBefore(init, last, listed[i], a);
        FirstNew(init, last, b);
      }
    }
  }

  /** The first mention of what is in `init` is in `init`. */
  lemma FirstBefore(init: seq<string>, last: string, item: string, i: nat)
    requires item in init && FirstAt(init + [last], item, i)
    ensures i < |init| && FirstAt(init, item, i)
  {
    assert forall j :: 0 <= j < |init| ==> (init + [last])[j] == init[j];
  }

  lemma FirstNew(init: seq<string>, last: string, i: nat)
    requires last !in init && FirstAt(init + [last], last, i)
    ensures i == |init|
  {
  }

  // ---- why a proposal is refused --------------------------------------------

  /** The checks of one column in their order: the first that fails names the reason. */
  lemma ColumnRefused(raw: RawColumn, keys: set<string>, lib: Library)
    ensures
      var r := CheckColumn(raw, keys, lib);
      var key := if raw.RawColumn? && raw.key.Str? then Trim(raw.key.text) else "";
      && (r == Failure(NotAnObject) <==> raw.NoObject?)
      && (r == Failure(BadKey) <==> raw.RawColumn? && !IsKey(key))
      && (r == Failure(KeyTwice) <==> raw.RawColumn? && IsKey(key) && key in keys)
      && (r == Failure(LabelTooLong) <==> raw.RawColumn? && IsKey(key) && key !in keys && |TitleOf(raw.title, key)| > 80)
      && (r == Failure(BadType) ==> forall k :: raw.kind != Str(KindText(k)))
      && (r == Failure(NoOptions) ==> raw.kind == Str("enum") && OptionsOf(raw.options, lib) == [])
      && (r == Failure(TooManyOptions) ==> raw.kind == Str("enum") && |OptionsOf(raw.options, lib)| > 64)
      && (r == Failure(BadScale) ==> raw.kind == Str("rating") && ScaleOf(raw.scale, lib) == None)
      && (r == Failure(BadKeyType) ==> raw.isKey == Bool(true)
                                       && raw.kind != Str("text") && raw.kind != Str("number") && raw.kind != Str("url")
                                       && (raw.kind == Str("enum") ==> 1 <= |OptionsOf(raw.options, lib)| <= 64)
                                       && (raw.kind == Str("rating") ==> ScaleOf(raw.scale, lib) != None))
      && (r.Failure? ==> r.error in {NotAnObject, BadKey, KeyTwice, LabelTooLong, BadType, NoOptions, TooManyOptions,
                                     BadScale, BadKeyType})
  {
    hide Trim, IsKey, OptionsOf, ScaleOf, TitleOf;
    NoKey();
    if raw.RawColumn? && KindOf(raw.kind).Some? {
      KindExactly(raw.kind, KindOf(raw.kind).value);
    }
  }

  /** The same by code point. */
  lemma KeyExactly(key: string)
    ensures IsKey(key)
            <==> 1 <= |key| <= 64 && key[0] != '_' && !('0' <= key[0] <= '9')
                 && forall i :: 0 <= i < |key| ==>
                      97 <= key[i] as int <= 122 || 48 <= key[i] as int <= 57 || key[i] as int == 95
  {
  }

  /** Keys are 1 to 64 of a-z, 0-9 and the underscore, a letter first. */
  lemma KeysBounded()
    ensures IsKey("a") && IsKey("a_1") && !IsKey("_a") && !IsKey("1a") && !IsKey("A") && !IsKey("a-b")
    ensures forall n: nat :: IsKey(Run('a', n)) <==> 1 <= n <= 64
  {
    assert "a_1"[1] == '_' && "a_1"[2] == '1' && "a-b"[1] == '-';
  }

  function Run(c: char, n: nat): (s: string)
    ensures |s| == n && forall i :: 0 <= i < n ==> s[i] == c
  {
    seq(n, i => c)
  }

  // ---- rendering ------------------------------------------------------------

  /** A row shows nothing for a gap, words for booleans, items with a comma and a space between, and else the text. */
  lemma Rendered(v: Value, a: Value, b: Value, rest: seq<Value>, lib: Library)
    ensures RenderValue(Null, lib) == "" && RenderValue(Undefined, lib) == "" && RenderValue(Arr([]), lib) == ""
    ensures RenderValue(Bool(true), lib) == "yes" && RenderValue(Bool(false), lib) == "no"
    ensures v.Str? || v.Num? ==> RenderValue(v, lib) == lib.show(v)
    ensures RenderValue(Arr([a]), lib) == lib.show(a)
    ensures RenderValue(Arr([a, b] + rest), lib) == lib.show(a) + ", " + RenderValue(Arr([b] + rest), lib)
  {
    var texts := TextsOf([a, b] + rest, lib);
    assert TextsOf([a], lib) == [lib.show(a)];
    assert texts[0] == lib.show(a) && texts[1..] == TextsOf([b] + rest, lib);
    assert lib.show(a) + (", " + JoinComma(texts[1..])) == lib.show(a) + ", " + JoinComma(texts[1..]);
  }
}
