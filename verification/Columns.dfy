/** Values of the host language, as far as the column rules look at them. */
module Host {
  import opened Numbers
  import opened Wrappers
  import opened Text

  datatype Value =
    | Undefined
    | Null
    | Str(text: string)
    | Num(number: Number)
    | Bool(flag: bool)
    | Arr(items: seq<Value>)
    | Obj
    | Fn

  /** What the URL parser makes of a text. */
  datatype Url = Url(protocol: string, href: string)

  /** Foreign code: `String`, `Number`, `Date.parse`, `toISOString`, `new URL`, `toLowerCase`. */
  datatype Library = Library(
    show: Value -> string,
    number: Value -> Number,
    parseDate: string -> Option<int>,
    iso: int -> string,
    url: string -> Option<Url>,
    lower: string -> string)

  predicate IsDateOnly(s: string) {
    && |s| == 10 && s[4] == '-' && s[7] == '-'
    && AllDigits(s[..4]) && AllDigits(s[5..7]) && AllDigits(s[8..])
  }

  predicate Blank(s: string) {
    Trim(s) == ""
  }

  /** A text that trimming leaves alone and that holds something. */
  predicate Solid(s: string) {
    s != "" && Trimmed(s)
  }

  /** What ECMA-262 and the WHATWG URL standard promise of the foreign code. */
  ghost predicate Lawful(lib: Library) {
    && (forall s :: lib.show(Str(s)) == s)
    && (forall n: Number :: !Blank(lib.show(Num(n))))
    && (forall b :: !Blank(lib.show(Bool(b))))
    && (forall n: Number :: lib.number(Num(n)) == n)
    && (forall n: Number :: n.Finite? ==> Solid(lib.show(Num(n))) && lib.number(Str(lib.show(Num(n)))) == n)
    && lib.lower("yes") == "yes" && lib.lower("no") == "no"
    && (forall s :: lib.parseDate(s).Some? ==>
          var printed := lib.iso(lib.parseDate(s).value);
          Solid(printed) && !IsDateOnly(printed) && lib.parseDate(printed) == lib.parseDate(s))
    && lib.url("").None?
    && (forall s :: lib.url(s).Some? ==>
          var href := lib.url(s).value.href;
          Solid(href) && lib.url(href) == lib.url(s))
  }

  lemma TrimSolid(s: string)
    ensures Trim(s) == "" || Solid(Trim(s))
    ensures Trim(Trim(s)) == Trim(s)
    ensures Solid(s) ==> Trim(s) == s && !Blank(s)
  {
    TrimFixes(s);
    TrimFixes(Trim(s));
  }
}

/**
 The column rules of a collection (`core/features/collections/columns.ts`): what a
 schema may say, what a value may be, and the normal form both are brought to.
 */
module Columns {
  import opened Inherited
  import opened Numbers
  import opened Wrappers
  import opened Text
  import opened Host

  datatype ColumnType =
    | TextType | LongTextType | NumberType | DateType | UrlType | ImageType
    | ListType | EnumType | RatingType | BooleanType

  datatype Column = Column(
    key: string,
    title: string,
    kind: ColumnType,
    options: Option<seq<string>>,
    scale: Option<int>,
    isKey: bool,
    requiredForComplete: bool)

  const MAX_COLUMNS := 64
  const MAX_LABEL_LENGTH := 80
  const MAX_ENUM_OPTIONS := 64
  const MAX_TEXT_LENGTH := 2_000
  const MAX_LONG_TEXT_LENGTH := 20_000
  const MAX_LIST_ITEMS := 200
  const DEFAULT_RATING_SCALE := 10
  const MAX_RATING_SCALE := 1_000

  datatype Reason =
    | NoColumns | TooManyColumns | NotAnObject | BadKey | KeyTwice | LabelTooLong | BadType
    | NoOptions | TooManyOptions | BadScale | BadKeyType | NoKeyColumn | ManyKeyColumns
    | NotText | TooLong | NotANumber | NotADate | NotAUrl | NotAList | TooManyItems
    | NotAnOption | NotARating | NotABoolean | NotARecord | UnknownColumn | KeyEmpty

  function RatingScale(c: Column): int {
    if c.scale.Some? then c.scale.value else DEFAULT_RATING_SCALE
  }

  predicate IsEmptyValue(v: Value) {
    v == Undefined || v == Null || (v.Str? && Blank(v.text)) || (v.Arr? && v.items == [])
  }

  // ---- the schema -----------------------------------------------------------

  /** `^[a-z][a-z0-9_]{0,63}$` */
  predicate IsKey(key: string) {
    && 1 <= |key| <= 64 && 'a' <= key[0] <= 'z'
    && forall i :: 1 <= i < |key| ==> 'a' <= key[i] <= 'z' || IsDigit(key[i]) || key[i] == '_'
  }

  /** A proposed column: the fields an object has, or no object. */
  datatype RawColumn =
    | NoObject
    | RawColumn(key: Value, title: Value, kind: Value, options: Value, scale: Value, isKey: Value, required: Value)

  function KindOf(v: Value): Option<ColumnType> {
    if !v.Str? then None
    else if v.text == "text" then Some(TextType)
    else if v.text == "long_text" then Some(LongTextType)
    else if v.text == "number" then Some(NumberType)
    else if v.text == "date" then Some(DateType)
    else if v.text == "url" then Some(UrlType)
    else if v.text == "image" then Some(ImageType)
    else if v.text == "list" then Some(ListType)
    else if v.text == "enum" then Some(EnumType)
    else if v.text == "rating" then Some(RatingType)
    else if v.text == "boolean" then Some(BooleanType)
    else None
  }

  function KindText(k: ColumnType): string {
    match k
    case TextType => "text"
    case LongTextType => "long_text"
    case NumberType => "number"
    case DateType => "date"
    case UrlType => "url"
    case ImageType => "image"
    case ListType => "list"
    case EnumType => "enum"
    case RatingType => "rating"
    case BooleanType => "boolean"
  }

  predicate Keyable(k: ColumnType) {
    k == TextType || k == NumberType || k == UrlType
  }

  /** `String(item).trim()` of each item, the empty ones dropped. */
  function Items(values: seq<Value>, lib: Library): seq<string> {
    if values == [] then []
    else
      var item := Trim(lib.show(values[0]));
      (if item != "" then [item] else []) + Items(values[1..], lib)
  }

  /** `[...new Set(items)]` */
  function Unique(items: seq<string>): seq<string> {
    if items == [] then []
    else
      var init := Unique(items[..|items| - 1]);
      var last := items[|items| - 1];
      if last in init then init else init + [last]
  }

  function OptionsOf(v: Value, lib: Library): seq<string> {
    if v.Arr? then Unique(Items(v.items, lib)) else []
  }

  /** A whole number from 1 to the largest scale. */
  function ScaleOf(v: Value, lib: Library): Option<int> {
    if v == Undefined || v == Null then Some(DEFAULT_RATING_SCALE)
    else
      match lib.number(v)
      case NotFinite => None
      case Finite(n) =>
        if n == n.Floor as real && 1 <= n.Floor <= MAX_RATING_SCALE then Some(n.Floor) else None
  }

  function TitleOf(v: Value, key: string): string {
    if v.Str? && Trim(v.text) != "" then Trim(v.text) else key
  }

  /** One turn of the loop of `checkColumns`, when the keys so far are `keys`. */
  function CheckColumn(raw: RawColumn, keys: set<string>, lib: Library): Result<Column, Reason> {
    if raw.NoObject? then Failure(NotAnObject)
    else
      var key := if raw.key.Str? then Trim(raw.key.text) else "";
      if !IsKey(key) then Failure(BadKey)
      else if key in keys then Failure(KeyTwice)
      else
        var title := TitleOf(raw.title, key);
        if |title| > MAX_LABEL_LENGTH then Failure(LabelTooLong)
        else if KindOf(raw.kind).None? then Failure(BadType)
        else
          var kind := KindOf(raw.kind).value;
          var options := OptionsOf(raw.options, lib);
          var scale := ScaleOf(raw.scale, lib);
          var isKey := raw.isKey == Bool(true);
          if kind == EnumType && options == [] then Failure(NoOptions)
          else if kind == EnumType && |options| > MAX_ENUM_OPTIONS then Failure(TooManyOptions)
          else if kind == RatingType && scale.None? then Failure(BadScale)
          else if isKey && !Keyable(kind) then Failure(BadKeyType)
          else
            Success(Column(
              key, title, kind,
              if kind == EnumType then Some(options) else None,
              if kind == RatingType then scale else None,
              isKey, raw.required == Bool(true)))
  }

  function KeysOf(columns: seq<Column>): set<string> {
    set i | 0 <= i < |columns| :: columns[i].key
  }

  function CountKeys(columns: seq<Column>): nat {
    if columns == [] then 0
    else CountKeys(columns[..|columns| - 1]) + if columns[|columns| - 1].isKey then 1 else 0
  }

  function CheckFrom(raws: seq<RawColumn>, columns: seq<Column>, lib: Library): Result<seq<Column>, Reason> {
    if raws == [] then
      if CountKeys(columns) == 1 then Success(columns)
      else if CountKeys(columns) == 0 then Failure(NoKeyColumn)
      else Failure(ManyKeyColumns)
    else
      match CheckColumn(raws[0], KeysOf(columns), lib)
      case Failure(reason) => Failure(reason)
      case Success(column) => CheckFrom(raws[1..], columns + [column], lib)
  }

  /** What `checkColumns` computes; the input may be no array. */
  function Checked(input: Option<seq<RawColumn>>, lib: Library): Result<seq<Column>, Reason> {
    if input.None? || input.value == [] then Failure(NoColumns)
    else if |input.value| > MAX_COLUMNS then Failure(TooManyColumns)
    else CheckFrom(input.value, [], lib)
  }

  method CheckColumns(input: Option<seq<RawColumn>>, lib: Library) returns (r: Result<seq<Column>, Reason>)
    ensures r == Checked(input, lib)
  {
    hide CheckColumn;
    if input.None? || input.value == [] {
      return Failure(NoColumns);
    }
    var raws := input.value;
    if |raws| > MAX_COLUMNS {
      return Failure(TooManyColumns);
    }
    var columns: seq<Column>, keys: set<string>, keyColumns := [], {}, 0;
    assert raws[0..] == raws;
    for i := 0 to |raws|
      invariant keys == KeysOf(columns) && keyColumns == CountKeys(columns)
      invariant CheckFrom(raws, [], lib) == CheckFrom(raws[i..], columns, lib)
    {
      assert raws[i..][1..] == raws[i + 1..];
      var checked := CheckColumn(raws[i], keys, lib);
      if checked.Failure? {
        return Failure(checked.error);
      }
      var column := checked.value;
      CountMore(columns, column);
      keys := keys + {column.key};
      if column.isKey {
        keyColumns := keyColumns + 1;
      }
      columns := columns + [column];
    }
    r := if keyColumns == 1 then Success(columns)
         else if keyColumns == 0 then Failure(NoKeyColumn) else Failure(ManyKeyColumns);
  }

  lemma CountMore(columns: seq<Column>, column: Column)
    ensures KeysOf(columns + [column]) == KeysOf(columns) + {column.key}
    ensures CountKeys(columns + [column]) == CountKeys(columns) + if column.isKey then 1 else 0
  {
    var all := columns + [column];
    assert all[..|columns|] == columns;
    assert forall i :: 0 <= i < |columns| ==> all[i] == columns[i];
    assert all[|columns|] == column;
  }

  // ---- values ---------------------------------------------------------------

  predicate IsBreak(c: char) {
    c == ',' || c == ';' || c == '\n'
  }

  /** `s.split(/[,;\n]/)` */
  function SplitItems(s: string): (pieces: seq<string>)
    ensures pieces != []
  {
    if s == "" then [""]
    else
      var rest := SplitItems(s[1..]);
      if IsBreak(s[0]) then [""] + rest else [[s[0]] + rest[0]] + rest[1..]
  }

  /** `option` whose lower-cased text is `text`, the first one. */
  function FindOption(options: seq<string>, text: string, lib: Library): Option<string> {
    if options == [] then None
    else if lib.lower(options[0]) == text then Some(options[0])
    else FindOption(options[1..], text, lib)
  }

  function CheckUrl(v: Value, lib: Library): Result<Value, Reason> {
    var text := if v.Str? then Trim(v.text) else "";
    match lib.url(text)
    case None => Failure(NotAUrl)
    case Some(url) => if url.protocol == "http:" || url.protocol == "https:" then Success(Str(url.href)) else Failure(NotAUrl)
  }

  function NumberOfValue(v: Value, lib: Library): Number {
    if v.Num? then v.number else if v.Str? then lib.number(Str(Trim(v.text))) else NotFinite
  }

  function TextOfValue(v: Value, lib: Library): Option<string> {
    if v.Str? then Some(v.text) else if v.Num? || v.Bool? then Some(lib.show(v)) else None
  }

  function StringValues(items: seq<string>): seq<Value> {
    seq(|items|, i requires 0 <= i < |items| => Str(items[i]))
  }

  function ItemsOfValue(v: Value, lib: Library): Option<seq<string>> {
    if v.Arr? then Some(Items(v.items, lib))
    else if v.Str? then Some(Items(StringValues(SplitItems(v.text)), lib))
    else None
  }

  predicate SaysTrue(s: string) {
    s == "true" || s == "yes" || s == "y" || s == "1"
  }

  predicate SaysFalse(s: string) {
    s == "false" || s == "no" || s == "n" || s == "0"
  }

  function NormalText(v: Value, max: nat, lib: Library): Result<Value, Reason> {
    match TextOfValue(v, lib)
    case None => Failure(NotText)
    case Some(text) => if |text| > max then Failure(TooLong) else Success(Str(Trim(text)))
  }

  function NormalDate(v: Value, lib: Library): Result<Value, Reason> {
    var text := if v.Str? then Trim(v.text) else "";
    if text == "" || lib.parseDate(text).None? then Failure(NotADate)
    else Success(Str(if IsDateOnly(text) then text else lib.iso(lib.parseDate(text).value)))
  }

  function NormalList(v: Value, lib: Library): Result<Value, Reason> {
    match ItemsOfValue(v, lib)
    case None => Failure(NotAList)
    case Some(items) =>
      if |items| > MAX_LIST_ITEMS then Failure(TooManyItems)
      else Success(if items != [] then Arr(StringValues(items)) else Null)
  }

  function NormalOption(v: Value, options: seq<string>, lib: Library): Result<Value, Reason> {
    var text := if v.Str? then Trim(v.text) else lib.show(v);
    match FindOption(options, lib.lower(text), lib)
    case Some(option) => if option == "" then Failure(NotAnOption) else Success(Str(option))
    case None => Failure(NotAnOption)
  }

  function NormalBoolean(v: Value, lib: Library): Result<Value, Reason> {
    if v.Bool? then Success(v)
    else
      var text := if v.Str? then lib.lower(Trim(v.text)) else "";
      if SaysTrue(text) then Success(Bool(true))
      else if SaysFalse(text) then Success(Bool(false))
      else Failure(NotABoolean)
  }

  /** `normalizeValue` */
  function NormalizeValue(c: Column, v: Value, lib: Library): Result<Value, Reason> {
    if IsEmptyValue(v) then Success(Null)
    else
      match c.kind
      case TextType => NormalText(v, MAX_TEXT_LENGTH, lib)
      case LongTextType => NormalText(v, MAX_LONG_TEXT_LENGTH, lib)
      case NumberType =>
        var n := NumberOfValue(v, lib);
        if n == NotFinite then Failure(NotANumber) else Success(Num(n))
      case DateType => NormalDate(v, lib)
      case UrlType => CheckUrl(v, lib)
      case ImageType => CheckUrl(v, lib)
      case ListType => NormalList(v, lib)
      case EnumType => NormalOption(v, if c.options.Some? then c.options.value else [], lib)
      case RatingType =>
        var n := NumberOfValue(v, lib);
        if n == NotFinite || n.value < 0.0 || n.value > RatingScale(c) as real then Failure(NotARating)
        else Success(Num(n))
      case BooleanType => NormalBoolean(v, lib)
  }

  // ---- rows -----------------------------------------------------------------

  type Record = map<string, Value>

  /** `key in record`, inherited names included. */
  predicate In(record: Record, key: string) {
    key in record || Inherits(key)
  }

  /** What a record inherits under a name: its prototype, or one of the functions there. */
  function InheritedValue(key: string): Value {
    if key == "__proto__" then Obj else Fn
  }

  /** `record[key]` */
  function Get(record: Record, key: string): Value {
    if key in record then record[key] else if Inherits(key) then InheritedValue(key) else Undefined
  }

  predicate AllKnown(columns: seq<Column>, given: Record) {
    forall key :: key in given ==> key in KeysOf(columns)
  }

  /** The values of the first `n` columns, or why one of them is refused, the first one that is. */
  function ValuesOf(columns: seq<Column>, n: nat, given: Record, partial: bool, lib: Library): Result<Record, Reason>
    requires n <= |columns|
  {
    if n == 0 then Success(map[])
    else
      match ValuesOf(columns, n - 1, given, partial, lib)
      case Failure(reason) => Failure(reason)
      case Success(values) =>
        var c := columns[n - 1];
        if !In(given, c.key) then Success(if partial then values else values[c.key := Null])
        else
          match NormalizeValue(c, Get(given, c.key), lib)
          case Failure(reason) => Failure(reason)
          case Success(v) => Success(values[c.key := v])
  }

  /** What `normalizeValues` computes; the input may be no object. */
  function Normalized(columns: seq<Column>, input: Option<Record>, partial: bool, lib: Library): Result<Record, Reason> {
    if input.None? then Failure(NotARecord)
    else if !AllKnown(columns, input.value) then Failure(UnknownColumn)
    else ValuesOf(columns, |columns|, input.value, partial, lib)
  }

  method NormalizeValues(columns: seq<Column>, input: Option<Record>, partial: bool, lib: Library)
    returns (r: Result<Record, Reason>)
    ensures r == Normalized(columns, input, partial, lib)
  {
    hide NormalizeValue;
    if input.None? {
      return Failure(NotARecord);
    }
    var given := input.value;
    if !AllKnown(columns, given) {
      return Failure(UnknownColumn);
    }
    var values: Record := map[];
    for i := 0 to |columns|
      invariant ValuesOf(columns, i, given, partial, lib) == Success(values)
    {
      var column := columns[i];
      if !In(given, column.key) {
        if !partial {
          values := values[column.key := Null];
        }
      } else {
        var checked := NormalizeValue(column, Get(given, column.key), lib);
        if checked.Failure? {
          FailsEarly(columns, i + 1, given, partial, lib);
          return Failure(checked.error);
        }
        values := values[column.key := checked.value];
      }
    }
    r := Success(values);
  }

  lemma {:induction false} FailsEarly(columns: seq<Column>, n: nat, given: Record, partial: bool, lib: Library)
    requires n <= |columns| && ValuesOf(columns, n, given, partial, lib).Failure?
    ensures ValuesOf(columns, |columns|, given, partial, lib) == ValuesOf(columns, n, given, partial, lib)
    decreases |columns| - n
  {
    hide NormalizeValue;
    if n < |columns| {
      FailsEarly(columns, n + 1, given, partial, lib);
    }
  }

  /** `items.join(", ")` */
  function JoinComma(items: seq<string>): string {
    if |items| == 0 then "" else if |items| == 1 then items[0] else items[0] + (", " + JoinComma(items[1..]))
  }

  /** The texts of a list as a row holds it. */
  function TextsOf(items: seq<Value>, lib: Library): seq<string> {
    seq(|items|, i requires 0 <= i < |items| => lib.show(items[i]))
  }

  /** `renderValue` */
  function RenderValue(v: Value, lib: Library): string {
    if v == Null || v == Undefined then ""
    else if v.Arr? then JoinComma(TextsOf(v.items, lib))
    else if v.Bool? then (if v.flag then "yes" else "no")
    else lib.show(v)
  }

  /** `value ?? null` */
  function Coalesce(v: Value): Value {
    if v == Undefined then Null else v
  }

  /** What `reshapeValues` computes. */
  function Reshaped(columns: seq<Column>, values: Record): Record {
    map key | key in KeysOf(columns) :: Coalesce(Get(values, key))
  }

  method ReshapeValues(columns: seq<Column>, values: Record) returns (next: Record)
    ensures next == Reshaped(columns, values)
  {
    next := map[];
    for i := 0 to |columns|
      invariant next == Reshaped(columns[..i], values)
    {
      assert columns[..i + 1] == columns[..i] + [columns[i]];
      CountMore(columns[..i], columns[i]);
      next := next[columns[i].key := Coalesce(Get(values, columns[i].key))];
    }
    assert columns[..|columns|] == columns;
  }

  /** `isComplete` */
  predicate IsComplete(columns: seq<Column>, values: Record) {
    forall i :: 0 <= i < |columns| ==> !columns[i].requiredForComplete || !IsEmptyValue(Get(values, columns[i].key))
  }

  /** `gapsOf` */
  function GapsOf(columns: seq<Column>, values: Record): seq<string> {
    if columns == [] then []
    else
      (if columns[0].requiredForComplete && IsEmptyValue(Get(values, columns[0].key)) then [columns[0].key] else [])
      + GapsOf(columns[1..], values)
  }

  /** `keyColumnOf`; none when it throws. */
  function KeyColumnOf(columns: seq<Column>): Option<Column> {
    if columns == [] then None else if columns[0].isKey then Some(columns[0]) else KeyColumnOf(columns[1..])
  }

  /** `keyValueOf`; none when `keyColumnOf` throws. */
  function KeyValueOf(columns: seq<Column>, values: Record, lib: Library): Option<Result<string, Reason>> {
    match KeyColumnOf(columns)
    case None => None
    case Some(c) =>
      var v := Get(values, c.key);
      Some(if IsEmptyValue(v) then Failure(KeyEmpty) else Success(Trim(lib.show(v))))
  }
}
