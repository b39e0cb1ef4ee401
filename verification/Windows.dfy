/**
 Reading a document in windows (`core/features/documents/read.ts`): rows of the
 tabular formats, characters of the text ones.
 */
module Windows {
  import opened Numbers
  import opened Wrappers
  import opened Bytes
  import opened Text
  import opened Csv
  import opened Delimited

  datatype Sheet = Sheet(name: string, rows: seq<seq<string>>)

  /** The foreign decoders: UTF-8, and a workbook, which may not be one. */
  datatype Decoders = Decoders(utf8: seq<byte> -> string, workbook: seq<byte> -> Result<seq<Sheet>, string>)

  datatype SheetChoice = Unspecified | ByIndex(index: real) | ByName(name: string)

  datatype ReadOptions = ReadOptions(offset: Option<real>, limit: Option<Number>, sheet: SheetChoice)

  datatype Format = CsvFile | TsvFile | XlsxFile | JsonFile | TxtFile | MdFile

  datatype DocumentWindow =
    | TabularWindow(
        format: Format, sheets: seq<string>, sheet: string, header: Option<seq<string>>,
        rows: seq<seq<string>>, offset: nat, totalRows: nat, hasMore: bool)
    | TextWindow(format: Format, text: string, offset: nat, totalChars: nat, hasMore: bool)

  const MAX_ROWS_PER_WINDOW := 200
  const DEFAULT_ROWS_PER_WINDOW := 50
  const MAX_CHARS_PER_WINDOW := 20_000
  const DEFAULT_CHARS_PER_WINDOW := 6_000

  function Max(a: int, b: int): int {
    if a < b then b else a
  }

  function Min(a: int, b: int): int {
    if a < b then a else b
  }

  /** `clamp` */
  function Clamp(value: Option<Number>, fallback: int, max: int): int {
    match value
    case Some(Finite(v)) => Max(1, Min(max, v.Floor))
    case _ => fallback
  }

  /** `xs.slice(from, to)` for bounds that are not negative. */
  function Slice<T>(xs: seq<T>, from: nat, to: nat): seq<T>
    requires from <= to
  {
    xs[Min(from, |xs|)..Min(to, |xs|)]
  }

  function Offset(options: ReadOptions): nat {
    match options.offset
    case None => 0
    case Some(v) => Max(0, v.Floor)
  }

  // ---- the header -----------------------------------------------------------

  predicate DigitRun(s: string) {
    s != "" && AllDigits(s)
  }

  predicate UnsignedText(s: string) {
    || DigitRun(s)
    || exists i :: 0 <= i < |s| && s[i] == '.' && DigitRun(s[..i]) && DigitRun(s[i + 1..])
  }

  /** `/^-?\d+(\.\d+)?$/` */
  predicate NumberText(s: string) {
    UnsignedText(s) || (s != "" && s[0] == '-' && UnsignedText(s[1..]))
  }

  /** A row of text in every cell: the shape an export's column names have. */
  predicate LooksLikeHeader(row: seq<string>) {
    row != [] && forall i :: 0 <= i < |row| ==> Trim(row[i]) != "" && !NumberText(Trim(row[i]))
  }

  function HeaderOf(rows: seq<seq<string>>): Option<seq<string>> {
    if rows != [] && LooksLikeHeader(rows[0]) then Some(rows[0]) else None
  }

  function DataOf(rows: seq<seq<string>>): seq<seq<string>> {
    if HeaderOf(rows).Some? then rows[1..] else rows
  }

  // ---- the windows ----------------------------------------------------------

  function FindSheet(sheets: seq<Sheet>, name: string): Option<Sheet> {
    if sheets == [] then None
    else if sheets[0].name == name then Some(sheets[0])
    else FindSheet(sheets[1..], name)
  }

  function PickedSheet(sheets: seq<Sheet>, choice: SheetChoice): Sheet {
    var first := if sheets != [] then sheets[0] else Sheet("Sheet1", []);
    match choice
    case Unspecified => first
    case ByName(name) => (match FindSheet(sheets, name) case Some(s) => s case None => first)
    case ByIndex(index) =>
      if index == index.Floor as real && 0 <= index.Floor < |sheets| then sheets[index.Floor] else first
  }

  function SheetNames(sheets: seq<Sheet>): seq<string> {
    seq(|sheets|, i requires 0 <= i < |sheets| => sheets[i].name)
  }

  /** `tabularWindow` */
  function TableWindow(format: Format, sheets: seq<Sheet>, options: ReadOptions): DocumentWindow {
    var sheet := PickedSheet(sheets, options.sheet);
    var data := DataOf(sheet.rows);
    var offset := Offset(options);
    var limit := Clamp(options.limit, DEFAULT_ROWS_PER_WINDOW, MAX_ROWS_PER_WINDOW);
    var rows := Slice(data, offset, offset + limit);
    TabularWindow(
      format, SheetNames(sheets), sheet.name, HeaderOf(sheet.rows), rows, offset, |data|, offset + |rows| < |data|)
  }

  /** `textWindow` */
  function CharWindow(format: Format, text: string, options: ReadOptions): DocumentWindow {
    var offset := Offset(options);
    var limit := Clamp(options.limit, DEFAULT_CHARS_PER_WINDOW, MAX_CHARS_PER_WINDOW);
    var slice := Slice(text, offset, offset + limit);
    TextWindow(format, slice, offset, |text|, offset + |slice| < |text|)
  }

  /** `decodeText` */
  function DecodeText(bytes: seq<byte>, decoders: Decoders): string {
    StripBom(decoders.utf8(bytes))
  }

  /** The sheets of a tabular document, and the failure of a workbook that is none. */
  function SheetsOf(bytes: seq<byte>, format: Format, decoders: Decoders): Result<seq<Sheet>, string>
    requires format == CsvFile || format == TsvFile || format == XlsxFile
  {
    match format
    case CsvFile => Success([Sheet("Sheet1", Delimit(DecodeText(bytes, decoders), ','))])
    case TsvFile => Success([Sheet("Sheet1", Delimit(DecodeText(bytes, decoders), '\t'))])
    case XlsxFile => decoders.workbook(bytes)
  }

  predicate Tabular(format: Format) {
    format == CsvFile || format == TsvFile || format == XlsxFile
  }

  /** `readDocumentWindow` */
  function ReadDocumentWindow(bytes: seq<byte>, format: Format, options: ReadOptions, decoders: Decoders)
    : Result<DocumentWindow, string>
  {
    if Tabular(format) then
      match SheetsOf(bytes, format, decoders)
      case Failure(error) => Failure(error)
      case Success(sheets) => Success(TableWindow(format, sheets, options))
    else Success(CharWindow(format, DecodeText(bytes, decoders), options))
  }
}

/** Paging: the windows of a document put together are the document. */
module Paging {
  import opened Numbers
  import opened Wrappers
  import opened Bytes
  import opened Text
  import opened Csv
  import opened CsvRoundTrip
  import opened Delimited
  import opened DelimitedLaws
  import opened Windows

  /** How a caller pages: the offset it got, any limit it likes, the same sheet. */
  function PageOptions(offset: nat, limit: Option<Number>, sheet: SheetChoice): ReadOptions {
    ReadOptions(Some(offset as real), limit, sheet)
  }

  lemma OffsetKept(offset: nat, limit: Option<Number>, sheet: SheetChoice)
    ensures Offset(PageOptions(offset, limit, sheet)) == offset
  {
    assert (offset as real).Floor == offset;
  }

  /** A window that promises more is not empty, so paging moves on. */
  lemma WindowAdvances(format: Format, sheets: seq<Sheet>, offset: nat, limit: Option<Number>, sheet: SheetChoice)
    ensures
      var w := TableWindow(format, sheets, PageOptions(offset, limit, sheet));
      var data := DataOf(PickedSheet(sheets, sheet).rows);
      && w.offset == offset && w.totalRows == |data|
      && (offset <= |data| ==> offset + |w.rows| <= |data| && w.rows == data[offset..offset + |w.rows|])
      && (w.hasMore ==> |w.rows| > 0)
      && (!w.hasMore && offset <= |data| ==> w.rows == data[offset..])
  {
    hide DataOf, HeaderOf, PickedSheet, SheetNames;
    OffsetKept(offset, limit, sheet);
  }

  /** No window is over its cap, one of the default size is asked for by saying nothing, and a limit within the cap is met. */
  lemma WindowSize(format: Format, sheets: seq<Sheet>, offset: nat, limit: Option<Number>, sheet: SheetChoice)
    ensures
      var w := TableWindow(format, sheets, PageOptions(offset, limit, sheet));
      var left := |DataOf(PickedSheet(sheets, sheet).rows)| - offset;
      && |w.rows| <= 200
      && (limit.None? || limit.value.NotFinite? ==> |w.rows| == Max(0, Min(left, 50)))
      && (limit.Some? && limit.value.Finite? && 1.0 <= limit.value.value <= 200.0 ==>
            |w.rows| == Max(0, Min(left, limit.value.value.Floor)))
      && (limit.Some? && limit.value.Finite? && limit.value.value < 1.0 ==> |w.rows| == Max(0, Min(left, 1)))
      && (limit.Some? && limit.value.Finite? && 200.0 < limit.value.value ==> |w.rows| == Max(0, Min(left, 200)))
  {
    hide DataOf, HeaderOf, PickedSheet, SheetNames;
    OffsetKept(offset, limit, sheet);
  }

  /** The same for texts, by character. */
  lemma TextWindowSize(format: Format, text: string, offset: nat, limit: Option<Number>, sheet: SheetChoice)
    ensures
      var w := CharWindow(format, text, PageOptions(offset, limit, sheet));
      var left := |text| - offset;
      && w.offset == offset && w.totalChars == |text| && w.format == format
      && (offset <= |text| ==> offset + |w.text| <= |text| && w.text == text[offset..offset + |w.text|])
      && (w.hasMore <==> offset + |w.text| < |text|)
      && (limit.None? || limit.value.NotFinite? ==> |w.text| == Max(0, Min(left, 6_000)))
      && (limit.Some? && limit.value.Finite? && 1.0 <= limit.value.value <= 20_000.0 ==>
            |w.text| == Max(0, Min(left, limit.value.value.Floor)))
      && (limit.Some? && limit.value.Finite? && limit.value.value < 1.0 ==> |w.text| == Max(0, Min(left, 1)))
      && (limit.Some? && limit.value.Finite? && 20_000.0 < limit.value.value ==> |w.text| == Max(0, Min(left, 20_000)))
  {
    OffsetKept(offset, limit, sheet);
  }

  // ---- the header -----------------------------------------------------------

  /** A decimal number as text. */
  function Printed(negative: bool, whole: nat, fraction: Option<nat>): string {
    (if negative then "-" else "") + Decimal(whole) + if fraction.Some? then "." + Decimal(fraction.value) else ""
  }

  lemma PointIsNumber(whole: string, fraction: string)
    requires DigitRun(whole) && DigitRun(fraction)
    ensures UnsignedText(whole + ("." + fraction))
  {
    hide DigitRun;
    var s := whole + ("." + fraction);
    var i := |whole|;
    assert s[i] == '.' && s[..i] == whole && s[i + 1..] == fraction;
  }

  lemma MinusIsNumber(digits: string)
    requires UnsignedText(digits)
    ensures NumberText("-" + digits) && NumberText(digits)
  {
    hide UnsignedText;
    assert ("-" + digits)[1..] == digits;
  }

  lemma PrintedIsNumber(negative: bool, whole: nat, fraction: Option<nat>)
    ensures NumberText(Printed(negative, whole, fraction))
  {
    hide Decimal, UnsignedText, NumberText;
    var w := Decimal(whole);
    var tail := if fraction.Some? then "." + Decimal(fraction.value) else "";
    assert UnsignedText(w + tail) by {
      if fraction.Some? {
        PointIsNumber(w, Decimal(fraction.value));
      } else {
        assert w + tail == w;
        DigitsAreNumber(w);
      }
    }
    MinusIsNumber(w + tail);
    assert "-" + w + tail == "-" + (w + tail) && "" + w + tail == w + tail;
  }

  lemma DigitsAreNumber(s: string)
    requires DigitRun(s)
    ensures UnsignedText(s)
  {
  }

  /** The first row is the header or the first of the data: none is lost either way. */
  lemma NoRowMislaid(rows: seq<seq<string>>)
    ensures (if HeaderOf(rows).Some? then [HeaderOf(rows).value] else []) + DataOf(rows) == rows
  {
    hide LooksLikeHeader;
  }

  /** A first row with a blank cell, or with a number in one, is data from row one. */
  lemma NumbersAreData(rows: seq<seq<string>>, i: nat, negative: bool, whole: nat, fraction: Option<nat>)
    requires rows != [] && i < |rows[0]|
    requires Trim(rows[0][i]) == "" || Trim(rows[0][i]) == Printed(negative, whole, fraction)
    ensures HeaderOf(rows) == None && DataOf(rows) == rows
  {
    hide Trim, NumberText, Printed;
    PrintedIsNumber(negative, whole, fraction);
  }

  /** The windows from an offset on, asked for while there is more; call `k` uses limit `limits(k)`. */
  function RowPages(format: Format, sheets: seq<Sheet>, sheet: SheetChoice, limits: nat -> Option<Number>, k: nat, offset: nat)
    : seq<DocumentWindow>
    decreases |DataOf(PickedSheet(sheets, sheet).rows)| - offset
  {
    var w := TableWindow(format, sheets, PageOptions(offset, limits(k), sheet));
    WindowAdvances(format, sheets, offset, limits(k), sheet);
    if w.hasMore then [w] + RowPages(format, sheets, sheet, limits, k + 1, offset + |w.rows|) else [w]
  }

  function RowsOf(pages: seq<DocumentWindow>): seq<seq<string>>
    requires forall i :: 0 <= i < |pages| ==> pages[i].TabularWindow?
  {
    if pages == [] then [] else pages[0].rows + RowsOf(pages[1..])
  }

  /** The windows put together are the rows from the offset on, and all carry the header and the total. */
  lemma {:induction false} RowPagesCover(
      format: Format, sheets: seq<Sheet>, sheet: SheetChoice, limits: nat -> Option<Number>, k: nat, offset: nat)
    requires offset <= |DataOf(PickedSheet(sheets, sheet).rows)|
    ensures
      var all := PickedSheet(sheets, sheet).rows;
      var pages := RowPages(format, sheets, sheet, limits, k, offset);
      && (forall i :: 0 <= i < |pages| ==> pages[i].TabularWindow?)
      && (forall i :: 0 <= i < |pages| ==>
            pages[i].header == HeaderOf(all) && pages[i].totalRows == |DataOf(all)|)
      && RowsOf(pages) == DataOf(all)[offset..]
      && 1 <= |pages| <= Max(1, |DataOf(all)| - offset)
    decreases |DataOf(PickedSheet(sheets, sheet).rows)| - offset
  {
    hide DataOf, HeaderOf, PickedSheet, SheetNames, Slice, Clamp;
    var data := DataOf(PickedSheet(sheets, sheet).rows);
    var w := TableWindow(format, sheets, PageOptions(offset, limits(k), sheet));
    WindowAdvances(format, sheets, offset, limits(k), sheet);
    if w.hasMore {
      RowPagesCover(format, sheets, sheet, limits, k + 1, offset + |w.rows|);
      var rest := RowPages(format, sheets, sheet, limits, k + 1, offset + |w.rows|);
      assert ([w] + rest)[1..] == rest;
      assert data[offset..] == w.rows + data[offset + |w.rows|..];
    } else {
      assert [w][1..] == [];
      var pages := RowPages(format, sheets, sheet, limits, k, offset);
      assert pages == [w] && w.TabularWindow? && pages[0] == w;
      assert RowsOf(pages) == w.rows + RowsOf([]);
    }
  }

  // ---- text documents -------------------------------------------------------

  lemma SliceAdvances(format: Format, text: string, offset: nat, limit: Option<Number>)
    ensures
      var w := CharWindow(format, text, PageOptions(offset, limit, Unspecified));
      && w.offset == offset && w.totalChars == |text|
      && (offset <= |text| ==> offset + |w.text| <= |text| && w.text == text[offset..offset + |w.text|])
      && (w.hasMore ==> |w.text| > 0)
      && (!w.hasMore && offset <= |text| ==> w.text == text[offset..])
  {
    OffsetKept(offset, limit, Unspecified);
  }

  function TextPages(format: Format, text: string, limits: nat -> Option<Number>, k: nat, offset: nat): seq<DocumentWindow>
    decreases |text| - offset
  {
    var w := CharWindow(format, text, PageOptions(offset, limits(k), Unspecified));
    SliceAdvances(format, text, offset, limits(k));
    if w.hasMore then [w] + TextPages(format, text, limits, k + 1, offset + |w.text|) else [w]
  }

  function TextOf(pages: seq<DocumentWindow>): string
    requires forall i :: 0 <= i < |pages| ==> pages[i].TextWindow?
  {
    if pages == [] then "" else pages[0].text + TextOf(pages[1..])
  }

  lemma {:induction false} TextPagesCover(format: Format, text: string, limits: nat -> Option<Number>, k: nat, offset: nat)
    requires offset <= |text|
    ensures
      var pages := TextPages(format, text, limits, k, offset);
      && (forall i :: 0 <= i < |pages| ==> pages[i].TextWindow? && pages[i].totalChars == |text|)
      && TextOf(pages) == text[offset..]
      && 1 <= |pages| <= Max(1, |text| - offset)
    decreases |text| - offset
  {
    hide Slice, Clamp, PageOptions;
    var w := CharWindow(format, text, PageOptions(offset, limits(k), Unspecified));
    SliceAdvances(format, text, offset, limits(k));
    if w.hasMore {
      TextPagesCover(format, text, limits, k + 1, offset + |w.text|);
      var rest := TextPages(format, text, limits, k + 1, offset + |w.text|);
      assert ([w] + rest)[1..] == rest;
      assert text[offset..] == w.text + text[offset + |w.text|..];
    } else {
      assert [w][1..] == [];
      assert TextOf([w]) == w.text + TextOf([]);
    }
  }

  // ---- whole documents ------------------------------------------------------

  /** Every page of a document, from its start, while there is more. */
  function Pages(
      bytes: seq<byte>, format: Format, sheet: SheetChoice, limits: nat -> Option<Number>, decoders: Decoders)
    : Result<seq<DocumentWindow>, string>
  {
    if Tabular(format) then
      match SheetsOf(bytes, format, decoders)
      case Failure(error) => Failure(error)
      case Success(sheets) => Success(RowPages(format, sheets, sheet, limits, 0, 0))
    else Success(TextPages(format, DecodeText(bytes, decoders), limits, 0, 0))
  }

  /** Each page is what one call of `readDocumentWindow` returns, at the offset where the page before it ended. */
  lemma PagesAreWindows(
      bytes: seq<byte>, format: Format, sheet: SheetChoice, limits: nat -> Option<Number>, decoders: Decoders, i: nat)
    requires Pages(bytes, format, sheet, limits, decoders).Success?
    requires i < |Pages(bytes, format, sheet, limits, decoders).value|
    ensures
      var pages := Pages(bytes, format, sheet, limits, decoders).value;
      var choice := if Tabular(format) then sheet else Unspecified;
      && ReadDocumentWindow(bytes, format, PageOptions(pages[i].offset, limits(i), choice), decoders) == Success(pages[i])
      && pages[i].hasMore == (i < |pages| - 1)
      && pages[i].offset
         == (if i == 0 then 0
             else pages[i - 1].offset
                  + if pages[i - 1].TabularWindow? then |pages[i - 1].rows| else |pages[i - 1].text|)
  {
    hide SheetsOf, DecodeText, TableWindow, CharWindow;
    if Tabular(format) {
      RowPageAt(format, SheetsOf(bytes, format, decoders).value, sheet, limits, 0, 0, i);
    } else {
      TextPageAt(format, DecodeText(bytes, decoders), limits, 0, 0, i);
    }
  }

  lemma {:induction false} RowPageAt(
      format: Format, sheets: seq<Sheet>, sheet: SheetChoice, limits: nat -> Option<Number>, k: nat, offset: nat, i: nat)
    requires i < |RowPages(format, sheets, sheet, limits, k, offset)|
    ensures
      var pages := RowPages(format, sheets, sheet, limits, k, offset);
      && pages[i] == TableWindow(format, sheets, PageOptions(pages[i].offset, limits(k + i), sheet))
      && pages[i].TabularWindow? && pages[i].hasMore == (i < |pages| - 1)
      && (i > 0 ==> pages[i - 1].TabularWindow?)
      && pages[i].offset == if i == 0 then offset else pages[i - 1].offset + |pages[i - 1].rows|
    decreases i
  {
    hide DataOf, HeaderOf, PickedSheet, SheetNames, Slice, Clamp, PageOptions;
    var w := TableWindow(format, sheets, PageOptions(offset, limits(k), sheet));
    WindowAdvances(format, sheets, offset, limits(k), sheet);
    if i > 0 {
      var rest := RowPages(format, sheets, sheet, limits, k + 1, offset + |w.rows|);
      RowPageAt(format, sheets, sheet, limits, k + 1, offset + |w.rows|, i - 1);
    }
  }

  lemma {:induction false} TextPageAt(
      format: Format, text: string, limits: nat -> Option<Number>, k: nat, offset: nat, i: nat)
    requires i < |TextPages(format, text, limits, k, offset)|
    ensures
      var pages := TextPages(format, text, limits, k, offset);
      && pages[i] == CharWindow(format, text, PageOptions(pages[i].offset, limits(k + i), Unspecified))
      && pages[i].TextWindow? && pages[i].hasMore == (i < |pages| - 1)
      && (i > 0 ==> pages[i - 1].TextWindow?)
      && pages[i].offset == if i == 0 then offset else pages[i - 1].offset + |pages[i - 1].text|
    decreases i
  {
    hide Slice, Clamp, PageOptions;
    var w := CharWindow(format, text, PageOptions(offset, limits(k), Unspecified));
    SliceAdvances(format, text, offset, limits(k));
    if i > 0 {
      TextPageAt(format, text, limits, k + 1, offset + |w.text|, i - 1);
    }
  }

  /** Paging a text document gives its text back, whatever the limits. */
  lemma TextPaged(bytes: seq<byte>, format: Format, limits: nat -> Option<Number>, decoders: Decoders)
    requires !Tabular(format)
    ensures
      var pages := Pages(bytes, format, Unspecified, limits, decoders);
      && pages.Success?
      && (forall i :: 0 <= i < |pages.value| ==> pages.value[i].TextWindow?)
      && TextOf(pages.value) == DecodeText(bytes, decoders)
  {
    var text := DecodeText(bytes, decoders);
    TextPagesCover(format, text, limits, 0, 0);
    assert text[0..] == text;
  }

  function DelimiterOf(format: Format): char
    requires format == CsvFile || format == TsvFile
  {
    if format == CsvFile then ',' else '\t'
  }

  /**
   Paging a printed table, with or without a byte-order mark, with any limits, ends
   after at most one call a row, sends the header with every window, and gives the
   rows back in order: document reader and history export agree.
   */
  lemma ExportPages(
      headers: seq<string>, rows: seq<seq<string>>, bom: bool, bytes: seq<byte>, format: Format, sheet: SheetChoice,
      limits: nat -> Option<Number>, decoders: Decoders)
    requires format == CsvFile || format == TsvFile
    requires LooksLikeHeader(headers) && forall i :: 0 <= i < |rows| ==> Filled(rows[i])
    requires decoders.utf8(bytes) == (if bom then [BOM] else "") + ToCsv(headers, rows, DelimiterOf(format))
    ensures
      var pages := Pages(bytes, format, sheet, limits, decoders);
      && pages.Success?
      && (forall i :: 0 <= i < |pages.value| ==>
            pages.value[i].TabularWindow? && pages.value[i].header == Some(headers))
      && RowsOf(pages.value) == rows
      && |pages.value| <= Max(1, |rows|)
  {
    hide Delimit, ToCsv, LooksLikeHeader, StripBom, RowPages, RowsOf;
    var d := DelimiterOf(format);
    var text := ToCsv(headers, rows, d);
    var all := [headers] + rows;
    assert "" + text == text;
    DelimitOfPrint(headers, rows, d);
    EveryRecordRead(headers, rows, d);
    assert DecodeText(bytes, decoders) == text;
    var sheets := [Sheet("Sheet1", all)];
    assert SheetsOf(bytes, format, decoders) == Success(sheets);
    OneSheet(sheets[0], sheet);
    assert all[1..] == rows && rows[0..] == rows;
    assert HeaderOf(all) == Some(headers) && DataOf(all) == rows;
    RowPagesCover(format, sheets, sheet, limits, 0, 0);
    assert Pages(bytes, format, sheet, limits, decoders) == Success(RowPages(format, sheets, sheet, limits, 0, 0));
  }

  lemma OneSheet(only: Sheet, choice: SheetChoice)
    ensures PickedSheet([only], choice) == only
  {
    if choice.ByName? {
      assert FindSheet([], choice.name) == None;
      assert [only][1..] == [];
    }
  }

  lemma EveryRecordRead(headers: seq<string>, rows: seq<seq<string>>, d: char)
    requires Separator(d) && LooksLikeHeader(headers) && forall i :: 0 <= i < |rows| ==> Filled(rows[i])
    ensures Delimit(ToCsv(headers, rows, d), d) == [headers] + rows
  {
    hide Delimit, ToCsv, NumberText;
    var all := [headers] + rows;
    forall i | 0 <= i < |all| ensures all[i] != [] && all[i] != [""] {
      if i == 0 {
        HeaderNotBlank(headers);
      } else {
        assert Filled(all[i]);
      }
    }
    DelimitExactly(headers, rows, d);
  }

  lemma HeaderNotBlank(headers: seq<string>)
    requires LooksLikeHeader(headers)
    ensures headers != [] && headers != [""]
  {
    TrimFixes("");
    assert headers != [] && Trim(headers[0]) != "";
  }

  // ---- what a window is of ------------------------------------------------------

  /** Sheet `k` is the first of its name. */
  predicate FirstCalled(sheets: seq<Sheet>, name: string, k: nat) {
    k < |sheets| && sheets[k].name == name && forall j :: 0 <= j < k ==> sheets[j].name != name
  }

  lemma {:induction false} SheetFound(sheets: seq<Sheet>, name: string)
    ensures FindSheet(sheets, name).None? ==> forall j :: 0 <= j < |sheets| ==> sheets[j].name != name
    ensures FindSheet(sheets, name).Some? ==>
              exists k: nat :: k < |sheets| && FirstCalled(sheets, name, k) && sheets[k] == FindSheet(sheets, name).value
    ensures forall k: nat :: k < |sheets| && FirstCalled(sheets, name, k) ==> FindSheet(sheets, name) == Some(sheets[k])
  {
    if sheets != [] {
      var rest := sheets[1..];
      SheetFound(rest, name);
      assert forall j :: 0 < j < |sheets| ==> sheets[j] == rest[j - 1];
      if sheets[0].name == name {
        assert FirstCalled(sheets, name, 0);
      } else {
        forall k: nat | k < |sheets| && FirstCalled(sheets, name, k) ensures FindSheet(sheets, name) == Some(sheets[k]) {
          assert FirstCalled(rest, name, k - 1);
        }
        if FindSheet(rest, name).Some? {
          var k: nat :| k < |rest| && FirstCalled(rest, name, k) && rest[k] == FindSheet(rest, name).value;
          assert FirstCalled(sheets, name, k + 1);
        }
      }
    }
  }

  /** What is asked for by this choice: the sheet of the name, the sheet at the index. */
  predicate Asked(sheets: seq<Sheet>, choice: SheetChoice, k: nat) {
    && k < |sheets|
    && match choice
       case Unspecified => k == 0
       case ByName(name) => FirstCalled(sheets, name, k)
       case ByIndex(index) => index == k as real
  }

  /**
   The sheet read is the one asked for, by name the first that bears it; the first
   sheet when there is none such, and an empty "Sheet1" when there is none at all.
   */
  lemma SheetPicked(sheets: seq<Sheet>, choice: SheetChoice, k: nat)
    ensures Asked(sheets, choice, k) ==> PickedSheet(sheets, choice) == sheets[k]
    ensures (forall j: nat :: !Asked(sheets, choice, j)) ==>
              PickedSheet(sheets, choice) == if sheets != [] then sheets[0] else Sheet("Sheet1", [])
  {
    hide FindSheet, FirstCalled;
    match choice
    case Unspecified =>
      assert sheets != [] ==> Asked(sheets, choice, 0);
    case ByName(name) =>
      SheetFound(sheets, name);
      if FindSheet(sheets, name).Some? {
        var j: nat :| j < |sheets| && FirstCalled(sheets, name, j) && sheets[j] == FindSheet(sheets, name).value;
        assert Asked(sheets, choice, j);
      }
    case ByIndex(index) =>
      if index == index.Floor as real && 0 <= index.Floor < |sheets| {
        assert Asked(sheets, choice, index.Floor);
      }
      assert (k as real).Floor == k;
  }

  /**
   What each format is read as: comma and tab files as one sheet of what the delimited
   reader makes of the text, a workbook as its sheets or its failure, all else as text.
   */
  lemma FormatsRead(bytes: seq<byte>, options: ReadOptions, decoders: Decoders)
    ensures
      var read := (format: Format) => ReadDocumentWindow(bytes, format, options, decoders);
      var text := StripBom(decoders.utf8(bytes));
      && read(CsvFile) == Success(TableWindow(CsvFile, [Sheet("Sheet1", Delimit(text, ','))], options))
      && read(TsvFile) == Success(TableWindow(TsvFile, [Sheet("Sheet1", Delimit(text, '\t'))], options))
      && (match decoders.workbook(bytes)
          case Success(sheets) => read(XlsxFile) == Success(TableWindow(XlsxFile, sheets, options))
          case Failure(error) => read(XlsxFile) == Failure(error))
      && (forall format :: format != CsvFile && format != TsvFile && format != XlsxFile ==>
            read(format) == Success(CharWindow(format, text, options)))
  {
    hide TableWindow, CharWindow, Delimit, StripBom;
  }

  /** A window names its format, all sheets in order, and the sheet it is of, and starts at the offset rounded down. */
  lemma WindowNames(format: Format, sheets: seq<Sheet>, options: ReadOptions)
    ensures
      var w := TableWindow(format, sheets, options);
      && w.TabularWindow? && w.format == format && w.sheet == PickedSheet(sheets, options.sheet).name
      && |w.sheets| == |sheets| && (forall i :: 0 <= i < |sheets| ==> w.sheets[i] == sheets[i].name)
      && w.header == HeaderOf(PickedSheet(sheets, options.sheet).rows)
      && w.offset == (match options.offset case Some(v) => if v < 0.0 then 0 else v.Floor case None => 0)
  {
    hide PickedSheet, HeaderOf, DataOf;
  }

  /** The first row is the header exactly when it has cells and each holds text that is no number. */
  lemma HeaderExactly(rows: seq<seq<string>>)
    ensures HeaderOf(rows).Some?
            <==> rows != [] && rows[0] != []
                 && forall i :: 0 <= i < |rows[0]| ==> Trim(rows[0][i]) != "" && !NumberText(Trim(rows[0][i]))
    ensures HeaderOf(rows).Some? ==> HeaderOf(rows).value == rows[0] && DataOf(rows) == rows[1..]
    ensures HeaderOf(rows).None? ==> DataOf(rows) == rows
  {
    hide Trim, NumberText;
  }

  /** The character at `i` is the only point, with a digit before it. */
  predicate PointAt(s: string, i: nat)
    requires i < |s|
  {
    s[i] == '.' && 0 < i && IsDigit(s[i - 1]) && forall j :: 0 <= j < |s| && s[j] == '.' ==> j == i
  }

  lemma UnsignedExactly(s: string)
    ensures UnsignedText(s)
            <==> s != "" && IsDigit(s[|s| - 1]) && forall i :: 0 <= i < |s| ==> IsDigit(s[i]) || PointAt(s, i)
  {
    if UnsignedText(s) && !DigitRun(s) {
      var k :| 0 <= k < |s| && s[k] == '.' && DigitRun(s[..k]) && DigitRun(s[k + 1..]);
      assert forall i :: 0 <= i < k ==> s[i] == s[..k][i];
      assert forall i :: k < i < |s| ==> s[i] == s[k + 1..][i - k - 1];
      assert PointAt(s, k);
    }
    if k: nat :| k < |s| && PointAt(s, k) {
      assert forall i :: 0 <= i < |s| && i != k ==> !PointAt(s, i);
      if IsDigit(s[|s| - 1]) && forall i :: 0 <= i < |s| ==> IsDigit(s[i]) || PointAt(s, i) {
        assert DigitRun(s[..k]) && DigitRun(s[k + 1..]);
      }
    }
  }

  /** A cell is a number exactly when it ends in a digit and holds digits, but for a leading minus and one point. */
  lemma NumberExactly(s: string)
    ensures NumberText(s)
            <==> s != "" && IsDigit(s[|s| - 1])
                 && forall i :: 0 <= i < |s| ==> IsDigit(s[i]) || (i == 0 && s[0] == '-') || PointAt(s, i)
  {
    UnsignedExactly(s);
    if s != "" && s[0] == '-' {
      var u := s[1..];
      UnsignedExactly(u);
      assert forall i :: 0 <= i < |u| ==> u[i] == s[i + 1];
      assert forall i {:trigger PointAt(u, i)} :: 0 <= i < |u| ==> PointAt(u, i) == PointAt(s, i + 1) by {
        hide UnsignedText;
        forall i | 0 <= i < |u| ensures PointAt(u, i) == PointAt(s, i + 1) {
          assert forall j :: 0 < j < |s| ==> s[j] == u[j - 1];
        }
      }
      assert s != "-" ==> s[|s| - 1] == u[|u| - 1];
      assert (forall i :: 0 <= i < |u| ==> IsDigit(u[i]) || PointAt(u, i))
        <==> (forall i :: 0 < i < |s| ==> IsDigit(s[i]) || PointAt(s, i));
    }
  }
}
