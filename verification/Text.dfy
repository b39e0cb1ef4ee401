/** Carriers for the values and exceptions of the modelled code. */
module Wrappers {

  datatype Option<+T> = None | Some(value: T)

  datatype Result<+T, +E> = Success(value: T) | Failure(error: E)
}

/**
 The JavaScript string operations the modelled code leans on: `trim`, `split`,
 `join`, decimal printing and reading, `padStart` and the order of `<`.
 One `char` stands for one UTF-16 code unit.
 */
module Text {

  // ---- white space ----------------------------------------------------------

  /** What `trim` strips: WhiteSpace and LineTerminator of ECMA-262, U+FEFF included. */
  predicate IsSpace(c: char) {
    || '\t' <= c <= '\r'
    || c == ' '
    || c == '\U{00A0}'
    || c == '\U{1680}'
    || '\U{2000}' <= c <= '\U{200A}'
    || c == '\U{2028}'
    || c == '\U{2029}'
    || c == '\U{202F}'
    || c == '\U{205F}'
    || c == '\U{3000}'
    || c == '\U{FEFF}'
  }

  /** The same by code point. */
  lemma SpaceCodes(c: char)
    ensures IsSpace(c)
            <==> c as int in {9, 10, 11, 12, 13, 32, 160, 5760, 8192, 8193, 8194, 8195, 8196, 8197, 8198, 8199, 8200,
                              8201, 8202, 8232, 8233, 8239, 8287, 12288, 65279}
  {
  }

  const BOM := '\U{FEFF}'

  function TrimStart(s: string): string {
    if s == "" || !IsSpace(s[0]) then s else TrimStart(s[1..])
  }

  function TrimEnd(s: string): string {
    if s == "" || !IsSpace(s[|s| - 1]) then s else TrimEnd(s[..|s| - 1])
  }

  function Trim(s: string): (r: string)
    ensures Trimmed(r) && |r| <= |s|
  {
    var a := TrimStart(s);
    TrimStartIsTight(s);
    TrimEndIsTight(a);
    TrimEnd(a)
  }

  /** No white space at either edge. */
  predicate Trimmed(s: string) {
    s == "" || (!IsSpace(s[0]) && !IsSpace(s[|s| - 1]))
  }

  lemma {:induction false} TrimStartIsTight(s: string)
    ensures |TrimStart(s)| <= |s|
    ensures TrimStart(s) == "" || !IsSpace(TrimStart(s)[0])
  {
    if s != "" && IsSpace(s[0]) {
      TrimStartIsTight(s[1..]);
    }
  }

  lemma {:induction false} TrimEndIsTight(s: string)
    ensures |TrimEnd(s)| <= |s| && TrimEnd(s) <= s
    ensures TrimEnd(s) == "" || !IsSpace(TrimEnd(s)[|TrimEnd(s)| - 1])
  {
    if s != "" && IsSpace(s[|s| - 1]) {
      TrimEndIsTight(s[..|s| - 1]);
    }
  }

  /** `trim` changes exactly the strings with white space at an edge. */
  lemma TrimFixes(s: string)
    ensures Trim(s) == s <==> Trimmed(s)
  {
  }

  predicate AllSpaces(s: string) {
    forall i :: 0 <= i < |s| ==> IsSpace(s[i])
  }

  /** `s` is `r` with white space before and after. */
  predicate Around(s: string, r: string, before: string, after: string) {
    s == before + r + after && AllSpaces(before) && AllSpaces(after)
  }

  lemma {:induction false} TrimStartOf(before: string, r: string)
    requires AllSpaces(before)
    ensures TrimStart(before + r) == TrimStart(r)
  {
    if before == "" {
      assert before + r == r;
    } else {
      assert (before + r)[1..] == before[1..] + r;
      TrimStartOf(before[1..], r);
    }
  }

  lemma {:induction false} TrimEndOf(r: string, after: string)
    requires AllSpaces(after)
    ensures TrimEnd(r + after) == TrimEnd(r)
  {
    if after == "" {
      assert r + after == r;
    } else {
      var last := |after| - 1;
      assert (r + after)[..|r + after| - 1] == r + after[..last];
      TrimEndOf(r, after[..last]);
    }
  }

  lemma {:induction false} StartTrimmed(s: string) returns (before: string)
    ensures AllSpaces(before) && s == before + TrimStart(s)
  {
    if s == "" || !IsSpace(s[0]) {
      before := "";
    } else {
      var rest := StartTrimmed(s[1..]);
      before := [s[0]] + rest;
      assert s == [s[0]] + s[1..] == [s[0]] + (rest + TrimStart(s[1..])) == before + TrimStart(s);
    }
  }

  lemma {:induction false} EndTrimmed(s: string) returns (after: string)
    ensures AllSpaces(after) && s == TrimEnd(s) + after
  {
    if s == "" || !IsSpace(s[|s| - 1]) {
      after := "";
    } else {
      var rest := EndTrimmed(s[..|s| - 1]);
      after := rest + [s[|s| - 1]];
      assert s == s[..|s| - 1] + [s[|s| - 1]] == (TrimEnd(s[..|s| - 1]) + rest) + [s[|s| - 1]] == TrimEnd(s) + after;
    }
  }

  /** `trim` gives what is left between the white space at the two edges, and that only. */
  lemma TrimExactly(s: string, r: string)
    ensures Trim(s) == r <==> Trimmed(r) && exists before, after :: Around(s, r, before, after)
  {
    if Trim(s) == r {
      var before := StartTrimmed(s);
      var after := EndTrimmed(TrimStart(s));
      assert s == before + r + after;
      assert Around(s, r, before, after);
    }
    if before, after :| Trimmed(r) && Around(s, r, before, after) {
      TrimBetween(before, r, after);
    }
  }

  lemma TrimBetween(before: string, r: string, after: string)
    requires Trimmed(r) && AllSpaces(before) && AllSpaces(after)
    ensures Trim(before + r + after) == r
  {
    assert before + r + after == before + (r + after);
    TrimStartOf(before, r + after);
    if r == "" {
      assert r + after == after && after + "" == after;
      TrimStartOf(after, "");
    } else {
      assert (r + after)[0] == r[0];
      TrimEndOf(r, after);
    }
  }

  // ---- split and join -------------------------------------------------------

  /** `s.split(sep)` for a one-character separator. */
  function Split(s: string, sep: char): (r: seq<string>)
    ensures |r| >= 1
  {
    if s == "" then [""]
    else if s[0] == sep then [""] + Split(s[1..], sep)
    else
      var rest := Split(s[1..], sep);
      [[s[0]] + rest[0]] + rest[1..]
  }

  /** `parts.join(sep)` for a one-character separator. */
  function Join(parts: seq<string>, sep: char): string {
    if |parts| == 0 then ""
    else if |parts| == 1 then parts[0]
    else parts[0] + [sep] + Join(parts[1..], sep)
  }

  lemma {:induction false} SplitHead(a: string, sep: char, b: string)
    requires sep !in a
    ensures Split(a + [sep] + b, sep) == [a] + Split(b, sep)
  {
    if a == "" {
      assert a + [sep] + b == [sep] + b;
    } else {
      assert (a + [sep] + b)[1..] == a[1..] + [sep] + b;
      SplitHead(a[1..], sep, b);
      assert [a[0]] + a[1..] == a;
    }
  }

  lemma {:induction false} SplitWhole(a: string, sep: char)
    requires sep !in a
    ensures Split(a, sep) == [a]
  {
    if a != "" {
      SplitWhole(a[1..], sep);
      assert [a[0]] + a[1..] == a;
    }
  }

  // ---- decimal numbers ------------------------------------------------------

  predicate IsDigit(c: char) {
    '0' <= c <= '9'
  }

  predicate AllDigits(s: string) {
    forall i :: 0 <= i < |s| ==> IsDigit(s[i])
  }

  function DigitChar(n: int): (c: char)
    requires 0 <= n < 10
    ensures IsDigit(c) && c as int - '0' as int == n
  {
    ('0' as int + n) as char
  }

  /** `String(n)` of a non-negative integer. */
  function Decimal(n: nat): (s: string)
    ensures s != "" && AllDigits(s)
  {
    if n < 10 then [DigitChar(n)] else Decimal(n / 10) + [DigitChar(n % 10)]
  }

  /** `Number(s)` of a string of digits; the empty string is 0. */
  function NumberOf(s: string): nat
    requires AllDigits(s)
  {
    if s == "" then 0
    else 10 * NumberOf(s[..|s| - 1]) + (s[|s| - 1] as int - '0' as int)
  }

  /** `String(n).padStart(2, "0")`. */
  function Pad2(n: nat): (s: string)
    ensures AllDigits(s)
  {
    if n < 10 then "0" + Decimal(n) else Decimal(n)
  }

  lemma {:induction false} NumberOfDecimal(n: nat)
    ensures NumberOf(Decimal(n)) == n
  {
    if n < 10 {
      assert Decimal(n)[..0] == "";
    } else {
      NumberOfDecimal(n / 10);
      assert Decimal(n)[..|Decimal(n)| - 1] == Decimal(n / 10);
    }
  }

  lemma NumberOfPad2(n: nat)
    ensures NumberOf(Pad2(n)) == n
    ensures n < 100 ==> |Pad2(n)| == 2
  {
    NumberOfDecimal(n);
    if n < 10 {
      assert Pad2(n)[..1] == "0" && "0"[..0] == "";
    } else if n < 100 {
      assert |Decimal(n / 10)| == 1;
    }
  }

  lemma FourDigits(n: nat)
    requires 1000 <= n <= 9999
    ensures |Decimal(n)| == 4
  {
    assert |Decimal(n / 1000)| == 1;
    assert |Decimal(n / 100)| == 2;
    assert |Decimal(n / 10)| == 3;
  }

  // ---- the order of strings -------------------------------------------------

  /** `a < b` on strings: code units compared from the left. */
  predicate StrLt(a: string, b: string) {
    if b == "" then false
    else if a == "" then true
    else if a[0] != b[0] then a[0] < b[0]
    else StrLt(a[1..], b[1..])
  }

  lemma {:induction false} StrLtAppend(a: string, x: string, b: string, y: string)
    requires |a| == |b|
    ensures StrLt(a + x, b + y) <==> if a == b then StrLt(x, y) else StrLt(a, b)
  {
    if a == "" {
      assert a + x == x && b + y == y;
    } else {
      assert (a + x)[1..] == a[1..] + x && (b + y)[1..] == b[1..] + y;
      assert a == [a[0]] + a[1..] && b == [b[0]] + b[1..];
      StrLtAppend(a[1..], x, b[1..], y);
    }
  }

  lemma {:induction false} StrLtTotal(a: string, b: string)
    ensures (StrLt(a, b) || StrLt(b, a)) <==> a != b
    ensures !(StrLt(a, b) && StrLt(b, a))
  {
    if a != "" && b != "" {
      StrLtTotal(a[1..], b[1..]);
      assert a == [a[0]] + a[1..] && b == [b[0]] + b[1..];
    }
  }

  /** Digit strings of one width compare as the numbers they write. */
  lemma {:induction false} DigitOrder(a: string, b: string)
    requires AllDigits(a) && AllDigits(b) && |a| == |b|
    ensures StrLt(a, b) <==> NumberOf(a) < NumberOf(b)
    ensures a == b <==> NumberOf(a) == NumberOf(b)
  {
    if a != "" {
      var k := |a| - 1;
      DigitOrder(a[..k], b[..k]);
      DigitOrderLast(a[..k], a[k], b[..k], b[k]);
      assert a == a[..k] + [a[k]] && b == b[..k] + [b[k]];
    }
  }

  lemma DigitOrderLast(a: string, x: char, b: string, y: char)
    requires |a| == |b|
    ensures StrLt(a + [x], b + [y]) <==> if a == b then x < y else StrLt(a, b)
    ensures a == b || StrLt(a, b) || StrLt(b, a)
    ensures !(StrLt(a, b) && StrLt(b, a))
  {
    StrLtAppend(a, [x], b, [y]);
    StrLtTotal(a, b);
    assert StrLt([x], [y]) <==> x < y;
  }
}
