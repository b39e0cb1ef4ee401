/**
 The laws assumed of foreign code can be met: for each of them, something that obeys it.
 None of these is the foreign code itself.
 */
module Witnesses {
  import opened Numbers
  import opened Wrappers
  import opened Text
  import opened Bytes
  import opened Host
  import HistoryRows
  import HistoryTransfer
  import Schedule
  import Xml
  import Zip

  // ---- integers as text -----------------------------------------------------

  function IntText(k: int): string {
    if k < 0 then "-" + Decimal(-k) else Decimal(k)
  }

  lemma IntTextTells(a: int, b: int)
    requires IntText(a) == IntText(b)
    ensures a == b
  {
    hide Decimal;
    NumberOfDecimal(if a < 0 then -a else a);
    NumberOfDecimal(if b < 0 then -b else b);
    assert a < 0 ==> IntText(a)[0] == '-' && IntText(a)[1..] == Decimal(-a);
    assert b < 0 ==> IntText(b)[0] == '-' && IntText(b)[1..] == Decimal(-b);
    assert a >= 0 ==> IsDigit(IntText(a)[0]);
    assert b >= 0 ==> IsDigit(IntText(b)[0]);
  }

  lemma IntTextSolid(k: int)
    ensures Solid(IntText(k)) && !Blank(IntText(k))
  {
    hide Decimal, Trim;
    var s := IntText(k);
    var d := Decimal(if k < 0 then -k else k);
    assert s[|s| - 1] == d[|d| - 1] && IsDigit(d[|d| - 1]);
    assert IsDigit(s[0]) || s[0] == '-';
    TrimSolid(s);
  }

  // ---- a library for the columns --------------------------------------------

  /** A double in units of the smallest. */
  function Scaled(r: Double): int {
    (r * Pow2(FINEST) as real).Floor
  }

  lemma ScaledTells(a: Double, b: Double)
    requires Scaled(a) == Scaled(b)
    ensures a == b
  {
    hide Pow2;
    ScaledExact(a);
    ScaledExact(b);
    var p := Pow2(FINEST) as real;
    assert (a - b) * p == 0.0 && p >= 1.0;
  }

  lemma ScaledExact(r: Double)
    ensures r * Pow2(FINEST) as real == Scaled(r) as real
  {
    hide Pow2;
    assert IsDouble(r);
    var m: int, k: nat :| Written(r, m, k);
    assert ((m * Pow2(k)) as real).Floor == m * Pow2(k);
  }

  ghost function Show(v: Value): string {
    match v
    case Str(s) => s
    case Num(Finite(r)) => IntText(Scaled(r))
    case Num(NotFinite) => "NaN"
    case Bool(b) => if b then "true" else "false"
    case _ => "[object Object]"
  }

  ghost function NumberIn(s: string): Number {
    if exists r: Double :: IntText(Scaled(r)) == s then
      var r: Double :| IntText(Scaled(r)) == s;
      Finite(r)
    else NotFinite
  }

  ghost function ReadNumber(v: Value): Number {
    match v
    case Num(n) => n
    case Str(s) => NumberIn(s)
    case _ => NotFinite
  }

  function Iso(t: int): string {
    "d" + IntText(t)
  }

  ghost function ReadDate(s: string): Option<int> {
    if exists t :: Iso(t) == s then
      var t :| Iso(t) == s;
      Some(t)
    else None
  }

  function ReadUrl(s: string): Option<Url> {
    if Solid(s) then Some(Url("http:", s)) else None
  }

  lemma NumbersReadBack(r: Double)
    ensures NumberIn(IntText(Scaled(r))) == Finite(r)
  {
    hide IntText, Scaled;
    forall q: Double | IntText(Scaled(q)) == IntText(Scaled(r)) ensures q == r {
      IntTextTells(Scaled(q), Scaled(r));
      ScaledTells(q, r);
    }
  }

  lemma DatesReadBack(t: int)
    ensures ReadDate(Iso(t)) == Some(t) && Solid(Iso(t)) && !IsDateOnly(Iso(t))
  {
    hide IntText;
    assert Iso(t)[1..] == IntText(t) && Iso(t)[0] == 'd';
    IntTextSolid(t);
    assert Iso(t)[|Iso(t)| - 1] == IntText(t)[|IntText(t)| - 1];
    assert |Iso(t)| >= 4 ==> Iso(t)[..4][0] == 'd' && !IsDigit('d');
    forall u | Iso(u) == Iso(t) ensures u == t {
      assert Iso(u)[1..] == IntText(u);
      IntTextTells(u, t);
    }
  }

  lemma WordNotBlank(s: string)
    requires s == "NaN" || s == "true" || s == "false"
    ensures !Blank(s)
  {
    hide Trim;
    assert Solid(s);
    TrimSolid(s);
  }

  /** A library that obeys every law the column rules assume. */
  lemma SomeLibrary() returns (lib: Library)
    ensures Lawful(lib)
  {
    hide IntText, Scaled, Iso, Blank, IsDateOnly, NumberIn, ReadDate, Solid;
    lib := Library(Show, ReadNumber, ReadDate, Iso, ReadUrl, s => s);
    forall n: Number
      ensures !Blank(lib.show(Num(n)))
      ensures n.Finite? ==> Solid(lib.show(Num(n))) && lib.number(Str(lib.show(Num(n)))) == n
    {
      WordNotBlank("NaN");
      if n.Finite? {
        IntTextSolid(Scaled(n.value));
        NumbersReadBack(n.value);
      }
    }
    forall b ensures !Blank(lib.show(Bool(b))) {
      WordNotBlank("true");
      WordNotBlank("false");
    }
    forall s | lib.parseDate(s).Some?
      ensures
        var printed := lib.iso(lib.parseDate(s).value);
        Solid(printed) && !IsDateOnly(printed) && lib.parseDate(printed) == lib.parseDate(s)
    {
      DatesReadBack(lib.parseDate(s).value);
    }
    assert lib.url("").None? by {
      NothingSolid();
    }
  }

  lemma NothingSolid()
    ensures !Solid("")
  {
  }

  // ---- a codec for the zip --------------------------------------------------

  function Encode(s: string): seq<byte> {
    if s == "" then []
    else
      var c := s[0] as int;
      [c / 0x1_0000, c / 0x100 % 0x100, c % 0x100] + Encode(s[1..])
  }

  lemma {:induction false} EncodeTells(a: string, b: string)
    requires Encode(a) == Encode(b)
    ensures a == b
  {
    if a != "" && b != "" {
      var x, y := a[0] as int, b[0] as int;
      assert Encode(a)[0] == x / 0x1_0000 && Encode(a)[1] == x / 0x100 % 0x100 && Encode(a)[2] == x % 0x100;
      assert Encode(b)[0] == y / 0x1_0000 && Encode(b)[1] == y / 0x100 % 0x100 && Encode(b)[2] == y % 0x100;
      assert Encode(a)[3..] == Encode(a[1..]) && Encode(b)[3..] == Encode(b[1..]);
      SameDigits(x, y);
      EncodeTells(a[1..], b[1..]);
      assert a == [a[0]] + a[1..] && b == [b[0]] + b[1..];
    }
  }

  lemma SameDigits(x: nat, y: nat)
    requires x / 0x1_0000 == y / 0x1_0000 && x / 0x100 % 0x100 == y / 0x100 % 0x100 && x % 0x100 == y % 0x100
    ensures x == y
  {
    assert x / 0x100 / 0x100 == x / 0x1_0000 && y / 0x100 / 0x100 == y / 0x1_0000;
  }

  ghost function Decode(b: seq<byte>): string {
    if exists s :: Encode(s) == b then
      var s :| Encode(s) == b;
      s
    else ""
  }

  /** A codec whose decoders undo its encoders. */
  lemma SomeCodec() returns (codec: Zip.Codec)
    ensures Zip.Faithful(codec)
  {
    hide Encode;
    codec := Zip.Codec(Encode, Decode, b => b, b => Some(b));
    forall s ensures codec.decode(codec.encode(s)) == s {
      EncodeTells(Decode(Encode(s)), s);
    }
  }

  /** Code points whose texts are short and hold the ampersand only as itself. */
  lemma SomeCodePoints() returns (points: Xml.CodePoints)
    ensures Xml.IsCodePoints(points)
  {
    points := n => Some(if n == 38 then "&" else "x");
  }

  /** A zone whose offsets are bounded whole seconds. */
  lemma SomeZone() returns (z: Schedule.Zone)
    ensures Schedule.ZoneOk(z)
  {
    z := Schedule.Fixed(0);
  }

  /** A date text in which every instant reads back. */
  lemma SomeDates() returns (dates: HistoryRows.DateText)
    ensures forall t: int :: HistoryTransfer.DateReadsBack(t, dates)
  {
    hide IntText, Iso, ReadDate, Solid, Trim;
    dates := HistoryRows.DateText(ReadDate, Iso);
    forall t: int ensures HistoryTransfer.DateReadsBack(t, dates) {
      DatesReadBack(t);
      TrimSolid(Iso(t));
      IsoNotDigits(t);
    }
  }

  lemma IsoNotDigits(t: int)
    ensures Iso(t) != "" && !AllDigits(Iso(t))
  {
    hide IntText;
    assert !IsDigit(Iso(t)[0]);
  }
}
