/**
 The entity decoder of the workbook reader (`decodeXml` of
 `core/features/documents/xlsx.ts`): seven replacements of the whole text, one after
 the other, measured against the meaning of XML character data (section 4.6 of XML 1.0).
 */
module Xml {
  import opened Wrappers
  import opened Text

  /** `String.fromCodePoint`, which throws on a number that is no code point. */
  type CodePoints = nat -> Option<string>

  /** One or two code units a code point, and the ampersand for nothing else. */
  ghost predicate IsCodePoints(points: CodePoints) {
    forall n :: points(n).Some? ==>
      && 1 <= |points(n).value| <= 2
      && ('&' in points(n).value ==> points(n).value == "&")
  }

  // ---- references -----------------------------------------------------------

  predicate IsHexDigit(c: char) {
    IsDigit(c) || 'a' <= c <= 'f' || 'A' <= c <= 'F'
  }

  predicate AllHex(s: string) {
    forall i :: 0 <= i < |s| ==> IsHexDigit(s[i])
  }

  function HexValue(c: char): nat
    requires IsHexDigit(c)
  {
    if IsDigit(c) then c as int - '0' as int
    else if 'a' <= c <= 'f' then c as int - 'a' as int + 10
    else c as int - 'A' as int + 10
  }

  /** `parseInt(s, 16)` */
  function HexNumber(s: string): nat
    requires AllHex(s)
  {
    if s == "" then 0 else HexNumber(s[..|s| - 1]) * 16 + HexValue(s[|s| - 1])
  }

  const LT := 0
  const GT := 1
  const QUOT := 2
  const APOS := 3
  const HEX := 4
  const DEC := 5
  const AMP := 6
  const PASSES := 7

  /** The digits by code point. */
  lemma HexDigitExactly(c: char)
    ensures IsHexDigit(c) <==> 48 <= c as int <= 57 || 65 <= c as int <= 70 || 97 <= c as int <= 102
  {
  }

  /** Which of the seven patterns `&body;` is a match of; `PASSES` when of none. */
  function KindOf(body: string): (k: nat)
    ensures k <= PASSES
  {
    if body == "lt" then LT
    else if body == "gt" then GT
    else if body == "quot" then QUOT
    else if body == "apos" then APOS
    else if |body| > 2 && body[0] == '#' && body[1] == 'x' && AllHex(body[2..]) then HEX
    else if |body| > 1 && body[0] == '#' && AllDigits(body[1..]) then DEC
    else if body == "amp" then AMP
    else PASSES
  }

  /** A reference by number has digits, and its mark is a small letter. */
  lemma NoReferences(digits: string)
    ensures KindOf("#") == PASSES && KindOf("#x") == PASSES && KindOf("#X" + digits) == PASSES
  {
    var body := "#X" + digits;
    assert body[0] == '#' && body[1] == 'X' && body[1..][0] == 'X';
    assert "#x"[0] == '#' && "#x"[1..][0] == 'x';
    assert "lt"[0] != '#' && "gt"[0] != '#' && "quot"[0] != '#' && "apos"[0] != '#' && "amp"[0] != '#';
  }

  /** What the reference stands for; none when its number is no code point. */
  function ValueOf(body: string, points: CodePoints): Option<string>
    requires KindOf(body) < PASSES
  {
    var k := KindOf(body);
    if k == LT then Some("<")
    else if k == GT then Some(">")
    else if k == QUOT then Some("\"")
    else if k == APOS then Some("'")
    else if k == HEX then points(HexNumber(body[2..]))
    else if k == DEC then points(NumberOf(body[1..]))
    else Some("&")
  }

  // ---- the passes -----------------------------------------------------------

  function FirstSemicolon(s: string): (n: nat)
    ensures n <= |s| && ';' !in s[..n] && (n < |s| ==> s[n] == ';')
  {
    if s == "" || s[0] == ';' then 0 else 1 + FirstSemicolon(s[1..])
  }

  /** Pattern `k` matches at the start of `s`. No pattern has a semicolon but its last character. */
  predicate MatchesAt(k: nat, s: string) {
    && s != "" && s[0] == '&'
    && var n := FirstSemicolon(s);
       1 <= n < |s| && KindOf(s[1..n]) == k
  }

  function Glue(a: Option<string>, b: Option<string>): Option<string> {
    if a.Some? && b.Some? then Some(a.value + b.value) else None
  }

  /** `text.replace(pattern k, value)`, with the global flag; none when the replacer throws. */
  function Pass(k: nat, s: string, points: CodePoints): Option<string>
    requires k < PASSES
    decreases |s|
  {
    if s == "" then Some("")
    else if MatchesAt(k, s) then
      var n := FirstSemicolon(s);
      Glue(ValueOf(s[1..n], points), Pass(k, s[n + 1..], points))
    else Glue(Some([s[0]]), Pass(k, s[1..], points))
  }

  function PassesFrom(k: nat, s: string, points: CodePoints): Option<string>
    requires k <= PASSES
    decreases PASSES - k
  {
    if k == PASSES then Some(s)
    else match Pass(k, s, points)
         case None => None
         case Some(t) => PassesFrom(k + 1, t, points)
  }

  /** `decodeXml` */
  function DecodeXml(text: string, points: CodePoints): Option<string> {
    PassesFrom(LT, text, points)
  }
}

/** When seven passes mean what one reading of the text means. */
module XmlLaws {
  import opened Wrappers
  import opened Text
  import opened Xml

  /** A piece of character data: a character, or a reference `&body;`. */
  datatype Unit = Char(c: char) | Ref(body: string)

  predicate IsUnit(u: Unit) {
    u.Ref? ==> '&' !in u.body && ';' !in u.body
  }

  predicate AreUnits(us: seq<Unit>) {
    forall i :: 0 <= i < |us| ==> IsUnit(us[i])
  }

  function SpellOne(u: Unit): (s: string)
    ensures s != ""
  {
    match u
    case Char(c) => [c]
    case Ref(body) => ['&'] + body + [';']
  }

  function Spell(us: seq<Unit>): string {
    if us == [] then "" else SpellOne(us[0]) + Spell(us[1..])
  }

  function Chars(s: string): (us: seq<Unit>)
    ensures |us| == |s| && forall i :: 0 <= i < |s| ==> us[i] == Char(s[i])
  {
    seq(|s|, i requires 0 <= i < |s| => Char(s[i]))
  }

  /** Every reference the passes know has a value. */
  predicate Decodable(us: seq<Unit>, points: CodePoints) {
    forall i :: 0 <= i < |us| && us[i].Ref? && KindOf(us[i].body) < PASSES ==> ValueOf(us[i].body, points).Some?
  }

  /** A unit with references below pass `k` replaced by what they stand for. */
  function SettledOne(k: nat, u: Unit, points: CodePoints): seq<Unit>
    requires k <= PASSES && Decodable([u], points)
  {
    if u.Ref? && KindOf(u.body) < k then
      assert [u][0] == u;
      Chars(ValueOf(u.body, points).value)
    else [u]
  }

  function Settled(k: nat, us: seq<Unit>, points: CodePoints): seq<Unit>
    requires k <= PASSES && Decodable(us, points)
  {
    if us == [] then []
    else
      assert us[0] in us && forall i :: 0 <= i < |us[1..]| ==> us[1..][i] == us[i + 1];
      SettledOne(k, us[0], points) + Settled(k, us[1..], points)
  }

  /** What character data means: each reference on its own, and text never looked at again. */
  function Meaning(us: seq<Unit>, points: CodePoints): string
    requires Decodable(us, points)
  {
    Spell(Settled(PASSES, us, points))
  }

  // ---- a pass over units ----------------------------------------------------

  /** Pass `k` finds a match that starts at a bare ampersand, left by an earlier pass. */
  predicate Collides(k: nat, us: seq<Unit>) {
    us != [] && us[0] == Char('&') && MatchesAt(k, Spell(us))
  }

  predicate Quiet(k: nat, us: seq<Unit>) {
    us == [] || (!Collides(k, us) && Quiet(k, us[1..]))
  }

  lemma {:induction false} SpellAppend(a: seq<Unit>, b: seq<Unit>)
    ensures Spell(a + b) == Spell(a) + Spell(b)
  {
    if a == [] {
      assert a + b == b;
    } else {
      assert (a + b)[1..] == a[1..] + b;
      SpellAppend(a[1..], b);
      assert SpellOne(a[0]) + (Spell(a[1..]) + Spell(b)) == SpellOne(a[0]) + Spell(a[1..]) + Spell(b);
    }
  }

  lemma {:induction false} SpellChars(s: string)
    ensures Spell(Chars(s)) == s
  {
    if s != "" {
      assert Chars(s)[1..] == Chars(s[1..]);
      SpellChars(s[1..]);
    }
  }

  lemma KnownBody(body: string)
    requires KindOf(body) < PASSES
    ensures '&' !in body && ';' !in body && |body| >= 2
  {
    if KindOf(body) == HEX {
      assert forall i :: 2 <= i < |body| ==> body[i] == body[2..][i - 2];
    } else if KindOf(body) == DEC {
      assert forall i :: 1 <= i < |body| ==> body[i] == body[1..][i - 1];
    }
  }

  lemma {:induction false} SemicolonAfter(v: string, rest: string)
    requires ';' !in v
    ensures FirstSemicolon(v + [';'] + rest) == |v|
  {
    if v == "" {
    } else {
      assert (v + [';'] + rest)[1..] == v[1..] + [';'] + rest;
      SemicolonAfter(v[1..], rest);
    }
  }

  /** Text without an ampersand in front is characters in front. */
  lemma {:induction false} PlainUnits(us: seq<Unit>, v: string, tail: string)
    requires Spell(us) == v + tail && '&' !in v
    ensures |v| <= |us| && (forall i :: 0 <= i < |v| ==> us[i].Char?) && Spell(us[|v|..]) == tail
  {
    hide Spell;
    if v == "" {
      assert us[0..] == us && v + tail == tail;
    } else {
      assert (v + tail)[0] == v[0];
      PlainHead(us);
      assert (v + tail)[1..] == v[1..] + tail;
      PlainUnits(us[1..], v[1..], tail);
      assert us[1..][|v| - 1..] == us[|v|..];
      assert forall i :: 1 <= i < |v| ==> us[i] == us[1..][i - 1];
    }
  }

  lemma PlainHead(us: seq<Unit>)
    requires Spell(us) != "" && Spell(us)[0] != '&'
    ensures us != [] && us[0] == Char(Spell(us)[0]) && Spell(us[1..]) == Spell(us)[1..]
  {
    assert Spell(us) == SpellOne(us[0]) + Spell(us[1..]);
  }

  /** A match at a bare ampersand takes characters only. */
  lemma CollisionSpan(k: nat, us: seq<Unit>)
    requires k < PASSES && Collides(k, us)
    ensures
      var n := FirstSemicolon(Spell(us)) + 1;
      4 <= n <= |us| && (forall i :: 0 <= i < n ==> us[i].Char?) && Spell(us)[n..] == Spell(us[n..])
  {
    hide KindOf, FirstSemicolon, Spell;
    var s := Spell(us);
    var m := FirstSemicolon(s);
    KnownBody(s[1..m]);
    BareHead(us);
    CutAt(s, m);
    var front := s[1..m] + [';'];
    assert Spell(us[1..]) == front + s[m + 1..] by {
      assert s[1..] == Spell(us[1..]);
    }
    PlainUnits(us[1..], front, s[m + 1..]);
    assert us[1..][m..] == us[m + 1..];
    assert forall i :: 1 <= i < m + 1 ==> us[i] == us[1..][i - 1];
  }

  lemma BareHead(us: seq<Unit>)
    requires us != [] && us[0] == Char('&')
    ensures Spell(us) == ['&'] + Spell(us[1..])
  {
  }

  lemma CutAt(s: string, m: nat)
    requires 1 <= m < |s| && s[m] == ';'
    ensures s[1..] == (s[1..m] + [';']) + s[m + 1..]
  {
  }

  function GlueUnits(a: Option<seq<Unit>>, b: Option<seq<Unit>>): Option<seq<Unit>> {
    if a.Some? && b.Some? then Some(a.value + b.value) else None
  }

  function CharsOf(v: Option<string>): Option<seq<Unit>> {
    if v.Some? then Some(Chars(v.value)) else None
  }

  /** What pass `k` makes of spelled units, collisions included. */
  function Swallow(k: nat, us: seq<Unit>, points: CodePoints): Option<seq<Unit>>
    requires k < PASSES
    decreases |us|
  {
    if us == [] then Some([])
    else if us[0].Ref? && KindOf(us[0].body) == k then
      GlueUnits(CharsOf(ValueOf(us[0].body, points)), Swallow(k, us[1..], points))
    else if Collides(k, us) then
      var n := FirstSemicolon(Spell(us));
      CollisionSpan(k, us);
      GlueUnits(CharsOf(ValueOf(Spell(us)[1..n], points)), Swallow(k, us[n + 1..], points))
    else GlueUnits(Some([us[0]]), Swallow(k, us[1..], points))
  }

  function Spelled(us: Option<seq<Unit>>): Option<string> {
    if us.Some? then Some(Spell(us.value)) else None
  }

  lemma SpelledGlue(a: Option<seq<Unit>>, b: Option<seq<Unit>>)
    ensures Spelled(GlueUnits(a, b)) == Glue(Spelled(a), Spelled(b))
  {
    hide Spell;
    if a.Some? && b.Some? {
      SpellAppend(a.value, b.value);
    }
  }

  lemma SpelledChars(v: Option<string>)
    ensures Spelled(CharsOf(v)) == v
  {
    hide Spell, Chars;
    if v.Some? {
      SpellChars(v.value);
    }
  }

  /** No match starts inside text without an ampersand. */
  lemma {:induction false} PassPlain(k: nat, v: string, rest: string, points: CodePoints)
    requires k < PASSES && '&' !in v
    ensures Pass(k, v + rest, points) == Glue(Some(v), Pass(k, rest, points))
  {
    hide KindOf, FirstSemicolon, ValueOf;
    if v == "" {
      assert v + rest == rest;
      assert rest == [] + rest;
      if Pass(k, rest, points).Some? {
        assert "" + Pass(k, rest, points).value == Pass(k, rest, points).value;
      }
    } else {
      assert (v + rest)[1..] == v[1..] + rest;
      PassPlain(k, v[1..], rest, points);
      if Pass(k, rest, points).Some? {
        assert [v[0]] + (v[1..] + Pass(k, rest, points).value) == v + Pass(k, rest, points).value;
      }
    }
  }

  lemma PassRef(k: nat, body: string, rest: string, points: CodePoints)
    requires k < PASSES && '&' !in body && ';' !in body
    ensures
      var head := if KindOf(body) == k then ValueOf(body, points) else Some(SpellOne(Ref(body)));
      Pass(k, SpellOne(Ref(body)) + rest, points) == Glue(head, Pass(k, rest, points))
  {
    hide KindOf, ValueOf, FirstSemicolon;
    var s := SpellOne(Ref(body)) + rest;
    var n := |body| + 1;
    assert s == (['&'] + body) + [';'] + rest;
    SemicolonAfter(['&'] + body, rest);
    assert s[1..n] == body && s[n + 1..] == rest;
    if KindOf(body) != k {
      var tail := body + [';'];
      assert s[1..] == tail + rest;
      PassPlain(k, tail, rest, points);
      if Pass(k, rest, points).Some? {
        assert ['&'] + (tail + Pass(k, rest, points).value) == SpellOne(Ref(body)) + Pass(k, rest, points).value;
      }
    }
  }

  lemma PassChar(k: nat, c: char, rest: string, points: CodePoints)
    requires k < PASSES && !MatchesAt(k, [c] + rest)
    ensures Pass(k, [c] + rest, points) == Glue(Some([c]), Pass(k, rest, points))
  {
    hide MatchesAt, ValueOf;
    assert ([c] + rest)[1..] == rest;
  }

  /** A pass over the text is the pass over its units. */
  lemma {:induction false} PassOnUnits(k: nat, us: seq<Unit>, points: CodePoints)
    requires k < PASSES && AreUnits(us)
    ensures Pass(k, Spell(us), points) == Spelled(Swallow(k, us, points))
    decreases |us|
  {
    hide KindOf, ValueOf, FirstSemicolon, Chars, CharsOf, Spelled, GlueUnits, Glue;
    if us == [] {
      assert Spelled(Some([])) == Some("") by { SpelledChars(Some("")); ChargeNothing(); }
    } else {
      var u, s := us[0], Spell(us);
      assert IsUnit(u);
      if Collides(k, us) {
        CollisionSpan(k, us);
        var n := FirstSemicolon(s);
        PassOnUnits(k, us[n + 1..], points);
        SpelledGlue(CharsOf(ValueOf(s[1..n], points)), Swallow(k, us[n + 1..], points));
        SpelledChars(ValueOf(s[1..n], points));
      } else {
        PassOnUnits(k, us[1..], points);
        if u.Ref? {
          PassRef(k, u.body, Spell(us[1..]), points);
          if KindOf(u.body) == k {
            SpelledGlue(CharsOf(ValueOf(u.body, points)), Swallow(k, us[1..], points));
            SpelledChars(ValueOf(u.body, points));
          } else {
            SpelledGlue(Some([u]), Swallow(k, us[1..], points));
            SpelledOne(u);
          }
        } else {
          assert s == [u.c] + Spell(us[1..]);
          PassChar(k, u.c, Spell(us[1..]), points);
          SpelledGlue(Some([u]), Swallow(k, us[1..], points));
          SpelledOne(u);
        }
      }
    }
  }

  lemma ChargeNothing()
    ensures CharsOf(Some("")) == Some([])
  {
  }

  lemma SpelledOne(u: Unit)
    ensures Spelled(Some([u])) == Some(SpellOne(u))
  {
    assert [u][1..] == [] && Spell([]) == "";
    assert SpellOne(u) + "" == SpellOne(u);
  }

  // ---- weights --------------------------------------------------------------

  /** How long a unit is once every reference is settled. */
  function Weigh(u: Unit, points: CodePoints): nat {
    if u.Ref? && KindOf(u.body) < PASSES && ValueOf(u.body, points).Some? then |ValueOf(u.body, points).value|
    else |SpellOne(u)|
  }

  function Weight(us: seq<Unit>, points: CodePoints): nat {
    if us == [] then 0 else Weigh(us[0], points) + Weight(us[1..], points)
  }

  lemma ValueLength(body: string, points: CodePoints)
    requires IsCodePoints(points) && KindOf(body) < PASSES && ValueOf(body, points).Some?
    ensures 1 <= |ValueOf(body, points).value| <= 2
  {
  }

  /** Units whose known references are all for pass `k` or later. */
  predicate SettledBelow(k: nat, us: seq<Unit>) {
    forall i :: 0 <= i < |us| && us[i].Ref? ==> KindOf(us[i].body) >= k
  }

  /** What one unit in front adds to the statements about units. */
  lemma UnitInFront(k: nat, u: Unit, us: seq<Unit>, points: CodePoints)
    ensures AreUnits([u] + us) <==> IsUnit(u) && AreUnits(us)
    ensures SettledBelow(k, [u] + us) <==> (u.Ref? ==> KindOf(u.body) >= k) && SettledBelow(k, us)
    ensures Decodable([u] + us, points)
            <==> (u.Ref? && KindOf(u.body) < PASSES ==> ValueOf(u.body, points).Some?) && Decodable(us, points)
    ensures Weight([u] + us, points) == Weigh(u, points) + Weight(us, points)
  {
    hide KindOf, ValueOf, IsUnit, Weigh;
    var all := [u] + us;
    assert all[0] == u && all[1..] == us;
    assert forall i :: 0 <= i < |us| ==> us[i] == all[i + 1];
    assert forall i :: 0 < i < |all| ==> all[i] == us[i - 1];
  }

  /** Characters in front of units change none of what is said of their references. */
  lemma {:induction false} CharsInFront(k: nat, cs: seq<Unit>, us: seq<Unit>, points: CodePoints)
    requires forall i :: 0 <= i < |cs| ==> cs[i].Char?
    ensures AreUnits(cs + us) <==> AreUnits(us)
    ensures SettledBelow(k, cs + us) <==> SettledBelow(k, us)
    ensures Decodable(cs + us, points) <==> Decodable(us, points)
    ensures Weight(cs + us, points) == |cs| + Weight(us, points)
  {
    hide AreUnits, SettledBelow, Decodable, Weight;
    if cs == [] {
      assert cs + us == us;
    } else {
      CharsInFront(k, cs[1..], us, points);
      assert cs + us == [cs[0]] + (cs[1..] + us);
      UnitInFront(k, cs[0], cs[1..] + us, points);
    }
  }

  ghost predicate SettlesFrom(k: nat, us: seq<Unit>, after: seq<Unit>, points: CodePoints) {
    && AreUnits(after) && SettledBelow(k + 1, after)
    && (Decodable(us, points) <==> Decodable(after, points))
    && Weight(after, points) <= Weight(us, points)
    && (!Quiet(k, us) ==> Weight(after, points) < Weight(us, points))
  }

  /**
   A pass settles its references and touches no other; it never makes the text weigh
   more, and a collision makes it weigh less.
   */
  lemma {:induction false} SwallowSettles(k: nat, us: seq<Unit>, points: CodePoints)
    requires k < PASSES && IsCodePoints(points) && AreUnits(us) && SettledBelow(k, us)
    requires Swallow(k, us, points).Some?
    ensures SettlesFrom(k, us, Swallow(k, us, points).value, points)
    decreases |us|
  {
    hide KindOf, ValueOf, FirstSemicolon, Chars, Spell, IsCodePoints, AreUnits, SettledBelow, Decodable, Weight;
    var after := Swallow(k, us, points).value;
    if us == [] {
      assert SettlesFrom(k, [], [], points) by { NothingToSettle(k, points); }
    } else if Collides(k, us) {
      var n := FirstSemicolon(Spell(us)) + 1;
      CollisionSpan(k, us);
      var v := ValueOf(Spell(us)[1..n - 1], points).value;
      ValueLength(Spell(us)[1..n - 1], points);
      assert us == us[..n] + us[n..];
      CharsInFront(k, us[..n], us[n..], points);
      SwallowSettles(k, us[n..], points);
      var rest := Swallow(k, us[n..], points).value;
      assert after == Chars(v) + rest;
      OnlyChars(v);
      CharsInFront(k + 1, Chars(v), rest, points);
    } else {
      var u := us[0];
      assert us == [u] + us[1..];
      UnitInFront(k, u, us[1..], points);
      SwallowSettles(k, us[1..], points);
      var rest := Swallow(k, us[1..], points).value;
      if u.Ref? && KindOf(u.body) == k {
        var v := ValueOf(u.body, points).value;
        OnlyChars(v);
        CharsInFront(k + 1, Chars(v), rest, points);
      } else {
        UnitInFront(k + 1, u, rest, points);
      }
    }
  }

  lemma OnlyChars(v: string)
    ensures |Chars(v)| == |v| && forall i :: 0 <= i < |Chars(v)| ==> Chars(v)[i].Char?
  {
  }

  lemma NothingToSettle(k: nat, points: CodePoints)
    ensures SettlesFrom(k, [], [], points)
  {
  }

  // ---- seven passes ---------------------------------------------------------

  function SwallowFrom(k: nat, us: seq<Unit>, points: CodePoints): Option<seq<Unit>>
    requires k <= PASSES
    decreases PASSES - k
  {
    if k == PASSES then Some(us)
    else match Swallow(k, us, points)
         case None => None
         case Some(after) => SwallowFrom(k + 1, after, points)
  }

  lemma {:induction false} PassesOnUnits(k: nat, us: seq<Unit>, points: CodePoints)
    requires k <= PASSES && IsCodePoints(points) && AreUnits(us) && SettledBelow(k, us)
    ensures PassesFrom(k, Spell(us), points) == Spelled(SwallowFrom(k, us, points))
    decreases PASSES - k
  {
    hide Spell, Pass, Swallow, AreUnits, SettledBelow, IsCodePoints;
    if k < PASSES {
      PassOnUnits(k, us, points);
      if Swallow(k, us, points).Some? {
        SwallowSettles(k, us, points);
        PassesOnUnits(k + 1, Swallow(k, us, points).value, points);
      }
    }
  }

  /** The reference settled at pass `k`, in units settled below it. */
  function Applied(k: nat, us: seq<Unit>, points: CodePoints): seq<Unit>
    requires Decodable(us, points) && k < PASSES
  {
    if us == [] then []
    else
      var rest := DecodableRest(us, points);
      (if us[0].Ref? && KindOf(us[0].body) == k then Chars(ValueOf(us[0].body, points).value) else [us[0]])
      + Applied(k, rest, points)
  }

  function DecodableRest(us: seq<Unit>, points: CodePoints): (rest: seq<Unit>)
    requires Decodable(us, points) && us != []
    ensures rest == us[1..] && Decodable(rest, points)
  {
    assert forall i :: 0 <= i < |us[1..]| ==> us[1..][i] == us[i + 1];
    us[1..]
  }

  /** Where no bare ampersand starts a match, a pass does what it is for and nothing else. */
  lemma {:induction false} QuietApplies(k: nat, us: seq<Unit>, points: CodePoints)
    requires k < PASSES && Decodable(us, points) && Quiet(k, us)
    ensures Swallow(k, us, points) == Some(Applied(k, us, points))
  {
    hide KindOf, ValueOf, Chars, Collides;
    if us != [] {
      var rest := DecodableRest(us, points);
      QuietApplies(k, rest, points);
    }
  }

  lemma {:induction false} SettledAppend(k: nat, a: seq<Unit>, b: seq<Unit>, points: CodePoints)
    requires k < PASSES && (forall i :: 0 <= i < |a| ==> a[i].Char?)
    requires Decodable(b, points) && Decodable(a + b, points)
    ensures Applied(k, a + b, points) == a + Applied(k, b, points)
  {
    hide Applied, Decodable;
    if a == [] {
      assert a + b == b;
    } else {
      assert (a + b)[1..] == a[1..] + b;
      AppliedPastChar(k, a + b, points);
      SettledAppend(k, a[1..], b, points);
      assert [a[0]] + (a[1..] + Applied(k, b, points)) == a + Applied(k, b, points);
    }
  }

  /** A pass leaves a plain character in front as it is. */
  lemma AppliedPastChar(k: nat, us: seq<Unit>, points: CodePoints)
    requires k < PASSES && Decodable(us, points) && us != [] && us[0].Char?
    ensures Decodable(us[1..], points) && Applied(k, us, points) == [us[0]] + Applied(k, us[1..], points)
  {
    hide KindOf, ValueOf, Chars;
    var rest := DecodableRest(us, points);
  }

  /** Settling below `k + 1` is settling below `k` and then applying pass `k`. */
  lemma {:induction false} SettledNext(k: nat, us: seq<Unit>, points: CodePoints)
    requires k < PASSES && Decodable(us, points)
    ensures Decodable(Settled(k, us, points), points)
    ensures Applied(k, Settled(k, us, points), points) == Settled(k + 1, us, points)
  {
    hide KindOf, ValueOf, Chars, Weight;
    if us != [] {
      var u := us[0];
      var rest := DecodableRest(us, points);
      SettledNext(k, rest, points);
      var later := Settled(k, rest, points);
      if u.Ref? && KindOf(u.body) < k {
        var v := ValueOf(u.body, points).value;
        OnlyChars(v);
        CharsInFront(k, Chars(v), later, points);
        SettledAppend(k, Chars(v), later, points);
      } else {
        UnitInFront(k, u, later, points);
        assert ([u] + later)[1..] == later;
      }
    }
  }

  lemma {:induction false} SettledNone(us: seq<Unit>, points: CodePoints)
    requires Decodable(us, points)
    ensures Settled(0, us, points) == us
  {
    hide KindOf, ValueOf;
    if us != [] {
      var rest := DecodableRest(us, points);
      SettledNone(rest, points);
    }
  }

  /** No pass, at the text as it then stands, finds a match at a bare ampersand. */
  predicate NeverCollides(k: nat, us: seq<Unit>, points: CodePoints)
    requires k <= PASSES && Decodable(us, points)
    decreases PASSES - k
  {
    k == PASSES || (Quiet(k, Settled(k, us, points)) && NeverCollides(k + 1, us, points))
  }

  lemma {:induction false} WeightSettled(us: seq<Unit>, points: CodePoints)
    requires SettledBelow(PASSES, us)
    ensures Weight(us, points) == |Spell(us)|
  {
    hide KindOf;
    if us != [] {
      assert us == [us[0]] + us[1..];
      UnitInFront(PASSES, us[0], us[1..], points);
      WeightSettled(us[1..], points);
    }
  }

  /** From the first collision on, the text ends up shorter than it should, or not at all. */
  lemma {:induction false} RunShrinks(k: nat, us: seq<Unit>, points: CodePoints)
    requires k <= PASSES && IsCodePoints(points) && AreUnits(us) && SettledBelow(k, us)
    requires SwallowFrom(k, us, points).Some?
    ensures Decodable(us, points)
    ensures |Spell(SwallowFrom(k, us, points).value)| <= Weight(us, points)
    ensures k < PASSES && !Quiet(k, us) ==> |Spell(SwallowFrom(k, us, points).value)| < Weight(us, points)
    decreases PASSES - k
  {
    hide Spell, Swallow, AreUnits, IsCodePoints, Weight, Quiet;
    if k == PASSES {
      WeightSettled(us, points);
    } else {
      hide SettledBelow, Decodable;
      SwallowSettles(k, us, points);
      RunShrinks(k + 1, Swallow(k, us, points).value, points);
    }
  }

  /** The run from pass `k` on, at the text as the meaning has it then. */
  lemma {:induction false} RunFromSettled(k: nat, us: seq<Unit>, points: CodePoints)
    requires k <= PASSES && IsCodePoints(points) && Decodable(us, points)
    requires AreUnits(Settled(k, us, points)) && SettledBelow(k, Settled(k, us, points))
    requires Weight(Settled(k, us, points), points) <= Weight(us, points)
    ensures
      var run := SwallowFrom(k, Settled(k, us, points), points);
      if NeverCollides(k, us, points) then run == Some(Settled(PASSES, us, points))
      else run.Some? ==> |Spell(run.value)| < Weight(us, points)
    decreases PASSES - k
  {
    hide Spell, Swallow, AreUnits, IsCodePoints, Weight, Quiet, Decodable, SettledBelow, Settled, Applied;
    if k < PASSES {
      var at := Settled(k, us, points);
      if Quiet(k, at) {
        SettledNext(k, us, points);
        QuietApplies(k, at, points);
        SwallowSettles(k, at, points);
        RunFromSettled(k + 1, us, points);
      } else if SwallowFrom(k, at, points).Some? {
        RunShrinks(k, at, points);
      }
    }
  }

  lemma {:induction false} WeightIsMeaning(us: seq<Unit>, points: CodePoints)
    requires Decodable(us, points)
    ensures Weight(us, points) == |Meaning(us, points)|
  {
    hide KindOf, ValueOf, Chars;
    if us != [] {
      var rest := DecodableRest(us, points);
      WeightIsMeaning(rest, points);
      var u := us[0];
      var first := SettledOne(PASSES, u, points);
      SpellAppend(first, Settled(PASSES, rest, points));
      if u.Ref? && KindOf(u.body) < PASSES {
        SpellChars(ValueOf(u.body, points).value);
      } else {
        assert [u][1..] == [];
      }
    }
  }

  // ---- which passes can meet a bare ampersand -------------------------------

  predicate NoAmpersand(us: seq<Unit>) {
    forall i :: 0 <= i < |us| ==> us[i] != Char('&')
  }

  /** No numeric reference of the text stands for an ampersand. */
  predicate NoAmpersandByNumber(us: seq<Unit>, points: CodePoints) {
    forall i :: 0 <= i < |us| && us[i].Ref? && KindOf(us[i].body) < AMP ==> ValueOf(us[i].body, points) != Some("&")
  }

  lemma {:induction false} NoAmpersandIsQuiet(k: nat, us: seq<Unit>)
    requires NoAmpersand(us)
    ensures Quiet(k, us)
  {
    hide MatchesAt;
    if us != [] {
      NoAmpersandIsQuiet(k, us[1..]);
    }
  }

  lemma {:induction false} SettledWithoutAmpersand(k: nat, us: seq<Unit>, points: CodePoints)
    requires k <= AMP && IsCodePoints(points) && Decodable(us, points)
    requires NoAmpersand(us) && NoAmpersandByNumber(us, points)
    ensures NoAmpersand(Settled(k, us, points))
  {
    hide KindOf, Chars;
    if us != [] {
      var rest := DecodableRest(us, points);
      assert forall i :: 0 <= i < |rest| ==> rest[i] == us[i + 1];
      SettledWithoutAmpersand(k, rest, points);
      var u := us[0];
      var first := SettledOne(k, u, points);
      if u.Ref? && KindOf(u.body) < k {
        var v := ValueOf(u.body, points).value;
        assert '&' !in v;
        assert forall i :: 0 <= i < |v| ==> Chars(v)[i] == Char(v[i]);
      }
      assert forall i :: 0 <= i < |first| ==> first[i] != Char('&');
    }
  }


  lemma {:induction false} EarlyWithoutAmpersand(k: nat, us: seq<Unit>, points: CodePoints)
    requires k <= HEX && Decodable(us, points) && NoAmpersand(us)
    ensures NoAmpersand(Settled(k, us, points))
  {
    hide KindOf, Chars;
    if us != [] {
      var rest := DecodableRest(us, points);
      assert forall i :: 0 <= i < |rest| ==> rest[i] == us[i + 1];
      EarlyWithoutAmpersand(k, rest, points);
      var first := SettledOne(k, us[0], points);
      if us[0].Ref? && KindOf(us[0].body) < k {
        var v := ValueOf(us[0].body, points).value;
        assert '&' !in v;
        assert forall i :: 0 <= i < |v| ==> Chars(v)[i] == Char(v[i]);
      }
      assert forall i :: 0 <= i < |first| ==> first[i] != Char('&');
    }
  }

  /**
   No ampersand written in hexadecimal is followed by what reads as the rest of a
   decimal reference, and none written by number by what reads as `amp;`.
   */
  predicate Unambiguous(us: seq<Unit>, points: CodePoints)
    requires Decodable(us, points)
  {
    Quiet(DEC, Settled(DEC, us, points)) && Quiet(AMP, Settled(AMP, us, points))
  }

  /** Only the last two passes can meet an ampersand that an earlier one left. */
  lemma {:induction false} CollisionsAreLate(k: nat, us: seq<Unit>, points: CodePoints)
    requires k <= DEC && Decodable(us, points) && NoAmpersand(us)
    ensures NeverCollides(k, us, points) <==> Unambiguous(us, points)
    decreases DEC - k
  {
    hide Quiet, Settled, Decodable, NoAmpersand;
    if k == DEC {
      assert NeverCollides(PASSES, us, points);
      assert NeverCollides(AMP, us, points) <==> Quiet(AMP, Settled(AMP, us, points));
    } else {
      EarlyWithoutAmpersand(k, us, points);
      NoAmpersandIsQuiet(k, Settled(k, us, points));
      CollisionsAreLate(k + 1, us, points);
    }
  }

  /** Character data as XML has it: an ampersand only ever starts a reference. */
  predicate WellFormed(us: seq<Unit>) {
    AreUnits(us) && forall i :: 0 <= i < |us| ==> us[i] != Char('&')
  }

  /**
   The seven passes give character data its meaning if and only if it is unambiguous.
   On a reference to a number that is no code point the decoder throws.
   */
  lemma DecodesToMeaning(us: seq<Unit>, points: CodePoints)
    requires IsCodePoints(points) && WellFormed(us)
    ensures !Decodable(us, points) ==> DecodeXml(Spell(us), points) == None
    ensures Decodable(us, points) ==>
              (DecodeXml(Spell(us), points) == Some(Meaning(us, points)) <==> Unambiguous(us, points))
  {
    hide Spell, SwallowFrom, Weight, IsCodePoints, NeverCollides, Unambiguous;
    PassesOnUnits(LT, us, points);
    if SwallowFrom(LT, us, points).Some? {
      RunShrinks(LT, us, points);
    }
    if Decodable(us, points) {
      SettledNone(us, points);
      RunFromSettled(LT, us, points);
      WeightIsMeaning(us, points);
      CollisionsAreLate(LT, us, points);
    }
  }

  // ---- what follows for texts a reader can recognize ------------------------

  /** Character data without a numeric reference to the ampersand is decoded to its meaning. */
  lemma DecodesWithoutNumericAmpersand(us: seq<Unit>, points: CodePoints)
    requires IsCodePoints(points) && WellFormed(us) && Decodable(us, points) && NoAmpersandByNumber(us, points)
    ensures DecodeXml(Spell(us), points) == Some(Meaning(us, points))
  {
    hide Decodable, NoAmpersandByNumber, IsCodePoints, AreUnits, Spell, Quiet, Settled;
    SettledWithoutAmpersand(DEC, us, points);
    NoAmpersandIsQuiet(DEC, Settled(DEC, us, points));
    SettledWithoutAmpersand(AMP, us, points);
    NoAmpersandIsQuiet(AMP, Settled(AMP, us, points));
    DecodesToMeaning(us, points);
  }

  // ---- escaping -------------------------------------------------------------

  function EscapeOne(c: char): (u: Unit)
    ensures IsUnit(u) && u != Char('&')
  {
    if c == '<' then Ref("lt")
    else if c == '>' then Ref("gt")
    else if c == '\"' then Ref("quot")
    else if c == '\'' then Ref("apos")
    else if c == '&' then Ref("amp")
    else Char(c)
  }

  function Escaped(s: string): (us: seq<Unit>)
    ensures |us| == |s| && forall i :: 0 <= i < |s| ==> us[i] == EscapeOne(s[i])
  {
    seq(|s|, i requires 0 <= i < |s| => EscapeOne(s[i]))
  }

  /** The text with the five special characters as references, any way a writer would do it. */
  function EscapeXml(s: string): string {
    if s == "" then "" else SpellOne(EscapeOne(s[0])) + EscapeXml(s[1..])
  }

  lemma EscapeOneMeans(c: char, points: CodePoints)
    ensures
      var u := EscapeOne(c);
      && (u.Ref? ==> KindOf(u.body) < PASSES && ValueOf(u.body, points) == Some([c]))
      && (u.Ref? && KindOf(u.body) < AMP ==> ValueOf(u.body, points) != Some("&"))
      && (u.Char? ==> u.c == c)
  {
    assert [c][0] == c && "&"[0] == '&';
  }

  lemma {:induction false} EscapedMeans(s: string, points: CodePoints)
    ensures Decodable(Escaped(s), points) && NoAmpersandByNumber(Escaped(s), points) && WellFormed(Escaped(s))
    ensures Settled(PASSES, Escaped(s), points) == Chars(s)
    ensures Spell(Escaped(s)) == EscapeXml(s)
  {
    hide EscapeOne, KindOf, ValueOf;
    var us := Escaped(s);
    forall i | 0 <= i < |s|
      ensures us[i].Ref? ==> KindOf(us[i].body) < PASSES && ValueOf(us[i].body, points) == Some([s[i]])
      ensures us[i].Ref? && KindOf(us[i].body) < AMP ==> ValueOf(us[i].body, points) != Some("&")
      ensures IsUnit(us[i]) && us[i] != Char('&')
    {
      EscapeOneMeans(s[i], points);
    }
    if s != "" {
      EscapeOneMeans(s[0], points);
      assert us[1..] == Escaped(s[1..]);
      EscapedMeans(s[1..], points);
      var first := SettledOne(PASSES, us[0], points);
      assert first == [Char(s[0])];
      assert [Char(s[0])] + Chars(s[1..]) == Chars(s);
    }
  }

  /** Decoding undoes the escaping of the five predefined entities, for every string. */
  lemma UnescapesEverything(s: string, points: CodePoints)
    requires IsCodePoints(points)
    ensures DecodeXml(EscapeXml(s), points) == Some(s)
  {
    hide DecodeXml, Decodable, WellFormed, NoAmpersandByNumber, IsCodePoints;
    EscapedMeans(s, points);
    DecodesWithoutNumericAmpersand(Escaped(s), points);
    SpellChars(s);
  }

  /** An escaped text has no special character left but the ampersands of its references. */
  lemma {:induction false} EscapedIsPlain(s: string, c: char)
    requires c == '<' || c == '>' || c == '\"' || c == '\''
    ensures c !in EscapeXml(s)
  {
    hide EscapeOne, SpellOne;
    if s != "" {
      OneIsPlain(s[0], c);
      EscapedIsPlain(s[1..], c);
    }
  }

  lemma OneIsPlain(d: char, c: char)
    requires c == '<' || c == '>' || c == '\"' || c == '\''
    ensures c !in SpellOne(EscapeOne(d))
  {
  }

  // ---- where the order of the passes shows ----------------------------------

  /**
   An ampersand written by number is decoded twice when what follows reads as the
   rest of a reference: `&#38;amp;`, which means `&amp;`, comes out otherwise.
   */
  lemma DecodedTwice(body: string, rest: string, points: CodePoints)
    requires IsCodePoints(points) && '&' !in rest
    requires (KindOf(body) == HEX || KindOf(body) == DEC) && ValueOf(body, points) == Some("&")
    ensures
      var us := [Ref(body)] + Chars("amp;" + rest);
      && Decodable(us, points) && Meaning(us, points) == "&amp;" + rest
      && DecodeXml(Spell(us), points) != Some(Meaning(us, points))
  {
    hide KindOf, ValueOf, Spell, DecodeXml, IsCodePoints, Decodable, WellFormed, Settled, MatchesAt;
    var tail := "amp;" + rest;
    var us := [Ref(body)] + Chars(tail);
    TailSettles(body, tail, points);
    SpellChars("&" + tail);
    assert "&" + tail == "&amp;" + rest;
    StillReads(rest);
    assert Chars("&" + tail)[0] == Char('&');
    DecodesToMeaning(us, points);
  }

  lemma TailSettles(body: string, tail: string, points: CodePoints)
    requires '&' !in tail
    requires (KindOf(body) == HEX || KindOf(body) == DEC) && ValueOf(body, points) == Some("&")
    ensures
      var us := [Ref(body)] + Chars(tail);
      && WellFormed(us) && Decodable(us, points)
      && Settled(AMP, us, points) == Settled(PASSES, us, points) == Chars("&" + tail)
  {
    hide KindOf, ValueOf, Settled, Decodable, WellFormed;
    var u, cs := Ref(body), Chars(tail);
    TailUnits(body, tail, points);
    SettledChars(AMP, cs, points);
    SettledChars(PASSES, cs, points);
    SettledStep(AMP, u, cs, points);
    SettledStep(PASSES, u, cs, points);
    assert Chars("&") + cs == Chars("&" + tail);
  }

  lemma TailUnits(body: string, tail: string, points: CodePoints)
    requires '&' !in tail && KindOf(body) < PASSES && ValueOf(body, points).Some?
    ensures WellFormed([Ref(body)] + Chars(tail)) && Decodable([Ref(body)] + Chars(tail), points)
    ensures Decodable([Ref(body)], points) && Decodable(Chars(tail), points)
  {
    hide KindOf, ValueOf;
    KnownBody(body);
    var us := [Ref(body)] + Chars(tail);
    assert forall i :: 0 < i < |us| ==> us[i] == Char(tail[i - 1]);
  }

  lemma SettledStep(k: nat, u: Unit, rest: seq<Unit>, points: CodePoints)
    requires k <= PASSES && Decodable([u] + rest, points) && Decodable([u], points) && Decodable(rest, points)
    ensures Settled(k, [u] + rest, points) == SettledOne(k, u, points) + Settled(k, rest, points)
  {
    hide KindOf, ValueOf, Decodable, SettledOne;
    assert ([u] + rest)[1..] == rest;
  }

  lemma {:induction false} SettledChars(k: nat, us: seq<Unit>, points: CodePoints)
    requires k <= PASSES && Decodable(us, points) && forall i :: 0 <= i < |us| ==> us[i].Char?
    ensures Settled(k, us, points) == us
  {
    hide KindOf, ValueOf;
    if us != [] {
      var left := DecodableRest(us, points);
      SettledChars(k, left, points);
    }
  }

  lemma StillReads(rest: string)
    ensures MatchesAt(AMP, "&amp;" + rest)
  {
    hide FirstSemicolon;
    var s := "&amp;" + rest;
    assert s == "&amp" + [';'] + rest;
    SemicolonAfter("&amp", rest);
    assert s[1..4] == "amp";
  }

  // ---- references by number and by name -----------------------------------------

  function HexDigit(d: nat, upper: bool): (c: char)
    requires d < 16
    ensures IsHexDigit(c)
  {
    if d < 10 then ('0' as int + d) as char
    else if upper then ('A' as int + d - 10) as char else ('a' as int + d - 10) as char
  }

  /** A number in base 16. */
  function HexText(n: nat, upper: bool): (s: string)
    ensures s != "" && AllHex(s)
  {
    if n < 16 then [HexDigit(n, upper)] else HexText(n / 16, upper) + [HexDigit(n % 16, upper)]
  }

  lemma {:induction false} HexReads(n: nat, upper: bool)
    ensures HexNumber(HexText(n, upper)) == n
  {
    var s := HexText(n, upper);
    if n < 16 {
      assert s[..0] == "";
    } else {
      HexReads(n / 16, upper);
      assert s[..|s| - 1] == HexText(n / 16, upper);
    }
  }

  /**
   The references of section 4.1 and the five names of section 4.6 of XML 1.0: by
   number, in base ten or sixteen and in capitals or not, and by name; no other name is known.
   */
  lemma ReferencesMean(n: nat, upper: bool, name: string, points: CodePoints)
    ensures KindOf("#" + Decimal(n)) == DEC && ValueOf("#" + Decimal(n), points) == points(n)
    ensures KindOf("#x" + HexText(n, upper)) == HEX && ValueOf("#x" + HexText(n, upper), points) == points(n)
    ensures KindOf("lt") < PASSES && ValueOf("lt", points) == Some("<")
    ensures KindOf("gt") < PASSES && ValueOf("gt", points) == Some(">")
    ensures KindOf("quot") < PASSES && ValueOf("quot", points) == Some("\"")
    ensures KindOf("apos") < PASSES && ValueOf("apos", points) == Some("'")
    ensures KindOf("amp") < PASSES && ValueOf("amp", points) == Some("&")
    ensures name != "" && name[0] != '#' && KindOf(name) < PASSES ==> name in {"lt", "gt", "quot", "apos", "amp"}
  {
    hide Decimal, HexText, NumberOf, HexNumber;
    NumberOfDecimal(n);
    HexReads(n, upper);
    var d, x := "#" + Decimal(n), "#x" + HexText(n, upper);
    assert d[1..] == Decimal(n) && x[2..] == HexText(n, upper) && x[1] == 'x';
    assert d[1] == Decimal(n)[0];
  }

  /** In a text of its own a reference by number is decoded to its character, unless that is the ampersand. */
  lemma NumberDecodes(n: nat, upper: bool, hex: bool, points: CodePoints)
    requires IsCodePoints(points) && points(n).Some? && points(n) != Some("&")
    ensures DecodeXml("&#" + (if hex then "x" + HexText(n, upper) else Decimal(n)) + ";", points) == points(n)
  {
    hide DecodeXml, HexText, Decimal, KindOf, ValueOf, IsCodePoints;
    var body := if hex then "#x" + HexText(n, upper) else "#" + Decimal(n);
    ReferencesMean(n, upper, "", points);
    BodyPlain(n, upper);
    OneReference(body, points);
    assert "&#" + (if hex then "x" + HexText(n, upper) else Decimal(n)) + ";" == ['&'] + body + [';'];
  }

  lemma BodyPlain(n: nat, upper: bool)
    ensures '&' !in "#x" + HexText(n, upper) && ';' !in "#x" + HexText(n, upper)
    ensures '&' !in "#" + Decimal(n) && ';' !in "#" + Decimal(n)
  {
    hide HexText, Decimal;
    var x, d := HexText(n, upper), Decimal(n);
    assert forall i :: 0 <= i < |x| ==> IsHexDigit(x[i]);
    assert forall i :: 0 <= i < |d| ==> IsDigit(d[i]);
  }

  lemma OneReference(body: string, points: CodePoints)
    requires IsCodePoints(points) && '&' !in body && ';' !in body
    requires KindOf(body) < PASSES && KindOf(body) != AMP && ValueOf(body, points).Some? && ValueOf(body, points) != Some("&")
    ensures DecodeXml(['&'] + body + [';'], points) == ValueOf(body, points)
  {
    hide DecodeXml, KindOf, ValueOf, IsCodePoints;
    var us := [Ref(body)];
    assert us[1..] == [] && us[0] == Ref(body);
    assert Spell(us) == ['&'] + body + [';'];
    var v := ValueOf(body, points).value;
    assert Settled(PASSES, us, points) == Chars(v) + [] == Chars(v);
    SpellChars(v);
    DecodesWithoutNumericAmpersand(us, points);
  }
}
