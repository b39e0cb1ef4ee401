/**
 What the wall-clock conversion of `core/features/tasks/schedule.ts` gives around
 a change of offset: which wall-clock times it places where the zone's clock does.
 Periods begin and daily jobs run at such times.
 */
module Boundaries {
  import opened Calendar
  import opened Schedule

  /**
   The instant computed for wall clock `w` parts time as the clock does: before it
   the clock shows less, and from it on never less again.
   */
  ghost predicate Splits(w: int, z: Zone) {
    forall t: int :: w <= Local(t, z) <==> Landed(w, z) <= t
  }

  /** Moreover the clock shows `w` at that instant, and at no other. */
  ghost predicate PassesOnce(w: int, z: Zone) {
    Splits(w, z) && forall t: int :: Local(t, z) == w <==> t == Landed(w, z)
  }

  /** Within a day of `w` the zone switches once, at `at`, from offset `a` to `b`. */
  ghost predicate SwitchesOnce(z: Zone, w: int, a: int, b: int, at: int) {
    && w - DAY_MS < at <= w + DAY_MS
    && forall t: int :: w - DAY_MS <= t <= w + DAY_MS ==> z(t) == if t < at then a else b
  }

  ghost predicate OneOffsetNear(z: Zone, o: int, w: int) {
    forall t: int :: w - DAY_MS <= t <= w + DAY_MS ==> z(t) == o
  }

  /** More than a day away the clock cannot be on the wrong side. */
  lemma FarAway(w: int, z: Zone, t: int)
    requires ZoneOk(z) && !(w - DAY_MS <= t <= w + DAY_MS)
    ensures w <= Local(t, z) <==> Landed(w, z) <= t
    ensures Local(t, z) != w && t != Landed(w, z)
  {
    assert -DAY_MS <= z(t) <= DAY_MS && -DAY_MS <= z(w) <= DAY_MS;
    assert -DAY_MS <= z(w - z(w)) <= DAY_MS;
  }

  /** Where the offset does not change within a day, the time is passed once. */
  lemma OneOffsetPasses(w: int, z: Zone, o: int)
    requires ZoneOk(z) && OneOffsetNear(z, o, w)
    ensures PassesOnce(w, z) && Landed(w, z) == w - o
  {
    hide ZoneOk;
    OffsetBounds(w, z);
    assert z(w) == o && z(w - o) == o;
    forall t: int ensures w <= Local(t, z) <==> Landed(w, z) <= t
    ensures Local(t, z) == w <==> t == Landed(w, z)
    {
      if !(w - DAY_MS <= t <= w + DAY_MS) {
        FarAway(w, z, t);
      }
    }
  }

  /** A constant offset a zone may have: whole seconds, at most a day either way. */
  predicate OffsetOk(o: int) {
    -DAY_MS <= o <= DAY_MS && o % 1000 == 0
  }

  /** With a constant offset every time is passed once. */
  lemma ConstantPasses(w: int, o: int)
    requires OffsetOk(o)
    ensures ZoneOk(Fixed(o)) && PassesOnce(w, Fixed(o)) && Landed(w, Fixed(o)) == w - o
  {
    hide PassesOnce, Landed;
    OneOffsetPasses(w, Fixed(o), o);
  }

  /** What the clock skips when it goes forward from offset `a` to `b` at `at`. */
  predicate Skipped(w: int, a: int, b: int, at: int) {
    at + a <= w < at + b
  }

  /** What the clock shows twice when it goes back from offset `a` to `b` at `at`. */
  predicate Repeated(w: int, a: int, b: int, at: int) {
    at + b <= w < at + a
  }

  /** Where the guesses land around a switch. */
  lemma LandedNear(w: int, z: Zone, a: int, b: int, at: int)
    requires ZoneOk(z) && SwitchesOnce(z, w, a, b, at)
    ensures
      Landed(w, z) ==
        if w < at then (if w - a < at then w - a else w - b)
        else (if w - b < at then w - a else w - b)
    ensures -DAY_MS <= a <= DAY_MS && -DAY_MS <= b <= DAY_MS
  {
    hide ZoneOk;
    OffsetBounds(at - 1, z);
    OffsetBounds(at, z);
    assert z(at - 1) == a && z(at) == b;
    assert z(w) == if w < at then a else b;
    assert z(w - a) == if w - a < at then a else b;
    assert z(w - b) == if w - b < at then a else b;
  }

  /**
   Around one switch the computed instant parts time as the clock does, except for
   a time the clock skips or repeats; the first such time comes right as well, a
   skipped one east of Greenwich and a repeated one west of it.
   */
  lemma SplitsExactly(w: int, z: Zone, a: int, b: int, at: int)
    requires ZoneOk(z) && SwitchesOnce(z, w, a, b, at)
    ensures
      var fine :=
        && (Skipped(w, a, b, at) ==> w == at + a && 0 <= a)
        && (Repeated(w, a, b, at) ==> w == at + b && b < 0);
      Splits(w, z) <==> fine
  {
    hide ZoneOk, Landed;
    LandedNear(w, z, a, b, at);
    forall t: int | !(w - DAY_MS <= t <= w + DAY_MS) ensures w <= Local(t, z) <==> Landed(w, z) <= t {
      FarAway(w, z, t);
    }
    assert Local(at, z) == at + b && Local(at - 1, z) == at - 1 + a;
    if Splits(w, z) {
      var l := Landed(w, z);
      assert w <= Local(at, z) <==> l <= at;
      assert w <= Local(at - 1, z) <==> l <= at - 1;
    }
  }

  /** Around one switch, a time is passed once exactly when it is neither skipped nor repeated. */
  lemma PassesExactly(w: int, z: Zone, a: int, b: int, at: int)
    requires ZoneOk(z) && SwitchesOnce(z, w, a, b, at)
    ensures PassesOnce(w, z) <==> !Skipped(w, a, b, at) && !Repeated(w, a, b, at)
  {
    hide ZoneOk, Landed;
    LandedNear(w, z, a, b, at);
    SplitsExactly(w, z, a, b, at);
    forall t: int | !(w - DAY_MS <= t <= w + DAY_MS) ensures Local(t, z) != w && t != Landed(w, z) {
      FarAway(w, z, t);
    }
    assert Local(at, z) == at + b;
  }

  /**
   A skipped time still gets one instant, at which the clock is off by what it skips:
   late east of Greenwich, early west of it. Of a repeated time the second showing is
   taken east of it, the first west of it.
   */
  lemma WhereTheyLand(w: int, z: Zone, a: int, b: int, at: int)
    requires ZoneOk(z) && SwitchesOnce(z, w, a, b, at)
    ensures Skipped(w, a, b, at) ==> Local(Landed(w, z), z) == if at <= w then w + (b - a) else w - (b - a)
    ensures Repeated(w, a, b, at) ==> Landed(w, z) == if at <= w then w - b else w - a
  {
    hide ZoneOk, Landed;
    LandedNear(w, z, a, b, at);
  }

  /** From a day before `lo` to a day after `hi` the zone switches at most once, at `at`, from offset `a` to `b`. */
  ghost predicate SwitchesWithin(z: Zone, lo: int, hi: int, a: int, b: int, at: int) {
    forall t: int :: lo - DAY_MS <= t <= hi + DAY_MS ==> z(t) == if t < at then a else b
  }

  /** The clock shows some time from `lo` up to `hi`. */
  ghost predicate Shown(z: Zone, lo: int, hi: int) {
    exists t: int :: lo <= Local(t, z) < hi
  }

  /** A stretch of the clock is never shown exactly when it lies in what one switch skips. */
  lemma ShownExactly(z: Zone, lo: int, hi: int, a: int, b: int, at: int)
    requires ZoneOk(z) && lo < hi && SwitchesWithin(z, lo, hi, a, b, at)
    ensures Shown(z, lo, hi) <==> !(at + a <= lo && hi <= at + b)
  {
    hide ZoneOk;
    if t: int :| lo <= Local(t, z) < hi {
      OffsetBounds(t, z);
      assert z(t) == if t < at then a else b;
    }
    OffsetBounds(lo - DAY_MS, z);
    OffsetBounds(hi + DAY_MS, z);
    if at <= lo - DAY_MS {
      assert Local(lo - b, z) == lo;
    } else if lo < at + a {
      assert Local(lo - a, z) == lo;
    } else if at + b < hi {
      OffsetBounds(at, z);
      var t := if at < lo - b then lo - b else at;
      assert lo <= Local(t, z) < hi;
    }
  }
}
