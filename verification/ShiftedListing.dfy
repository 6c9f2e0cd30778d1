/**
 * A series moved by one clock difference lists as it did, moved: every
 * exception keeps meeting its occurrence, none appears or vanishes, and what
 * was rescheduled keeps its own time (src/ical-series-shift.ts against
 * src/ical-expand.ts).
 */
module ShiftedListing {
  import opened Options
  import opened WallClock
  import opened Series
  import opened Reader
  import opened SeriesShift

  // ---------------------------------------------------------------------
  // Times that move with the clock
  // ---------------------------------------------------------------------

  /** The zone's clocks show `wall` at the instant it names: it is not skipped. */
  ghost predicate Plain(z: Zone, wall: int) {
    z.show(z.place(wall)) == wall
  }

  /**
   * Clock times name instants in order: of two the clocks show the earlier the
   * earlier one, and of two a day or more apart too, whether they are shown or not.
   */
  ghost predicate Ordered(z: Zone) {
    && (forall w1, w2 :: w1 < w2 && Plain(z, w1) && Plain(z, w2) ==> z.place(w1) < z.place(w2))
    && (forall w1, w2 :: w1 + DAY_MS <= w2 ==> z.place(w1) < z.place(w2))
  }

  /**
   * So they do in every zone whose offset changes lie three days apart and skip
   * less than a day: `place` and `show` are then the conversions of section
   * 3.3.5 of RFC 5545.
   */
  lemma ZonesAreOrdered(f: OffsetAt, id: string)
    requires Spaced(f) && JumpsLessThanADay(f)
    ensures Ordered(Zone(id, false, (w: int) => WallToInstant(w, f), (t: int) => t + f(t)))
  {
    var z := Zone(id, false, (w: int) => WallToInstant(w, f), (t: int) => t + f(t));
    forall w1, w2 | w1 < w2 && Plain(z, w1) && Plain(z, w2) ensures z.place(w1) < z.place(w2) {
      assert z.place(w1) == WallToInstant(w1, f) && z.place(w2) == WallToInstant(w2, f);
      assert z.show(z.place(w1)) == WallToInstant(w1, f) + f(WallToInstant(w1, f));
      ShownInOrder(f, w1, w2);
    }
    forall w1, w2 | w1 + DAY_MS <= w2 ensures z.place(w1) < z.place(w2) {
      DaysInOrder(f, w1, w2);
    }
  }

  /**
   * The clock time of a stored time in the series' zone: its own fields there,
   * what the clocks show at it elsewhere.
   */
  function ClockOf(t: Time, z: Zone): int {
    if t.zone.id == z.id then t.wall else z.show(InstantOf(t))
  }

  /** Some clock times. */
  type Clocks = int -> bool

  /** Two clock times the shift keeps apart or together: one, a day or more apart, or shown before and after. */
  ghost predicate Alike(z: Zone, c: int, d: int, ms: int) {
    c == d || c + DAY_MS <= d || d + DAY_MS <= c || (Plain(z, c) && Plain(z, d) && Plain(z, c + ms) && Plain(z, d + ms))
  }

  /** Any two of `clocks` are. */
  ghost predicate Steady(z: Zone, clocks: Clocks, ms: int) {
    Ordered(z) && forall c, d :: clocks(c) && clocks(d) ==> Alike(z, c, d, ms)
  }

  /**
   * A stored time the shift can carry, its clock time among `clocks`. In the
   * series' own zone every one is; in another, one whose clock time names it,
   * in a zone that can name where it goes.
   */
  ghost predicate Carried(t: Time, ms: int, z: Zone, clocks: Clocks) {
    !t.isDate && clocks(ClockOf(t, z)) && CarriedThere(t, ms, z)
  }

  ghost predicate CarriedThere(t: Time, ms: int, z: Zone) {
    var clock := ClockOf(t, z);
    if t.zone.id == z.id then t.zone == z
    else z.place(clock) == InstantOf(t) && t.zone.place(t.zone.show(z.place(clock + ms))) == z.place(clock + ms)
  }

  /** Whatever its zone, such a time is at its clock time, and moves by the difference on the clock of the series. */
  lemma MovesOnTheClock(t: Time, ms: int, z: Zone)
    requires !t.isDate && CarriedThere(t, ms, z)
    ensures InstantOf(t) == z.place(ClockOf(t, z))
    ensures InstantOf(Moved(t, ms, z)) == z.place(ClockOf(t, z) + ms)
    ensures t.zone == z || Plain(z, ClockOf(t, z) + ms) ==> ms == 0 || ClockOf(Moved(t, ms, z), z) == ClockOf(t, z) + ms
  {
  }

  /** So two of them keep their order, and what met still meets and what did not still does not. */
  lemma OrderKept(t: Time, u: Time, ms: int, z: Zone, clocks: Clocks)
    requires Steady(z, clocks, ms) && Carried(t, ms, z, clocks) && Carried(u, ms, z, clocks)
    ensures InstantOf(Moved(t, ms, z)) < InstantOf(Moved(u, ms, z)) <==> InstantOf(t) < InstantOf(u)
    ensures InstantOf(Moved(t, ms, z)) == InstantOf(Moved(u, ms, z)) <==> InstantOf(t) == InstantOf(u)
  {
    MovesOnTheClock(t, ms, z);
    MovesOnTheClock(u, ms, z);
    AlikeMoves(z, ClockOf(t, z), ClockOf(u, z), ms);
  }

  lemma AlikeMoves(z: Zone, c: int, d: int, ms: int)
    requires Ordered(z) && Alike(z, c, d, ms)
    ensures z.place(c + ms) < z.place(d + ms) <==> z.place(c) < z.place(d)
    ensures z.place(c + ms) == z.place(d + ms) <==> z.place(c) == z.place(d)
  {
    if c < d { AlikeInOrder(z, c, d, ms); }
    if d < c { AlikeInOrder(z, d, c, ms); }
  }

  lemma AlikeInOrder(z: Zone, c: int, d: int, ms: int)
    requires Ordered(z) && Alike(z, c, d, ms) && c < d
    ensures z.place(c) < z.place(d) && z.place(c + ms) < z.place(d + ms)
  {
  }

  // ---------------------------------------------------------------------
  // When an exception in another zone keeps meeting its occurrence
  // ---------------------------------------------------------------------

  /** The zone can name every instant, as UTC can. */
  ghost predicate NamesAll(z: Zone) {
    forall x :: z.place(z.show(x)) == x
  }

  /**
   * A value in UTC that names an occurrence of the series' own zone goes on
   * naming it exactly where the two clock times, that of the occurrence and the
   * one shown at it, name one instant after the move; where both are shown then,
   * exactly if the occurrence was not skipped. Equal fields in the series' own
   * zone always do.
   */
  lemma KeepsMeetingIff(t: Time, v: Time, ms: int, z: Zone)
    requires !t.isDate && t.zone == z && !v.isDate && ms != 0 && InstantOf(v) == InstantOf(t)
    ensures var (t', v') := (InstantOf(Moved(t, ms, z)), InstantOf(Moved(v, ms, z)));
            var shown := z.show(z.place(t.wall));
            && (v.zone == z && v.wall == t.wall ==> v' == t')
            && (v.zone.id != z.id && NamesAll(v.zone) ==>
                  && (v' == t' <==> z.place(shown + ms) == z.place(t.wall + ms))
                  && (Ordered(z) && Plain(z, t.wall + ms) && Plain(z, shown + ms) ==> (v' == t' <==> Plain(z, t.wall))))
  {
  }

  /**
   * And one that names no instant of the occurrence starts to name it exactly
   * where those two clock times do; where both are shown after the move, exactly
   * if the clocks show the occurrence's clock time there, on the other pass of it.
   */
  lemma StartsToMeetIff(t: Time, v: Time, ms: int, z: Zone)
    requires !t.isDate && t.zone == z && !v.isDate && ms != 0 && InstantOf(v) != InstantOf(t)
    requires v.zone.id != z.id && NamesAll(v.zone)
    ensures var (t', v') := (InstantOf(Moved(t, ms, z)), InstantOf(Moved(v, ms, z)));
            var shown := z.show(InstantOf(v));
            && (v' == t' <==> z.place(shown + ms) == z.place(t.wall + ms))
            && (Ordered(z) && Plain(z, t.wall + ms) && Plain(z, shown + ms) ==> (v' == t' <==> shown == t.wall))
  {
  }

  /** An EXDATE in UTC stops meeting the occurrence it names when that is in a gap. */
  lemma SkippedExceptionIsOrphaned()
    ensures var z := SkipsAnHour;
            var (occurrence, exdate) := (Time(2 * HOUR + 30 * MINUTE, z, false),
                                         Time(2 * HOUR + 30 * MINUTE, UTC, false));
            Ordered(z) && InstantOf(occurrence) == InstantOf(exdate)
            && InstantOf(Moved(occurrence, HOUR, z)) != InstantOf(Moved(exdate, HOUR, z))
  {
  }

  /** And one on the second pass of an overlap starts to meet an occurrence it did not name. */
  lemma SecondPassExceptionStartsToMeet()
    ensures var z := RepeatsAnHour;
            var (occurrence, exdate) := (Time(2 * HOUR, z, false), Time(3 * HOUR, UTC, false));
            Ordered(z) && InstantOf(occurrence) != InstantOf(exdate)
            && InstantOf(Moved(occurrence, HOUR, z)) == InstantOf(Moved(exdate, HOUR, z))
  {
  }

  // ---------------------------------------------------------------------
  // The recurrence set
  // ---------------------------------------------------------------------

  /** A date of a rule, at the clock time of DTSTART. */
  function RuleTime(s: Stored, date: int): Time {
    Time(date * DAY_MS + s.start.wall % DAY_MS, s.start.zone, false)
  }

  ghost predicate Until(s: Stored, r: Rule, date: int) {
    r.until.None? || InstantOf(RuleTime(s, date)) <= InstantOf(r.until.value)
  }

  ghost predicate OfRule(s: Stored, t: Time, i: int, n: int) {
    && 0 <= i < |s.rules| && 0 <= n < |s.rules[i].dates|
    && Until(s, s.rules[i], s.rules[i].dates[n]) && t == RuleTime(s, s.rules[i].dates[n])
  }

  /** DTSTART, or a date of a rule up to its UNTIL, or an RDATE. */
  ghost predicate Names(s: Stored, t: Time) {
    || t == s.start
    || (exists i, n :: OfRule(s, t, i, n))
    || (exists i :: 0 <= i < |s.rdates| && t == s.rdates[i].start)
  }

  /** Every start is one the series names, and no EXDATE does. */
  ghost predicate AllNamed(s: Stored, walk: seq<Time>) {
    forall k :: 0 <= k < |walk| ==> Names(s, walk[k]) && !ExcludedBy(s.exdates, walk[k])
  }

  ghost predicate StartsAt(walk: seq<Time>, ms: int) {
    exists k :: 0 <= k < |walk| && InstantOf(walk[k]) == ms
  }

  /** Everything named that no EXDATE names has its start. */
  ghost predicate NoneMissing(s: Stored, walk: seq<Time>) {
    forall t :: Names(s, t) && !ExcludedBy(s.exdates, t) ==> StartsAt(walk, InstantOf(t))
  }

  /**
   * `walk` is the recurrence set of section 3.8.5.2 of RFC 5545 in order:
   * everything named that no EXDATE names, each instant once.
   */
  ghost predicate IsRecurrenceSet(s: Stored, walk: seq<Time>) {
    Increasing(walk) && AllNamed(s, walk) && NoneMissing(s, walk)
  }

  /**
   * An UNTIL the shift can carry: as section 3.3.10 of RFC 5545 has it, in UTC
   * or on the clock of DTSTART; a date where no occurrence moves past it.
   */
  ghost predicate CarriedUntil(s: Stored, r: Rule, ms: int, clocks: Clocks) {
    r.until.Some? ==>
      var (u, z) := (r.until.value, s.start.zone);
      if u.isDate then
        forall n :: 0 <= n < |r.dates| ==>
          (z.place(RuleTime(s, r.dates[n]).wall) <= InstantOf(u) <==>
           z.place(RuleTime(s, r.dates[n]).wall + ms) <= InstantOf(u))
      else Carried(u, ms, z, clocks) && if u.zone.id == UTC.id then u.zone == UTC else u.zone == z
  }

  /**
   * A series every value of which the shift can carry: of its own zone all
   * are, and their clock times, all of them among `clocks`, are kept apart or
   * together. The difference keeps DTSTART on its day.
   */
  ghost predicate Shiftable(s: Stored, ms: int, clocks: Clocks) {
    var z := s.start.zone;
    && Steady(z, clocks, ms) && ms != 0 && 0 <= s.start.wall % DAY_MS + ms < DAY_MS
    && (z.id == UTC.id ==> z == UTC)
    && !s.start.isDate && clocks(s.start.wall)
    && (forall i :: 0 <= i < |s.rules| ==> CarriedUntil(s, s.rules[i], ms, clocks))
    && (forall i, n :: 0 <= i < |s.rules| && 0 <= n < |s.rules[i].dates| ==>
        clocks(RuleTime(s, s.rules[i].dates[n]).wall))
    && (forall i :: 0 <= i < |s.rdates| ==> Carried(s.rdates[i].start, ms, z, clocks))
    && (forall i :: 0 <= i < |s.exdates| ==> Carried(s.exdates[i], ms, z, clocks))
  }

  /**
   * For a series with no RDATE, and EXDATEs and an UNTIL at its own clock time,
   * nothing is asked of the clocks: its times are days apart.
   */
  lemma DailySeriesIsShiftable(s: Stored, ms: int)
    requires Ordered(s.start.zone) && ms != 0 && 0 <= s.start.wall % DAY_MS + ms < DAY_MS && s.start.zone.id != UTC.id
    requires !s.start.isDate && s.rdates == []
    requires forall i :: 0 <= i < |s.rules| ==> s.rules[i].until.None? || AtItsClock(s, s.rules[i].until.value)
    requires forall i :: 0 <= i < |s.exdates| ==> AtItsClock(s, s.exdates[i])
    ensures Shiftable(s, ms, (c: int) => c % DAY_MS == s.start.wall % DAY_MS)
  {
    var (z, clock) := (s.start.zone, s.start.wall % DAY_MS);
    forall c: int, d: int | c % DAY_MS == clock && d % DAY_MS == clock ensures Alike(z, c, d, ms) {
      DaysBetween(c, d);
    }
    forall i, n | 0 <= i < |s.rules| && 0 <= n < |s.rules[i].dates|
      ensures RuleTime(s, s.rules[i].dates[n]).wall % DAY_MS == clock
    {
      RuleClock(s, s.rules[i].dates[n]);
    }
  }

  /** A time of the series' own zone, at the clock time of DTSTART. */
  ghost predicate AtItsClock(s: Stored, t: Time) {
    !t.isDate && t.zone == s.start.zone && t.wall % DAY_MS == s.start.wall % DAY_MS
  }

  lemma DaysBetween(c: int, d: int)
    requires c % DAY_MS == d % DAY_MS
    ensures c == d || c + DAY_MS <= d || d + DAY_MS <= c
  {
  }

  lemma RuleClock(s: Stored, date: int)
    ensures RuleTime(s, date).wall % DAY_MS == s.start.wall % DAY_MS
  {
  }

  lemma RuleTimesMove(s: Stored, ms: int, length: Option<int>, date: int)
    requires 0 <= s.start.wall % DAY_MS + ms < DAY_MS && ms != 0
    ensures RuleTime(ShiftedBy(s, ms, length), date) == Moved(RuleTime(s, date), ms, s.start.zone)
  {
    assert (s.start.wall + ms) % DAY_MS == s.start.wall % DAY_MS + ms;
  }

  lemma UntilMoves(s: Stored, ms: int, length: Option<int>, i: nat, n: nat, clocks: Clocks)
    requires Shiftable(s, ms, clocks) && i < |s.rules| && n < |s.rules[i].dates|
    ensures var (r, s') := (s.rules[i], ShiftedBy(s, ms, length));
            Until(s', s'.rules[i], r.dates[n]) <==> Until(s, r, r.dates[n])
  {
    RuleTimesMove(s, ms, length, s.rules[i].dates[n]);
    RuleUntilMoves(s, s.rules[i], s.rules[i].dates[n], ms, clocks);
  }

  lemma RuleUntilMoves(s: Stored, r: Rule, date: int, ms: int, clocks: Clocks)
    requires Steady(s.start.zone, clocks, ms) && ms != 0 && (s.start.zone.id == UTC.id ==> s.start.zone == UTC)
    requires CarriedUntil(s, r, ms, clocks) && date in r.dates && clocks(RuleTime(s, date).wall)
    ensures r.until.Some? ==>
              (InstantOf(Moved(RuleTime(s, date), ms, s.start.zone))
               <= InstantOf(MovedUntil(r.until.value, ms, s.start.zone)) <==>
                 InstantOf(RuleTime(s, date)) <= InstantOf(r.until.value))
  {
    if r.until.Some? { OneUntilMoves(RuleTime(s, date), r.until.value, ms, s.start.zone, clocks); }
  }

  lemma OneUntilMoves(at: Time, u: Time, ms: int, z: Zone, clocks: Clocks)
    requires Steady(z, clocks, ms) && ms != 0 && Carried(at, ms, z, clocks) && at.zone == z
    requires z.id == UTC.id ==> z == UTC
    requires if u.isDate then z.place(at.wall) <= InstantOf(u) <==> z.place(at.wall + ms) <= InstantOf(u)
             else Carried(u, ms, z, clocks) && (if u.zone.id == UTC.id then u.zone == UTC else u.zone == z)
    requires z.id == UTC.id ==> z == UTC
    ensures InstantOf(Moved(at, ms, z)) <= InstantOf(MovedUntil(u, ms, z)) <==> InstantOf(at) <= InstantOf(u)
  {
    if !u.isDate {
      TimeUntilMoves(at, u, ms, z, clocks);
    } else {
      assert MovedUntil(u, ms, z) == u && Moved(at, ms, z) == Plus(at, ms);
    }
  }

  lemma TimeUntilMoves(at: Time, u: Time, ms: int, z: Zone, clocks: Clocks)
    requires Steady(z, clocks, ms) && ms != 0 && Carried(at, ms, z, clocks) && Carried(u, ms, z, clocks)
    requires (if u.zone.id == UTC.id then u.zone == UTC else u.zone == z)
    requires z.id == UTC.id ==> z == UTC
    ensures InstantOf(Moved(at, ms, z)) <= InstantOf(MovedUntil(u, ms, z)) <==> InstantOf(at) <= InstantOf(u)
  {
    OrderKept(u, at, ms, z, clocks);
    UntilMovesLikeATime(u, ms, z);
  }

  /** An UNTIL in UTC, or on the clock of the series, moves as any such time does. */
  lemma UntilMovesLikeATime(u: Time, ms: int, z: Zone)
    requires ms != 0 && !u.isDate && CarriedThere(u, ms, z)
    requires (if u.zone.id == UTC.id then u.zone == UTC else u.zone == z)
    requires z.id == UTC.id ==> z == UTC
    ensures InstantOf(MovedUntil(u, ms, z)) == InstantOf(Moved(u, ms, z))
  {
    MovesOnTheClock(u, ms, z);
  }

  /** What is named moves, and nothing else is named after. */
  lemma NamesMove(s: Stored, ms: int, length: Option<int>, t: Time, clocks: Clocks)
    requires Shiftable(s, ms, clocks) && Names(s, t)
    ensures Names(ShiftedBy(s, ms, length), Moved(t, ms, s.start.zone)) && Carried(t, ms, s.start.zone, clocks)
  {
    var s' := ShiftedBy(s, ms, length);
    if i, n :| OfRule(s, t, i, n) {
      UntilMoves(s, ms, length, i, n, clocks);
      RuleTimesMove(s, ms, length, s.rules[i].dates[n]);
      assert OfRule(s', Moved(t, ms, s.start.zone), i, n);
    } else if i :| 0 <= i < |s.rdates| && t == s.rdates[i].start {
      assert s'.rdates[i].start == Moved(t, ms, s.start.zone);
    }
  }

  lemma NothingAppears(s: Stored, ms: int, length: Option<int>, t': Time, clocks: Clocks) returns (t: Time)
    requires Shiftable(s, ms, clocks) && Names(ShiftedBy(s, ms, length), t')
    ensures Names(s, t) && t' == Moved(t, ms, s.start.zone)
  {
    var s' := ShiftedBy(s, ms, length);
    t := s.start;
    if i, n :| OfRule(s', t', i, n) {
      assert s'.rules[i].dates == s.rules[i].dates;
      UntilMoves(s, ms, length, i, n, clocks);
      RuleTimesMove(s, ms, length, s.rules[i].dates[n]);
      t := RuleTime(s, s.rules[i].dates[n]);
      assert OfRule(s, t, i, n);
    } else if i :| 0 <= i < |s'.rdates| && t' == s'.rdates[i].start {
      t := s.rdates[i].start;
    }
  }

  /** An EXDATE keeps meeting the occurrences it met, and no others. */
  lemma ExclusionMoves(s: Stored, ms: int, length: Option<int>, t: Time, clocks: Clocks)
    requires Shiftable(s, ms, clocks) && Carried(t, ms, s.start.zone, clocks)
    ensures ExcludedBy(ShiftedBy(s, ms, length).exdates, Moved(t, ms, s.start.zone)) <==> ExcludedBy(s.exdates, t)
  {
    var s' := ShiftedBy(s, ms, length);
    forall i | 0 <= i < |s.exdates|
      ensures InstantOf(s'.exdates[i]) == InstantOf(Moved(t, ms, s.start.zone)) <==>
                InstantOf(s.exdates[i]) == InstantOf(t)
    {
      OrderKept(s.exdates[i], t, ms, s.start.zone, clocks);
    }
  }

  lemma {:induction false} StartsMove(s: Stored, ms: int, length: Option<int>, walk: seq<Time>, clocks: Clocks)
    requires Shiftable(s, ms, clocks) && AllNamed(s, walk)
    ensures AllNamed(ShiftedBy(s, ms, length), MapTimes(walk, ms, s.start.zone))
    ensures forall k :: 0 <= k < |walk| ==> Carried(walk[k], ms, s.start.zone, clocks)
  {
    var (s', z) := (ShiftedBy(s, ms, length), s.start.zone);
    forall k | 0 <= k < |walk|
      ensures Carried(walk[k], ms, z, clocks) && Names(s', Moved(walk[k], ms, z))
      ensures !ExcludedBy(s'.exdates, Moved(walk[k], ms, z))
    {
      NamesMove(s, ms, length, walk[k], clocks);
      ExclusionMoves(s, ms, length, walk[k], clocks);
    }
  }

  lemma {:induction false} NoneVanishes(s: Stored, ms: int, length: Option<int>, walk: seq<Time>, t': Time,
                                        clocks: Clocks)
    requires Shiftable(s, ms, clocks) && AllNamed(s, walk) && NoneMissing(s, walk)
    requires var s' := ShiftedBy(s, ms, length); Names(s', t') && !ExcludedBy(s'.exdates, t')
    ensures StartsAt(MapTimes(walk, ms, s.start.zone), InstantOf(t'))
  {
    var z := s.start.zone;
    var t := NothingAppears(s, ms, length, t', clocks);
    NamesMove(s, ms, length, t, clocks);
    ExclusionMoves(s, ms, length, t, clocks);
    assert StartsAt(walk, InstantOf(t));
    var k :| 0 <= k < |walk| && InstantOf(walk[k]) == InstantOf(t);
    NamesMove(s, ms, length, walk[k], clocks);
    OrderKept(walk[k], t, ms, z, clocks);
    assert MapTimes(walk, ms, z)[k] == Moved(walk[k], ms, z);
  }

  lemma WalkStaysInOrder(walk: seq<Time>, ms: int, z: Zone, clocks: Clocks)
    requires Steady(z, clocks, ms) && Increasing(walk)
    requires forall k :: 0 <= k < |walk| ==> Carried(walk[k], ms, z, clocks)
    ensures Increasing(MapTimes(walk, ms, z))
  {
    var walk' := MapTimes(walk, ms, z);
    forall i, j | 0 <= i < j < |walk'| ensures InstantOf(walk'[i]) < InstantOf(walk'[j]) {
      assert InstantOf(walk[i]) < InstantOf(walk[j]);
      OrderKept(walk[i], walk[j], ms, z, clocks);
    }
  }

  /** The recurrence set of the shifted series is the old one, each start moved: none appears, none vanishes. */
  lemma {:induction false} RecurrenceSetMoves(s: Stored, ms: int, length: Option<int>, walk: seq<Time>, clocks: Clocks)
    requires Shiftable(s, ms, clocks) && IsRecurrenceSet(s, walk)
    ensures IsRecurrenceSet(ShiftedBy(s, ms, length), MapTimes(walk, ms, s.start.zone))
  {
    StartsMove(s, ms, length, walk, clocks);
    WalkStaysInOrder(walk, ms, s.start.zone, clocks);
    var s' := ShiftedBy(s, ms, length);
    forall t' | Names(s', t') && !ExcludedBy(s'.exdates, t')
      ensures StartsAt(MapTimes(walk, ms, s.start.zone), InstantOf(t'))
    {
      NoneVanishes(s, ms, length, walk, t', clocks);
    }
  }

  // ---------------------------------------------------------------------
  // What each occurrence is listed as
  // ---------------------------------------------------------------------

  /** The overrides' RECURRENCE-IDs are carried; a DATE one stays, and is no RANGE. */
  ghost predicate OverridesCarried(os: seq<Override>, ms: int, z: Zone, clocks: Clocks) {
    forall i :: 0 <= i < |os| ==> if os[i].rid.isDate then !os[i].range else Carried(os[i].rid, ms, z, clocks)
  }

  /** The starts of a walk, each carried and staying on its day. */
  ghost predicate WalkCarried(walk: seq<Time>, ms: int, z: Zone, clocks: Clocks) {
    forall k :: 0 <= k < |walk| ==> Carried(walk[k], ms, z, clocks) && DayOf(Moved(walk[k], ms, z)) == DayOf(walk[k])
  }

  /** A start at DTSTART's clock time stays on its day with DTSTART. */
  lemma RuleTimesStayOnTheirDay(s: Stored, ms: int, date: int)
    requires 0 <= s.start.wall % DAY_MS + ms < DAY_MS && ms != 0
    ensures DayOf(RuleTime(s, date)) == date == DayOf(Moved(RuleTime(s, date), ms, s.start.zone))
  {
  }

  /** The key of a RECURRENCE-ID meets a start's after the shift exactly if it did before. */
  lemma KeysMeet(rid: Time, t: Time, ms: int, z: Zone, clocks: Clocks)
    requires Steady(z, clocks, ms) && Carried(t, ms, z, clocks) && (rid.isDate || Carried(rid, ms, z, clocks))
    requires ms != 0
    ensures KeyOf(Moved(rid, ms, z), false) == KeyOf(Moved(t, ms, z), false) <==> KeyOf(rid, false) == KeyOf(t, false)
    ensures forall day :: KeyOf(Moved(rid, ms, z), false) == OnDay(day) <==> KeyOf(rid, false) == OnDay(day)
  {
    if !rid.isDate { OrderKept(rid, t, ms, z, clocks); }
  }

  lemma SameCurrent(os: seq<Override>, os': seq<Override>, key: Key, key': Key)
    requires |os'| == |os| && forall i :: 0 <= i < |os| ==> os'[i].sequence == os[i].sequence + 1
    requires forall i :: 0 <= i < |os| ==> (KeyOf(os'[i].rid, false) == key' <==> KeyOf(os[i].rid, false) == key)
    ensures CurrentIndex(os', false, key') == CurrentIndex(os, false, key)
  {
    var c := CurrentIndex(os, false, key);
    if c.Some? {
      assert IsCurrent(os', false, key', c.value);
      CurrentIs(os', false, key', c.value);
    }
  }

  lemma CurrentMoves(os: seq<Override>, t: Time, ms: int, length: Option<int>, oldLength: int, z: Zone, clocks: Clocks)
    requires Steady(z, clocks, ms) && Carried(t, ms, z, clocks) && OverridesCarried(os, ms, z, clocks) && ms != 0
    ensures var os' := MapOverrides(os, ms, length, oldLength, z);
            && CurrentIndex(os', false, KeyOf(Moved(t, ms, z), false)) == CurrentIndex(os, false, KeyOf(t, false))
            && forall day :: CurrentIndex(os', false, OnDay(day)) == CurrentIndex(os, false, OnDay(day))
  {
    var os' := MapOverrides(os, ms, length, oldLength, z);
    forall i | 0 <= i < |os|
      ensures KeyOf(os'[i].rid, false) == KeyOf(Moved(t, ms, z), false) <==> KeyOf(os[i].rid, false) == KeyOf(t, false)
      ensures forall day :: KeyOf(os'[i].rid, false) == OnDay(day) <==> KeyOf(os[i].rid, false) == OnDay(day)
    {
      KeysMeet(os[i].rid, t, ms, z, clocks);
    }
    SameCurrent(os, os', KeyOf(t, false), KeyOf(Moved(t, ms, z), false));
    forall day ensures CurrentIndex(os', false, OnDay(day)) == CurrentIndex(os, false, OnDay(day)) {
      SameCurrent(os, os', OnDay(day), OnDay(day));
    }
  }

  lemma SameGoverning(os: seq<Override>, os': seq<Override>, at: int, at': int)
    requires |os'| == |os| && forall i :: 0 <= i < |os| ==> os'[i].range == os[i].range
    requires forall i :: 0 <= i < |os| && os[i].range ==> (InstantOf(os'[i].rid) <= at' <==> InstantOf(os[i].rid) <= at)
    requires forall i, j :: 0 <= i < |os| && 0 <= j < |os| && os[i].range && os[j].range ==>
               (InstantOf(os'[i].rid) < InstantOf(os'[j].rid) <==> InstantOf(os[i].rid) < InstantOf(os[j].rid))
    ensures GoverningIndex(os', at') == GoverningIndex(os, at)
  {
    var g := GoverningIndex(os, at);
    if g.Some? {
      assert Governs(os', at', g.value);
      GoverningIs(os', at', g.value);
    }
  }

  lemma {:induction false} GoverningMoves(os: seq<Override>, t: Time, ms: int, length: Option<int>, oldLength: int,
                                          z: Zone, clocks: Clocks)
    requires Steady(z, clocks, ms) && Carried(t, ms, z, clocks) && OverridesCarried(os, ms, z, clocks) && ms != 0
    ensures GoverningIndex(MapOverrides(os, ms, length, oldLength, z), InstantOf(Moved(t, ms, z)))
            == GoverningIndex(os, InstantOf(t))
  {
    var os' := MapOverrides(os, ms, length, oldLength, z);
    forall i | 0 <= i < |os| && os[i].range
      ensures Carried(os[i].rid, ms, z, clocks)
      ensures (InstantOf(os'[i].rid) <= InstantOf(Moved(t, ms, z)) <==> InstantOf(os[i].rid) <= InstantOf(t))
    {
      OrderKept(t, os[i].rid, ms, z, clocks);
    }
    RangesKeepOrder(os, os', ms, z, clocks);
    SameGoverning(os, os', InstantOf(t), InstantOf(Moved(t, ms, z)));
  }

  lemma {:induction false} RangesKeepOrder(os: seq<Override>, os': seq<Override>, ms: int, z: Zone, clocks: Clocks)
    requires Steady(z, clocks, ms) && |os'| == |os|
    requires forall i :: 0 <= i < |os| ==> os'[i].rid == Moved(os[i].rid, ms, z)
    requires forall i :: 0 <= i < |os| && os[i].range ==> Carried(os[i].rid, ms, z, clocks)
    ensures forall i, j :: 0 <= i < |os| && 0 <= j < |os| && os[i].range && os[j].range ==>
              (InstantOf(os'[i].rid) < InstantOf(os'[j].rid) <==> InstantOf(os[i].rid) < InstantOf(os[j].rid))
  {
    forall i, j | 0 <= i < |os| && 0 <= j < |os| && os[i].range && os[j].range
      ensures InstantOf(os'[i].rid) < InstantOf(os'[j].rid) <==> InstantOf(os[i].rid) < InstantOf(os[j].rid)
    {
      OrderKept(os[i].rid, os[j].rid, ms, z, clocks);
    }
  }

  /** Every occurrence is replaced by the override that replaced it, and the others by none. */
  lemma {:induction false} MatchMoves(os: seq<Override>, walk: seq<Time>, k: nat, ms: int, length: Option<int>,
                                      oldLength: int, z: Zone, clocks: Clocks)
    requires Steady(z, clocks, ms) && WalkCarried(walk, ms, z, clocks) && OverridesCarried(os, ms, z, clocks) && ms != 0
    requires k < |walk|
    ensures MatchOf(MapOverrides(os, ms, length, oldLength, z), false, MapTimes(walk, ms, z), k)
            == MatchOf(os, false, walk, k)
  {
    var (os', walk') := (MapOverrides(os, ms, length, oldLength, z), MapTimes(walk, ms, z));
    forall j | 0 <= j <= k
      ensures OpenToDate(os', false, walk'[j]) == OpenToDate(os, false, walk[j]) && DayOf(walk'[j]) == DayOf(walk[j])
    {
      CurrentMoves(os, walk[j], ms, length, oldLength, z, clocks);
    }
    CurrentMoves(os, walk[k], ms, length, oldLength, z, clocks);
    assert DateTaken(os', false, walk', k) <==> DateTaken(os, false, walk, k);
  }

  /**
   * An override that no start meets is met by none after, and counts if it did:
   * what is listed on its own goes on being so, and nothing comes to be.
   */
  lemma {:induction false} OnItsOwnMoves(os: seq<Override>, walk: seq<Time>, i: nat, ms: int, length: Option<int>,
                                         oldLength: int, z: Zone, clocks: Clocks)
    requires Steady(z, clocks, ms) && WalkCarried(walk, ms, z, clocks) && OverridesCarried(os, ms, z, clocks) && ms != 0
    requires i < |os|
    ensures var (os', walk') := (MapOverrides(os, ms, length, oldLength, z), MapTimes(walk, ms, z));
            && (Counts(os', false, i) <==> Counts(os, false, i))
            && (MetBy(os', false, walk', |walk'|, i) <==> MetBy(os, false, walk, |walk|, i))
  {
    var (os', walk') := (MapOverrides(os, ms, length, oldLength, z), MapTimes(walk, ms, z));
    CountsMoves(os, i, ms, length, oldLength, z, clocks);
    forall k | 0 <= k < |walk| ensures MatchOf(os', false, walk', k) == MatchOf(os, false, walk, k) {
      MatchMoves(os, walk, k, ms, length, oldLength, z, clocks);
    }
    if k :| 0 <= k < |walk| && MatchOf(os, false, walk, k) == Some(i) {
      assert MatchOf(os', false, walk', k) == Some(i);
    }
    if k :| 0 <= k < |walk'| && MatchOf(os', false, walk', k) == Some(i) {
      assert MatchOf(os, false, walk, k) == Some(i);
    }
  }

  lemma {:induction false} CountsMoves(os: seq<Override>, i: nat, ms: int, length: Option<int>, oldLength: int, z: Zone,
                                       clocks: Clocks)
    requires Steady(z, clocks, ms) && OverridesCarried(os, ms, z, clocks) && ms != 0 && i < |os|
    ensures Counts(MapOverrides(os, ms, length, oldLength, z), false, i) <==> Counts(os, false, i)
  {
    var os' := MapOverrides(os, ms, length, oldLength, z);
    var (key, key') := (KeyOf(os[i].rid, false), KeyOf(os'[i].rid, false));
    forall j | 0 <= j < |os| ensures KeyOf(os'[j].rid, false) == key' <==> KeyOf(os[j].rid, false) == key {
      if !os[i].rid.isDate { KeysMeet(os[j].rid, os[i].rid, ms, z, clocks); }
    }
    assert forall j :: 0 <= j < |os| ==> os'[j].sequence == os[j].sequence + 1;
    assert IsCurrent(os', false, key', i) <==> IsCurrent(os, false, key, i);
  }

  /** It then lists as it did where it was rescheduled, and otherwise at the start its own moves to. */
  lemma OnItsOwnLists(o: Override, ms: int, length: Option<int>, oldLength: int, z: Zone)
    requires ms != 0 && (length.Some? ==> length.value % SECOND == 0 && InstantOf(Moved(o.start, ms, z)) % SECOND == 0)
    ensures var (e, e') := (EntryOf(o), EntryOf(MovedOverride(o, ms, length, oldLength, z)));
            if !Unrescheduled(o, oldLength, false) then e' == e
            else
              && e'.start == Moved(e.start, ms, z) && e'.props == e.props
              && (length.None? ==>
                  e'.end == if o.length.Until? then Moved(e.end, ms, z) else Plus(e'.start, o.length.ms))
              && (length.Some? ==>
                    if o.length.Until? then InstantOf(e'.end) - InstantOf(e'.start) == length.value
                    else e'.end == Plus(e'.start, length.value))
  {
    if length.Some? { LengthenedLasts(Moved(o.start, ms, z), o.length, length.value); }
  }

  /** The override an occurrence is listed by: its own, or the RANGE one that reaches it. */
  ghost function ListedBy(os: seq<Override>, walk: seq<Time>, k: nat): Option<nat>
    requires k < |walk|
  {
    var own := MatchOf(os, false, walk, k);
    if own.Some? then own else GoverningIndex(os, InstantOf(walk[k]))
  }

  /** An occurrence listed by a rescheduled override keeps its own time. */
  ghost predicate KeepsOwnTime(s: Stored, walk: seq<Time>, k: nat)
    requires k < |walk|
  {
    var giver := ListedBy(s.overrides, walk, k);
    giver.Some? && giver.value < |s.overrides|
      && !Unrescheduled(s.overrides[giver.value], DurationOf(s.start, s.length), false)
  }

  /** The end an RDATE;VALUE=PERIOD gives the start of that key, the last one in the object. */
  function Periods(rs: seq<RDate>): map<Key, Length> {
    if rs == [] then map[]
    else
      var n := |rs| - 1;
      if rs[n].period.None? then Periods(rs[..n]) else Periods(rs[..n])[KeyOf(rs[n].start, false) := rs[n].period.value]
  }

  /** The master as the reader takes it. */
  function MasterOf(s: Stored): Master {
    Master(s.start, s.length, s.sequence, s.props, [], s.exdates, Periods(s.rdates))
  }

  lemma PeriodsStep(rs: seq<RDate>, r: RDate)
    ensures Periods(rs + [r]) == if r.period.None? then Periods(rs)
              else Periods(rs)[KeyOf(r.start, false) := r.period.value]
  {
    assert (rs + [r])[..|rs|] == rs;
  }

  /** A PERIOD keeps giving its end to the start it names. */
  lemma {:induction false} PeriodsMove(rs: seq<RDate>, t: Time, ms: int, z: Zone, clocks: Clocks)
    requires Steady(z, clocks, ms) && Carried(t, ms, z, clocks)
    requires forall i :: 0 <= i < |rs| ==> Carried(rs[i].start, ms, z, clocks)
    ensures var (key, key') := (KeyOf(t, false), KeyOf(Moved(t, ms, z), false));
            var (before, after) := (Periods(rs), Periods(MapRDates(rs, ms, z)));
            && (key' in after <==> key in before)
            && (key in before ==> after[key'] == MovedLength(before[key], ms, z))
    decreases |rs|
  {
    if rs != [] {
      var (init, r) := (rs[..|rs| - 1], rs[|rs| - 1]);
      assert rs == init + [r];
      PeriodsMove(init, t, ms, z, clocks);
      PeriodsStep(init, r);
      assert MapRDates(rs, ms, z) == MapRDates(init, ms, z) + [MovedRDate(r, ms, z)];
      PeriodsStep(MapRDates(init, ms, z), MovedRDate(r, ms, z));
      if r.period.Some? { OnePeriodMoves(Periods(init), Periods(MapRDates(init, ms, z)), r, t, ms, z, clocks); }
    }
  }

  lemma OnePeriodMoves(before: map<Key, Length>, after: map<Key, Length>, r: RDate, t: Time, ms: int, z: Zone,
                       clocks: Clocks)
    requires Steady(z, clocks, ms) && Carried(t, ms, z, clocks) && Carried(r.start, ms, z, clocks)
    requires var (key, key') := (KeyOf(t, false), KeyOf(Moved(t, ms, z), false));
             (key' in after <==> key in before) && (key in before ==> after[key'] == MovedLength(before[key], ms, z))
    requires r.period.Some?
    ensures var (key, key') := (KeyOf(t, false), KeyOf(Moved(t, ms, z), false));
            var (before', after') := (before[KeyOf(r.start, false) := r.period.value],
                                      after[KeyOf(Moved(r.start, ms, z), false) := MovedLength(r.period.value, ms, z)]);
            (key' in after' <==> key in before')
              && (key in before' ==> after'[key'] == MovedLength(before'[key], ms, z))
  {
    OrderKept(r.start, t, ms, z, clocks);
  }

  /** How much further than on the clock an instant moves with it: by as much as the offset differs there. */
  function Drift(z: Zone, clock: int, ms: int): int {
    z.place(clock + ms) - z.place(clock) - ms
  }

  /** The shift by itself keeps a length: a DURATION, or a DTEND that drifts as far as the start. */
  ghost predicate LengthKept(start: Time, length: Length, ms: int, z: Zone) {
    length.Lasting? || Drift(z, ClockOf(length.end, z), ms) == Drift(z, ClockOf(start, z), ms)
  }

  lemma LengthAfter(start: Time, length: Length, ms: int, z: Zone)
    requires !start.isDate && CarriedThere(start, ms, z)
    requires length.Until? ==> !length.end.isDate && CarriedThere(length.end, ms, z)
    ensures DurationOf(Moved(start, ms, z), MovedLength(length, ms, z)) == DurationOf(start, length) <==>
              LengthKept(start, length, ms, z)
  {
    MovesOnTheClock(start, ms, z);
    if length.Until? { MovesOnTheClock(length.end, ms, z); }
  }

  /** What a start is listed as by the override that replaces it, or the one that reaches it, or neither. */
  function ListedAs(m: Master, os: seq<Override>, at: Time, own: Option<nat>, reach: Option<nat>): Entry
    requires (own.Some? ==> own.value < |os|) && (reach.Some? ==> reach.value < |os|)
  {
    if own.Some? then EntryOf(os[own.value]) else if reach.Some? then Series.Shifted(os[reach.value], at)
      else PlainEntry(m, false, at)
  }

  lemma ListsAs(m: Master, os: seq<Override>, walk: seq<Time>, k: nat)
    requires k < |walk| && !m.start.isDate
    ensures var (own, reach) := (MatchOf(os, false, walk, k), GoverningIndex(os, InstantOf(walk[k])));
            && (own.Some? ==> own.value < |os|) && (reach.Some? ==> reach.value < |os|)
            && EntryAt(m, os, walk, k) == ListedAs(m, os, walk[k], own, reach)
  {
  }

  /** A shiftable series, its walk and its overrides carried as well. */
  ghost predicate Listable(s: Stored, walk: seq<Time>, ms: int, clocks: Clocks) {
    && Shiftable(s, ms, clocks)
    && WalkCarried(walk, ms, s.start.zone, clocks) && OverridesCarried(s.overrides, ms, s.start.zone, clocks)
  }

  /** The override that replaces an occurrence or reaches it, in a series about to be shifted. */
  ghost predicate Gives(s: Stored, own: Option<nat>, reach: Option<nat>) {
    (own.Some? ==> own.value < |s.overrides|) && (reach.Some? ==> reach.value < |s.overrides|)
  }

  function Giver(own: Option<nat>, reach: Option<nat>): Option<nat> {
    if own.Some? then own else reach
  }

  /** The series before and after list the `k`th occurrence by the same override. */
  lemma {:induction false} BothListAs(s: Stored, walk: seq<Time>, k: nat, ms: int, length: Option<int>, clocks: Clocks)
    returns (own: Option<nat>, reach: Option<nat>)
    requires Listable(s, walk, ms, clocks) && k < |walk|
    ensures own == MatchOf(s.overrides, false, walk, k) && Giver(own, reach) == ListedBy(s.overrides, walk, k)
    ensures Gives(s, own, reach)
    ensures var s' := ShiftedBy(s, ms, length);
            && EntryAt(MasterOf(s), s.overrides, walk, k) == ListedAs(MasterOf(s), s.overrides, walk[k], own, reach)
            && EntryAt(MasterOf(s'), s'.overrides, MapTimes(walk, ms, s.start.zone), k) ==
               ListedAs(MasterOf(s'), s'.overrides, Moved(walk[k], ms, s.start.zone), own, reach)
  {
    var z := s.start.zone;
    own, reach := MatchOf(s.overrides, false, walk, k), GoverningIndex(s.overrides, InstantOf(walk[k]));
    MatchMoves(s.overrides, walk, k, ms, length, DurationOf(s.start, s.length), z, clocks);
    GoverningMoves(s.overrides, walk[k], ms, length, DurationOf(s.start, s.length), z, clocks);
    ListsAs(MasterOf(s), s.overrides, walk, k);
    ListsAs(MasterOf(ShiftedBy(s, ms, length)), ShiftedBy(s, ms, length).overrides, MapTimes(walk, ms, z), k);
  }

  /** How far a value's own fields move. */
  function Slid(t: Time, ms: int, z: Zone): int {
    Moved(t, ms, z).wall - t.wall
  }

  /**
   * An occurrence whose override was rescheduled lists exactly as it did; one
   * that such a RANGE override reaches does exactly where its start's own
   * fields move as far as the RECURRENCE-ID's, as in one zone they do.
   */
  lemma {:induction false} RescheduledStaysIff(s: Stored, walk: seq<Time>, k: nat, ms: int, length: Option<int>,
                                               clocks: Clocks)
    requires Listable(s, walk, ms, clocks) && k < |walk| && KeepsOwnTime(s, walk, k)
    ensures var (s', z) := (ShiftedBy(s, ms, length), s.start.zone);
            var o := s.overrides[ListedBy(s.overrides, walk, k).value];
            var e := EntryAt(MasterOf(s), s.overrides, walk, k);
            var e' := EntryAt(MasterOf(s'), s'.overrides, MapTimes(walk, ms, z), k);
            e' == e <==> MatchOf(s.overrides, false, walk, k).Some? || Slid(walk[k], ms, z) == Slid(o.rid, ms, z)
    ensures walk[k].zone == s.start.zone ==> Slid(walk[k], ms, s.start.zone) == ms
  {
    var own, reach := BothListAs(s, walk, k, ms, length, clocks);
    StaysAsItWas(s, walk[k], own, reach, ms, length);
  }

  lemma {:induction false} StaysAsItWas(s: Stored, at: Time, own: Option<nat>, reach: Option<nat>, ms: int,
                                        length: Option<int>)
    requires ms != 0 && Gives(s, own, reach) && Giver(own, reach).Some?
    requires !Unrescheduled(s.overrides[Giver(own, reach).value], DurationOf(s.start, s.length), false)
    ensures var (s', z) := (ShiftedBy(s, ms, length), s.start.zone);
            var e := ListedAs(MasterOf(s), s.overrides, at, own, reach);
            ListedAs(MasterOf(s'), s'.overrides, Moved(at, ms, z), own, reach) == e <==>
            own.Some? || Slid(at, ms, z) == Slid(s.overrides[reach.value].rid, ms, z)
  {
    var i := Giver(own, reach).value;
    var (o, o') := (s.overrides[i], ShiftedBy(s, ms, length).overrides[i]);
    assert o' == o.(rid := Moved(o.rid, ms, s.start.zone), sequence := o.sequence + 1);
  }

  /**
   * Every other one starts where its start moves to, its properties as they
   * were; one a RANGE override reaches starts as much later on that override's
   * clock as its start's own fields and the override's move, less what the
   * RECURRENCE-ID's do, which in the series' own zone is where its start moves
   * to exactly where the first and the last move as far.
   */
  lemma {:induction false} OthersStartLater(s: Stored, walk: seq<Time>, k: nat, ms: int, length: Option<int>,
                                            clocks: Clocks)
    requires Listable(s, walk, ms, clocks) && k < |walk| && !KeepsOwnTime(s, walk, k)
    ensures var (s', z) := (ShiftedBy(s, ms, length), s.start.zone);
            var e := EntryAt(MasterOf(s), s.overrides, walk, k);
            var e' := EntryAt(MasterOf(s'), s'.overrides, MapTimes(walk, ms, z), k);
            var (own, giver) := (MatchOf(s.overrides, false, walk, k), ListedBy(s.overrides, walk, k));
            && e'.props == e.props
            && (own.Some? || giver.None? ==> e'.start == Moved(e.start, ms, z))
            && (own.None? && giver.Some? ==>
                  e'.start == LaterBy(e.start, walk[k], s.overrides[giver.value], ms, z))
            && (own.None? && giver.Some? && !s.overrides[giver.value].start.isDate
                && s.overrides[giver.value].start.zone == z ==>
                  (e'.start == Moved(e.start, ms, z) <==>
                   Slid(walk[k], ms, z) == Slid(s.overrides[giver.value].rid, ms, z)))
  {
    var own, reach := BothListAs(s, walk, k, ms, length, clocks);
    StartsLater(s, walk[k], own, reach, ms, length);
  }

  /** A time that much later, in the zone the override is stored in then. */
  function LaterBy(t: Time, at: Time, o: Override, ms: int, z: Zone): Time {
    Time(t.wall + Slid(at, ms, z) + Slid(o.start, ms, z) - Slid(o.rid, ms, z), Moved(o.start, ms, z).zone, t.isDate)
  }

  /** Whoever gives an occurrence its time moves with the series. */
  ghost predicate GiverMoves(s: Stored, own: Option<nat>, reach: Option<nat>) {
    && Gives(s, own, reach)
    && (Giver(own, reach).Some? ==>
          Unrescheduled(s.overrides[Giver(own, reach).value], DurationOf(s.start, s.length), false))
  }

  lemma {:induction false} StartsLater(s: Stored, at: Time, own: Option<nat>, reach: Option<nat>, ms: int,
                                       length: Option<int>)
    requires ms != 0 && !at.isDate && GiverMoves(s, own, reach)
    ensures var (s', z) := (ShiftedBy(s, ms, length), s.start.zone);
            var e := ListedAs(MasterOf(s), s.overrides, at, own, reach);
            var e' := ListedAs(MasterOf(s'), s'.overrides, Moved(at, ms, z), own, reach);
            && e'.props == e.props
            && (own.Some? || reach.None? ==> e'.start == Moved(e.start, ms, z))
            && (own.None? && reach.Some? ==> e'.start == LaterBy(e.start, at, s.overrides[reach.value], ms, z))
            && (own.None? && reach.Some? && !s.overrides[reach.value].start.isDate
                && s.overrides[reach.value].start.zone == z ==>
                  (e'.start == Moved(e.start, ms, z) <==> Slid(at, ms, z) == Slid(s.overrides[reach.value].rid, ms, z)))
  {
  }

  /** What the length of an occurrence comes from: the master, its override or the one that reaches it. */
  ghost function LengthSource(s: Stored, walk: seq<Time>, k: nat): (r: (Time, Length))
    requires k < |walk|
  {
    LengthFrom(s, ListedBy(s.overrides, walk, k))
  }

  function LengthFrom(s: Stored, giver: Option<nat>): (Time, Length) {
    if giver.Some? && giver.value < |s.overrides| then (s.overrides[giver.value].start, s.overrides[giver.value].length)
    else (s.start, s.length)
  }

  /** The times a length is measured between are carried. */
  ghost predicate LengthCarried(source: (Time, Length), ms: int, z: Zone) {
    && !source.0.isDate && CarriedThere(source.0, ms, z)
    && (source.1.Until? ==> !source.1.end.isDate && CarriedThere(source.1.end, ms, z))
  }

  /**
   * With no new length, an override's own end moves as its start does; any
   * other occurrence keeps its length exactly where the DTEND it has it from,
   * if it is one, drifts as far as its DTSTART.
   */
  lemma {:induction false} OthersKeepTheirLengthIff(s: Stored, walk: seq<Time>, k: nat, ms: int, clocks: Clocks)
    requires Listable(s, walk, ms, clocks) && k < |walk| && !KeepsOwnTime(s, walk, k)
    requires KeyOf(walk[k], false) !in Periods(s.rdates) && LengthCarried(LengthSource(s, walk, k), ms, s.start.zone)
    ensures var (s', z, own) := (ShiftedBy(s, ms, None), s.start.zone, MatchOf(s.overrides, false, walk, k));
            var e := EntryAt(MasterOf(s), s.overrides, walk, k);
            var e' := EntryAt(MasterOf(s'), s'.overrides, MapTimes(walk, ms, z), k);
            var (start, length) := LengthSource(s, walk, k);
            if own.Some? then e'.end == EndOf(e'.start, MovedLength(length, ms, z))
            else e.end == Plus(e.start, DurationOf(start, length)) &&
                 (e'.end == Plus(e'.start, DurationOf(start, length)) <==> LengthKept(start, length, ms, z))
  {
    var own, reach := BothListAs(s, walk, k, ms, None, clocks);
    PeriodsMove(s.rdates, walk[k], ms, s.start.zone, clocks);
    KeepsItsLength(s, walk[k], own, reach, ms);
  }

  lemma {:induction false} KeepsItsLength(s: Stored, at: Time, own: Option<nat>, reach: Option<nat>, ms: int)
    requires ms != 0 && !at.isDate && GiverMoves(s, own, reach)
    requires KeyOf(at, false) !in Periods(s.rdates)
    requires KeyOf(Moved(at, ms, s.start.zone), false) !in Periods(MapRDates(s.rdates, ms, s.start.zone))
    requires LengthCarried(LengthFrom(s, Giver(own, reach)), ms, s.start.zone) && !s.start.isDate
    ensures var (s', z) := (ShiftedBy(s, ms, None), s.start.zone);
            var e := ListedAs(MasterOf(s), s.overrides, at, own, reach);
            var e' := ListedAs(MasterOf(s'), s'.overrides, Moved(at, ms, z), own, reach);
            var (start, length) := LengthFrom(s, Giver(own, reach));
            if own.Some? then e'.end == EndOf(e'.start, MovedLength(length, ms, z))
            else e.end == Plus(e.start, DurationOf(start, length)) &&
                 (e'.end == Plus(e'.start, DurationOf(start, length)) <==> LengthKept(start, length, ms, z))
  {
    var (start, length) := LengthFrom(s, Giver(own, reach));
    LengthAfter(start, length, ms, s.start.zone);
  }

  /** A new length is what it says, to the second, wherever it is written. */
  lemma LengthenedLasts(start: Time, length: Length, ms: int)
    requires ms % SECOND == 0 && InstantOf(start) % SECOND == 0
    ensures DurationOf(start, Lengthened(start, length, ms)) == ms
  {
  }

  /** With a new length every occurrence that moves is that long. */
  lemma {:induction false} OthersTakeTheLength(s: Stored, walk: seq<Time>, k: nat, ms: int, length: int, clocks: Clocks)
    requires Listable(s, walk, ms, clocks) && k < |walk| && !KeepsOwnTime(s, walk, k) && length % SECOND == 0
    requires KeyOf(walk[k], false) !in Periods(s.rdates)
    requires InstantOf(Moved(LengthSource(s, walk, k).0, ms, s.start.zone)) % SECOND == 0
    ensures var (s', own) := (ShiftedBy(s, ms, Some(length)), MatchOf(s.overrides, false, walk, k));
            var e' := EntryAt(MasterOf(s'), s'.overrides, MapTimes(walk, ms, s.start.zone), k);
            if own.Some? && s.overrides[own.value].length.Until? then InstantOf(e'.end) - InstantOf(e'.start) == length
            else e'.end == Plus(e'.start, length)
  {
    var own, reach := BothListAs(s, walk, k, ms, Some(length), clocks);
    PeriodsMove(s.rdates, walk[k], ms, s.start.zone, clocks);
    TakesTheLength(s, walk[k], own, reach, ms, length);
  }

  lemma {:induction false} TakesTheLength(s: Stored, at: Time, own: Option<nat>, reach: Option<nat>, ms: int,
                                          length: int)
    requires ms != 0 && !at.isDate && !s.start.isDate && length % SECOND == 0 && GiverMoves(s, own, reach)
    requires KeyOf(Moved(at, ms, s.start.zone), false) !in Periods(MapRDates(s.rdates, ms, s.start.zone))
    requires InstantOf(Moved(LengthFrom(s, Giver(own, reach)).0, ms, s.start.zone)) % SECOND == 0
    ensures var s' := ShiftedBy(s, ms, Some(length));
            var e' := ListedAs(MasterOf(s'), s'.overrides, Moved(at, ms, s.start.zone), own, reach);
            if own.Some? && s.overrides[own.value].length.Until? then InstantOf(e'.end) - InstantOf(e'.start) == length
            else e'.end == Plus(e'.start, length)
  {
    var (start, was) := LengthFrom(s, Giver(own, reach));
    LengthenedLasts(Moved(start, ms, s.start.zone), was, length);
  }

  /** A PERIOD's own end moves with the start it is given to. */
  lemma {:induction false} PeriodsMoveWhole(s: Stored, walk: seq<Time>, k: nat, ms: int, length: Option<int>,
                                            clocks: Clocks)
    requires Listable(s, walk, ms, clocks)
    requires k < |walk| && ListedBy(s.overrides, walk, k) == None && KeyOf(walk[k], false) in Periods(s.rdates)
    ensures var (s', z) := (ShiftedBy(s, ms, length), s.start.zone);
            EntryAt(MasterOf(s'), s'.overrides, MapTimes(walk, ms, z), k) ==
            Entry(Moved(walk[k], ms, z),
                  EndOf(Moved(walk[k], ms, z), MovedLength(Periods(s.rdates)[KeyOf(walk[k], false)], ms, z)), s.props)
  {
    var own, reach := BothListAs(s, walk, k, ms, length, clocks);
    PeriodsMove(s.rdates, walk[k], ms, s.start.zone, clocks);
  }

  // ---------------------------------------------------------------------
  // Moved there and back
  // ---------------------------------------------------------------------

  /** A time that moves back to what it was: one of the series' own zone always does. */
  ghost predicate Reversible(t: Time, ms: int, z: Zone) {
    t.isDate || (CarriedThere(t, ms, z) &&
                 (t.zone.id != z.id ==> Plain(z, ClockOf(t, z) + ms) && t.zone.show(InstantOf(t)) == t.wall))
  }

  ghost predicate ReversibleLength(length: Length, ms: int, z: Zone) {
    length.Until? ==> Reversible(length.end, ms, z)
  }

  lemma ReversibleMovesBack(t: Time, ms: int, z: Zone)
    requires Reversible(t, ms, z) && ms != 0
    ensures Moved(Moved(t, ms, z), -ms, z) == t
  {
    if !t.isDate { MovesOnTheClock(t, ms, z); }
  }

  ghost predicate ReversibleUntil(u: Time, ms: int, z: Zone) {
    && Reversible(u, ms, z) && (!u.isDate ==> u.zone == if u.zone.id == UTC.id then UTC else z)
    && (z.id == UTC.id ==> z == UTC)
  }

  ghost predicate ReversibleRDate(r: RDate, ms: int, z: Zone) {
    Reversible(r.start, ms, z) && (r.period.Some? ==> ReversibleLength(r.period.value, ms, z))
  }

  /** An UNTIL, in UTC or on the clock of DTSTART, moves back. */
  lemma UntilMovesBack(r: Rule, ms: int, z: Zone)
    requires ms != 0 && (r.until.Some? ==> ReversibleUntil(r.until.value, ms, z))
    ensures MovedRule(MovedRule(r, ms, z), -ms, z) == r
  {
    if r.until.Some? && !r.until.value.isDate {
      MovesOnTheClock(r.until.value, ms, z);
    }
  }

  /** What a series' own VEVENT says moves back. */
  lemma {:induction false} MasterMovesBack(s: Stored, ms: int)
    requires ms != 0 && ReversibleLength(s.length, ms, s.start.zone)
    requires forall i :: 0 <= i < |s.exdates| ==> Reversible(s.exdates[i], ms, s.start.zone)
    requires forall i :: 0 <= i < |s.rdates| ==> ReversibleRDate(s.rdates[i], ms, s.start.zone)
    requires forall i :: 0 <= i < |s.rules| && s.rules[i].until.Some? ==>
               ReversibleUntil(s.rules[i].until.value, ms, s.start.zone)
    ensures var back := ShiftedBy(ShiftedBy(s, ms, None), -ms, None);
            back == s.(sequence := s.sequence + 2, overrides := back.overrides)
  {
    var z := s.start.zone;
    var there := ShiftedBy(s, ms, None);
    if s.length.Until? { ReversibleMovesBack(s.length.end, ms, z); }
    forall i | 0 <= i < |s.exdates| ensures Moved(there.exdates[i], -ms, z) == s.exdates[i] {
      ReversibleMovesBack(s.exdates[i], ms, z);
    }
    forall i | 0 <= i < |s.rdates| ensures MovedRDate(there.rdates[i], -ms, z) == s.rdates[i] {
      RDateMovesBack(s.rdates[i], ms, z);
    }
    forall i | 0 <= i < |s.rules| ensures MovedRule(there.rules[i], -ms, z) == s.rules[i] {
      UntilMovesBack(s.rules[i], ms, z);
    }
    assert there.start.zone == z;
    assert MapTimes(there.exdates, -ms, z) == s.exdates;
    assert MapRDates(there.rdates, -ms, z) == s.rdates;
    assert MapRules(there.rules, -ms, z) == s.rules;
  }

  lemma RDateMovesBack(r: RDate, ms: int, z: Zone)
    requires ms != 0 && ReversibleRDate(r, ms, z)
    ensures MovedRDate(MovedRDate(r, ms, z), -ms, z) == r
  {
    ReversibleMovesBack(r.start, ms, z);
    if r.period.Some? && r.period.value.Until? { ReversibleMovesBack(r.period.value.end, ms, z); }
  }

  /**
   * An override moves back exactly where the way back takes it for what the
   * way there did: rescheduled, or not. `there` is the series' length once moved.
   */
  lemma {:induction false} OverrideMovesBackIff(o: Override, ms: int, oldLength: int, there: int, z: Zone)
    requires ms != 0 && Reversible(o.rid, ms, z) && Reversible(o.start, ms, z) && ReversibleLength(o.length, ms, z)
    requires !o.start.isDate && Moved(o.start, ms, z) != o.start && Moved(o.start, -ms, z) != o.start
    ensures var moved := MovedOverride(o, ms, None, oldLength, z);
            MovedOverride(moved, -ms, None, there, z) == o.(sequence := o.sequence + 2) <==>
            (Unrescheduled(o, oldLength, false) <==> Unrescheduled(moved, there, false))
  {
    ReversibleMovesBack(o.rid, ms, z);
    ReversibleMovesBack(o.start, ms, z);
    if o.length.Until? { ReversibleMovesBack(o.length.end, ms, z); }
  }

  /** One rescheduled to the very time the series moves to is taken for the series' own, and moves on with it. */
  lemma RescheduledOntoTheNewTime()
    ensures var day := (wall: int) => Time(wall, UTC, false);
            var o := Override(day(9 * HOUR), false, 0, day(10 * HOUR), Lasting(HOUR), "");
            var moved := MovedOverride(o, HOUR, None, HOUR, UTC);
            && !Unrescheduled(o, HOUR, false) && moved.start == o.start
            && MovedOverride(moved, -HOUR, None, HOUR, UTC).start == day(9 * HOUR)
  {
  }

}
