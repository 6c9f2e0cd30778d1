/**
 * A new length with no new time (src/ical-series-shift.ts): what a timed series
 * and an all-day one are listed as then, and which revisions count.
 */
module ResizedListing {
  import opened Options
  import opened WallClock
  import opened Series
  import opened Reader
  import opened Listing
  import opened SeriesShift
  import opened ShiftedListing

  // ---------------------------------------------------------------------
  // A new length with no new time
  // ---------------------------------------------------------------------

  /** Revision `j`, raised as it takes the new length, counts before `c`, which does not take it. */
  ghost predicate RaisedOver(os: seq<Override>, oldLength: int, allDay: bool, c: nat, j: nat) {
    && c < |os| && j < |os| && KeyOf(os[j].rid, allDay) == KeyOf(os[c].rid, allDay)
    && !Unrescheduled(os[c], oldLength, allDay) && Unrescheduled(os[j], oldLength, allDay)
    && (os[j].sequence + 1 > os[c].sequence || (os[j].sequence + 1 == os[c].sequence && j > c))
  }

  /** The series with its new length: in milliseconds for a timed one, in days for an all-day one. */
  function Longer(s: Stored, allDay: bool, length: int, days: int): Stored {
    if allDay then Resized(s, days) else ShiftedBy(s, 0, Some(length))
  }

  /** What counts for a key goes on counting exactly unless a stale revision that takes the length is raised over it. */
  lemma {:induction false} ResizedStaysCurrentIff(s: Stored, length: int, days: int, allDay: bool, key: Key, c: nat)
    requires CurrentIndex(s.overrides, allDay, key) == Some(c)
    ensures CurrentIndex(Longer(s, allDay, length, days).overrides, allDay, key) == Some(c) <==> Unraised(s, allDay, c)
  {
    RaisedStaysCurrentIff(s.overrides, Longer(s, allDay, length, days).overrides, DurationOf(s.start, s.length), allDay,
                          key, c);
  }

  /** No revision is raised over the override at `c`. */
  ghost predicate Unraised(s: Stored, allDay: bool, c: nat) {
    forall j: nat :: !RaisedOver(s.overrides, DurationOf(s.start, s.length), allDay, c, j)
  }

  lemma {:induction false} RaisedStaysCurrentIff(os: seq<Override>, os': seq<Override>, oldLength: int, allDay: bool,
                                                 key: Key, c: nat)
    requires CurrentIndex(os, allDay, key) == Some(c) && |os'| == |os|
    requires forall i :: 0 <= i < |os| ==>
               && os'[i].rid == os[i].rid
               && os'[i].sequence == os[i].sequence + if Unrescheduled(os[i], oldLength, allDay) then 1 else 0
    ensures CurrentIndex(os', allDay, key) == Some(c) <==> forall j: nat :: !RaisedOver(os, oldLength, allDay, c, j)
  {
    if forall j: nat :: !RaisedOver(os, oldLength, allDay, c, j) {
      forall j | 0 <= j < |os'| && KeyOf(os'[j].rid, allDay) == key
        ensures os'[j].sequence < os'[c].sequence || (os'[j].sequence == os'[c].sequence && j <= c)
      {
        assert !RaisedOver(os, oldLength, allDay, c, j);
      }
      assert IsCurrent(os', allDay, key, c);
      CurrentIs(os', allDay, key, c);
    } else {
      var j: nat :| RaisedOver(os, oldLength, allDay, c, j);
      assert !IsCurrent(os', allDay, key, c);
    }
  }

  /** With a stale revision beside it the stale one can be raised to count instead. */
  lemma StaleRevisionCounts()
    ensures var at := Time(9 * HOUR, UTC, false);
            var moved := Override(at, false, 1, Time(12 * HOUR, UTC, false), Lasting(HOUR), "moved to noon");
            var stale := Override(at, false, 0, at, Lasting(HOUR), "as first sent");
            && Current([moved, stale], false, KeyOf(at, false)) == Some(moved)
            && var after := Current(MapOverrides([moved, stale], 0, Some(2 * HOUR), HOUR, UTC), false,
                                    KeyOf(at, false));
               after.Some? && after.value.props == stale.props && after.value.start == at
  {
    var at := Time(9 * HOUR, UTC, false);
    var os := [Override(at, false, 1, Time(12 * HOUR, UTC, false), Lasting(HOUR), "moved to noon"),
               Override(at, false, 0, at, Lasting(HOUR), "as first sent")];
    var os' := MapOverrides(os, 0, Some(2 * HOUR), HOUR, UTC);
    CurrentIs(os, false, KeyOf(at, false), 0);
    CurrentIs(os', false, KeyOf(at, false), 1);
  }

  /** The RECURRENCE-IDs stay, so the same keys have overrides. */
  lemma SameKeys(s: Stored, length: int, days: int, allDay: bool)
    ensures var (os, os') := (s.overrides, Longer(s, allDay, length, days).overrides);
            && |os'| == |os| && (forall i :: 0 <= i < |os| ==> os'[i].rid == os[i].rid && os'[i].range == os[i].range)
            && forall key :: CurrentIndex(os', allDay, key).Some? <==> CurrentIndex(os, allDay, key).Some?
  {
    var (os, os') := (s.overrides, Longer(s, allDay, length, days).overrides);
    assert forall i :: 0 <= i < |os| ==> os'[i].rid == os[i].rid && os'[i].range == os[i].range;
    forall key ensures Unnamed(os', allDay, key) <==> Unnamed(os, allDay, key) {
    }
  }

  /** So a start is replaced by the override that replaced it exactly unless another is raised over that. */
  lemma {:induction false} ResizedMatchIff(s: Stored, length: int, days: int, allDay: bool, walk: seq<Time>, k: nat)
    requires k < |walk|
    ensures var (was, now) := (MatchOf(s.overrides, allDay, walk, k),
                               MatchOf(Longer(s, allDay, length, days).overrides, allDay, walk, k));
            && (was.None? <==> now.None?)
            && (was.Some? ==> (now == was <==> Unraised(s, allDay, was.value)))
  {
    var (os, os') := (s.overrides, Longer(s, allDay, length, days).overrides);
    SameKeys(s, length, days, allDay);
    assert forall t :: OpenToDate(os', allDay, t) <==> OpenToDate(os, allDay, t);
    assert DateTaken(os', allDay, walk, k) <==> DateTaken(os, allDay, walk, k);
    var was := MatchOf(os, allDay, walk, k);
    if was.Some? {
      ResizedStaysCurrentIff(s, length, days, allDay, KeyOf(os[was.value].rid, allDay), was.value);
    }
  }

  /** What is listed on its own goes on being so, by the override that was exactly unless another is raised over it. */
  lemma {:induction false} ResizedOnItsOwnIff(s: Stored, length: int, days: int, allDay: bool, walk: seq<Time>,
                                              key: Key)
    requires s.start.isDate == allDay
    ensures var s' := Longer(s, allDay, length, days);
            var (was, now) := (OnItsOwn(MasterOf(s), s.overrides, walk, key),
                               OnItsOwn(MasterOf(s'), s'.overrides, walk, key));
            var c := CurrentIndex(s.overrides, allDay, key);
            && (was.Some? <==> now.Some?)
            && (was.Some? && Unraised(s, allDay, c.value) ==> now == Some(s'.overrides[c.value]))
  {
    var s' := Longer(s, allDay, length, days);
    var (c, d) := (Counted(s.overrides, allDay), Counted(s'.overrides, allDay));
    SameKeys(s, length, days, allDay);
    assert forall t :: Wants(d, allDay, t, key) <==> Wants(c, allDay, t, key);
    assert Wanted(d, allDay, walk, key) <==> Wanted(c, allDay, walk, key);
    var i := CurrentIndex(s.overrides, allDay, key);
    if i.Some? { ResizedStaysCurrentIff(s, length, days, allDay, key, i.value); }
  }

  // ---------------------------------------------------------------------
  // A timed series
  // ---------------------------------------------------------------------

  lemma StaysPut(s: Stored, length: int)
    ensures var s' := ShiftedBy(s, 0, Some(length));
            && s'.start == s.start && s'.props == s.props && Periods(s'.rdates) == Periods(s.rdates)
            && s'.length == Lengthened(s.start, s.length, length)
            && forall i :: 0 <= i < |s.overrides| ==>
                 s'.overrides[i] ==
                 if Unrescheduled(s.overrides[i], DurationOf(s.start, s.length), false)
                 then s.overrides[i].(length := Lengthened(s.overrides[i].start, s.overrides[i].length, length),
                                      sequence := s.overrides[i].sequence + 1)
                 else s.overrides[i]
  {
    NothingMoves(s.start.zone, s.exdates, s.rdates, s.rules);
  }

  /** The start the new length is written from is a whole second. */
  ghost predicate OnSecond(s: Stored, giver: Option<nat>) {
    InstantOf(LengthFrom(s, giver).0) % SECOND == 0
  }

  /**
   * Given only a new length, every occurrence keeps its start and text and
   * lasts that long, but one listed by a rescheduled override, and one a PERIOD
   * gives its end, which list as they did.
   */
  lemma {:induction false} TimedTakesTheLength(s: Stored, length: int, walk: seq<Time>, k: nat)
    requires k < |walk| && !walk[k].isDate && !s.start.isDate && length % SECOND == 0
    requires OnSecond(s, ListedBy(s.overrides, walk, k))
    requires MatchOf(s.overrides, false, walk, k).Some? ==>
               Unraised(s, false, MatchOf(s.overrides, false, walk, k).value)
    ensures var (s', own, giver) := (ShiftedBy(s, 0, Some(length)), MatchOf(s.overrides, false, walk, k),
                                     ListedBy(s.overrides, walk, k));
            var (was, now) := (EntryAt(MasterOf(s), s.overrides, walk, k),
                               EntryAt(MasterOf(s'), s'.overrides, walk, k));
            if KeepsOwnTime(s, walk, k) || (giver.None? && KeyOf(walk[k], false) in Periods(s.rdates)) then now == was
            else
              && now.start == was.start && now.props == was.props
              && if own.Some? && s.overrides[own.value].length.Until?
                 then InstantOf(now.end) - InstantOf(now.start) == length
                 else now.end == Plus(now.start, length)
  {
    var (s', own, giver) := (ShiftedBy(s, 0, Some(length)), MatchOf(s.overrides, false, walk, k),
                             ListedBy(s.overrides, walk, k));
    ResizedMatchIff(s, length, 0, false, walk, k);
    SameKeys(s, length, 0, false);
    StaysPut(s, length);
    SameGoverning(s.overrides, s'.overrides, InstantOf(walk[k]), InstantOf(walk[k]));
    ListsAs(MasterOf(s), s.overrides, walk, k);
    ListsAs(MasterOf(s'), s'.overrides, walk, k);
    var (start, was) := LengthFrom(s, giver);
    LengthenedLasts(start, was, length);
  }

  // ---------------------------------------------------------------------
  // An all-day series
  // ---------------------------------------------------------------------

  /** Dates are read as UTC. */
  ghost predicate Dated(t: Time) {
    t.isDate && t.wall % DAY_MS == 0 && forall w :: t.zone.place(w) == w
  }

  /** A length in days is that long from its start. */
  lemma DaysLast(start: Time, length: Length, days: int)
    requires Dated(start)
    ensures DurationOf(start, DaysFrom(start, length, days)) == days * DAY_MS
    ensures InstantOf(EndOf(start, DaysFrom(start, length, days))) - InstantOf(start) == days * DAY_MS
  {
    assert DayOf(start) * DAY_MS == start.wall;
  }

  /**
   * Every occurrence of an all-day series lasts the days given, on the day it
   * was; one whose times an override gives stays as it is where that override
   * was rescheduled.
   */
  lemma {:induction false} AllDayTakesTheLength(s: Stored, days: int, walk: seq<Time>, k: nat)
    requires Dated(s.start) && k < |walk| && Dated(walk[k]) && KeyOf(walk[k], true) !in Periods(s.rdates)
    requires forall i :: 0 <= i < |s.overrides| ==> Dated(s.overrides[i].start)
    requires MatchOf(s.overrides, true, walk, k).Some? ==> Unraised(s, true, MatchOf(s.overrides, true, walk, k).value)
    ensures var (s', oldLength) := (Resized(s, days), DurationOf(s.start, s.length));
            var (was, now) := (EntryAt(MasterOf(s), s.overrides, walk, k),
                               EntryAt(MasterOf(s'), s'.overrides, walk, k));
            var giver := Giver(MatchOf(s.overrides, true, walk, k), GoverningIndex(s.overrides, InstantOf(walk[k])));
            if giver.Some? && !Unrescheduled(s.overrides[giver.value], oldLength, true) then now == was
            else
              && now.start == was.start && now.props == was.props
              && InstantOf(now.end) - InstantOf(now.start) == days * DAY_MS
  {
    ResizedMatchIff(s, 0, days, true, walk, k);
    AllDayLists(s, days, walk, k);
  }

  lemma {:induction false} AllDayLists(s: Stored, days: int, walk: seq<Time>, k: nat)
    requires Dated(s.start) && k < |walk| && Dated(walk[k]) && KeyOf(walk[k], true) !in Periods(s.rdates)
    requires forall i :: 0 <= i < |s.overrides| ==> Dated(s.overrides[i].start)
    requires MatchOf(Resized(s, days).overrides, true, walk, k) == MatchOf(s.overrides, true, walk, k)
    ensures var (s', oldLength) := (Resized(s, days), DurationOf(s.start, s.length));
            var (was, now) := (EntryAt(MasterOf(s), s.overrides, walk, k),
                               EntryAt(MasterOf(s'), s'.overrides, walk, k));
            var giver := Giver(MatchOf(s.overrides, true, walk, k), GoverningIndex(s.overrides, InstantOf(walk[k])));
            if giver.Some? && !Unrescheduled(s.overrides[giver.value], oldLength, true) then now == was
            else
              && now.start == was.start && now.props == was.props
              && InstantOf(now.end) - InstantOf(now.start) == days * DAY_MS
  {
    var (s', oldLength) := (Resized(s, days), DurationOf(s.start, s.length));
    SameGoverning(s.overrides, s'.overrides, InstantOf(walk[k]), InstantOf(walk[k]));
    var (own, reach) := (MatchOf(s.overrides, true, walk, k), GoverningIndex(s.overrides, InstantOf(walk[k])));
    if Giver(own, reach).Some? {
      var o := s.overrides[Giver(own, reach).value];
      DaysLast(o.start, o.length, days);
      assert s'.overrides[Giver(own, reach).value] == ResizedOverride(o, days, oldLength);
    } else {
      DaysLast(s.start, s.length, days);
    }
  }
}
