/**
 * Series for which a change of one occurrence, or a listing, does something
 * else than its own words say (src/ical-occurrence-edit.ts, src/ical-expand.ts).
 */
module OccurrenceInputs {
  import opened Options
  import opened WallClock
  import opened Series
  import opened Reader
  import opened Listing
  import opened OccurrenceEdit
  import opened OccurrenceFrames
  import opened AnchorFrames

  /** Clocks an hour ahead of UTC. */
  const AnHourAhead: Zone := Zone("ahead", false, (w: int) => w - HOUR, (t: int) => t + HOUR)

  function At(day: int, clock: int, z: Zone): Time {
    Time(day * DAY_MS + clock, z, false)
  }

  /** A master with no EXDATE, its starts as they are walked. */
  function Of(starts: seq<Time>, length: Length): Master
    requires starts != []
  {
    Master(starts[0], length, 0, "", starts, [], map[])
  }

  function Ranged(rid: Time, start: Time, length: Length): Override {
    Override(rid, true, 0, start, length, "")
  }

  /** Nothing is looked up in no overrides, nor in one of another key. */
  lemma NoOther(os: seq<Override>, walk: seq<Time>, k: nat)
    requires k < |walk| && !walk[k].isDate && |os| <= 1
    requires forall i :: 0 <= i < |os| ==> !os[i].rid.isDate && InstantOf(os[i].rid) != InstantOf(walk[k])
    ensures MatchOf(os, false, walk, k) == None
    ensures Unnamed(os, false, KeyOf(walk[k], false)) && Unnamed(os, false, OnDay(DayOf(walk[k])))
  {
  }

  lemma Governed(o: Override, at: int)
    requires o.range && InstantOf(o.rid) <= at
    ensures GoverningIndex([o], at) == Some(0) && Governing([o], at) == Some(o)
  {
    assert Governs([o], at, 0);
    GoverningIs([o], at, 0);
  }

  // ---------------------------------------------------------------------
  // The listing
  // ---------------------------------------------------------------------

  /**
   * Moved from 10:00 to 08:00 from the first day on: a window of the second day
   * that ends at 09:30 misses what starts in it.
   */
  lemma MovedEarlierIsMissed()
    ensures var walk := [At(0, 10 * HOUR, UTC), At(1, 10 * HOUR, UTC)];
            var m := Of(walk, Lasting(HOUR));
            var os := [Ranged(walk[0], At(0, 8 * HOUR, UTC), Lasting(HOUR))];
            Missed(m, os, walk, Window(DAY_MS + 8 * HOUR, DAY_MS + 9 * HOUR + 30 * MINUTE), Plain(1))
  {
    var walk := [At(0, 10 * HOUR, UTC), At(1, 10 * HOUR, UTC)];
    var os := [Ranged(walk[0], At(0, 8 * HOUR, UTC), Lasting(HOUR))];
    NoOther(os, walk, 1);
    Governed(os[0], InstantOf(walk[1]));
  }

  /**
   * Two overrides of an all-day series, of half past midnight an hour ahead and
   * of the half hour before midnight in UTC: two days, and one recurrence_id,
   * which is looked up as either.
   */
  lemma TwoDaysAreReportedAsOne()
    ensures var os := [Override(At(0, 23 * HOUR + 30 * MINUTE, UTC), false, 0, Time(0, UTC, true), Lasting(HOUR), "a"),
                       Override(At(1, 30 * MINUTE, AnHourAhead), false, 0, Time(0, UTC, true), Lasting(HOUR), "b")];
            Counts(os, true, 0) && Counts(os, true, 1) && !ReportedAlone(os, true, 0) && !ReportedAlone(os, true, 1)
  {
    var os := [Override(At(0, 23 * HOUR + 30 * MINUTE, UTC), false, 0, Time(0, UTC, true), Lasting(HOUR), "a"),
               Override(At(1, 30 * MINUTE, AnHourAhead), false, 0, Time(0, UTC, true), Lasting(HOUR), "b")];
    assert DayOf(os[0].rid) == 0 && DayOf(os[1].rid) == 1;
    assert Reported(os[0].rid) == Reported(os[1].rid);
    assert Counts(os, true, 0) && Counts(os, true, 1);
  }

  // ---------------------------------------------------------------------
  // A start stored in another zone
  // ---------------------------------------------------------------------

  /** What the patch of the start `k` writes has the key of no start. */
  lemma NoStartAt(walk: seq<Time>, w: Key)
    requires forall t :: 0 <= t < |walk| ==> KeyOf(walk[t], false) != w
    ensures OnlyStart(walk, false, w, |walk|)
  {
  }

  /**
   * An RDATE in UTC on the second pass of an overlap: the override made for it
   * leaves it as it was, and is listed beside it.
   */
  lemma SecondPassIsNotReplaced(patch: Patch)
    ensures var walk := [At(-1, 2 * HOUR, RepeatsAnHour), At(0, 3 * HOUR + 30 * MINUTE, UTC)];
            var m := Of(walk, Lasting(HOUR));
            var (found, w) := (Addressed(m, [], walk, 1, false), AtInstant(2 * HOUR + 30 * MINUTE));
            var os' := Patched(m, [], found, patch);
            && Addressable(m, [], walk, 1) && os'.Some?
            && EntryAt(m, os'.value, walk, 1) == EntryAt(m, [], walk, 1) == Entry(walk[1], Plus(walk[1], HOUR), "")
            && OnItsOwn(m, [], walk, w) == None
            && OnItsOwn(m, os'.value, walk, w) == Some(Apply(Made(m, [], found), patch))
  {
    var walk := [At(-1, 2 * HOUR, RepeatsAnHour), At(0, 3 * HOUR + 30 * MINUTE, UTC)];
    var m := Of(walk, Lasting(HOUR));
    assert InSeries(m, walk[1]) == At(0, 2 * HOUR + 30 * MINUTE, RepeatsAnHour);
    NoStartAt(walk, AtInstant(2 * HOUR + 30 * MINUTE));
    PatchMissesItsStart(m, [], walk, 1, patch, false, 2, 1);
    PatchAddsOne(m, [], walk, 1, patch, false, 2, AtInstant(2 * HOUR + 30 * MINUTE));
  }

  /** And the EXDATE written for it takes it out of nothing. */
  lemma SecondPassIsNotDeleted()
    ensures var walk := [At(-1, 2 * HOUR, RepeatsAnHour), At(0, 3 * HOUR + 30 * MINUTE, UTC)];
            var m := Of(walk, Lasting(HOUR));
            var m' := Excluding(m, InSeries(m, walk[1]));
            walk[1] in Emitted(m'.starts, m'.exdates)
  {
    var walk := [At(-1, 2 * HOUR, RepeatsAnHour), At(0, 3 * HOUR + 30 * MINUTE, UTC)];
    var m := Of(walk, Lasting(HOUR));
    assert walk[1] in walk;
    NoneExcluded(walk);
    DeletedIff(m, walk, 1);
  }

  lemma {:induction false} NoneExcluded(starts: seq<Time>)
    ensures Emitted(starts, []) == starts
    decreases starts
  {
    if starts != [] { NoneExcluded(starts[1..]); }
  }

  /** An RDATE in UTC reached by a change to all following: the override made for it starts an hour off. */
  lemma ReachedInUtcIsMovedOff()
    ensures var walk := [At(0, 9 * HOUR, AnHourAhead), At(1, 10 * HOUR, UTC)];
            var m := Of(walk, Lasting(HOUR));
            var os := [Ranged(walk[0], At(0, 11 * HOUR, AnHourAhead), Lasting(HOUR))];
            && KeyKept(m, walk[1])
            && EntryAt(m, os, walk, 1).start == At(1, 12 * HOUR, AnHourAhead)
            && EntryOf(Made(m, os, Addressed(m, os, walk, 1, false))).start == At(1, 13 * HOUR, AnHourAhead)
  {
    var walk := [At(0, 9 * HOUR, AnHourAhead), At(1, 10 * HOUR, UTC)];
    var os := [Ranged(walk[0], At(0, 11 * HOUR, AnHourAhead), Lasting(HOUR))];
    NoOther(os, walk, 1);
    Governed(os[0], InstantOf(walk[1]));
  }

  /** Such a start next to the beginning of the change: the change moves on to it an hour off. */
  lemma NextInUtcIsMovedOff(patch: Patch)
    ensures var walk := [At(0, 9 * HOUR, AnHourAhead), At(1, 10 * HOUR, UTC)];
            var m := Of(walk, Lasting(HOUR));
            var os := [Ranged(walk[0], At(0, 11 * HOUR, AnHourAhead), Lasting(HOUR))];
            var os' := Patched(m, os, Addressed(m, os, walk, 0, false), patch);
            os'.Some? && EntryAt(m, os'.value, walk, 1) != EntryAt(m, os, walk, 1)
  {
    var walk := [At(0, 9 * HOUR, AnHourAhead), At(1, 10 * HOUR, UTC)];
    var m := Of(walk, Lasting(HOUR));
    var os := [Ranged(walk[0], At(0, 11 * HOUR, AnHourAhead), Lasting(HOUR))];
    NoOther(os, walk, 1);
    Governed(os[0], InstantOf(walk[1]));
    IsAnchor(m, os, walk, 0);
    PatchAnchor(m, os, walk, 0, 0, patch);
  }

  /**
   * And on the second pass of an overlap it lists as it did, but the change
   * moved on is listed beside it, as one occurrence more.
   */
  lemma NextOnSecondPassIsListedTwice(patch: Patch)
    ensures var walk := [At(-1, 2 * HOUR, RepeatsAnHour), At(0, 3 * HOUR + 30 * MINUTE, UTC)];
            var m := Of(walk, Lasting(HOUR));
            var os := [Ranged(walk[0], At(-1, 4 * HOUR, RepeatsAnHour), Lasting(HOUR))];
            var (os', w) := (Patched(m, os, Addressed(m, os, walk, 0, false), patch),
                             AtInstant(2 * HOUR + 30 * MINUTE));
            && os'.Some? && EntryAt(m, os'.value, walk, 1) == EntryAt(m, os, walk, 1)
            && OnItsOwn(m, os, walk, w) == None
            && OnItsOwn(m, os'.value, walk, w) == Some(AnchorFrames.Moved(m, os, walk, 0, 0))
  {
    var walk := [At(-1, 2 * HOUR, RepeatsAnHour), At(0, 3 * HOUR + 30 * MINUTE, UTC)];
    var m := Of(walk, Lasting(HOUR));
    var os := [Ranged(walk[0], At(-1, 4 * HOUR, RepeatsAnHour), Lasting(HOUR))];
    var w := AtInstant(2 * HOUR + 30 * MINUTE);
    NoOther(os, walk, 1);
    IsAnchor(m, os, walk, 0);
    NoStartAt(walk, w);
    assert NextStart(m, walk, 0) == At(0, 2 * HOUR + 30 * MINUTE, RepeatsAnHour);
    NearlyReachedAlike(m, os, walk, 0, 0, 1);
    PatchAnchorOthers(m, os, walk, 0, 0, patch, 2, 1);
    PatchAnchorOnTheirOwn(m, os, walk, 0, 0, patch, 2, w);
    assert Unnamed(os, false, w);
  }

  /**
   * Begun on the first pass at the same clock time, the change is written under
   * the key it had: a change there adds nothing, a deletion leaves it listed at
   * the start that is gone.
   */
  lemma NextUnderItsOwnKey(patch: Patch)
    ensures var walk := [At(0, 2 * HOUR + 30 * MINUTE, RepeatsAnHour), At(0, 3 * HOUR + 30 * MINUTE, UTC)];
            var m := Of(walk, Lasting(HOUR));
            var os := [Ranged(walk[0], At(0, 4 * HOUR, RepeatsAnHour), Lasting(HOUR))];
            var found := Addressed(m, os, walk, 0, false);
            var (os', left, w) := (Patched(m, os, found, patch), Remaining(m, os, found), KeyOf(walk[0], false));
            && os'.Some? && left.Some? && OnItsOwn(m, os, walk, w) == None && OnItsOwn(m, os'.value, walk, w) == None
            && OnItsOwn(Excluding(m, InSeries(m, walk[0])), left.value, Without(walk, 0), w)
               == Some(AnchorFrames.Moved(m, os, walk, 0, 0))
  {
    var walk := [At(0, 2 * HOUR + 30 * MINUTE, RepeatsAnHour), At(0, 3 * HOUR + 30 * MINUTE, UTC)];
    var m := Of(walk, Lasting(HOUR));
    var os := [Ranged(walk[0], At(0, 4 * HOUR, RepeatsAnHour), Lasting(HOUR))];
    NoOther(os, walk, 1);
    IsAnchor(m, os, walk, 0);
    assert NextStart(m, walk, 0) == At(0, 2 * HOUR + 30 * MINUTE, RepeatsAnHour);
    PatchAnchorOnTheirOwn(m, os, walk, 0, 0, patch, 0, KeyOf(walk[0], false));
    DeleteAnchorOnTheirOwn(m, os, walk, 0, 0, 0, KeyOf(walk[0], false));
    assert Wants(Counted(os, false), false, walk[0], KeyOf(walk[0], false));
  }

  /** Begun between the two, it is written under the key of a start before it, and is what that lists as. */
  lemma EarlierStartIsReplaced(patch: Patch)
    ensures var walk := [At(0, 2 * HOUR + 30 * MINUTE, RepeatsAnHour), At(0, 2 * HOUR + 45 * MINUTE, RepeatsAnHour),
                         At(0, 3 * HOUR + 30 * MINUTE, UTC)];
            var m := Of(walk, Lasting(HOUR));
            var os := [Ranged(walk[1], At(0, 5 * HOUR, RepeatsAnHour), Lasting(HOUR))];
            var os' := Patched(m, os, Addressed(m, os, walk, 1, false), patch);
            && os'.Some? && EntryAt(m, os, walk, 0) == Entry(walk[0], Plus(walk[0], HOUR), "")
            && EntryAt(m, os'.value, walk, 0).start == At(0, 4 * HOUR + 45 * MINUTE, RepeatsAnHour)
  {
    var walk := [At(0, 2 * HOUR + 30 * MINUTE, RepeatsAnHour), At(0, 2 * HOUR + 45 * MINUTE, RepeatsAnHour),
                 At(0, 3 * HOUR + 30 * MINUTE, UTC)];
    var m := Of(walk, Lasting(HOUR));
    var os := [Ranged(walk[1], At(0, 5 * HOUR, RepeatsAnHour), Lasting(HOUR))];
    NoOther(os, walk, 0);
    NoOther(os, walk, 2);
    IsAnchor(m, os, walk, 1);
    assert NextStart(m, walk, 1) == At(0, 2 * HOUR + 30 * MINUTE, RepeatsAnHour);
    PatchAnchorOthers(m, os, walk, 1, 0, patch, 0, 0);
  }

  /** One RANGE override, and it begins at the `k`th start. */
  lemma IsAnchor(m: Master, os: seq<Override>, walk: seq<Time>, k: nat)
    requires |os| == 1 && k < |walk| && os[0].range && os[0].rid == walk[k] && !m.start.isDate
    requires Increasing(walk) && OneForm(walk, false)
    ensures Anchor(m, os, walk, k, 0)
  {
    assert IsCurrent(os, false, KeyOf(walk[k], false), 0);
    CurrentIs(os, false, KeyOf(walk[k], false), 0);
  }

  // ---------------------------------------------------------------------
  // An occurrence nobody addressed
  // ---------------------------------------------------------------------

  /**
   * An override of 03:30 UTC, which no start has: the EXDATE that deletes it is
   * at 02:30, and takes the start there.
   */
  lemma AnotherIsDeleted()
    ensures var walk := [At(0, 2 * HOUR + 30 * MINUTE, RepeatsAnHour)];
            var m := Of(walk, Lasting(HOUR));
            var os := [Override(At(0, 3 * HOUR + 30 * MINUTE, UTC), false, 0, At(0, 9 * HOUR, UTC), Lasting(HOUR), "")];
            var m' := Excluding(m, InSeries(m, os[0].rid));
            && OnItsOwn(m, os, walk, AtInstant(3 * HOUR + 30 * MINUTE)) == Some(os[0])
            && Remaining(m, os, Orphaned(m, os, 0)).Some? && Emitted(m'.starts, m'.exdates) == []
  {
    var walk := [At(0, 2 * HOUR + 30 * MINUTE, RepeatsAnHour)];
    var m := Of(walk, Lasting(HOUR));
    var os := [Override(At(0, 3 * HOUR + 30 * MINUTE, UTC), false, 0, At(0, 9 * HOUR, UTC), Lasting(HOUR), "")];
    NoOther(os, walk, 0);
    NoneExcluded(walk);
    assert IsCurrent(os, false, AtInstant(3 * HOUR + 30 * MINUTE), 0);
    CurrentIs(os, false, AtInstant(3 * HOUR + 30 * MINUTE), 0);
    OnItsOwnIff(m, os, walk, 0);
    assert InSeries(m, os[0].rid) == walk[0];
    DeleteOnItsOwnIff(m, os, walk, 0, 0);
  }

  /**
   * A start at 09:00 and one at 15:00 of a day, and a DATE override of it, which
   * the first took: a change of the second is made of the first.
   */
  lemma FirstOfTheDayIsPatched(patch: Patch)
    ensures var walk := [At(0, 9 * HOUR, UTC), At(0, 15 * HOUR, UTC)];
            var m := Of(walk, Lasting(HOUR));
            var os := [Override(Time(0, UTC, true), false, 0, At(0, 10 * HOUR, UTC), Lasting(HOUR), "")];
            var os' := Patched(m, os, Addressed(m, os, walk, 1, false), patch);
            && os'.Some? && SecondOfItsDay(os, false, walk, 1)
            && EntryAt(m, os, walk, 0) == EntryOf(os[0])
            && EntryAt(m, os'.value, walk, 0) == EntryOf(Apply(os[0], patch))
            && EntryAt(m, os'.value, walk, 1) == EntryAt(m, os, walk, 1)
  {
    var walk := [At(0, 9 * HOUR, UTC), At(0, 15 * HOUR, UTC)];
    var m := Of(walk, Lasting(HOUR));
    var os := [Override(Time(0, UTC, true), false, 0, At(0, 10 * HOUR, UTC), Lasting(HOUR), "")];
    TakesTheDay(m, os, walk);
    var first := PatchGoesToTheFirst(m, os, walk, 1, patch, false, 0);
    var again := PatchGoesToTheFirst(m, os, walk, 1, patch, false, 1);
  }

  lemma TakesTheDay(m: Master, os: seq<Override>, walk: seq<Time>)
    requires |walk| == 2 && walk[0] == At(0, 9 * HOUR, UTC) && walk[1] == At(0, 15 * HOUR, UTC) && !m.start.isDate
    requires |os| == 1 && os[0].rid == Time(0, UTC, true)
    ensures Walked(m, walk) && SecondOfItsDay(os, false, walk, 1)
    ensures Addressed(m, os, walk, 1, false).current == Some(0)
    ensures MatchOf(os, false, walk, 0) == Some(0) && MatchOf(os, false, walk, 1) == None
  {
    SecondOfTheDayDisagrees(m, os, walk);
    assert DayOf(walk[0]) == 0 == DayOf(walk[1]);
    assert KeyOf(os[0].rid, false) == OnDay(0);
  }

  /** And a deletion of it undoes the change of the first as well. */
  lemma FirstOfTheDayIsUndone()
    ensures var walk := [At(0, 9 * HOUR, UTC), At(0, 15 * HOUR, UTC)];
            var m := Of(walk, Lasting(HOUR));
            var os := [Override(Time(0, UTC, true), false, 0, At(0, 10 * HOUR, UTC), Lasting(HOUR), "")];
            var os' := Remaining(m, os, Addressed(m, os, walk, 1, false));
            && os'.Some?
            && EntryAt(m, os, walk, 0) == EntryOf(os[0])
            && EntryAt(Excluding(m, InSeries(m, walk[1])), os'.value, Without(walk, 1), 0)
               == Entry(walk[0], Plus(walk[0], HOUR), "")
  {
    var walk := [At(0, 9 * HOUR, UTC), At(0, 15 * HOUR, UTC)];
    var m := Of(walk, Lasting(HOUR));
    var os := [Override(Time(0, UTC, true), false, 0, At(0, 10 * HOUR, UTC), Lasting(HOUR), "")];
    TakesTheDay(m, os, walk);
    NoneExcluded(walk);
    assert RemoveKey(os, false, OnDay(0), None) == [];
    var first := DeleteUndoesTheFirst(m, os, walk, 1, false, 0);
  }

  // ---------------------------------------------------------------------
  // Lengths
  // ---------------------------------------------------------------------

  /** An RDATE;VALUE=PERIOD of two hours in a series of one: the override made for it lasts one. */
  lemma PeriodIsCutShort()
    ensures var walk := [At(0, 9 * HOUR, UTC), At(1, 9 * HOUR, UTC)];
            var m := Of(walk, Lasting(HOUR)).(periods := map[KeyOf(walk[1], false) := Lasting(2 * HOUR)]);
            && EntryAt(m, [], walk, 1).end == At(1, 11 * HOUR, UTC)
            && EntryOf(Made(m, [], Addressed(m, [], walk, 1, false))).end == At(1, 10 * HOUR, UTC)
  {
    var walk := [At(0, 9 * HOUR, UTC), At(1, 9 * HOUR, UTC)];
    NoOther([], walk, 1);
  }

  /**
   * A change to all following, two hours with a DTEND, moved on to the night
   * the clocks skip an hour of: from then on it lasts one.
   */
  lemma MovedOnIsCutShort(patch: Patch)
    ensures var z := SkipsAnHour;
            var walk := [At(-1, 90 * MINUTE, z), At(0, 90 * MINUTE, z), At(1, 90 * MINUTE, z)];
            var m := Of(walk, Lasting(2 * HOUR));
            var os := [Ranged(walk[0], walk[0], Until(At(-1, 210 * MINUTE, z)))];
            var os' := Patched(m, os, Addressed(m, os, walk, 0, false), patch);
            && os'.Some?
            && EntryAt(m, os, walk, 2) == Entry(walk[2], At(1, 210 * MINUTE, z), "")
            && EntryAt(m, os'.value, walk, 2) != EntryAt(m, os, walk, 2)
  {
    var z := SkipsAnHour;
    var walk := [At(-1, 90 * MINUTE, z), At(0, 90 * MINUTE, z), At(1, 90 * MINUTE, z)];
    var m := Of(walk, Lasting(2 * HOUR));
    var os := [Ranged(walk[0], walk[0], Until(At(-1, 210 * MINUTE, z)))];
    NoOther(os, walk, 1);
    NoOther(os, walk, 2);
    Governed(os[0], InstantOf(walk[2]));
    IsAnchor(m, os, walk, 0);
    NearlyReachedAlike(m, os, walk, 0, 0, 2);
    PatchAnchorOthers(m, os, walk, 0, 0, patch, 1, 2);
  }
}
