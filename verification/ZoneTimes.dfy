/**
 * Times written into a stored object and read back (src/ical-zones.ts, the
 * writing half).
 */
module ZoneTimes {
  import opened Options
  import opened WallClock

  /** The zone a time is written in: `Zoned` carries what its arithmetic is. */
  datatype WriteZone = Utc | Floating | Zoned(tzid: string, offsetAt: OffsetAt)

  /** A stored time: its clock fields, and the zone they are read in. */
  datatype StoredTime = StoredTime(wall: int, zone: WriteZone)

  function WholeMinute(ms: int): (r: int)
    ensures r % MINUTE == 0 && r <= ms < r + MINUTE
  {
    ms - ms % MINUTE
  }

  /** `wallToInstantIn`: whole minutes by the rule, the seconds added back. */
  function InstantIn(wall: int, f: OffsetAt): int {
    WallToInstant(WholeMinute(wall), f) + (wall - WholeMinute(wall))
  }

  /** `wallIn`: the wall time `ms` shows, or none when that wall time names another instant. */
  function WallIn(ms: int, f: OffsetAt): Option<int> {
    var wall := WholeSecond(ms + f(ms));
    if InstantIn(wall, f) == ms then Some(wall) else None
  }

  function WallAt(ms: int, zone: WriteZone): int {
    if zone.Zoned? then WholeSecond(ms + zone.offsetAt(ms)) else WholeSecond(ms)
  }

  function InstantAt(wall: int, zone: WriteZone): int {
    if zone.Zoned? then InstantIn(wall, zone.offsetAt) else wall
  }

  function StoredInstant(time: StoredTime): int {
    InstantAt(time.wall, time.zone)
  }

  /** The value to write for `ms` in `zone`: in UTC where no wall time in the zone names it. */
  function WrittenTime(ms: int, zone: WriteZone): StoredTime {
    var whole := WholeSecond(ms);
    match zone
    case Floating => StoredTime(whole, Floating)
    case Utc => StoredTime(whole, Utc)
    case Zoned(_, f) =>
      match WallIn(whole, f)
      case Some(wall) => StoredTime(wall, zone)
      case None => StoredTime(whole, Utc)
  }

  /** Writing then reading a time is the identity to the second, whatever the zone and whatever its offsets. */
  lemma WrittenReadsBack(ms: int, zone: WriteZone)
    ensures StoredInstant(WrittenTime(ms, zone)) == WholeSecond(ms)
  {
  }

  /** Offsets, and so their changes, fall on whole minutes, as every zone's have since they were standardised. */
  ghost predicate OnMinutes(f: OffsetAt) {
    && (forall t {:trigger WholeMinute(t)} :: f(t) % MINUTE == 0)
    && (forall t {:trigger WholeMinute(t)} :: f(t) == f(WholeMinute(t)))
  }

  lemma MinutesApart(a: int, b: int)
    requires a % MINUTE == 0 && b % MINUTE == 0
    ensures (a - b) % MINUTE == 0
    ensures 0 <= a - b < MINUTE ==> a == b
  {
  }

  /** `wall` is `s` into the minute `minute`: the clocks show the one `s` after the other. */
  lemma SameMinuteShows(f: OffsetAt, minute: int, wall: int, s: int, t: int)
    requires OnMinutes(f) && minute % MINUTE == 0 && 0 <= s < MINUTE && wall == minute + s
    ensures Shows(f, t, wall) ==> Shows(f, t - s, minute)
    ensures Shows(f, t, minute) ==> Shows(f, t + s, wall)
  {
    var m := WholeMinute(t);
    assert f(t) % MINUTE == 0 && f(t) == f(m);
    MinutesApart(minute, f(t));
    var start := minute - f(t);
    assert f(WholeMinute(start)) == f(start);
    if Shows(f, t, wall) {
      MinutesApart(m, start);
      MinutesApart(start, m);
    }
    if Shows(f, t, minute) {
      MinutesApart(WholeMinute(t + s), start);
      MinutesApart(start, WholeMinute(t + s));
      assert f(t + s) == f(WholeMinute(t + s));
    }
  }

  /** Reading a wall time to the minute and adding its seconds back is reading it whole. */
  lemma InstantInIsWallToInstant(wall: int, f: OffsetAt)
    requires Spaced(f) && OnMinutes(f)
    ensures InstantIn(wall, f) == WallToInstant(wall, f)
  {
    var minute := WholeMinute(wall);
    if x :| Shows(f, x, minute) {
      ShownToTheMinute(minute, wall, f, x);
    } else {
      SkippedToTheMinute(minute, wall, f);
    }
  }

  lemma ShownToTheMinute(minute: int, wall: int, f: OffsetAt, x: int)
    requires Spaced(f) && OnMinutes(f) && minute % MINUTE == 0 && minute <= wall < minute + MINUTE
    requires Shows(f, x, minute)
    ensures WallToInstant(wall, f) == WallToInstant(minute, f) + (wall - minute)
  {
    EarliestShowing(minute, f, x);
    var s := wall - minute;
    var t := WallToInstant(minute, f);
    SameMinuteShows(f, minute, wall, s, t);
    EarliestShowing(wall, f, t + s);
    var r := WallToInstant(wall, f);
    SameMinuteShows(f, minute, wall, s, r);
    EarliestShowing(minute, f, r - s);
  }

  /** Two wall times an hour apart at most that are skipped are skipped by one change. */
  lemma SameGap(f: OffsetAt, w1: int, t1: int, w2: int, t2: int)
    requires Spaced(f) && SkippedAt(f, w1, t1) && SkippedAt(f, w2, t2) && -HOUR <= w1 - w2 <= HOUR
    ensures t1 == t2
  {
    assert -MAX_OFFSET_MS <= f(t1 - 1) <= MAX_OFFSET_MS && -MAX_OFFSET_MS <= f(t1) <= MAX_OFFSET_MS;
    assert -MAX_OFFSET_MS <= f(t2 - 1) <= MAX_OFFSET_MS && -MAX_OFFSET_MS <= f(t2) <= MAX_OFFSET_MS;
  }

  lemma SkippedToTheMinute(minute: int, wall: int, f: OffsetAt)
    requires Spaced(f) && OnMinutes(f) && minute % MINUTE == 0 && minute <= wall < minute + MINUTE
    requires forall x :: !Shows(f, x, minute)
    ensures WallToInstant(wall, f) == WallToInstant(minute, f) + (wall - minute)
  {
    forall x ensures !Shows(f, x, wall) {
      SameMinuteShows(f, minute, wall, wall - minute, x);
    }
    var t := ReadBeforeGap(minute, f);
    var u := ReadBeforeGap(wall, f);
    SameGap(f, minute, t, wall, u);
  }

  lemma WholeSecondOfSum(t: int, offset: int)
    requires t % SECOND == 0 && offset % MINUTE == 0
    ensures WholeSecond(t + offset) == t + offset
  {
    var k := offset / MINUTE;
    assert offset == SECOND * (60 * k);
  }

  /** UTC is used exactly when no wall time in the zone names the instant: the second pass of an overlap. */
  lemma WrittenInUtcIff(ms: int, zone: WriteZone, t: int, shown: int)
    requires zone.Zoned? && Spaced(zone.offsetAt) && OnMinutes(zone.offsetAt)
    requires t == WholeSecond(ms) && Shows(zone.offsetAt, t, shown)
    ensures WrittenTime(ms, zone).zone.Utc? <==> forall wall :: InstantIn(wall, zone.offsetAt) != t
    ensures WrittenTime(ms, zone).zone.Utc? <==> exists x :: x < t && Shows(zone.offsetAt, x, shown)
  {
    var f := zone.offsetAt;
    WholeOffset(f, t);
    WholeSecondOfSum(t, f(t));
    WrittenInUtcUnlessRead(ms, zone, t, shown);
    InstantInIsWallToInstant(shown, f);
    SecondPassIff(f, t, shown);
    if wall :| InstantIn(wall, f) == t {
      InstantInIsWallToInstant(wall, f);
      OnlyItsOwnWall(f, t, wall, shown);
    }
  }

  lemma WrittenInUtcUnlessRead(ms: int, zone: WriteZone, t: int, shown: int)
    requires zone.Zoned? && t == WholeSecond(ms) && WholeSecond(t + zone.offsetAt(t)) == shown
    ensures WrittenTime(ms, zone).zone.Utc? <==> InstantIn(shown, zone.offsetAt) != t
  {
  }

  lemma WholeOffset(f: OffsetAt, t: int)
    requires OnMinutes(f)
    ensures f(t) % MINUTE == 0
  {
    assert WholeMinute(t) <= t;
  }

  lemma SecondPassIff(f: OffsetAt, t: int, shown: int)
    requires Spaced(f) && Shows(f, t, shown)
    ensures WallToInstant(shown, f) != t <==> exists x :: x < t && Shows(f, x, shown)
  {
    LeftInverseOfWallAt(shown, f, t);
  }

  /** A wall time naming `t` exists only if the one `t` shows does. */
  lemma OnlyItsOwnWall(f: OffsetAt, t: int, wall: int, shown: int)
    requires Spaced(f) && WallToInstant(wall, f) == t && Shows(f, t, shown)
    ensures WallToInstant(shown, f) == t
  {
    if !Shows(f, t, wall) {
      ShownIff(f, wall);
      var c := ReadBeforeGap(wall, f);
      SettledAfter(f, c, t);
      forall x | Shows(f, x, shown) ensures t <= x {
        if x < t {
          if x < c { Settled(f, c, x); } else { SettledAfter(f, c, x); }
        }
      }
      LeftInverseOfWallAt(shown, f, t);
    }
  }

  /**
   * Whatever seconds its offsets have: UTC is used exactly where the offset
   * changed within the minute the clocks show, or where that minute was begun
   * once before.
   */
  lemma WrittenInUtcBySecond(ms: int, zone: WriteZone, t: int, shown: int, s: int)
    requires zone.Zoned? && Spaced(zone.offsetAt)
    requires t == WholeSecond(ms) && Shows(zone.offsetAt, t, shown) && shown % SECOND == 0
    requires s == shown - WholeMinute(shown)
    ensures WrittenTime(ms, zone).zone.Utc? <==>
            || zone.offsetAt(t - s) != zone.offsetAt(t)
            || exists x :: x < t - s && Shows(zone.offsetAt, x, WholeMinute(shown))
  {
    var (f, minute) := (zone.offsetAt, WholeMinute(shown));
    assert WholeSecond(t + f(t)) == shown;
    WrittenInUtcUnlessRead(ms, zone, t, shown);
    if f(t - s) == f(t) {
      LeftInverseOfWallAt(minute, f, t - s);
    } else if WallToInstant(minute, f) == t - s {
      SkippedJustBefore(f, minute, t - s, t);
    }
  }

  /** No change follows within a minute of where a skipped time is read. */
  lemma SkippedJustBefore(f: OffsetAt, minute: int, read: int, t: int)
    requires Spaced(f) && WallToInstant(minute, f) == read && !Shows(f, read, minute) && read <= t <= read + MINUTE
    ensures f(read) == f(t)
  {
    ShownIff(f, minute);
    var c := ReadBeforeGap(minute, f);
    assert -MAX_OFFSET_MS <= f(c) <= MAX_OFFSET_MS && -MAX_OFFSET_MS <= f(c - 1) <= MAX_OFFSET_MS;
    SettledAfter(f, c, read);
    SettledAfter(f, c, t);
  }

  /**
   * By the clock as it ran before the change at `c`, `t` lies in a minute that
   * began before it, or in one the change skips.
   */
  ghost predicate NamedByOldClock(f: OffsetAt, c: int, t: int) {
    var was := t + f(c - 1);
    && Changes(f, c) && c <= t
    && (t - (was - WholeMinute(was)) < c || SkippedAt(f, WholeMinute(was), c))
  }

  /** Where UTC is written, a wall time names the instant all the same exactly where that clock does. */
  lemma NamedThoughWrittenInUtcIff(ms: int, zone: WriteZone, t: int, shown: int)
    requires zone.Zoned? && Spaced(zone.offsetAt) && t == WholeSecond(ms) && Shows(zone.offsetAt, t, shown)
    requires shown % SECOND == 0 && WrittenTime(ms, zone).zone.Utc?
    ensures (exists wall :: InstantIn(wall, zone.offsetAt) == t) <==> exists c :: NamedByOldClock(zone.offsetAt, c, t)
  {
    var f := zone.offsetAt;
    WrittenInUtcUnlessRead(ms, zone, t, shown);
    if wall :| InstantIn(wall, f) == t {
      var c := OldClock(f, t, shown, wall);
    }
    if c :| NamedByOldClock(f, c, t) {
      var was := t + f(c - 1);
      ReadByOldClock(f, c, t);
      assert InstantIn(was, f) == t;
    }
  }

  /** What names an instant its own wall time does not is that of the clock before a change. */
  lemma OldClock(f: OffsetAt, t: int, shown: int, wall: int) returns (c: int)
    requires Spaced(f) && Shows(f, t, shown) && InstantIn(wall, f) == t && InstantIn(shown, f) != t
    ensures NamedByOldClock(f, c, t)
  {
    var minute := WholeMinute(wall);
    var u := WallToInstant(minute, f);
    assert t == u + (wall - minute);
    if x :| Shows(f, x, minute) {
      EarliestShowing(minute, f, x);
      c := ChangeBetween(f, u, t);
      Settled(f, c, u);
    } else {
      c := ReadBeforeGap(minute, f);
      SettledAfter(f, c, t);
    }
    assert wall == t + f(c - 1);
  }

  lemma ReadByOldClock(f: OffsetAt, c: int, t: int)
    requires Spaced(f) && NamedByOldClock(f, c, t)
    ensures var was := t + f(c - 1); WallToInstant(WholeMinute(was), f) == t - (was - WholeMinute(was))
  {
    var was := t + f(c - 1);
    var (minute, u) := (WholeMinute(was), t - (was - WholeMinute(was)));
    if u < c {
      Settled(f, c, u);
      FirstShown(f, c, minute, u);
    } else {
      SkippedIsRead(f, c, minute);
    }
  }

  /** Before a change by no more than a minute, what the clock shows it shows for the first time. */
  lemma FirstShown(f: OffsetAt, c: int, minute: int, u: int)
    requires Spaced(f) && Changes(f, c) && c - MINUTE <= u < c && Shows(f, u, minute)
    ensures WallToInstant(minute, f) == u
  {
    forall x | Shows(f, x, minute) ensures u <= x {
      assert -MAX_OFFSET_MS <= f(x) <= MAX_OFFSET_MS && -MAX_OFFSET_MS <= f(u) <= MAX_OFFSET_MS;
      if x < u {
        Settled(f, c, x);
        Settled(f, c, u);
      }
    }
    LeftInverseOfWallAt(minute, f, u);
  }

  lemma SkippedIsRead(f: OffsetAt, c: int, minute: int)
    requires Spaced(f) && SkippedAt(f, minute, c)
    ensures WallToInstant(minute, f) == minute - f(c - 1)
  {
    assert -MAX_OFFSET_MS <= f(c) <= MAX_OFFSET_MS && -MAX_OFFSET_MS <= f(c - 1) <= MAX_OFFSET_MS;
    forall y ensures !Shows(f, y, minute) {
      if Shows(f, y, minute) {
        assert -MAX_OFFSET_MS <= f(y) <= MAX_OFFSET_MS;
        if y < c { Settled(f, c, y); } else { SettledAfter(f, c, y); }
      }
    }
    var v := ReadBeforeGap(minute, f);
    SameGap(f, minute, c, minute, v);
  }

  /** A zone whose clocks went twenty seconds ahead at half past a minute. */
  function TwentySecondsAhead(t: int): int {
    if t < 30 * SECOND then 0 else 20 * SECOND
  }

  /** There the change itself is written in UTC, though the time it skips to reads as that instant. */
  lemma NamedYetWrittenInUtc(zone: WriteZone, t: int)
    requires zone == Zoned("Local/Mean", TwentySecondsAhead) && t == 30 * SECOND
    ensures WrittenTime(t, zone).zone.Utc? && InstantIn(30 * SECOND, zone.offsetAt) == t
  {
    assert WholeMinute(50 * SECOND) == 0 && WholeMinute(30 * SECOND) == 0;
    assert WallToInstant(0, TwentySecondsAhead) == 0;
  }
}
