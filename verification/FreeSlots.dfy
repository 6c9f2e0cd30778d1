/**
 * The free-slot search (src/free-slots.ts): busy time merged, the range cut
 * into one window per local day, and the gaps between.
 */
module FreeSlots {
  import opened Options
  import opened WallClock
  import opened ZoneTimes

  /** A span of instants: start inclusive, end exclusive. */
  datatype Interval = Interval(start: int, end: int)

  ghost predicate Covers(intervals: seq<Interval>, t: int) {
    exists b :: b in intervals && b.start <= t < b.end
  }

  /** In order, none empty, and none touching the next. */
  ghost predicate Separated(intervals: seq<Interval>) {
    && (forall i :: 0 <= i < |intervals| ==> intervals[i].start < intervals[i].end)
    && (forall i, j :: 0 <= i < j < |intervals| ==> intervals[i].end < intervals[j].start)
  }

  // ---------------------------------------------------------------------
  // Merging busy time
  // ---------------------------------------------------------------------

  ghost predicate ByStart(xs: seq<Interval>) {
    forall i, j :: 0 <= i < j < |xs| ==> xs[i].start <= xs[j].start
  }

  /** `x` placed after every interval that starts no later, as a stable sort does. */
  function Insert(x: Interval, xs: seq<Interval>): (r: seq<Interval>)
    requires ByStart(xs)
    ensures ByStart(r) && multiset(r) == multiset(xs) + multiset{x}
    ensures r != [] && r[0].start == if xs == [] || x.start < xs[0].start then x.start else xs[0].start
  {
    if xs == [] || x.start < xs[0].start then [x] + xs
    else
      assert xs == [xs[0]] + xs[1..];
      [xs[0]] + Insert(x, xs[1..])
  }

  /** The sort the source leaves to the language: by start, and a permutation. */
  function SortedByStart(xs: seq<Interval>): (r: seq<Interval>)
    ensures ByStart(r) && multiset(r) == multiset(xs)
  {
    if xs == [] then []
    else
      assert xs == xs[..|xs| - 1] + [xs[|xs| - 1]];
      Insert(xs[|xs| - 1], SortedByStart(xs[..|xs| - 1]))
  }

  function NonEmpty(xs: seq<Interval>): (r: seq<Interval>)
    ensures forall b :: b in r <==> b in xs && b.end > b.start
  {
    if xs == [] then []
    else
      assert xs == [xs[0]] + xs[1..];
      if xs[0].end > xs[0].start then [xs[0]] + NonEmpty(xs[1..]) else NonEmpty(xs[1..])
  }

  /** One turn of the merge: `b` joined to the last interval where it meets it, and added otherwise. */
  function Joined(merged: seq<Interval>, b: Interval): (r: seq<Interval>)
    requires Separated(merged) && b.start < b.end
    requires merged != [] ==> merged[|merged| - 1].start <= b.start
    ensures Separated(r) && r != [] && r[|r| - 1].start <= b.start
    ensures forall t :: Covers(r, t) <==> Covers(merged, t) || b.start <= t < b.end
  {
    var last := |merged| - 1;
    if merged != [] && b.start <= merged[last].end then
      var r := merged[last := Interval(merged[last].start, if merged[last].end < b.end then b.end
                                       else merged[last].end)];
      CoverOfJoin(merged, r, b);
      r
    else
      CoverOfAppend(merged, b);
      merged + [b]
  }

  /** `mergeBusy`: the same instants covered, by intervals that are in order, non-empty and apart. */
  method MergeBusy(busy: seq<Interval>) returns (merged: seq<Interval>)
    ensures Separated(merged)
    ensures forall t :: Covers(merged, t) <==> Covers(busy, t)
  {
    SortKeeps(NonEmpty(busy));
    merged := MergeSorted(SortedByStart(NonEmpty(busy)));
  }

  method MergeSorted(sorted: seq<Interval>) returns (merged: seq<Interval>)
    requires ByStart(sorted) && forall b :: b in sorted ==> b.start < b.end
    ensures Separated(merged)
    ensures forall t :: Covers(merged, t) <==> Covers(sorted, t)
  {
    merged := [];
    var i := 0;
    while i < |sorted|
      invariant 0 <= i <= |sorted|
      invariant Separated(merged)
      invariant forall t :: Covers(merged, t) <==> Covers(sorted[..i], t)
      invariant merged != [] && i < |sorted| ==> merged[|merged| - 1].start <= sorted[i].start
    {
      CoverOfOneMore(sorted, i);
      merged := Joined(merged, sorted[i]);
      i := i + 1;
    }
    assert sorted[..i] == sorted;
  }

  lemma SortKeeps(xs: seq<Interval>)
    ensures forall b :: b in SortedByStart(xs) <==> b in xs
  {
    forall b ensures b in SortedByStart(xs) <==> b in xs {
      assert b in SortedByStart(xs) <==> b in multiset(SortedByStart(xs));
      assert b in xs <==> b in multiset(xs);
    }
  }

  lemma CoverOfAppend(xs: seq<Interval>, b: Interval)
    ensures forall t :: Covers(xs + [b], t) <==> Covers(xs, t) || b.start <= t < b.end
  {
    assert forall x :: x in xs + [b] <==> x in xs || x == b;
  }

  lemma CoverOfOneMore(xs: seq<Interval>, i: nat)
    requires i < |xs|
    ensures forall t :: Covers(xs[..i + 1], t) <==> Covers(xs[..i], t) || xs[i].start <= t < xs[i].end
  {
    assert xs[..i + 1] == xs[..i] + [xs[i]];
    CoverOfAppend(xs[..i], xs[i]);
  }

  lemma CoverOfJoin(was: seq<Interval>, now: seq<Interval>, b: Interval)
    requires was != [] && |now| == |was|
    requires var last := |was| - 1;
             && was[last].start <= b.start <= was[last].end && was[last].start <= was[last].end
             && now == was[last := Interval(was[last].start, if was[last].end < b.end then b.end else was[last].end)]
    ensures forall t :: Covers(now, t) <==> Covers(was, t) || b.start <= t < b.end
  {
    var last := |was| - 1;
    var rest := was[..last];
    assert was == rest + [was[last]] && now == rest + [now[last]];
    CoverOfAppend(rest, was[last]);
    CoverOfAppend(rest, now[last]);
  }

  // ---------------------------------------------------------------------
  // One window per local day
  // ---------------------------------------------------------------------

  /** Whole hours on the working zone's clock, `endHour` 24 meaning midnight. */
  datatype WorkingHours = WorkingHours(startHour: nat, endHour: nat)

  /**
   * Hour `hour` of local day `day` on the wall clock, hour 24 the next day's
   * midnight; days are counted as the clock counts them.
   */
  function HourOf(day: int, hour: nat): (wall: int)
    ensures wall % MINUTE == 0 && WholeMinute(wall) == wall
  {
    MINUTE * (day * 1440 + hour * 60)
  }

  /** When the working hours of local day `day` open. */
  function Opens(day: int, hours: WorkingHours, zone: WriteZone): int {
    InstantAt(HourOf(day, hours.startHour), zone)
  }

  function Closes(day: int, hours: WorkingHours, zone: WriteZone): int {
    InstantAt(if hours.endHour >= 24 then HourOf(day + 1, 0) else HourOf(day, hours.endHour), zone)
  }

  /** A span for each local day: when it opens, and when it closes. */
  datatype Days = Days(opens: int -> int, closes: int -> int)

  function DaysOf(hours: WorkingHours, zone: WriteZone): Days {
    Days(day => Opens(day, hours, zone), day => Closes(day, hours, zone))
  }

  ghost predicate OpenOn(day: int, t: int, days: Days) {
    days.opens(day) <= t < days.closes(day)
  }

  /** The local day the instant `t` falls on. */
  function LocalDay(t: int, zone: WriteZone): int {
    WallAt(t, zone) / DAY_MS
  }

  /** `t` lies in the working hours of `first` or of a day after it. */
  ghost predicate InHours(t: int, first: int, hours: Option<WorkingHours>, zone: WriteZone) {
    hours.Some? ==> exists day :: first <= day && OpenOn(day, t, DaysOf(hours.value, zone))
  }

  /** What is asked of the zone: UTC, or one whose changes are far apart and skip a day at most. */
  ghost predicate Searchable(zone: WriteZone) {
    zone.Zoned? ==> Spaced(zone.offsetAt) && JumpsAtMostADay(zone.offsetAt)
  }

  lemma InstantAtHour(day: int, hour: nat, zone: WriteZone)
    requires zone.Zoned?
    ensures InstantAt(HourOf(day, hour), zone) == WallToInstant(HourOf(day, hour), zone.offsetAt)
  {
  }

  lemma DaysApart(d1: int, d2: int, hour: nat)
    requires d1 < d2
    ensures HourOf(d1, hour) + DAY_MS <= HourOf(d2, hour)
  {
    assert HourOf(d2, hour) - HourOf(d1, hour) == DAY_MS * (d2 - d1);
  }

  /** Days open in order, and no further from their wall time than an offset goes, so the walk over them ends. */
  ghost predicate Walkable(days: Days) {
    && (forall d1, d2 :: d1 <= d2 ==> days.opens(d1) <= days.opens(d2))
    && (forall d :: days.opens(d) >= d * DAY_MS - MAX_OFFSET_MS)
  }

  lemma ZoneWalkable(hours: WorkingHours, zone: WriteZone)
    requires Searchable(zone)
    ensures Walkable(DaysOf(hours, zone))
  {
    forall d1, d2 | d1 < d2 ensures Opens(d1, hours, zone) <= Opens(d2, hours, zone) {
      DaysApart(d1, d2, hours.startHour);
      if zone.Zoned? {
        InstantAtHour(d1, hours.startHour, zone);
        InstantAtHour(d2, hours.startHour, zone);
        DaysInOrder(zone.offsetAt, HourOf(d1, hours.startHour), HourOf(d2, hours.startHour));
      }
    }
    forall d ensures Opens(d, hours, zone) >= d * DAY_MS - MAX_OFFSET_MS {
      assert HourOf(d, hours.startHour) >= d * DAY_MS;
      if zone.Zoned? {
        InstantAtHour(d, hours.startHour, zone);
        InstantWithinReach(HourOf(d, hours.startHour), zone.offsetAt);
      }
    }
  }

  /** `searchWindows`: the working hours of each local day, cut to the range: in order, none empty, none touching. */
  method SearchWindows(range: Interval, zone: WriteZone, hours: Option<WorkingHours>) returns (windows: seq<Interval>)
    requires Searchable(zone)
    ensures Separated(windows)
    ensures forall t :: Covers(windows, t) <==>
              range.start <= t < range.end && InHours(t, LocalDay(range.start, zone), hours, zone)
  {
    windows := [];
    if range.end <= range.start { return; }
    if hours.None? {
      assert range in [range];
      return [range];
    }
    ZoneWalkable(hours.value, zone);
    windows := DayWindows(range, LocalDay(range.start, zone), DaysOf(hours.value, zone));
  }

  /** `t` lies in the range, in the hours of a day from `first` up to but not including `day`. */
  ghost predicate InDays(t: int, range: Interval, first: int, day: int, days: Days) {
    range.start <= t < range.end && exists d :: first <= d < day && OpenOn(d, t, days)
  }

  /** The windows of the days from `first` to before `day`, the last of them pending. */
  ghost predicate DaysSoFar(range: Interval, first: int, day: int, days: Days, windows: seq<Interval>,
                            pending: Option<Interval>) {
    && Separated(WithPending(windows, pending))
    && (forall t :: Covers(WithPending(windows, pending), t) <==> InDays(t, range, first, day, days))
    && (pending.Some? ==> pending.value.start <= Cut(days.opens(day), range))
    && (windows != [] ==> pending.Some?)
  }

  method DayWindows(range: Interval, first: int, days: Days) returns (windows: seq<Interval>)
    requires Walkable(days) && range.start < range.end
    ensures Separated(windows)
    ensures forall t :: Covers(windows, t) <==>
              range.start <= t < range.end && exists d :: first <= d && OpenOn(d, t, days)
  {
    var day := first;
    windows := [];
    var pending: Option<Interval> := None;
    while days.opens(day) < range.end
      invariant first <= day && DaysSoFar(range, first, day, days, windows, pending)
      decreases range.end + MAX_OFFSET_MS - day * DAY_MS
    {
      assert days.opens(day) >= day * DAY_MS - MAX_OFFSET_MS;
      windows, pending := AddDay(range, first, day, days, windows, pending);
      day := day + 1;
    }
    forall d, t | day <= d && OpenOn(d, t, days) ensures t >= range.end {
      assert days.opens(day) <= days.opens(d);
    }
    windows := WithPending(windows, pending);
  }

  /** One more day's hours, cut to the range. */
  method AddDay(range: Interval, first: int, day: int, days: Days, windows: seq<Interval>, pending: Option<Interval>)
    returns (windows': seq<Interval>, pending': Option<Interval>)
    requires Walkable(days) && first <= day && DaysSoFar(range, first, day, days, windows, pending)
    ensures DaysSoFar(range, first, day + 1, days, windows', pending')
  {
    var (opens, closes) := (days.opens(day), days.closes(day));
    var start, end := Cut(opens, range), if closes < range.end then closes else range.end;
    assert opens <= days.opens(day + 1);
    DayAdded(range, first, day, days, start, end);
    windows', pending' := windows, pending;
    if end > start { windows', pending' := Yield(windows, pending, Interval(start, end)); }
    ghost var (before, after) := (WithPending(windows, pending), WithPending(windows', pending'));
    assert forall t :: Covers(after, t) <==> Covers(before, t) || start <= t < end;
    assert pending'.Some? ==> pending'.value.start <= start <= Cut(days.opens(day + 1), range);
  }

  /**
   * One day's window: joined to the pending one where it meets it; otherwise
   * that one is yielded and this one waits.
   */
  method Yield(windows: seq<Interval>, pending: Option<Interval>, b: Interval)
    returns (windows': seq<Interval>, pending': Option<Interval>)
    requires Separated(WithPending(windows, pending)) && b.start < b.end
    requires pending.Some? ==> pending.value.start <= b.start
    requires windows != [] ==> pending.Some?
    ensures Separated(WithPending(windows', pending'))
    ensures forall t :: Covers(WithPending(windows', pending'), t) <==>
              Covers(WithPending(windows, pending), t) || b.start <= t < b.end
    ensures pending'.Some? && pending'.value.start <= b.start
  {
    windows' := windows;
    if pending.Some? && b.start <= pending.value.end {
      pending' := Some(Interval(pending.value.start, if pending.value.end < b.end then b.end else pending.value.end));
    } else {
      if pending.Some? { windows' := windows + [pending.value]; }
      pending' := Some(b);
    }
    assert WithPending(windows', pending') == Joined(WithPending(windows, pending), b);
  }

  function WithPending(windows: seq<Interval>, pending: Option<Interval>): seq<Interval> {
    windows + (if pending.Some? then [pending.value] else [])
  }

  function Cut(opens: int, range: Interval): int {
    if opens < range.start then range.start else opens
  }

  lemma DayAdded(range: Interval, first: int, day: int, days: Days, start: int, end: int)
    requires first <= day && start == Cut(days.opens(day), range)
    requires end == if days.closes(day) < range.end then days.closes(day) else range.end
    ensures forall t :: InDays(t, range, first, day + 1, days) <==>
              InDays(t, range, first, day, days) || start <= t < end
  {
    forall t
      ensures InDays(t, range, first, day + 1, days) <==> InDays(t, range, first, day, days) || start <= t < end
    {
      assert start <= t < end <==> range.start <= t < range.end && OpenOn(day, t, days);
    }
  }

  // ---------------------------------------------------------------------
  // The gaps
  // ---------------------------------------------------------------------

  /** `[start, end)` is free, and neither instant beside it is. */
  ghost predicate Maximal(free: int -> bool, b: Interval) {
    b.start < b.end && !free(b.start - 1) && !free(b.end) && forall t :: b.start <= t < b.end ==> free(t)
  }

  ghost predicate LongEnough(b: Interval, duration: int) {
    b.end - b.start >= duration
  }

  /** The gaps that start before `p`, each once, in order: what has been listed when the search stands at `p`. */
  ghost predicate Listed(free: int -> bool, duration: int, slots: seq<Interval>, p: int) {
    && Separated(slots)
    && (forall b :: b in slots <==> b.start < p && Maximal(free, b) && LongEnough(b, duration))
  }

  /** Exactly the gaps long enough, in order; with a limit, the first of them. */
  ghost predicate FirstGaps(free: int -> bool, duration: int, slots: seq<Interval>, limit: Option<nat>) {
    && Separated(slots)
    && (forall b :: b in slots ==> Maximal(free, b) && LongEnough(b, duration))
    && (limit.Some? ==> |slots| <= limit.value)
    && (forall b :: Maximal(free, b) && LongEnough(b, duration) && b !in slots ==>
          limit.Some? && |slots| == limit.value && forall c :: c in slots ==> c.end < b.start)
  }

  /** From a free stretch `[p, q)` and a stretch `[q, r)` with nothing free in it, one gap at most is new. */
  lemma Advance(free: int -> bool, duration: int, slots: seq<Interval>, p: int, q: int, r: int)
    requires duration > 0 && p <= q <= r && Listed(free, duration, slots, p)
    requires !free(p - 1) && !free(q)
    requires forall t :: p <= t < q ==> free(t)
    requires forall t :: q <= t < r ==> !free(t)
    ensures Listed(free, duration, if q - p >= duration then slots + [Interval(p, q)] else slots, r)
  {
    var slots' := if q - p >= duration then slots + [Interval(p, q)] else slots;
    forall b | Maximal(free, b) && p <= b.start < r ensures b == Interval(p, q) {
      assert free(b.start);
      assert b.start < q;
    }
    forall b | Maximal(free, b) && b.start < p ensures b.end < p {
    }
    assert p < q ==> Maximal(free, Interval(p, q));
  }

  ghost predicate FreeIn(t: int, windows: seq<Interval>, merged: seq<Interval>) {
    Covers(windows, t) && !Covers(merged, t)
  }

  /** `freeSlots`' two loops: every gap in the windows that is not busy. */
  method Gaps(windows: seq<Interval>, merged: seq<Interval>, duration: int, limit: Option<nat>, ghost free: int -> bool)
    returns (slots: seq<Interval>)
    requires Separated(windows) && Separated(merged) && duration > 0
    requires forall t :: free(t) <==> FreeIn(t, windows, merged)
    ensures FirstGaps(free, duration, slots, limit)
  {
    slots := [];
    if limit == Some(0) { return; }
    var i := 0;
    ghost var p := StandsAt(windows, 0);
    BeforeTheFirst(windows);
    NothingYet(free, duration, p);
    while i < |windows|
      invariant 0 <= i <= |windows| && p == StandsAt(windows, i)
      invariant Listed(free, duration, slots, p)
      invariant limit.Some? ==> |slots| < limit.value
    {
      var full;
      slots, full := WindowGaps(windows, merged, i, duration, limit, slots, free);
      if full { return; }
      NothingUntilNext(free, windows, merged, i, duration, slots);
      p := StandsAt(windows, i + 1);
      i := i + 1;
    }
    AfterTheLast(windows);
    Finished(free, duration, slots, p, limit);
  }

  /** Where the search stands before window `i`: at its start, or after the last one at its end. */
  function StandsAt(windows: seq<Interval>, i: nat): int
    requires i <= |windows|
  {
    if i < |windows| then windows[i].start else if windows == [] then 0 else windows[i - 1].end
  }

  lemma NothingUntilNext(free: int -> bool, windows: seq<Interval>, merged: seq<Interval>, i: nat, duration: int,
                         slots: seq<Interval>)
    requires i < |windows| && Separated(windows) && forall t :: free(t) <==> FreeIn(t, windows, merged)
    requires Listed(free, duration, slots, windows[i].end)
    ensures Listed(free, duration, slots, StandsAt(windows, i + 1))
  {
    OutsideWindows(windows, i);
    NothingBetween(free, duration, slots, windows[i].end, StandsAt(windows, i + 1));
  }

  lemma BeforeTheFirst(windows: seq<Interval>)
    requires Separated(windows)
    ensures forall t :: Covers(windows, t) ==> windows != [] && windows[0].start <= t
  {
    forall t | Covers(windows, t) ensures windows != [] && windows[0].start <= t {
      var w :| w in windows && w.start <= t < w.end;
      var j :| 0 <= j < |windows| && windows[j] == w;
      if j > 0 { assert windows[0].end < windows[j].start; }
    }
  }

  lemma AfterTheLast(windows: seq<Interval>)
    requires Separated(windows)
    ensures forall t :: Covers(windows, t) ==> t < StandsAt(windows, |windows|)
  {
    if windows != [] { OutsideWindows(windows, |windows| - 1); }
  }

  lemma NothingYet(free: int -> bool, duration: int, p: int)
    requires forall t :: free(t) ==> p <= t
    ensures Listed(free, duration, [], p)
  {
    forall b | Maximal(free, b) ensures p <= b.start {
      assert free(b.start);
    }
  }

  /** Once nothing free lies ahead, every gap is listed. */
  lemma Finished(free: int -> bool, duration: int, slots: seq<Interval>, p: int, limit: Option<nat>)
    requires Listed(free, duration, slots, p) && (limit.Some? ==> |slots| < limit.value)
    requires forall t :: free(t) ==> t < p
    ensures FirstGaps(free, duration, slots, limit)
  {
    forall b | Maximal(free, b) ensures b.start < p {
      assert free(b.start);
    }
  }

  lemma NothingBetween(free: int -> bool, duration: int, slots: seq<Interval>, p: int, q: int)
    requires p <= q && Listed(free, duration, slots, p)
    requires forall t :: p <= t < q ==> !free(t)
    ensures Listed(free, duration, slots, q)
  {
    forall b | Maximal(free, b) ensures !(p <= b.start < q) {
      assert free(b.start);
    }
  }

  /** The instants from a window's end up to the next one's start are in no window, nor is the one before it starts. */
  lemma OutsideWindows(windows: seq<Interval>, i: int)
    requires Separated(windows) && 0 <= i < |windows|
    ensures !Covers(windows, windows[i].start - 1)
    ensures forall t :: windows[i].end <= t && (i + 1 < |windows| ==> t < windows[i + 1].start) ==> !Covers(windows, t)
  {
    forall t | Covers(windows, t)
      ensures t != windows[i].start - 1
      ensures t < windows[i].end || (i + 1 < |windows| && t >= windows[i + 1].start)
    {
      var w :| w in windows && w.start <= t < w.end;
      var j :| 0 <= j < |windows| && windows[j] == w;
      if j > i + 1 { assert windows[i + 1].end < windows[j].start; }
    }
  }

  /** Everything before the cursor is settled, and no busy interval before the `k`th reaches past it. */
  ghost predicate AtCursor(free: int -> bool, duration: int, slots: seq<Interval>, cursor: int, merged: seq<Interval>,
                           k: int, limit: Option<nat>) {
    && 0 <= k <= |merged| && !free(cursor - 1) && (limit.Some? ==> |slots| < limit.value)
    && (forall j :: 0 <= j < k ==> merged[j].end <= cursor)
    && Listed(free, duration, slots, cursor)
  }

  /** One window: the inner loop over the busy intervals. `full` when the limit was reached. */
  method WindowGaps(windows: seq<Interval>, merged: seq<Interval>, i: nat, duration: int, limit: Option<nat>,
                    slots0: seq<Interval>,
                    ghost free: int -> bool)
    returns (slots: seq<Interval>, full: bool)
    requires i < |windows| && Separated(windows) && Separated(merged) && duration > 0
    requires forall t :: free(t) <==> FreeIn(t, windows, merged)
    requires Listed(free, duration, slots0, windows[i].start)
    requires limit.Some? ==> |slots0| < limit.value
    ensures !full ==> Listed(free, duration, slots, windows[i].end) && (limit.Some? ==> |slots| < limit.value)
    ensures full ==> FirstGaps(free, duration, slots, limit)
  {
    var window := windows[i];
    slots, full := slots0, false;
    var cursor := window.start;
    WindowOpens(windows, merged, i, duration, limit, slots, free);
    var k := 0;
    while k < |merged|
      invariant window.start <= cursor < window.end && !full
      invariant AtCursor(free, duration, slots, cursor, merged, k, limit)
    {
      var b := merged[k];
      if b.end > cursor {
        if b.start >= window.end { break; }
        slots, cursor, full := PastBusy(windows, merged, i, k, duration, limit, slots, cursor, free);
        if full || cursor >= window.end { return; }
      } else {
        BusyBehind(free, duration, slots, cursor, merged, k, limit);
      }
      k := k + 1;
    }
    slots, full := LastGap(windows, merged, i, k, duration, limit, slots, cursor, free);
  }

  lemma BusyBehind(free: int -> bool, duration: int, slots: seq<Interval>, cursor: int, merged: seq<Interval>, k: int,
                   limit: Option<nat>)
    requires 0 <= k < |merged| && AtCursor(free, duration, slots, cursor, merged, k, limit) && merged[k].end <= cursor
    ensures AtCursor(free, duration, slots, cursor, merged, k + 1, limit)
  {
  }

  lemma BusyPassed(free: int -> bool, duration: int, slots: seq<Interval>, cursor: int, end: int, merged: seq<Interval>,
                   k: int, limit: Option<nat>)
    requires 0 <= k < |merged| && end == merged[k].end > cursor && forall j :: 0 <= j < k ==> merged[j].end <= cursor
    requires Listed(free, duration, slots, end) && !free(end - 1) && (limit.Some? ==> |slots| < limit.value)
    ensures AtCursor(free, duration, slots, end, merged, k + 1, limit)
  {
  }

  lemma WindowOpens(windows: seq<Interval>, merged: seq<Interval>, i: nat, duration: int, limit: Option<nat>,
                    slots: seq<Interval>, free: int -> bool)
    requires i < |windows| && Separated(windows) && forall t :: free(t) <==> FreeIn(t, windows, merged)
    requires Listed(free, duration, slots, windows[i].start) && (limit.Some? ==> |slots| < limit.value)
    ensures windows[i].start < windows[i].end && AtCursor(free, duration, slots, windows[i].start, merged, 0, limit)
  {
    OutsideWindows(windows, i);
    assert windows[i] in windows;
  }

  /** The gap from the cursor to the window's end, nothing busy being left in reach. */
  method LastGap(windows: seq<Interval>, merged: seq<Interval>, i: nat, k: nat, duration: int, limit: Option<nat>,
                 slots: seq<Interval>, cursor: int, ghost free: int -> bool)
    returns (slots': seq<Interval>, full: bool)
    requires i < |windows| && Separated(windows) && Separated(merged) && duration > 0
    requires forall t :: free(t) <==> FreeIn(t, windows, merged)
    requires windows[i].start <= cursor < windows[i].end && AtCursor(free, duration, slots, cursor, merged, k, limit)
    requires k < |merged| ==> merged[k].start >= windows[i].end
    ensures !full ==> Listed(free, duration, slots', windows[i].end) && (limit.Some? ==> |slots'| < limit.value)
    ensures full ==> FirstGaps(free, duration, slots', limit)
  {
    LastStep(free, windows, merged, i, k, duration, slots, cursor);
    slots', full := NoteGap(free, duration, slots, cursor, windows[i].end, windows[i].end, limit);
  }

  /** The gap before one busy interval, and the cursor past it. */
  method PastBusy(windows: seq<Interval>, merged: seq<Interval>, i: nat, k: nat, duration: int, limit: Option<nat>,
                  slots: seq<Interval>, cursor: int, ghost free: int -> bool)
    returns (slots': seq<Interval>, cursor': int, full: bool)
    requires i < |windows| && k < |merged| && Separated(windows) && Separated(merged) && duration > 0
    requires forall t :: free(t) <==> FreeIn(t, windows, merged)
    requires windows[i].start <= cursor < windows[i].end && merged[k].end > cursor && merged[k].start < windows[i].end
    requires AtCursor(free, duration, slots, cursor, merged, k, limit)
    ensures full ==> FirstGaps(free, duration, slots', limit)
    ensures !full && cursor' < windows[i].end ==>
              cursor' > cursor && AtCursor(free, duration, slots', cursor', merged, k + 1, limit)
    ensures !full && cursor' >= windows[i].end ==>
              Listed(free, duration, slots', windows[i].end) && (limit.Some? ==> |slots'| < limit.value)
  {
    var b := merged[k];
    ghost var stop := if b.end < windows[i].end then b.end else windows[i].end;
    BusyStep(free, windows, merged, i, k, duration, slots, cursor, stop);
    slots', full := NoteGap(free, duration, slots, cursor, b.start, stop, limit);
    cursor' := b.end;
    if !full && b.end < windows[i].end { BusyPassed(free, duration, slots', cursor, b.end, merged, k, limit); }
  }

  /** `found`: a gap long enough is added; `full` when that reaches the limit. */
  method NoteGap(ghost free: int -> bool, duration: int, slots: seq<Interval>, start: int, end: int, ghost p: int,
                 limit: Option<nat>)
    returns (slots': seq<Interval>, full: bool)
    requires Listed(free, duration, if end - start >= duration then slots + [Interval(start, end)] else slots, p)
    requires limit.Some? ==> |slots| < limit.value
    ensures !full ==> Listed(free, duration, slots', p) && (limit.Some? ==> |slots'| < limit.value)
    ensures full ==> FirstGaps(free, duration, slots', limit)
  {
    slots', full := slots, false;
    if end - start >= duration {
      slots' := slots + [Interval(start, end)];
      full := limit == Some(|slots'|);
      if full { FullAt(free, duration, slots', limit, p); }
    }
  }

  lemma FullAt(free: int -> bool, duration: int, slots: seq<Interval>, limit: Option<nat>, p: int)
    requires Listed(free, duration, slots, p) && limit == Some(|slots|)
    ensures FirstGaps(free, duration, slots, limit)
  {
    forall b, c | Maximal(free, b) && LongEnough(b, duration) && b !in slots && c in slots ensures c.end < b.start {
      assert c.start < p <= b.start && free(b.start);
    }
  }

  lemma NotCovered(intervals: seq<Interval>, t: int)
    requires forall j :: 0 <= j < |intervals| ==> !(intervals[j].start <= t < intervals[j].end)
    ensures !Covers(intervals, t)
  {
  }

  /** From the cursor to the start of the next busy interval everything is free; in it nothing is. */
  lemma BusyStep(free: int -> bool, windows: seq<Interval>, merged: seq<Interval>, i: int, k: int,
                 duration: int, slots: seq<Interval>, cursor: int, stop: int)
    requires Separated(windows) && Separated(merged) && duration > 0 && 0 <= i < |windows| && 0 <= k < |merged|
    requires forall t :: free(t) <==> FreeIn(t, windows, merged)
    requires windows[i].start <= cursor < windows[i].end && cursor < merged[k].end && merged[k].start < windows[i].end
    requires forall j :: 0 <= j < k ==> merged[j].end <= cursor
    requires Listed(free, duration, slots, cursor) && !free(cursor - 1)
    requires stop == if merged[k].end < windows[i].end then merged[k].end else windows[i].end
    ensures Listed(free, duration, if merged[k].start - cursor >= duration
                   then slots + [Interval(cursor, merged[k].start)] else slots, stop)
    ensures !free(stop - 1)
  {
    var from := if merged[k].start < cursor then cursor else merged[k].start;
    assert windows[i] in windows && merged[k] in merged;
    forall t | cursor <= t < from ensures free(t) {
      NotCovered(merged, t);
    }
    assert forall t :: from <= t < stop ==> Covers(merged, t);
    Advance(free, duration, slots, cursor, from, stop);
  }

  /** Past the last busy interval in reach, everything up to the window's end is free. */
  lemma LastStep(free: int -> bool, windows: seq<Interval>, merged: seq<Interval>, i: int, k: int,
                 duration: int, slots: seq<Interval>, cursor: int)
    requires Separated(windows) && Separated(merged) && duration > 0 && 0 <= i < |windows| && 0 <= k <= |merged|
    requires forall t :: free(t) <==> FreeIn(t, windows, merged)
    requires windows[i].start <= cursor < windows[i].end
    requires forall j :: 0 <= j < k ==> merged[j].end <= cursor
    requires k < |merged| ==> merged[k].start >= windows[i].end
    requires Listed(free, duration, slots, cursor) && !free(cursor - 1)
    ensures Listed(free, duration, if windows[i].end - cursor >= duration
                   then slots + [Interval(cursor, windows[i].end)] else slots,
                   windows[i].end)
  {
    assert windows[i] in windows;
    forall t | cursor <= t < windows[i].end ensures free(t) {
      NotCovered(merged, t);
    }
    OutsideWindows(windows, i);
    Advance(free, duration, slots, cursor, windows[i].end, windows[i].end);
  }

  // ---------------------------------------------------------------------
  // The search
  // ---------------------------------------------------------------------

  /** The whole seconds inside the range. */
  function WholeRange(range: Interval): Interval {
    Interval(WholeSecond(range.start + SECOND - 1), WholeSecond(range.end))
  }

  /** What the search promises to look at: the range, in the working hours of its local days, where nothing is busy. */
  ghost predicate FreeAt(t: int, busy: seq<Interval>, range: Interval, hours: Option<WorkingHours>, zone: WriteZone) {
    && range.start <= t < range.end
    && InHours(t, LocalDay(range.start, zone), hours, zone)
    && !Covers(busy, t)
  }

  /** `freeSlots`: precisely the maximal free stretches long enough, earliest first; with a limit, the first of them. */
  method Search(busy: seq<Interval>, range: Interval, durationMinutes: nat, hours: Option<WorkingHours>,
                zone: WriteZone, limit: Option<nat>)
    returns (slots: seq<Interval>)
    requires Searchable(zone) && durationMinutes > 0
    ensures FirstGaps(t => FreeAt(t, busy, WholeRange(range), hours, zone), durationMinutes * MINUTE, slots, limit)
  {
    var merged := MergeBusy(busy);
    var whole := WholeRange(range);
    var windows := SearchWindows(whole, zone, hours);
    ghost var free := t => FreeAt(t, busy, whole, hours, zone);
    slots := Gaps(windows, merged, durationMinutes * MINUTE, limit, free);
  }

  // ---------------------------------------------------------------------
  // Whether the range's first local day is early enough to start at
  // ---------------------------------------------------------------------

  function ClosingWall(day: int, hours: WorkingHours): int {
    if hours.endHour >= 24 then HourOf(day + 1, 0) else HourOf(day, hours.endHour)
  }

  /** The change at `u` skips `x`, and by the clock as it ran before it `t` comes before `x`. */
  ghost predicate NotYet(f: OffsetAt, u: int, t: int, x: int) {
    SkippedAt(f, x, u) && t + f(u - 1) < x
  }

  /**
   * From the range's start on an earlier day is open only where the clocks
   * skip its closing hour, which is then read as the clock ran before: that
   * can only be the day before the first, and only until that reading.
   */
  lemma EarlierDaysAreOver(tzid: string, f: OffsetAt, start: int, t: int, first: int, day: int, hours: WorkingHours)
    requires Spaced(f) && JumpsAtMostADay(f)
    requires first == LocalDay(start, Zoned(tzid, f)) && start <= t && day < first
    ensures Closes(day, hours, Zoned(tzid, f)) > t <==>
            day == first - 1 && exists u :: NotYet(f, u, t, ClosingWall(day, hours))
  {
    ClosesAt(tzid, f, day, hours);
    FirstDay(tzid, f, start, first);
    ClosedByMidnight(day, first, hours);
    ReadPast(f, start, start + f(start), ClosingWall(day, hours), t);
    if day < first - 1 { TwoDaysBefore(day, first, hours); }
  }

  lemma ReadPast(f: OffsetAt, start: int, wall: int, close: int, t: int)
    requires Spaced(f) && JumpsAtMostADay(f) && Shows(f, start, wall) && close <= wall && start <= t
    ensures WallToInstant(close, f) > t <==> exists u :: NotYet(f, u, t, close)
    ensures WallToInstant(close, f) > t ==> wall < close + DAY_MS
  {
    if u :| NotYet(f, u, t, close) { ReadAfterSkip(f, u, close); }
    if WallToInstant(close, f) > t {
      var u := SkippedClose(f, start, wall, close, t);
      assert NotYet(f, u, t, close);
    }
  }

  /** The day an instant falls on by its whole second is the day of the wall time it shows. */
  lemma FirstDay(tzid: string, f: OffsetAt, start: int, first: int)
    requires first == LocalDay(start, Zoned(tzid, f))
    ensures HourOf(first, 0) <= start + f(start) < HourOf(first, 0) + DAY_MS
  {
  }

  lemma TwoDaysBefore(day: int, first: int, hours: WorkingHours)
    requires day < first - 1
    ensures ClosingWall(day, hours) + DAY_MS <= HourOf(first, 0)
  {
    ClosedByMidnight(day, first - 1, hours);
  }

  /** A wall time no later than the one shown at `start`, read later than that, is skipped, less than a jump before. */
  lemma SkippedClose(f: OffsetAt, start: int, wall: int, close: int, t: int) returns (u: int)
    requires Spaced(f) && JumpsAtMostADay(f) && Shows(f, start, wall) && close <= wall && start <= t
    requires WallToInstant(close, f) > t
    ensures SkippedAt(f, close, u) && WallToInstant(close, f) == close - f(u - 1) && u <= start
    ensures wall < close + DAY_MS
  {
    if Shown(f, close) { ShownByThen(f, start, close, wall); }
    ShownIff(f, close);
    u := ReadBeforeGap(close, f);
    assert f(u) - f(u - 1) <= DAY_MS;
    InstantWithinReach(close, f);
    if start < u { Settled(f, u, start); } else { SettledAfter(f, u, start); }
  }

  /** A wall time the change at `u` skips is read as the clock ran before. */
  lemma ReadAfterSkip(f: OffsetAt, u: int, x: int)
    requires Spaced(f) && SkippedAt(f, x, u)
    ensures WallToInstant(x, f) == x - f(u - 1) && !Shown(f, x)
  {
    assert -MAX_OFFSET_MS <= f(u - 1) <= MAX_OFFSET_MS && -MAX_OFFSET_MS <= f(u) <= MAX_OFFSET_MS;
    forall y ensures !Shows(f, y, x) {
      if Shows(f, y, x) {
        assert -MAX_OFFSET_MS <= f(y) <= MAX_OFFSET_MS;
        if y < u { Settled(f, u, y); } else { SettledAfter(f, u, y); }
      }
    }
    var v := ReadBeforeGap(x, f);
    SameGap(f, x, u, x, v);
  }

  /** `x` by the clock at `t`, or, where the change at `u` skips it, by the clock as it ran before. */
  ghost predicate Reached(f: OffsetAt, u: int, t: int, x: int) {
    x <= t + f(if SkippedAt(f, x, u) then u - 1 else u)
  }

  /**
   * What the clocks have come to within a day of jumping ahead: the times they
   * skip count by the clock as it ran before.
   */
  lemma ReachedIff(f: OffsetAt, u: int, t: int, x: int)
    requires Spaced(f) && f(u - 1) < f(u) && u <= t < u + DAY_MS
    ensures WallToInstant(x, f) <= t <==> Reached(f, u, t, x)
  {
    SettledAfter(f, u, t);
    if SkippedAt(f, x, u) {
      ReadAfterSkip(f, u, x);
    } else if Shown(f, x) {
      if x <= t + f(u) {
        ShownByThen(f, t, x, t + f(u));
      } else {
        FirstPassAfterJump(f, u, t);
        ShownInOrder(f, t + f(u), x);
      }
    } else {
      ShownIff(f, x);
      var v := ReadBeforeGap(x, f);
      SkippedElsewhere(f, u, v, t, x);
    }
  }

  lemma FirstPassAfterJump(f: OffsetAt, u: int, t: int)
    requires Spaced(f) && f(u - 1) < f(u) && u <= t < u + DAY_MS
    ensures WallToInstant(t + f(u), f) == t && Shown(f, t + f(u))
  {
    SettledAfter(f, u, t);
    var wall := t + f(u);
    forall y | Shows(f, y, wall) ensures t <= y {
      assert -MAX_OFFSET_MS <= f(y) <= MAX_OFFSET_MS && -MAX_OFFSET_MS <= f(u) <= MAX_OFFSET_MS;
      if y < u { Settled(f, u, y); } else { SettledAfter(f, u, y); }
    }
    LeftInverseOfWallAt(wall, f, t);
  }

  lemma SkippedElsewhere(f: OffsetAt, u: int, v: int, t: int, x: int)
    requires Spaced(f) && Changes(f, u) && SkippedAt(f, x, v) && u != v && u <= t < u + DAY_MS
    ensures WallToInstant(x, f) <= t <==> x <= t + f(u)
  {
    ReadAfterSkip(f, v, x);
    assert -MAX_OFFSET_MS <= f(v - 1) <= MAX_OFFSET_MS && -MAX_OFFSET_MS <= f(v) <= MAX_OFFSET_MS;
    assert -MAX_OFFSET_MS <= f(u) <= MAX_OFFSET_MS;
  }

  /** Hours the source searches: refused unless they end after they start. */
  predicate Ordered(hours: WorkingHours) {
    hours.startHour < hours.endHour <= 24
  }

  /** Some day before the first is open at `t`, and none the walk does: the windows leave `t` out. */
  ghost predicate Missed(t: int, first: int, hours: WorkingHours, zone: WriteZone) {
    (exists day :: day < first && OpenOn(day, t, DaysOf(hours, zone))) && !InHours(t, first, Some(hours), zone)
  }

  /**
   * The change at `u` skips the closing hour of the day before the first; by
   * the clock as it ran before, `t` lies in that day's hours; and the first day
   * is yet to open, or the change skips that hour too.
   */
  ghost predicate InSkippedHours(f: OffsetAt, u: int, t: int, first: int, hours: WorkingHours) {
    && SkippedAt(f, ClosingWall(first - 1, hours), u)
    && HourOf(first - 1, hours.startHour) <= t + f(u - 1) < ClosingWall(first - 1, hours)
    && (t + f(t) < HourOf(first, hours.startHour) || SkippedAt(f, HourOf(first, hours.startHour), u))
  }

  /** Exactly the instants of the range the windows miss. */
  lemma {:induction false} MissedIff(tzid: string, f: OffsetAt, start: int, t: int, first: int, hours: WorkingHours)
    requires Spaced(f) && JumpsAtMostADay(f) && Ordered(hours)
    requires first == LocalDay(start, Zoned(tzid, f)) && start <= t
    ensures Missed(t, first, hours, Zoned(tzid, f)) <==> exists u :: InSkippedHours(f, u, t, first, hours)
  {
    if Missed(t, first, hours, Zoned(tzid, f)) {
      var u := OpenTheDayBefore(tzid, f, start, t, first, hours);
      MissedThere(tzid, f, u, start, t, first, hours);
    }
    if u :| InSkippedHours(f, u, t, first, hours) {
      MissedThere(tzid, f, u, start, t, first, hours);
    }
  }

  /** Of the days before the first only the last can be open, past a jump over its closing hour. */
  lemma {:induction false} OpenTheDayBefore(tzid: string, f: OffsetAt, start: int, t: int, first: int,
                                            hours: WorkingHours)
    returns (u: int)
    requires Spaced(f) && JumpsAtMostADay(f) && Missed(t, first, hours, Zoned(tzid, f))
    requires first == LocalDay(start, Zoned(tzid, f)) && start <= t
    ensures OpenOn(first - 1, t, DaysOf(hours, Zoned(tzid, f))) && NotYet(f, u, t, ClosingWall(first - 1, hours))
  {
    var day :| day < first && OpenOn(day, t, DaysOf(hours, Zoned(tzid, f)));
    EarlierDaysAreOver(tzid, f, start, t, first, day, hours);
    u :| NotYet(f, u, t, ClosingWall(first - 1, hours));
  }

  lemma {:induction false} MissedThere(tzid: string, f: OffsetAt, u: int, start: int, t: int, first: int,
                                       hours: WorkingHours)
    requires Spaced(f) && JumpsAtMostADay(f) && Ordered(hours)
    requires first == LocalDay(start, Zoned(tzid, f)) && start <= t && NotYet(f, u, t, ClosingWall(first - 1, hours))
    ensures OpenOn(first - 1, t, DaysOf(hours, Zoned(tzid, f))) && !InHours(t, first, Some(hours), Zoned(tzid, f)) <==>
            InSkippedHours(f, u, t, first, hours)
  {
    JumpedBefore(tzid, f, u, start, t, first, hours);
    MissedJustPast(tzid, f, u, t, first, hours);
  }

  lemma {:induction false} MissedJustPast(tzid: string, f: OffsetAt, u: int, t: int, first: int, hours: WorkingHours)
    requires Spaced(f) && t < u + DAY_MS && f(t) == f(u) && JustPast(f, u, t, first, hours) && Ordered(hours)
    ensures OpenOn(first - 1, t, DaysOf(hours, Zoned(tzid, f))) && !InHours(t, first, Some(hours), Zoned(tzid, f)) <==>
            InSkippedHours(f, u, t, first, hours)
  {
    OnlyTheFirstDay(tzid, f, u, t, first, hours);
    DayBeforeOpen(tzid, f, u, t, first, hours);
    FirstDayOpen(tzid, f, u, t, first, hours);
  }

  lemma DayBeforeOpen(tzid: string, f: OffsetAt, u: int, t: int, first: int, hours: WorkingHours)
    requires Spaced(f) && t < u + DAY_MS && JustPast(f, u, t, first, hours) && Ordered(hours)
    ensures OpenOn(first - 1, t, DaysOf(hours, Zoned(tzid, f))) <==> HourOf(first - 1, hours.startHour) <= t + f(u - 1)
  {
    HoursReached(tzid, f, u, t, first - 1, hours);
    DayBeforeReached(f, u, t, first, hours);
  }

  lemma FirstDayOpen(tzid: string, f: OffsetAt, u: int, t: int, first: int, hours: WorkingHours)
    requires Spaced(f) && t < u + DAY_MS && JustPast(f, u, t, first, hours) && Ordered(hours)
    ensures !OpenOn(first, t, DaysOf(hours, Zoned(tzid, f))) <==>
            t + f(u) < HourOf(first, hours.startHour) || SkippedAt(f, HourOf(first, hours.startHour), u)
  {
    HoursReached(tzid, f, u, t, first, hours);
    DayBeforeReached(f, u, t, first, hours);
  }

  lemma {:induction false} OnlyTheFirstDay(tzid: string, f: OffsetAt, u: int, t: int, first: int, hours: WorkingHours)
    requires Spaced(f) && t < u + DAY_MS && JustPast(f, u, t, first, hours) && Ordered(hours)
    ensures InHours(t, first, Some(hours), Zoned(tzid, f)) <==> OpenOn(first, t, DaysOf(hours, Zoned(tzid, f)))
  {
    forall day | first < day ensures !OpenOn(day, t, DaysOf(hours, Zoned(tzid, f))) {
      HoursReached(tzid, f, u, t, day, hours);
      LaterDaysNotReached(f, u, t, first, day, hours);
    }
  }

  /** Just after the jump: past it at `t`, and no more than it past the closing hour it skips. */
  ghost predicate JustPast(f: OffsetAt, u: int, t: int, first: int, hours: WorkingHours) {
    && u <= t && f(u - 1) < f(u) <= f(u - 1) + DAY_MS && NotYet(f, u, t, ClosingWall(first - 1, hours))
    && t + f(u) < HourOf(first, 0) + DAY_MS
  }

  lemma DayBeforeReached(f: OffsetAt, u: int, t: int, first: int, hours: WorkingHours)
    requires JustPast(f, u, t, first, hours) && Ordered(hours)
    ensures Reached(f, u, t, HourOf(first - 1, hours.startHour)) <==> HourOf(first - 1, hours.startHour) <= t + f(u - 1)
    ensures !Reached(f, u, t, ClosingWall(first - 1, hours)) && !Reached(f, u, t, ClosingWall(first, hours))
    ensures SkippedAt(f, HourOf(first, hours.startHour), u) ==> !Reached(f, u, t, HourOf(first, hours.startHour))
  {
    WholeDaysApart(first - 1, first, hours);
  }

  lemma LaterDaysNotReached(f: OffsetAt, u: int, t: int, first: int, day: int, hours: WorkingHours)
    requires JustPast(f, u, t, first, hours) && Ordered(hours) && first < day
    ensures !Reached(f, u, t, HourOf(day, hours.startHour))
  {
    WholeDaysApart(first, day, hours);
    assert HourOf(day, hours.startHour) >= HourOf(first, 0) + DAY_MS by { assert DAY_MS * (day - first) >= DAY_MS; }
  }

  /** The jump lies before the range's start, and the clocks have not yet run as far as they jumped. */
  lemma JumpedBefore(tzid: string, f: OffsetAt, u: int, start: int, t: int, first: int, hours: WorkingHours)
    requires Spaced(f) && JumpsAtMostADay(f)
    requires first == LocalDay(start, Zoned(tzid, f)) && start <= t && NotYet(f, u, t, ClosingWall(first - 1, hours))
    ensures t < u + DAY_MS && f(t) == f(u) && JustPast(f, u, t, first, hours)
  {
    var (wall, close) := (start + f(start), ClosingWall(first - 1, hours));
    FirstDay(tzid, f, start, first);
    ClosedByMidnight(first - 1, first, hours);
    ReadAfterSkip(f, u, close);
    var v := SkippedClose(f, start, wall, close, t);
    SameGap(f, close, u, close, v);
    assert f(u) - f(u - 1) <= DAY_MS;
    SettledAfter(f, u, t);
    SettledAfter(f, u, start);
  }

  /** Within a day of a jump, whether a day is open is read off the clocks. */
  lemma HoursReached(tzid: string, f: OffsetAt, u: int, t: int, day: int, hours: WorkingHours)
    requires Spaced(f) && f(u - 1) < f(u) && u <= t < u + DAY_MS
    ensures OpenOn(day, t, DaysOf(hours, Zoned(tzid, f))) <==>
            && Reached(f, u, t, HourOf(day, hours.startHour))
            && !Reached(f, u, t, ClosingWall(day, hours))
  {
    OpensAt(tzid, f, day, hours);
    ClosesAt(tzid, f, day, hours);
    ReachedIff(f, u, t, HourOf(day, hours.startHour));
    ReachedIff(f, u, t, ClosingWall(day, hours));
  }

  /** An hour of one day is an hour of another, whole days apart. */
  lemma WholeDaysApart(d1: int, d2: int, hours: WorkingHours)
    requires Ordered(hours)
    ensures HourOf(d2, hours.startHour) - HourOf(d1, hours.startHour) == DAY_MS * (d2 - d1)
    ensures ClosingWall(d2, hours) - ClosingWall(d1, hours) == DAY_MS * (d2 - d1)
    ensures HourOf(d1, 0) <= HourOf(d1, hours.startHour) < ClosingWall(d1, hours) <= HourOf(d1, 0) + DAY_MS
  {
  }

  lemma ClosesAt(tzid: string, f: OffsetAt, day: int, hours: WorkingHours)
    ensures Closes(day, hours, Zoned(tzid, f)) == WallToInstant(ClosingWall(day, hours), f)
  {
  }

  lemma ClosedByMidnight(day: int, first: int, hours: WorkingHours)
    requires day < first
    ensures ClosingWall(day, hours) <= HourOf(first, 0)
  {
    var d := first - day;
    assert HourOf(first, 0) == HourOf(day, 0) + DAY_MS * d;
  }

  lemma ShownByThen(f: OffsetAt, t: int, earlier: int, wall: int)
    requires Spaced(f) && Shown(f, earlier) && Shows(f, t, wall) && earlier <= wall
    ensures WallToInstant(earlier, f) <= t
  {
    EarliestShowing(wall, f, t);
    if earlier < wall { ShownInOrder(f, earlier, wall); }
  }

  /** A zone whose clocks went from 23:30 straight to 00:30, as Toronto's did on 30 March 1919. */
  function SkipsMidnight(t: int): int {
    if t < 4 * HOUR + HOUR / 2 then -5 * HOUR else -4 * HOUR
  }

  lemma SkipsMidnightOnce()
    ensures Spaced(SkipsMidnight) && JumpsAtMostADay(SkipsMidnight)
  {
    assert forall x :: Changes(SkipsMidnight, x) <==> x == 4 * HOUR + HOUR / 2;
  }

  lemma OpensAt(tzid: string, f: OffsetAt, day: int, hours: WorkingHours)
    ensures Opens(day, hours, Zoned(tzid, f)) == WallToInstant(HourOf(day, hours.startHour), f)
  {
  }

  /**
   * There free time is missed: ten minutes after the change, hours 0 to 24
   * hold the instant only as part of the day before, and the walk starts at
   * the day the range's first instant falls on.
   */
  lemma SkippedMidnightIsMissed(t: int, zone: WriteZone, hours: WorkingHours)
    requires t == 4 * HOUR + HOUR / 2 + 10 * MINUTE
    requires zone == Zoned("America/Toronto", SkipsMidnight) && hours == WorkingHours(0, 24)
    ensures LocalDay(t, zone) == 0 && Missed(t, 0, hours, zone)
  {
    assert WallAt(t, zone) == 40 * MINUTE;
    SkipsMidnightOnce();
    MissedIff("America/Toronto", SkipsMidnight, t, t, 0, hours);
    SkipsTheClose(t, hours);
  }

  lemma SkipsTheClose(t: int, hours: WorkingHours)
    requires t == 4 * HOUR + HOUR / 2 + 10 * MINUTE && hours == WorkingHours(0, 24)
    ensures InSkippedHours(SkipsMidnight, 4 * HOUR + HOUR / 2, t, 0, hours)
  {
    assert ClosingWall(-1, hours) == HourOf(0, 0) == 0 && HourOf(-1, 0) == -24 * HOUR;
  }
}
