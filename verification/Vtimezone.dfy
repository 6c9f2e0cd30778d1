/**
 * The VTIMEZONE this connector generates, read back as the zone it was made
 * from (src/ical-vtimezone.ts), and its regeneration to cover every time an
 * object holds (src/ical-zones.ts, `coverGeneratedVtimezone`).
 */
module Vtimezone {
  import opened Options
  import opened WallClock
  import opened OffsetScan

  // ---------------------------------------------------------------------
  // A UTC offset as text
  // ---------------------------------------------------------------------

  const DIGITS := "0123456789"

  /** One or two digits, padded to two. */
  function Pad2(n: int): (s: string)
    requires 0 <= n < 100
    ensures |s| == 2
  {
    [DIGITS[n / 10], DIGITS[n % 10]]
  }

  function DigitValue(c: char): Option<int> {
    if '0' <= c <= '9' then Some(c as int - '0' as int) else None
  }

  function Read2(s: string): Option<int>
    requires |s| == 2
  {
    var (tens, ones) := (DigitValue(s[0]), DigitValue(s[1]));
    if tens.Some? && ones.Some? then Some(10 * tens.value + ones.value) else None
  }

  /** Sign, hours and minutes, and the seconds only when there are any. */
  function Rendered(negative: bool, hours: int, minutes: int, seconds: int): string
    requires 0 <= hours < 100 && 0 <= minutes < 60 && 0 <= seconds < 60
  {
    (if negative then "-" else "+") + Pad2(hours) + Pad2(minutes) + (if seconds == 0 then "" else Pad2(seconds))
  }

  /** `formatOffset`: `+0200`, `-0530`, `+001932`. */
  function FormatOffset(ms: int): string
    requires -100 * HOUR < ms < 100 * HOUR && ms % SECOND == 0
  {
    var total := (if ms < 0 then -ms else ms) / SECOND;
    Rendered(ms < 0, total / 3600, total / 60 % 60, total % 60)
  }

  /** A UTC-OFFSET value as section 3.3.14 of RFC 5545 reads it. */
  function ParseOffset(s: string): Option<int> {
    if |s| != 5 && |s| != 7 then None
    else
      var sign := if s[0] == '-' then -1 else 1;
      var (h, m, sec) := (Read2(s[1..3]), Read2(s[3..5]), if |s| == 7 then Read2(s[5..7]) else Some(0));
      if (s[0] == '+' || s[0] == '-') && h.Some? && m.Some? && sec.Some?
      then Some(sign * (h.value * 3600 + m.value * 60 + sec.value) * SECOND)
      else None
  }

  lemma ReadsPad2(n: int)
    requires 0 <= n < 100
    ensures Read2(Pad2(n)) == Some(n)
  {
    assert forall d :: 0 <= d < 10 ==> DIGITS[d] as int == '0' as int + d;
  }

  lemma RenderedReadsBack(negative: bool, h: int, m: int, sec: int, ms: int)
    requires 0 <= h < 100 && 0 <= m < 60 && 0 <= sec < 60
    requires ms == if negative then -((h * 3600 + m * 60 + sec) * SECOND) else (h * 3600 + m * 60 + sec) * SECOND
    ensures ParseOffset(Rendered(negative, h, m, sec)) == Some(ms)
  {
    var s := Rendered(negative, h, m, sec);
    ReadsPad2(h);
    ReadsPad2(m);
    ReadsPad2(sec);
    assert s[1..3] == Pad2(h) && s[3..5] == Pad2(m) && (|s| == 7 ==> s[5..7] == Pad2(sec));
  }

  /** The text of an offset says exactly that offset. */
  lemma OffsetReadsBack(ms: int)
    requires -100 * HOUR < ms < 100 * HOUR && ms % SECOND == 0
    ensures ParseOffset(FormatOffset(ms)) == Some(ms)
  {
    var total := (if ms < 0 then -ms else ms) / SECOND;
    WholeSeconds(ms, total);
    var (h, m, sec) := (total / 3600, total / 60 % 60, total % 60);
    SexagesimalSum(total, h, m, sec);
    RenderedReadsBack(ms < 0, h, m, sec, ms);
  }

  lemma WholeSeconds(ms: int, total: int)
    requires -100 * HOUR < ms < 100 * HOUR && ms % SECOND == 0 && total == (if ms < 0 then -ms else ms) / SECOND
    ensures 0 <= total < 360000 && ms == if ms < 0 then -(total * SECOND) else total * SECOND
  {
  }

  lemma SexagesimalSum(total: int, h: int, m: int, sec: int)
    requires 0 <= total < 360000 && h == total / 3600 && m == total / 60 % 60 && sec == total % 60
    ensures 0 <= h < 100 && 0 <= m < 60 && 0 <= sec < 60 && h * 3600 + m * 60 + sec == total
  {
    assert total / 60 / 60 == total / 3600;
  }

  // ---------------------------------------------------------------------
  // The block, and how it is read
  // ---------------------------------------------------------------------

  /** One STANDARD or DAYLIGHT observance: its onset is local time in the offset it replaces. */
  datatype Observance = Observance(daylight: bool, onset: int, offsetFrom: string, offsetTo: string)

  type Block = seq<Observance>

  /**
   * The instants a block's observances take effect at, with their offsets; none
   * for a block whose text cannot be read.
   */
  function Transitions(block: Block): Option<seq<Change>> {
    if block == [] then Some([])
    else
      var o := block[0];
      var (from, to, rest) := (ParseOffset(o.offsetFrom), ParseOffset(o.offsetTo), Transitions(block[1..]));
      if from.Some? && to.Some? && rest.Some?
      then Some([Change(o.onset - from.value, from.value, to.value)] + rest.value)
      else None
  }

  /** `vtimezoneOffsetMs`: the offset the last transition at or before `ms` set, 0 before the first. */
  method VtimezoneOffset(changes: seq<Change>, ms: int) returns (offset: int)
    ensures offset == LookedUp(0, changes, ms)
  {
    offset := 0;
    var i := 0;
    while i < |changes|
      invariant 0 <= i <= |changes|
      invariant LookedUp(0, changes, ms) == LookedUp(offset, changes[i..], ms)
    {
      if changes[i].at > ms { break; }
      offset := changes[i].to;
      i := i + 1;
    }
  }

  /**
   * The block, read as any client reads it, gives the zone's own offset at
   * every instant from `lo` to `hi`, and 0 before.
   */
  ghost predicate ReadsAs(block: Block, f: OffsetAt, lo: int, hi: int) {
    var changes := Transitions(block);
    && changes.Some? && InOrder(changes.value)
    && (forall ms :: lo <= ms <= hi ==> LookedUp(0, changes.value, ms) == f(ms))
    && (forall ms :: ms < lo ==> LookedUp(0, changes.value, ms) == 0)
  }

  /** An observance is DAYLIGHT exactly when its offset is above the lowest one in the span. */
  ghost predicate DaylightAboveLowest(block: Block, f: OffsetAt, lo: int, hi: int) {
    forall o :: o in block ==>
      (ParseOffset(o.offsetTo).Some?
       && (o.daylight <==> exists t :: lo <= t <= hi && f(t) < ParseOffset(o.offsetTo).value))
  }

  // ---------------------------------------------------------------------
  // Generating it
  // ---------------------------------------------------------------------

  /** What the text form takes: offsets of whole seconds, within a day's length and more. */
  ghost predicate Writable(f: OffsetAt) {
    Bounded(f) && OnSeconds(f) && ADayApart(f) && forall t :: f(t) % SECOND == 0
  }

  predicate WritableChange(c: Change) {
    -100 * HOUR < c.from < 100 * HOUR && c.from % SECOND == 0 && -100 * HOUR < c.to < 100 * HOUR && c.to % SECOND == 0
  }

  function ObservanceOf(c: Change, lowest: int): Observance
    requires WritableChange(c)
  {
    Observance(c.to > lowest, c.at + c.from, FormatOffset(c.from), FormatOffset(c.to))
  }

  function Observances(changes: seq<Change>, lowest: int): (block: Block)
    requires forall c :: c in changes ==> WritableChange(c)
    ensures |block| == |changes|
    ensures forall o :: o in block ==> exists c :: c in changes && o == ObservanceOf(c, lowest)
  {
    if changes == [] then []
    else
      assert changes[0] in changes;
      [ObservanceOf(changes[0], lowest)] + Observances(changes[1..], lowest)
  }

  lemma ObservanceReadsBack(c: Change, lowest: int)
    requires WritableChange(c)
    ensures ParseOffset(ObservanceOf(c, lowest).offsetFrom) == Some(c.from)
    ensures ParseOffset(ObservanceOf(c, lowest).offsetTo) == Some(c.to)
  {
    OffsetReadsBack(c.from);
    OffsetReadsBack(c.to);
  }

  /** Writing transitions as observances and reading them back is the identity. */
  lemma {:induction false} ObservancesReadBack(changes: seq<Change>, lowest: int)
    requires forall c :: c in changes ==> WritableChange(c)
    ensures Transitions(Observances(changes, lowest)) == Some(changes)
  {
    if changes != [] {
      assert changes[0] in changes;
      ObservanceReadsBack(changes[0], lowest);
      ObservancesReadBack(changes[1..], lowest);
      PrependTransition(ObservanceOf(changes[0], lowest), Observances(changes[1..], lowest), changes);
    }
  }

  lemma PrependTransition(o: Observance, block: Block, changes: seq<Change>)
    requires changes != [] && Transitions(block) == Some(changes[1..])
    requires ParseOffset(o.offsetFrom) == Some(changes[0].from) && ParseOffset(o.offsetTo) == Some(changes[0].to)
    requires o.onset == changes[0].at + changes[0].from
    ensures Transitions([o] + block) == Some(changes)
  {
    assert ([o] + block)[1..] == block;
    assert changes == [changes[0]] + changes[1..];
    assert changes[0] == Change(o.onset - changes[0].from, changes[0].from, changes[0].to);
  }

  function Lowest(first: int, changes: seq<Change>): (r: int)
    ensures r <= first && forall c :: c in changes ==> r <= c.to
    ensures r == first || exists c :: c in changes && c.to == r
  {
    if changes == [] then first
    else
      var rest := Lowest(first, changes[1..]);
      if changes[0].to < rest then changes[0].to else rest
  }

  function Later(a: int, b: int): int {
    if a < b then b else a
  }

  /** `vtimezoneFromIntl`: exact from `fromMs` to `toMs`. */
  method VtimezoneFromIntl(f: OffsetAt, fromMs: int, toMs: int) returns (block: Block)
    requires Writable(f) && !Stalls(f, WholeSecond(fromMs), toMs)
    ensures ReadsAs(block, f, WholeSecond(fromMs), Later(WholeSecond(fromMs), toMs))
    ensures DaylightAboveLowest(block, f, WholeSecond(fromMs), Later(WholeSecond(fromMs), toMs))
  {
    var start := WholeSecond(fromMs);
    var scan := ScanOffsets(f, start, toMs);
    ScannedIsWritable(f, start, Later(start, toMs), scan);
    block := Observances(AllChanges(start, scan), Lowest(scan.first, scan.changes));
    BlockReadsBack(f, start, Later(start, toMs), scan);
    BlockMarksDaylight(f, start, Later(start, toMs), scan);
  }

  /** The scan's changes after an observance at its start. */
  function AllChanges(start: int, scan: OffsetChanges): seq<Change> {
    [Change(start, scan.first, scan.first)] + scan.changes
  }

  lemma ScannedIsWritable(f: OffsetAt, start: int, hi: int, scan: OffsetChanges)
    requires Writable(f) && Exact(f, start, hi, scan)
    ensures forall c :: c in AllChanges(start, scan) ==> WritableChange(c)
  {
    var all := AllChanges(start, scan);
    forall c | c in all ensures WritableChange(c) {
      assert f(c.at) % SECOND == 0 && f(c.at - 1) % SECOND == 0;
      assert c == all[0] || c in scan.changes;
    }
  }

  lemma BlockReadsBack(f: OffsetAt, start: int, hi: int, scan: OffsetChanges)
    requires Exact(f, start, hi, scan) && forall c :: c in AllChanges(start, scan) ==> WritableChange(c)
    ensures ReadsAs(Observances(AllChanges(start, scan), Lowest(scan.first, scan.changes)), f, start, hi)
  {
    ObservancesReadBack(AllChanges(start, scan), Lowest(scan.first, scan.changes));
    ScanReadsBack(f, start, hi, scan);
  }

  lemma BlockMarksDaylight(f: OffsetAt, start: int, hi: int, scan: OffsetChanges)
    requires start <= hi && Exact(f, start, hi, scan) && forall c :: c in AllChanges(start, scan) ==> WritableChange(c)
    ensures DaylightAboveLowest(Observances(AllChanges(start, scan), Lowest(scan.first, scan.changes)), f, start, hi)
  {
    var (all, lowest) := (AllChanges(start, scan), Lowest(scan.first, scan.changes));
    var block := Observances(all, lowest);
    LowestIsLowest(f, start, hi, scan);
    forall o | o in block
      ensures ParseOffset(o.offsetTo).Some?
      ensures (o.daylight <==> exists t :: start <= t <= hi && f(t) < ParseOffset(o.offsetTo).value)
    {
      var c :| c in all && o == ObservanceOf(c, lowest);
      ObservanceReadsBack(c, lowest);
      AboveLowest(f, start, hi, lowest, c.to);
    }
  }

  lemma AboveLowest(f: OffsetAt, lo: int, hi: int, lowest: int, offset: int)
    requires (forall t :: lo <= t <= hi ==> lowest <= f(t)) && exists t :: lo <= t <= hi && f(t) == lowest
    ensures offset > lowest <==> exists t :: lo <= t <= hi && f(t) < offset
  {
  }

  /** An exact scan, read from 0 through an observance at its start, is the zone. */
  lemma ScanReadsBack(f: OffsetAt, lo: int, hi: int, scan: OffsetChanges)
    requires Exact(f, lo, hi, scan)
    ensures var all := [Change(lo, scan.first, scan.first)] + scan.changes;
            && InOrder(all)
            && (forall ms :: lo <= ms <= hi ==> LookedUp(0, all, ms) == f(ms))
            && (forall ms :: ms < lo ==> LookedUp(0, all, ms) == 0)
  {
    var all := [Change(lo, scan.first, scan.first)] + scan.changes;
    assert all[1..] == scan.changes;
    forall ms | lo <= ms <= hi ensures LookedUp(0, all, ms) == f(ms) {
      LookupIsExact(f, lo, hi, scan, ms);
    }
  }

  /** The lowest offset written is the lowest in effect anywhere in the span. */
  lemma LowestIsLowest(f: OffsetAt, lo: int, hi: int, scan: OffsetChanges)
    requires lo <= hi && Exact(f, lo, hi, scan)
    ensures var l := Lowest(scan.first, scan.changes);
            (forall t :: lo <= t <= hi ==> l <= f(t)) && exists t :: lo <= t <= hi && f(t) == l
  {
    var l := Lowest(scan.first, scan.changes);
    forall t | lo <= t <= hi ensures l <= f(t) {
      InEffect(f, lo, hi, scan, t);
    }
    if l == scan.first {
      assert f(lo) == l;
    } else {
      var c :| c in scan.changes && c.to == l;
      assert f(c.at) == l;
    }
  }

  lemma {:induction false} InEffect(f: OffsetAt, lo: int, hi: int, scan: OffsetChanges, t: int)
    requires Exact(f, lo, hi, scan) && lo <= t <= hi
    ensures f(t) == scan.first || exists c :: c in scan.changes && c.to == f(t)
    decreases t - lo
  {
    if t > lo {
      if Changes(f, t) {
        assert Record(f, t) in scan.changes;
      } else {
        InEffect(f, lo, hi, scan, t - 1);
      }
    }
  }

  // ---------------------------------------------------------------------
  // Covering an object
  // ---------------------------------------------------------------------

  const VTIMEZONE_MARGIN_MS: int := 366 * DAY_MS

  const SERIES_REACH_MS: int := 10 * 366 * DAY_MS

  /** A time as stored: its clock fields, its TZID if it has one, and whether it is a DATE. */
  datatype TimeValue = TimeValue(wall: int, tzid: Option<string>, isDate: bool)

  /**
   * A component of a VCALENDAR. `generated`: the block carries this connector's
   * mark. `rules`: each RRULE's UNTIL, if it has one.
   */
  datatype Component =
    | Timezone(tzid: string, generated: bool, block: Block)
    | Vevent(start: TimeValue, times: seq<TimeValue>, rules: seq<Option<int>>)
    | Other(times: seq<TimeValue>)

  function TimesOf(c: Component): seq<TimeValue> {
    match c
    case Timezone(_, _, _) => []
    case Vevent(start, times, _) => [start] + times
    case Other(times) => times
  }

  /** `t` is a DATE-TIME in the zone `tzid`. */
  predicate InZone(t: TimeValue, tzid: string) {
    t.tzid == Some(tzid) && !t.isDate
  }

  ghost predicate Held(components: seq<Component>, tzid: string, t: TimeValue) {
    InZone(t, tzid) && exists c :: c in components && t in TimesOf(c)
  }

  ghost predicate HasRule(components: seq<Component>, tzid: string, until: Option<int>) {
    exists c :: c in components && c.Vevent? && c.start.tzid == Some(tzid) && until in c.rules
  }

  /** Every DATE-TIME of `times` in the zone, as the instant it names. */
  function InstantsIn(times: seq<TimeValue>, tzid: string, f: OffsetAt): (r: seq<int>)
    ensures forall t :: t in times && InZone(t, tzid) ==> Named(t, f) in r
    ensures forall ms :: ms in r ==> exists t :: t in times && InZone(t, tzid) && Named(t, f) == ms
  {
    if times == [] then []
    else
      var rest := InstantsIn(times[1..], tzid, f);
      if InZone(times[0], tzid) then [Named(times[0], f)] + rest else rest
  }

  /** The instant a stored time names, read through the zone itself. */
  function Named(t: TimeValue, f: OffsetAt): int {
    WallToInstant(t.wall, f)
  }

  function ReachOf(rules: seq<Option<int>>, latest: int): (r: seq<int>)
    ensures forall u :: u in rules && u.Some? ==> u.value in r
    ensures None in rules ==> latest + SERIES_REACH_MS in r
    ensures forall ms :: ms in r ==> Some(ms) in rules || (ms == latest + SERIES_REACH_MS && None in rules)
  {
    if rules == [] then []
    else [if rules[0].Some? then rules[0].value else latest + SERIES_REACH_MS] + ReachOf(rules[1..], latest)
  }

  function Least(xs: seq<int>): (r: int)
    requires xs != []
    ensures r in xs && forall x :: x in xs ==> r <= x
  {
    if |xs| == 1 then xs[0]
    else
      var rest := Least(xs[1..]);
      assert xs == [xs[0]] + xs[1..];
      if xs[0] < rest then xs[0] else rest
  }

  function Greatest(xs: seq<int>): (r: int)
    requires xs != []
    ensures r in xs && forall x :: x in xs ==> x <= r
  {
    if |xs| == 1 then xs[0]
    else
      var rest := Greatest(xs[1..]);
      assert xs == [xs[0]] + xs[1..];
      if xs[0] > rest then xs[0] else rest
  }

  /** `generatedVtimezone`: exact for every instant given and a year either side. */
  method GeneratedVtimezone(f: OffsetAt, instants: seq<int>) returns (block: Block)
    requires Writable(f) && instants != []
    requires !Stalls(f, WholeSecond(Least(instants) - VTIMEZONE_MARGIN_MS), Greatest(instants) + VTIMEZONE_MARGIN_MS)
    ensures forall ms :: ms in instants ==> ReadsAround(block, f, ms)
    ensures ReadsAs(block, f, WholeSecond(Least(instants) - VTIMEZONE_MARGIN_MS),
                    Greatest(instants) + VTIMEZONE_MARGIN_MS)
  {
    var from, to := Least(instants) - VTIMEZONE_MARGIN_MS, Greatest(instants) + VTIMEZONE_MARGIN_MS;
    block := VtimezoneFromIntl(f, from, to);
  }

  /** Stored times are whole seconds, and the scan to a year past one always ends. */
  lemma EndsOnSeconds(f: OffsetAt, instants: seq<int>)
    requires instants != [] && forall ms :: ms in instants ==> ms % SECOND == 0
    ensures !Stalls(f, WholeSecond(Least(instants) - VTIMEZONE_MARGIN_MS), Greatest(instants) + VTIMEZONE_MARGIN_MS)
  {
    YearsOnSecond(Greatest(instants));
  }

  /** The block reads as the zone at `ms` and for a year either side of it. */
  ghost predicate ReadsAround(block: Block, f: OffsetAt, ms: int) {
    Transitions(block).Some? &&
    forall t :: ms - VTIMEZONE_MARGIN_MS <= t <= ms + VTIMEZONE_MARGIN_MS ==>
      LookedUp(0, Transitions(block).value, t) == f(t)
  }

  /** iCalendar times have no finer part than a second. */
  ghost predicate OnWholeSeconds(components: seq<Component>) {
    forall c :: c in components ==>
      ((forall t :: t in TimesOf(c) ==> t.wall % SECOND == 0) &&
       (c.Vevent? ==> forall u :: u in c.rules && u.Some? ==> u.value % SECOND == 0))
  }

  lemma NamedOnSecond(wall: int, f: OffsetAt)
    requires wall % SECOND == 0 && forall t :: f(t) % SECOND == 0
    ensures WallToInstant(wall, f) % SECOND == 0
  {
    var before, after := f(wall - OFFSET_SEARCH_MS), f(wall + OFFSET_SEARCH_MS);
    var offset := NamedByOffset(wall, f);
    assert wall - WallToInstant(wall, f) == offset;
  }

  /** Every wall time is read by an offset the zone has. */
  lemma NamedByOffset(wall: int, f: OffsetAt) returns (offset: int)
    ensures WallToInstant(wall, f) == wall - offset && exists t :: f(t) == offset
  {
    offset := wall - WallToInstant(wall, f);
  }

  class CalendarObject {
    var components: seq<Component>

    method GeneratedBlock(tzid: string) returns (index: nat)
      ensures index == FirstGenerated(components, tzid)
    {
      index := 0;
      while index < |components|
        invariant index <= |components|
        invariant FirstGenerated(components, tzid) == index + FirstGenerated(components[index..], tzid)
      {
        if Regenerable(components[index], tzid) { return; }
        index := index + 1;
      }
    }

    method CollectInstants(tzid: string, f: OffsetAt) returns (instants: seq<int>)
      ensures forall t :: Held(components, tzid, t) ==> Named(t, f) in instants
      ensures forall ms :: ms in instants ==> exists t :: Held(components, tzid, t) && Named(t, f) == ms
    {
      instants := [];
      var i := 0;
      while i < |components|
        invariant 0 <= i <= |components|
        invariant forall t :: Held(components[..i], tzid, t) ==> Named(t, f) in instants
        invariant forall ms :: ms in instants ==> exists t :: Held(components, tzid, t) && Named(t, f) == ms
      {
        instants := instants + InstantsIn(TimesOf(components[i]), tzid, f);
        assert components[..i + 1] == components[..i] + [components[i]];
        i := i + 1;
      }
      assert components[..i] == components;
    }

    method SeriesReach(tzid: string, latest: int) returns (reach: seq<int>)
      ensures forall u :: HasRule(components, tzid, u) ==>
                (if u.Some? then u.value else latest + SERIES_REACH_MS) in reach
      ensures forall ms :: ms in reach ==> HasRule(components, tzid, Some(ms)) || ms == latest + SERIES_REACH_MS
    {
      reach := [];
      var i := 0;
      while i < |components|
        invariant 0 <= i <= |components|
        invariant forall u :: HasRule(components[..i], tzid, u) ==>
                    (if u.Some? then u.value else latest + SERIES_REACH_MS) in reach
        invariant forall ms :: ms in reach ==> HasRule(components, tzid, Some(ms)) || ms == latest + SERIES_REACH_MS
      {
        var c := components[i];
        assert components[..i + 1] == components[..i] + [c];
        if c.Vevent? && c.start.tzid == Some(tzid) {
          reach := reach + ReachOf(c.rules, latest);
        }
        i := i + 1;
      }
      assert components[..i] == components;
    }

    /** The times held and the reach of the series; `latest` is the latest time held. */
    method InstantsToCover(tzid: string, f: OffsetAt, instants: seq<int>) returns (all: seq<int>, ghost latest: int)
      requires OnWholeSeconds(components) && instants != []
      requires forall t :: Held(components, tzid, t) ==> Named(t, f) in instants
      requires forall ms :: ms in instants ==> ms % SECOND == 0
      ensures AllToCover(all, latest, f, components, tzid)
      ensures forall ms :: ms in all ==> ms % SECOND == 0
    {
      latest := Greatest(instants);
      var reach := SeriesReach(tzid, Greatest(instants));
      all := instants + reach;
      forall ms | ms in all ensures ms % SECOND == 0 {
        ReachOnSecond(components, tzid, instants, latest, ms);
      }
    }

    /** The block made from the times held and the reach of the series. */
    method BlockCovering(tzid: string, f: OffsetAt, instants: seq<int>) returns (block: Block)
      requires Writable(f) && OnWholeSeconds(components) && instants != []
      requires forall t :: Held(components, tzid, t) ==> Named(t, f) in instants
      requires forall ms :: ms in instants ==> ms % SECOND == 0
      ensures Covers(block, f, components, tzid)
    {
      var all;
      ghost var latest;
      all, latest := InstantsToCover(tzid, f, instants);
      EndsOnSeconds(f, all);
      block := GeneratedVtimezone(f, all);
      SpanCovers(block, f, components, tzid, latest, all, Least(all), Greatest(all));
    }

    /**
     * `coverGeneratedVtimezone`: the block this connector generated for `tzid`
     * made again, in its own place, so that it covers every time in the zone.
     * Anything else is left exactly as it is.
     */
    method CoverGenerated(tzid: string, f: OffsetAt)
      requires Writable(f) && OnWholeSeconds(components)
      modifies this
      ensures var i := FirstGenerated(old(components), tzid);
              if i == |old(components)| || (forall t :: !Held(old(components), tzid, t))
                then components == old(components)
              else && |components| == |old(components)| && components[i].Timezone?
                   && components == old(components)[i := Timezone(tzid, true, components[i].block)]
                   && Covers(components[i].block, f, components, tzid)
    {
      var index := GeneratedBlock(tzid);
      if index == |components| { return; }
      var instants := CollectInstants(tzid, f);
      if instants == [] {
        assert forall t :: Held(components, tzid, t) ==> Named(t, f) in instants;
        return;
      }
      assert instants[0] in instants;
      ghost var held :| Held(components, tzid, held) && Named(held, f) == instants[0];
      NamedOnSeconds(components, tzid, f, instants);
      var block := BlockCovering(tzid, f, instants);
      TimesUnmoved(components, index, tzid, f, block);
      components := components[index := Timezone(tzid, true, block)];
    }
  }

  predicate Regenerable(c: Component, tzid: string) {
    c.Timezone? && c.tzid == tzid && c.generated
  }

  /** The first VTIMEZONE of `tzid` that is this connector's to rewrite, or the number of components. */
  function FirstGenerated(components: seq<Component>, tzid: string): (i: nat)
    ensures i <= |components|
    ensures i < |components| ==> Regenerable(components[i], tzid)
    ensures forall j :: 0 <= j < i ==> !Regenerable(components[j], tzid)
  {
    if components == [] || Regenerable(components[0], tzid) then 0 else 1 + FirstGenerated(components[1..], tzid)
  }

  /**
   * `block` reads as the zone, with a year to spare, at every time held in it,
   * at every UNTIL of a series in it, and for a series with none ten years past
   * every time held.
   */
  ghost predicate Covers(block: Block, f: OffsetAt, components: seq<Component>, tzid: string) {
    && (forall t :: Held(components, tzid, t) ==> ReadsAround(block, f, Named(t, f)))
    && (forall t, u :: Held(components, tzid, t) && HasRule(components, tzid, u) ==>
          ReadsAround(block, f, if u.Some? then u.value else Named(t, f) + SERIES_REACH_MS))
  }

  /** What is to be covered lies on whole seconds. */
  lemma ReachOnSecond(components: seq<Component>, tzid: string, instants: seq<int>, latest: int, ms: int)
    requires OnWholeSeconds(components) && latest in instants && forall x :: x in instants ==> x % SECOND == 0
    requires ms in instants || ms == latest + SERIES_REACH_MS || HasRule(components, tzid, Some(ms))
    ensures ms % SECOND == 0
  {
    YearsOnSecond(latest);
    if ms !in instants && ms != latest + SERIES_REACH_MS { RuleOnSecond(components, tzid, ms); }
  }

  lemma NamedOnSeconds(components: seq<Component>, tzid: string, f: OffsetAt, instants: seq<int>)
    requires OnWholeSeconds(components) && forall x :: f(x) % SECOND == 0
    requires forall ms :: ms in instants ==> exists t :: Held(components, tzid, t) && Named(t, f) == ms
    ensures forall ms :: ms in instants ==> ms % SECOND == 0
  {
    forall ms | ms in instants ensures ms % SECOND == 0 {
      var t :| Held(components, tzid, t) && Named(t, f) == ms;
      HeldOnSecond(components, tzid, f, t);
    }
  }

  lemma YearsOnSecond(ms: int)
    requires ms % SECOND == 0
    ensures (ms + VTIMEZONE_MARGIN_MS) % SECOND == 0 && (ms + SERIES_REACH_MS) % SECOND == 0
    ensures (ms + SERIES_REACH_MS + VTIMEZONE_MARGIN_MS) % SECOND == 0
  {
  }

  lemma HeldOnSecond(components: seq<Component>, tzid: string, f: OffsetAt, t: TimeValue)
    requires OnWholeSeconds(components) && (forall x :: f(x) % SECOND == 0) && Held(components, tzid, t)
    ensures Named(t, f) % SECOND == 0
  {
    NamedOnSecond(t.wall, f);
  }

  lemma RuleOnSecond(components: seq<Component>, tzid: string, ms: int)
    requires OnWholeSeconds(components) && HasRule(components, tzid, Some(ms))
    ensures ms % SECOND == 0
  {
    var c :| c in components && c.Vevent? && c.start.tzid == Some(tzid) && Some(ms) in c.rules;
    assert Some(ms).Some? && Some(ms).value == ms;
  }

  lemma InSpan(block: Block, f: OffsetAt, lo: int, hi: int, ms: int)
    requires ReadsAs(block, f, WholeSecond(lo - VTIMEZONE_MARGIN_MS), hi + VTIMEZONE_MARGIN_MS) && lo <= ms <= hi
    ensures ReadsAround(block, f, ms)
  {
  }

  /** `all` holds every time held, the latest of them no later than `latest`, and how far every series reaches. */
  ghost predicate AllToCover(all: seq<int>, latest: int, f: OffsetAt, components: seq<Component>, tzid: string) {
    && latest in all
    && (forall t :: Held(components, tzid, t) ==> Named(t, f) in all && Named(t, f) <= latest)
    && (forall u :: HasRule(components, tzid, u) ==> (if u.Some? then u.value else latest + SERIES_REACH_MS) in all)
  }

  lemma SpanCovers(block: Block, f: OffsetAt, components: seq<Component>, tzid: string, latest: int, all: seq<int>,
                    lo: int, hi: int)
    requires AllToCover(all, latest, f, components, tzid) && forall ms :: ms in all ==> lo <= ms <= hi
    requires ReadsAs(block, f, WholeSecond(lo - VTIMEZONE_MARGIN_MS), hi + VTIMEZONE_MARGIN_MS)
    ensures Covers(block, f, components, tzid)
  {
    SpanCoversBetween(block, f, components, tzid, latest, lo, hi);
  }

  lemma SpanCoversBetween(block: Block, f: OffsetAt, components: seq<Component>, tzid: string, latest: int, lo: int,
                          hi: int)
    requires ReadsAs(block, f, WholeSecond(lo - VTIMEZONE_MARGIN_MS), hi + VTIMEZONE_MARGIN_MS)
    requires forall t :: Held(components, tzid, t) ==> lo <= Named(t, f) <= latest <= hi
    requires forall u :: HasRule(components, tzid, u) ==>
               lo <= (if u.Some? then u.value else latest + SERIES_REACH_MS) <= hi
    ensures Covers(block, f, components, tzid)
  {
    forall t | Held(components, tzid, t) ensures ReadsAround(block, f, Named(t, f)) {
      InSpan(block, f, lo, hi, Named(t, f));
    }
    forall t, u | Held(components, tzid, t) && HasRule(components, tzid, u)
      ensures ReadsAround(block, f, if u.Some? then u.value else Named(t, f) + SERIES_REACH_MS)
    {
      InSpan(block, f, lo, hi, if u.Some? then u.value else Named(t, f) + SERIES_REACH_MS);
    }
  }

  /** Rewriting a VTIMEZONE moves no time and no rule. */
  lemma TimesUnmoved(components: seq<Component>, i: int, tzid: string, f: OffsetAt, block: Block)
    requires 0 <= i < |components| && components[i].Timezone?
    requires Covers(block, f, components, tzid)
    ensures Covers(block, f, components[i := Timezone(tzid, true, block)], tzid)
  {
    var after := components[i := Timezone(tzid, true, block)];
    forall t | Held(after, tzid, t) ensures Held(components, tzid, t) {
      var j :| 0 <= j < |after| && t in TimesOf(after[j]);
      assert components[j] in components;
    }
    forall u | HasRule(after, tzid, u) ensures HasRule(components, tzid, u) {
      var j :| 0 <= j < |after| && after[j].Vevent? && after[j].start.tzid == Some(tzid) && u in after[j].rules;
      assert components[j] in components;
    }
  }
}
