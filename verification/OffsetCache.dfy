/**
 * The offsets remembered per zone and year (src/ical-zones-intl.ts,
 * `utcOffsetMs`): a mutable cache whose every answer is the zone's own.
 */
module OffsetCache {
  import opened Options
  import opened WallClock
  import opened OffsetScan

  /** Questions about one zone and year asked directly before the year is scanned. */
  const DIRECT_ASKS_PER_YEAR: nat := 64

  /** Zones kept, and years kept per zone, before they are all dropped. */
  const REMEMBERED: nat := 1000

  datatype OffsetYear = OffsetYear(asks: nat, scanned: Option<OffsetChanges>)

  type Years = map<int, OffsetYear>

  /** The calendar's years, as spans of instants that begin on whole seconds. */
  datatype Calendar = Calendar(yearOf: int -> int, startOfYear: int -> int) {
    ghost predicate Lawful() {
      && (forall y :: startOfYear(y) % SECOND == 0)
      && (forall x, y :: x < y ==> startOfYear(x) < startOfYear(y))
      && (forall ms :: startOfYear(yearOf(ms)) <= ms < startOfYear(yearOf(ms) + 1))
    }
  }

  /** A zone database whose every zone the scan is exact for. */
  ghost predicate Scannable(asked: string -> OffsetAt) {
    forall tz :: OnSeconds(asked(tz)) && ADayApart(asked(tz))
  }

  /**
   * How often each zone and year has been asked for since it was last dropped:
   * what the cache is, seen from outside.
   */
  function AsksOf(years: Years): map<int, nat> {
    map y | y in years :: years[y].asks
  }

  function Asks(cache: map<string, Years>): map<string, map<int, nat>> {
    map tz | tz in cache :: AsksOf(cache[tz])
  }

  function Room<K, V>(m: map<K, V>, k: K): map<K, V> {
    if k in m || |m| < REMEMBERED then m else map[]
  }

  /** One more question about `year` of `tz`; a scanned year counts no further. */
  function Asked(asks: map<string, map<int, nat>>, tz: string, year: int): map<string, map<int, nat>> {
    var zones := Room(asks, tz);
    var years := Room(if tz in zones then zones[tz] else map[], year);
    var n := if year in years then years[year] else 0;
    zones[tz := years[year := if n <= DIRECT_ASKS_PER_YEAR then n + 1 else n]]
  }

  ghost predicate ValidYear(f: OffsetAt, calendar: Calendar, year: int, entry: OffsetYear) {
    && entry.asks <= DIRECT_ASKS_PER_YEAR + 1
    && (entry.scanned.Some? <==> entry.asks > DIRECT_ASKS_PER_YEAR)
    && (entry.scanned.Some? ==>
        Exact(f, calendar.startOfYear(year), calendar.startOfYear(year + 1), entry.scanned.value))
  }

  ghost predicate ValidYears(f: OffsetAt, calendar: Calendar, years: Years) {
    |years| <= REMEMBERED && forall year :: year in years ==> ValidYear(f, calendar, year, years[year])
  }

  class OffsetCache {
    const asked: string -> OffsetAt
    const calendar: Calendar
    var offsetYears: map<string, Years>

    ghost predicate Valid()
      reads this
    {
      && Scannable(asked) && calendar.Lawful()
      && |offsetYears| <= REMEMBERED
      && forall tz :: tz in offsetYears ==> ValidYears(asked(tz), calendar, offsetYears[tz])
    }

    constructor (asked: string -> OffsetAt, calendar: Calendar)
      requires Scannable(asked) && calendar.Lawful()
      ensures Valid() && this.asked == asked && this.calendar == calendar && offsetYears == map[]
    {
      this.asked := asked;
      this.calendar := calendar;
      offsetYears := map[];
    }

    /** The zone's years and the year's entry, made where missing, everything dropped first where there is no room. */
    method Enter(tz: string, year: int) returns (zones: map<string, Years>, years: Years)
      ensures zones == Room(offsetYears, tz)[tz := YearsFor(offsetYears, tz)]
      ensures var kept := YearsFor(offsetYears, tz);
              years == Room(kept, year)[year := EntryFor(kept, year)]
    {
      zones := offsetYears;
      if tz !in zones {
        if |zones| >= REMEMBERED { zones := map[]; }
        zones := zones[tz := map[]];
      }
      years := zones[tz];
      if year !in years {
        if |years| >= REMEMBERED { years := map[]; }
        years := years[year := OffsetYear(0, None)];
      }
    }

    /** Answer from one zone and year's entry: asked directly, or looked up once the year is scanned. */
    method Answer(entry: OffsetYear, ms: int, tz: string, year: int) returns (next: OffsetYear, offset: int)
      requires Scannable(asked) && calendar.Lawful() && ValidYear(asked(tz), calendar, year, entry)
      requires year == calendar.yearOf(ms)
      ensures ValidYear(asked(tz), calendar, year, next)
      ensures next.asks == if entry.asks <= DIRECT_ASKS_PER_YEAR then entry.asks + 1 else entry.asks
      ensures offset == asked(tz)(ms)
    {
      var from, to := calendar.startOfYear(year), calendar.startOfYear(year + 1);
      next := entry;
      if next.scanned.None? {
        next := next.(asks := next.asks + 1);
        if next.asks <= DIRECT_ASKS_PER_YEAR {
          return next, asked(tz)(ms);
        }
        var scan := ScanOffsets(asked(tz), from, to);
        next := next.(scanned := Some(scan));
      }
      offset := OffsetFrom(next.scanned.value, ms);
      LookupIsExact(asked(tz), from, to, next.scanned.value, ms);
    }

    /** The zone's own answer, whichever way it was found, whatever was asked before. */
    method UtcOffset(ms: int, tz: string) returns (offset: int)
      requires Valid()
      modifies this`offsetYears
      ensures Valid()
      ensures offset == asked(tz)(ms)
      ensures Asks(offsetYears) == Asked(old(Asks(offsetYears)), tz, calendar.yearOf(ms))
    {
      var year := calendar.yearOf(ms);
      var zones, years := Enter(tz, year);
      EntryIsValid(tz, year);
      var entry;
      entry, offset := Answer(years[year], ms, tz, year);
      Keep(tz, year, entry, zones, years[year := entry]);
    }

    /** The year's entry as it stands is valid, an empty one included. */
    lemma EntryIsValid(tz: string, year: int)
      requires Valid()
      ensures ValidYears(asked(tz), calendar, YearsFor(offsetYears, tz))
      ensures ValidYear(asked(tz), calendar, year, EntryFor(YearsFor(offsetYears, tz), year))
    {
    }

    /** The year's entry written back. */
    method Keep(tz: string, year: int, entry: OffsetYear, zones: map<string, Years>, years: Years)
      requires Valid() && zones == Room(offsetYears, tz)[tz := YearsFor(offsetYears, tz)]
      requires years == Room(YearsFor(offsetYears, tz), year)[year := entry]
      requires ValidYear(asked(tz), calendar, year, entry)
      requires var n := EntryFor(YearsFor(offsetYears, tz), year).asks;
                 entry.asks == if n <= DIRECT_ASKS_PER_YEAR then n + 1 else n
      modifies this`offsetYears
      ensures Valid() && Asks(offsetYears) == Asked(old(Asks(offsetYears)), tz, year)
    {
      EntryIsValid(tz, year);
      ValidYearsAfter(asked(tz), calendar, YearsFor(offsetYears, tz), year, entry);
      AsksAfter(offsetYears, tz, year, entry);
      offsetYears := ZonesAfter(offsetYears, zones, tz, years);
    }
  }

  lemma RoomForZone(cache: map<string, Years>, tz: string)
    ensures Room(Asks(cache), tz) == Asks(Room(cache, tz))
  {
    assert Asks(cache).Keys == cache.Keys;
    assert |Asks(cache)| == |Asks(cache).Keys| == |cache|;
  }

  lemma RoomForYear(years: Years, year: int)
    ensures Room(AsksOf(years), year) == AsksOf(Room(years, year))
  {
    assert AsksOf(years).Keys == years.Keys;
    assert |AsksOf(years)| == |AsksOf(years).Keys| == |years|;
  }

  lemma AsksOfUpdate(years: Years, year: int, entry: OffsetYear)
    ensures AsksOf(years[year := entry]) == AsksOf(years)[year := entry.asks]
  {
  }

  lemma AsksUpdate(cache: map<string, Years>, tz: string, years: Years)
    ensures Asks(cache[tz := years]) == Asks(cache)[tz := AsksOf(years)]
  {
  }

  /** The year's entry as it stands once there is room for it: a new one has been asked nothing. */
  function EntryFor(kept: Years, year: int): OffsetYear {
    if year in kept then kept[year] else OffsetYear(0, None)
  }

  function YearsFor(cache: map<string, Years>, tz: string): Years {
    var zones := Room(cache, tz);
    if tz in zones then zones[tz] else map[]
  }

  /** Writing the answered entry back is one more question counted, and nothing else. */
  lemma AsksAfter(cache: map<string, Years>, tz: string, year: int, entry: OffsetYear)
    requires var n := EntryFor(YearsFor(cache, tz), year).asks;
             entry.asks == if n <= DIRECT_ASKS_PER_YEAR then n + 1 else n
    ensures var years := Room(YearsFor(cache, tz), year)[year := entry];
            Asks(Room(cache, tz)[tz := years]) == Asked(Asks(cache), tz, year)
  {
    var kept := YearsFor(cache, tz);
    var years := Room(kept, year);
    RoomForZone(cache, tz);
    RoomForYear(kept, year);
    AsksOfUpdate(years, year, entry);
    AsksUpdate(Room(cache, tz), tz, years[year := entry]);
    var zones := Room(Asks(cache), tz);
    assert AsksOf(kept) == if tz in zones then zones[tz] else map[];
    assert (if year in years then years[year].asks else 0) == EntryFor(kept, year).asks;
  }

  lemma ValidYearsAfter(f: OffsetAt, calendar: Calendar, kept: Years, year: int, entry: OffsetYear)
    requires ValidYears(f, calendar, kept) && ValidYear(f, calendar, year, entry)
    ensures ValidYears(f, calendar, Room(kept, year)[year := entry])
  {
    var years := Room(kept, year);
    assert years[year := entry].Keys == years.Keys + {year};
  }

  /** The zones with `tz`'s years written back: the zone was given room already. */
  function ZonesAfter(ghost cache: map<string, Years>, zones: map<string, Years>, tz: string,
                      years: Years): (r: map<string, Years>)
    requires |cache| <= REMEMBERED && zones == Room(cache, tz)[tz := YearsFor(cache, tz)]
    ensures r == Room(cache, tz)[tz := years] && |r| <= REMEMBERED
  {
    assert zones[tz := years] == Room(cache, tz)[tz := years];
    assert zones[tz := years].Keys == Room(cache, tz).Keys + {tz};
    zones[tz := years]
  }
}
