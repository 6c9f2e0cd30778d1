/**
 * What a stored series means: which override counts, which reaches an
 * occurrence, and what each occurrence is listed as (src/ical-series.ts, and
 * the shared half of src/ical-expand.ts).
 *
 * A recurrence rule is not walked here: `walk` is the sequence of original
 * starts a walk hands out, of whatever length it was followed to.
 */
module Series {
  import opened Options
  import opened WallClock

  /**
   * A zone as a series needs it: the instant a wall time names in it, and the
   * wall time it shows at an instant. Dates and floating times are read as UTC.
   */
  datatype Zone = Zone(id: string, floating: bool, place: int -> int, show: int -> int)

  /** A time: its clock fields, the zone they are in, and whether it is a DATE. */
  datatype Time = Time(wall: int, zone: Zone, isDate: bool)

  const UTC: Zone := Zone("UTC", false, (wall: int) => wall, (ms: int) => ms)

  /** Clocks that skip 02:00 to 03:00 of day 0. */
  const SkipsAnHour: Zone := Zone("skips", false,
    (w: int) => if w < 3 * HOUR then w else w - HOUR, (t: int) => if t < 2 * HOUR then t else t + HOUR)

  /** Clocks that show 02:00 to 03:00 of day 0 twice. */
  const RepeatsAnHour: Zone := Zone("repeats", false,
    (w: int) => if w < 3 * HOUR then w else w + HOUR, (t: int) => if t < 3 * HOUR then t else t - HOUR)

  function InstantOf(t: Time): int {
    t.zone.place(t.wall)
  }

  function DayOf(t: Time): int {
    t.wall / DAY_MS
  }

  /** What an occurrence of a series is matched by: its day, or its instant. */
  datatype Key = OnDay(day: int) | AtInstant(ms: int)

  function KeyOf(t: Time, allDay: bool): Key {
    if allDay || t.isDate then OnDay(DayOf(t)) else AtInstant(InstantOf(t))
  }

  /** How a VEVENT says where it ends: a DTEND, or a DURATION. */
  datatype Length = Until(end: Time) | Lasting(ms: int)

  /** A time moved on its own clock. */
  function Plus(t: Time, ms: int): Time {
    t.(wall := t.wall + ms)
  }

  function EndOf(start: Time, length: Length): Time {
    match length
    case Until(end) => end
    case Lasting(ms) => Plus(start, ms)
  }

  /** The length of a VEVENT: elapsed time between its ends, or the DURATION as given. */
  function DurationOf(start: Time, length: Length): int {
    match length
    case Until(end) => InstantOf(end) - InstantOf(start)
    case Lasting(ms) => ms
  }

  /** An override VEVENT; `range` is RANGE=THISANDFUTURE, `props` everything it says besides its times. */
  datatype Override = Override(rid: Time, range: bool, sequence: int, start: Time, length: Length, props: string)

  /**
   * The master VEVENT. `starts` is what its DTSTART, RRULE and RDATEs give,
   * in order, before EXDATE; `periods` is the end an RDATE;VALUE=PERIOD gives
   * the occurrence it names.
   */
  datatype Master = Master(start: Time, length: Length, sequence: int, props: string, starts: seq<Time>,
                           exdates: seq<Time>, periods: map<Key, Length>)

  /** One occurrence as it is listed. */
  datatype Entry = Entry(start: Time, end: Time, props: string)

  function EntryOf(o: Override): Entry {
    Entry(o.start, EndOf(o.start, o.length), o.props)
  }

  /** Starts come in order, each a later instant than the last. */
  ghost predicate Increasing(starts: seq<Time>) {
    forall i, j :: 0 <= i < j < |starts| ==> InstantOf(starts[i]) < InstantOf(starts[j])
  }

  // ---------------------------------------------------------------------
  // EXDATE
  // ---------------------------------------------------------------------

  predicate ExcludedBy(exdates: seq<Time>, t: Time) {
    exists i :: 0 <= i < |exdates| && InstantOf(exdates[i]) == InstantOf(t)
  }

  /** The starts no EXDATE names: what a walk of the series hands out. */
  function Emitted(starts: seq<Time>, exdates: seq<Time>): (walk: seq<Time>)
    ensures forall t :: t in walk <==> t in starts && !ExcludedBy(exdates, t)
  {
    if starts == [] then []
    else
      var rest := Emitted(starts[1..], exdates);
      assert starts == [starts[0]] + starts[1..];
      if ExcludedBy(exdates, starts[0]) then rest else [starts[0]] + rest
  }

  lemma {:induction false} EmittedInOrder(starts: seq<Time>, exdates: seq<Time>)
    requires Increasing(starts)
    ensures Increasing(Emitted(starts, exdates))
    decreases starts
  {
    if starts != [] {
      var (first, tail) := (starts[0], starts[1..]);
      assert forall i :: 0 <= i < |tail| ==> tail[i] == starts[i + 1];
      EmittedInOrder(tail, exdates);
      if !ExcludedBy(exdates, first) { StartsWithEarlier(first, Emitted(tail, exdates)); }
    }
  }

  lemma StartsWithEarlier(first: Time, rest: seq<Time>)
    requires Increasing(rest) && forall t :: t in rest ==> InstantOf(first) < InstantOf(t)
    ensures Increasing([first] + rest)
  {
    var all := [first] + rest;
    forall i, j | 0 <= i < j < |all| ensures InstantOf(all[i]) < InstantOf(all[j]) {
      assert all[j] == rest[j - 1];
      if i > 0 { assert all[i] == rest[i - 1]; }
    }
  }

  // ---------------------------------------------------------------------
  // Which override counts
  // ---------------------------------------------------------------------

  /** `i` is the current revision for `key`: the highest SEQUENCE, the later in the object on a tie. */
  ghost predicate IsCurrent(os: seq<Override>, allDay: bool, key: Key, i: int) {
    && 0 <= i < |os| && KeyOf(os[i].rid, allDay) == key
    && forall j :: 0 <= j < |os| && KeyOf(os[j].rid, allDay) == key ==>
         os[j].sequence < os[i].sequence || (os[j].sequence == os[i].sequence && j <= i)
  }

  ghost predicate Unnamed(os: seq<Override>, allDay: bool, key: Key) {
    forall j :: 0 <= j < |os| ==> KeyOf(os[j].rid, allDay) != key
  }

  /** The override that counts for `key`, by its place in the object. */
  function CurrentIndex(os: seq<Override>, allDay: bool, key: Key): (r: Option<nat>)
    ensures r.Some? ==> IsCurrent(os, allDay, key, r.value)
    ensures r.None? <==> Unnamed(os, allDay, key)
  {
    if os == [] then None
    else
      var n := |os| - 1;
      var held := CurrentIndex(os[..n], allDay, key);
      if KeyOf(os[n].rid, allDay) == key && (held.None? || os[n].sequence >= os[held.value].sequence) then Some(n)
        else held
  }

  function Current(os: seq<Override>, allDay: bool, key: Key): Option<Override> {
    var i := CurrentIndex(os, allDay, key);
    if i.Some? then Some(os[i.value]) else None
  }

  lemma CurrentIs(os: seq<Override>, allDay: bool, key: Key, i: nat)
    requires IsCurrent(os, allDay, key, i)
    ensures CurrentIndex(os, allDay, key) == Some(i) && Current(os, allDay, key) == Some(os[i])
  {
    assert KeyOf(os[i].rid, allDay) == key;
  }

  /** The map gives for each key the override that counts, and for no other. */
  ghost predicate CountedBy(os: seq<Override>, allDay: bool, byKey: map<Key, nat>) {
    forall key :: CurrentIndex(os, allDay, key) == if key in byKey then Some(byKey[key]) else None
  }

  ghost predicate CountedTo(os: seq<Override>, allDay: bool, n: nat, byKey: map<Key, nat>) {
    n <= |os| && (forall key :: key in byKey ==> byKey[key] < n) && CountedBy(os[..n], allDay, byKey)
  }

  /** `currentOverrides`: the map from each key some override names to the one that counts. */
  method CurrentOverrides(os: seq<Override>, allDay: bool) returns (byKey: map<Key, nat>)
    ensures forall key :: key in byKey <==> !Unnamed(os, allDay, key)
    ensures forall key :: key in byKey ==> IsCurrent(os, allDay, key, byKey[key])
    ensures CountedBy(os, allDay, byKey)
  {
    byKey := map[];
    for n := 0 to |os|
      invariant CountedTo(os, allDay, n, byKey)
    {
      byKey := CountOne(os, allDay, n, byKey);
    }
    assert os[..|os|] == os;
    AllCounted(os, allDay, byKey);
  }

  /** One override's turn in the loop. */
  method CountOne(os: seq<Override>, allDay: bool, n: nat, byKey: map<Key, nat>) returns (byKey': map<Key, nat>)
    requires n < |os| && CountedTo(os, allDay, n, byKey)
    ensures CountedTo(os, allDay, n + 1, byKey')
  {
    var key := KeyOf(os[n].rid, allDay);
    CountOneMore(os, allDay, n, byKey);
    byKey' := if key !in byKey || os[n].sequence >= os[byKey[key]].sequence then byKey[key := n] else byKey;
  }

  lemma CountOneMore(os: seq<Override>, allDay: bool, n: nat, byKey: map<Key, nat>)
    requires n < |os| && CountedBy(os[..n], allDay, byKey) && forall key :: key in byKey ==> byKey[key] < n
    ensures var key := KeyOf(os[n].rid, allDay);
            CountedBy(os[..n + 1], allDay, if key !in byKey || os[n].sequence >= os[byKey[key]].sequence
                      then byKey[key := n] else byKey)
  {
    var (more, own) := (os[..n + 1], KeyOf(os[n].rid, allDay));
    var byKey' := if own !in byKey || os[n].sequence >= os[byKey[own]].sequence then byKey[own := n] else byKey;
    assert more[..n] == os[..n] && more[n] == os[n];
    forall key ensures CurrentIndex(more, allDay, key) == if key in byKey' then Some(byKey'[key]) else None {
      var held := CurrentIndex(os[..n], allDay, key);
      assert held == if key in byKey then Some(byKey[key]) else None;
      assert held.Some? ==> more[held.value] == os[held.value];
    }
  }

  lemma AllCounted(os: seq<Override>, allDay: bool, byKey: map<Key, nat>)
    requires CountedBy(os, allDay, byKey)
    ensures forall key :: key in byKey <==> !Unnamed(os, allDay, key)
    ensures forall key :: key in byKey ==> IsCurrent(os, allDay, key, byKey[key])
  {
    forall key
      ensures key in byKey <==>
                !Unnamed(os, allDay, key) ensures key in byKey ==> IsCurrent(os, allDay, key, byKey[key])
    {
      assert CurrentIndex(os, allDay, key) == if key in byKey then Some(byKey[key]) else None;
    }
  }

  // ---------------------------------------------------------------------
  // Which RANGE=THISANDFUTURE override reaches an occurrence
  // ---------------------------------------------------------------------

  /** `i` is the RANGE override with the latest RECURRENCE-ID not after `at`, the later in the object on a tie. */
  ghost predicate Governs(os: seq<Override>, at: int, i: int) {
    && 0 <= i < |os| && os[i].range && InstantOf(os[i].rid) <= at
    && forall j :: 0 <= j < |os| && os[j].range && InstantOf(os[j].rid) <= at ==>
         InstantOf(os[j].rid) < InstantOf(os[i].rid) || (InstantOf(os[j].rid) == InstantOf(os[i].rid) && j <= i)
  }

  ghost predicate Ungoverned(os: seq<Override>, at: int) {
    forall j :: 0 <= j < |os| ==> !(os[j].range && InstantOf(os[j].rid) <= at)
  }

  function GoverningIndex(os: seq<Override>, at: int): (r: Option<nat>)
    ensures r.Some? ==> Governs(os, at, r.value)
    ensures r.None? <==> Ungoverned(os, at)
  {
    if os == [] then None
    else
      var n := |os| - 1;
      var best := GoverningIndex(os[..n], at);
      if os[n].range && InstantOf(os[n].rid) <= at
        && (best.None? || InstantOf(os[n].rid) >= InstantOf(os[best.value].rid))
      then Some(n) else best
  }

  function Governing(os: seq<Override>, at: int): Option<Override> {
    var i := GoverningIndex(os, at);
    if i.Some? then Some(os[i.value]) else None
  }

  lemma GoverningIs(os: seq<Override>, at: int, i: nat)
    requires Governs(os, at, i)
    ensures GoverningIndex(os, at) == Some(i) && Governing(os, at) == Some(os[i])
  {
    assert os[i].range && InstantOf(os[i].rid) <= at;
  }

  /** `governingRange`, as it runs. */
  method GoverningRange(os: seq<Override>, at: Time) returns (best: Option<nat>)
    ensures best == GoverningIndex(os, InstantOf(at))
  {
    var atMs := InstantOf(at);
    best := None;
    var n := 0;
    while n < |os|
      invariant 0 <= n <= |os|
      invariant best == GoverningIndex(os[..n], atMs)
    {
      assert os[..n + 1][..n] == os[..n];
      var ms := InstantOf(os[n].rid);
      if os[n].range && ms <= atMs && (best.None? || ms >= InstantOf(os[best.value].rid)) { best := Some(n); }
      n := n + 1;
    }
    assert os[..n] == os;
  }

  // ---------------------------------------------------------------------
  // What an occurrence is listed as
  // ---------------------------------------------------------------------

  /**
   * Where a RANGE override puts the occurrence that starts at `at`: its clock
   * difference added, its length after that.
   */
  function Shifted(range: Override, at: Time): Entry {
    var start := Time(at.wall + (range.start.wall - range.rid.wall), range.start.zone, at.isDate);
    Entry(start, Plus(start, DurationOf(range.start, range.length)), range.props)
  }

  function PlainEntry(m: Master, allDay: bool, at: Time): Entry {
    var key := KeyOf(at, allDay);
    Entry(at, if key in m.periods then EndOf(at, m.periods[key]) else Plus(at, DurationOf(m.start, m.length)), m.props)
  }

  /** An occurrence with no override of its own. */
  function UnmatchedEntry(m: Master, os: seq<Override>, allDay: bool, at: Time): Entry {
    match Governing(os, InstantOf(at))
    case Some(range) => Shifted(range, at)
    case None => PlainEntry(m, allDay, at)
  }

  /** `at` has no override under its own key, so a DATE one may stand for it. */
  predicate OpenToDate(os: seq<Override>, allDay: bool, at: Time) {
    CurrentIndex(os, allDay, KeyOf(at, allDay)).None?
  }

  /** Some start before the `k`th, on its day, already took the DATE override of that day. */
  ghost predicate DateTaken(os: seq<Override>, allDay: bool, walk: seq<Time>, k: nat)
    requires k < |walk|
  {
    exists j :: 0 <= j < k && DayOf(walk[j]) == DayOf(walk[k]) && OpenToDate(os, allDay, walk[j])
  }

  /**
   * The override the `k`th start is replaced by: under its own key, or the DATE
   * one of its day where it is the first there.
   */
  ghost function MatchOf(os: seq<Override>, allDay: bool, walk: seq<Time>, k: nat): Option<nat>
    requires k < |walk|
  {
    var own := CurrentIndex(os, allDay, KeyOf(walk[k], allDay));
    if own.Some? || allDay then own
    else if DateTaken(os, allDay, walk, k) then None
    else CurrentIndex(os, allDay, OnDay(DayOf(walk[k])))
  }

  /** What the `k`th start is listed as. */
  ghost function EntryAt(m: Master, os: seq<Override>, walk: seq<Time>, k: nat): Entry
    requires k < |walk|
  {
    var i := MatchOf(os, m.start.isDate, walk, k);
    if i.Some? then EntryOf(os[i.value]) else UnmatchedEntry(m, os, m.start.isDate, walk[k])
  }
}
