/**
 * A stored series turned into the occurrences of a window
 * (src/ical-expand.ts): the walk of its original starts, and the listing.
 */
module Reader {
  import opened Options
  import opened WallClock
  import opened Series

  // ---------------------------------------------------------------------
  // The walk: DTSTART put back where ical.js leaves it out
  // ---------------------------------------------------------------------

  /** The starts still to come, with a DTSTART instance not handed out yet in its place among them. */
  function WithStart(pending: Option<Time>, rest: seq<Time>, allDay: bool): seq<Time> {
    if pending.None? then rest
    else if rest == [] then [pending.value]
    else if KeyOf(rest[0], allDay) == KeyOf(pending.value, allDay) then [pending.value] + rest[1..]
    else if InstantOf(pending.value) < InstantOf(rest[0]) then [pending.value] + rest
    else [rest[0]] + WithStart(pending, rest[1..], allDay)
  }

  /** Some of `ts` has the key of `t`. */
  predicate KeyIn(t: Time, ts: seq<Time>, allDay: bool) {
    exists i :: 0 <= i < |ts| && KeyOf(ts[i], allDay) == KeyOf(t, allDay)
  }

  /** The whole walk of RDATEs with no RRULE: DTSTART put back, unless an EXDATE has its key. */
  function WalkOf(start: Time, rest: seq<Time>, exdates: seq<Time>, allDay: bool): seq<Time> {
    WithStart(if KeyIn(start, exdates, allDay) then None else Some(start), rest, allDay)
  }

  /** The iterator `recurrenceWalk` hands out. `inner` is what ical.js's own iterator still gives. */
  class RecurrenceWalk {
    const start: Time
    const allDay: bool
    var inner: seq<Time>
    var pending: Option<Time>
    var held: Option<Time>

    ghost predicate Valid()
      reads this
    {
      (pending.Some? ==> pending.value == start) && (pending.Some? ==> held.None?)
    }

    /** What is still to be handed out. */
    ghost function Remaining(): seq<Time>
      reads this
    {
      WithStart(pending, (if held.Some? then [held.value] else []) + inner, allDay)
    }

    constructor (start: Time, allDay: bool, inner: seq<Time>, rdatesAlone: bool, exdates: seq<Time>)
      ensures Valid()
      ensures Remaining() == if rdatesAlone then WalkOf(start, inner, exdates, allDay) else inner
    {
      var excluded := false;
      for i := 0 to |exdates|
        invariant excluded <==> KeyIn(start, exdates[..i], allDay)
      {
        if KeyOf(exdates[i], allDay) == KeyOf(start, allDay) { excluded := true; }
        assert forall k :: 0 <= k < i ==> exdates[..i + 1][k] == exdates[..i][k];
        assert exdates[..i + 1][i] == exdates[i];
      }
      assert exdates[..|exdates|] == exdates;
      this.start := start;
      this.allDay := allDay;
      this.inner := inner;
      this.pending := if rdatesAlone && !excluded then Some(start) else None;
      this.held := None;
      new;
      assert [] + inner == inner;
    }

    method Pull() returns (next: Option<Time>)
      modifies this`inner
      ensures old(inner) == [] ==> next == None && inner == []
      ensures old(inner) != [] ==> next == Some(old(inner)[0]) && inner == old(inner)[1..]
    {
      if inner == [] { return None; }
      next := Some(inner[0]);
      inner := inner[1..];
    }

    method Next() returns (next: Option<Time>)
      requires Valid()
      modifies this`inner, this`pending, this`held
      ensures Valid()
      ensures old(Remaining()) == [] ==> next == None && Remaining() == []
      ensures old(Remaining()) != [] ==> next == Some(old(Remaining())[0]) && Remaining() == old(Remaining())[1..]
    {
      ghost var rest := (if held.Some? then [held.value] else []) + inner;
      var upcoming;
      if held.Some? { upcoming := held; } else { upcoming := Pull(); }
      held := None;
      assert upcoming.Some? ==> rest == [upcoming.value] + inner;
      assert upcoming.None? ==> rest == [] && inner == [];
      assert [] + inner == inner;
      if pending.None? { return upcoming; }
      if upcoming.Some? && KeyOf(upcoming.value, allDay) == KeyOf(start, allDay) {
        pending := None;
        return Some(start);
      }
      if upcoming.None? || InstantOf(pending.value) < InstantOf(upcoming.value) {
        next := pending;
        pending := None;
        held := upcoming;
        return;
      }
      return upcoming;
    }
  }

  /** Keys and instants tell the same times apart: so they do in a series whose times are all dates, or none. */
  ghost predicate KeysAreInstants(start: Time, rest: seq<Time>, allDay: bool) {
    forall i :: 0 <= i < |rest| ==>
      (KeyOf(rest[i], allDay) == KeyOf(start, allDay) <==> InstantOf(rest[i]) == InstantOf(start))
  }

  /**
   * The recurrence set of section 3.8.5.2 of RFC 5545, for RDATEs with no RRULE:
   * of DTSTART and every RDATE those no EXDATE names, in order, none twice.
   */
  lemma {:induction false} WalkIsRecurrenceSet(start: Time, rdates: seq<Time>, exdates: seq<Time>, allDay: bool)
    requires Increasing(rdates) && KeysAreInstants(start, rdates, allDay) && KeysAreInstants(start, exdates, allDay)
    ensures var walk := WalkOf(start, Emitted(rdates, exdates), exdates, allDay);
            && Increasing(walk)
            && forall t :: t in walk <==>
                 !ExcludedBy(exdates, t) && (t == start || (t in rdates && InstantOf(t) != InstantOf(start)))
  {
    var rest := Emitted(rdates, exdates);
    EmittedInOrder(rdates, exdates);
    forall i | 0 <= i < |rest|
      ensures KeyOf(rest[i], allDay) == KeyOf(start, allDay) <==> InstantOf(rest[i]) == InstantOf(start)
    {
      assert rest[i] in rdates;
    }
    assert KeyIn(start, exdates, allDay) <==> ExcludedBy(exdates, start);
    if !ExcludedBy(exdates, start) { StartPutBack(start, rest, allDay); }
    forall t | t in rdates && InstantOf(t) == InstantOf(start)
      ensures ExcludedBy(exdates, t) <==> ExcludedBy(exdates, start)
    {
    }
  }

  /** DTSTART among times in order: in its place, and instead of one at its instant. */
  lemma {:induction false} StartPutBack(start: Time, rest: seq<Time>, allDay: bool)
    requires Increasing(rest) && KeysAreInstants(start, rest, allDay)
    ensures var walk := WithStart(Some(start), rest, allDay);
            && Increasing(walk)
            && forall t :: t in walk <==> t == start || (t in rest && InstantOf(t) != InstantOf(start))
    decreases rest
  {
    if rest != [] {
      var (first, tail) := (rest[0], rest[1..]);
      assert rest == [first] + tail;
      RestOfWalk(start, first, tail, allDay);
      if InstantOf(first) < InstantOf(start) {
        StartPutBack(start, tail, allDay);
        StartsWithEarlier(first, WithStart(Some(start), tail, allDay));
      } else if InstantOf(first) == InstantOf(start) {
        StartsWithEarlier(start, tail);
      } else {
        StartsWithEarlier(start, rest);
      }
    }
  }

  lemma RestOfWalk(start: Time, first: Time, tail: seq<Time>, allDay: bool)
    requires Increasing([first] + tail) && KeysAreInstants(start, [first] + tail, allDay)
    ensures Increasing(tail) && KeysAreInstants(start, tail, allDay)
    ensures forall t :: t in tail ==> InstantOf(first) < InstantOf(t)
    ensures KeyOf(first, allDay) == KeyOf(start, allDay) <==> InstantOf(first) == InstantOf(start)
  {
    var rest := [first] + tail;
    assert rest[0] == first && forall i :: 0 <= i < |tail| ==> tail[i] == rest[i + 1];
  }

  // ---------------------------------------------------------------------
  // The listing
  // ---------------------------------------------------------------------

  /** Start inclusive, end exclusive. */
  datatype Window = Window(start: int, end: int)

  /** Section 9.9 of RFC 4791: overlaps the window; one with no length must start inside it. */
  predicate InWindow(e: Entry, window: Window) {
    var (s, t) := (InstantOf(e.start), InstantOf(e.end));
    if t > s then s < window.end && t > window.start else window.start <= s < window.end
  }

  /**
   * What a listing is made of: an override that counts, by its place in the
   * object, or a start no override replaces, by its place in the walk.
   */
  datatype Item = Changed(i: nat) | Plain(k: nat)

  ghost predicate IsItem(m: Master, os: seq<Override>, walk: seq<Time>, item: Item) {
    match item
    case Changed(i) => i < |os| && IsCurrent(os, m.start.isDate, KeyOf(os[i].rid, m.start.isDate), i)
    case Plain(k) => k < |walk| && MatchOf(os, m.start.isDate, walk, k) == None
  }

  ghost function ItemEntry(m: Master, os: seq<Override>, walk: seq<Time>, item: Item): Entry
    requires IsItem(m, os, walk, item)
  {
    match item
    case Changed(i) => EntryOf(os[i])
    case Plain(k) => UnmatchedEntry(m, os, m.start.isDate, walk[k])
  }

  ghost predicate NoRepeats(items: seq<Item>) {
    forall a, b :: 0 <= a < b < |items| ==> items[a] != items[b]
  }

  /** Every start of a timed series is a time, and of an all-day one a date. */
  ghost predicate OneForm(walk: seq<Time>, allDay: bool) {
    forall k :: 0 <= k < |walk| ==> walk[k].isDate == allDay
  }

  /** Some start among the first `n` is replaced by override `i`. */
  ghost predicate MetBy(os: seq<Override>, allDay: bool, walk: seq<Time>, n: nat, i: nat)
    requires n <= |walk|
  {
    exists k :: 0 <= k < n && MatchOf(os, allDay, walk, k) == Some(i)
  }

  /** The DATE override of a day has been met exactly when some earlier start of that day took it. */
  lemma DateMetIff(os: seq<Override>, allDay: bool, walk: seq<Time>, k: nat, i: nat)
    requires k < |walk| && !allDay && OneForm(walk, allDay)
    requires CurrentIndex(os, allDay, OnDay(DayOf(walk[k]))) == Some(i)
    ensures MetBy(os, allDay, walk, k, i) <==> DateTaken(os, allDay, walk, k)
  {
    if DateTaken(os, allDay, walk, k) {
      var j := FirstTaker(os, allDay, walk, k, k);
      assert MatchOf(os, allDay, walk, j) == Some(i);
    }
    if j :| 0 <= j < k && MatchOf(os, allDay, walk, j) == Some(i) {
      assert KeyOf(walk[j], allDay).AtInstant?;
      assert KeyOf(os[i].rid, allDay) == OnDay(DayOf(walk[k]));
    }
  }

  lemma {:induction false} FirstTaker(os: seq<Override>, allDay: bool, walk: seq<Time>, k: nat, n: nat) returns (j: nat)
    requires n <= k < |walk|
    requires exists j :: 0 <= j < n && DayOf(walk[j]) == DayOf(walk[k]) && OpenToDate(os, allDay, walk[j])
    ensures j < n && DayOf(walk[j]) == DayOf(walk[k]) && OpenToDate(os, allDay, walk[j])
    ensures !DateTaken(os, allDay, walk, j)
  {
    j :| 0 <= j < n && DayOf(walk[j]) == DayOf(walk[k]) && OpenToDate(os, allDay, walk[j]);
    if DateTaken(os, allDay, walk, j) {
      var j' :| 0 <= j' < j && DayOf(walk[j']) == DayOf(walk[j]) && OpenToDate(os, allDay, walk[j']);
      j := FirstTaker(os, allDay, walk, k, j);
    }
  }

  /** One occurrence of an answer: the original start it is addressed by, and how it is listed. */
  datatype Occurrence = Occurrence(recurrenceId: Time, entry: Entry)

  /**
   * `o` reports `item`: an override at the start it replaces, or, where the
   * walk met none, by its own RECURRENCE-ID. Of the walk it takes the first
   * `steps` starts.
   */
  ghost predicate Reports(m: Master, os: seq<Override>, walk: seq<Time>, steps: nat, o: Occurrence, item: Item) {
    && IsItem(m, os, walk, item) && o.entry == ItemEntry(m, os, walk, item)
    && match item
       case Plain(k) => k < steps && o.recurrenceId == walk[k]
       case Changed(i) => o.recurrenceId == os[i].rid || ReplacesStart(m, os, walk, steps, o.recurrenceId, i)
  }

  ghost predicate ReplacesStart(m: Master, os: seq<Override>, walk: seq<Time>, steps: nat, at: Time, i: nat) {
    exists k :: 0 <= k < |walk| && k < steps && MatchOf(os, m.start.isDate, walk, k) == Some(i) && at == walk[k]
  }

  /** A start at or past the window's end is listed by no item but an override. */
  ghost predicate BeforeEnd(walk: seq<Time>, window: Window, item: Item) {
    item.Plain? ==> item.k < |walk| && InstantOf(walk[item.k]) < window.end
  }

  /** Everything found is an item of the series that overlaps the window, and no item is found twice. */
  ghost predicate Sound(m: Master, os: seq<Override>, walk: seq<Time>, steps: nat, window: Window,
                        found: seq<Occurrence>, items: seq<Item>) {
    && |found| == |items| && NoRepeats(items)
    && forall n :: 0 <= n < |items| ==>
         && Reports(m, os, walk, steps, found[n], items[n]) && BeforeEnd(walk, window, items[n])
         && InWindow(found[n].entry, window)
  }

  /** `add`: false once there is no room for an occurrence of the window. */
  method Add(m: Master, os: seq<Override>, walk: seq<Time>, ghost steps: nat, window: Window, cap: nat,
             found: seq<Occurrence>, ghost items: seq<Item>, o: Occurrence, ghost item: Item)
    returns (found': seq<Occurrence>, ghost items': seq<Item>, ok: bool)
    requires Sound(m, os, walk, steps, window, found, items) && |found| <= cap
    requires Reports(m, os, walk, steps, o, item) && BeforeEnd(walk, window, item) && item !in items
    ensures Sound(m, os, walk, steps, window, found', items') && |found'| <= cap
    ensures forall x :: x in items' ==> x in items || x == item
    ensures forall x :: x in items ==> x in items'
    ensures ok && InWindow(o.entry, window) ==> item in items'
    ensures !ok ==> |found'| == cap
  {
    found', items', ok := found, items, true;
    if !InWindow(o.entry, window) { return; }
    if |found| >= cap {
      ok := false;
      return;
    }
    found', items' := found + [o], items + [item];
  }

  /** The day of margin: the clocks stretch no length by more than a day. */
  ghost predicate DayOfMargin(walk: seq<Time>, length: int) {
    length >= 0 && forall k :: 0 <= k < |walk| ==>
      InstantOf(Plus(walk[k], length)) <= InstantOf(walk[k]) + length + DAY_MS
  }

  /** Passed over: it ends before the window begins. */
  lemma PassedOver(m: Master, walk: seq<Time>, k: nat, window: Window)
    requires k < |walk| && m.periods == map[] && DayOfMargin(walk, DurationOf(m.start, m.length))
    requires InstantOf(walk[k]) < window.start - DurationOf(m.start, m.length) - DAY_MS
    ensures MatchOf([], m.start.isDate, walk, k) == None
    ensures !InWindow(UnmatchedEntry(m, [], m.start.isDate, walk[k]), window)
  {
  }

  /** What the walk has listed once it has handed out `n` starts. */
  ghost predicate WalkedTo(m: Master, os: seq<Override>, walk: seq<Time>, window: Window, items: seq<Item>, n: nat)
    requires n <= |walk|
  {
    && (forall item :: item in items ==>
        match item case Plain(k) => k < n case Changed(i) => MetBy(os, m.start.isDate, walk, n, i))
    && (forall item :: IsItem(m, os, walk, item) && InWindow(ItemEntry(m, os, walk, item), window) ==>
          match item case Plain(k) => k < n ==>
            item in items case Changed(i) => MetBy(os, m.start.isDate, walk, n, i) ==> item in items)
  }

  /** An item of the series that overlaps the window. */
  ghost predicate Overlaps(m: Master, os: seq<Override>, walk: seq<Time>, window: Window, item: Item) {
    IsItem(m, os, walk, item) && InWindow(ItemEntry(m, os, walk, item), window)
  }

  /**
   * What the answer holds when neither bound was hit: every item that overlaps
   * the window, but for starts at or past its end.
   */
  ghost predicate Complete(m: Master, os: seq<Override>, walk: seq<Time>, window: Window, items: seq<Item>) {
    forall item :: Overlaps(m, os, walk, window, item) && BeforeEnd(walk, window, item) ==> item in items
  }

  /** The override the start `walk[k]` is replaced by, as the walk finds it: `met` holds the overrides met so far. */
  method FindMatch(m: Master, os: seq<Override>, walk: seq<Time>, k: nat, byKey: map<Key, nat>, met: set<nat>)
    returns (i: Option<nat>)
    requires k < |walk| && OneForm(walk, m.start.isDate)
    requires CountedBy(os, m.start.isDate, byKey)
    requires MetSoFar(os, m.start.isDate, walk, k, met)
    ensures i == MatchOf(os, m.start.isDate, walk, k)
  {
    var allDay := m.start.isDate;
    var key := KeyOf(walk[k], allDay);
    if key in byKey { return Some(byKey[key]); }
    if !allDay {
      var day := OnDay(DayOf(walk[k]));
      if day in byKey {
        DateMetIff(os, allDay, walk, k, byKey[day]);
        if byKey[day] !in met { return Some(byKey[day]); }
      }
    }
    return None;
  }

  /** An override meets one start at most. */
  lemma MetOnce(os: seq<Override>, allDay: bool, walk: seq<Time>, k: nat, i: nat)
    requires k < |walk| && Increasing(walk) && OneForm(walk, allDay) && OneDayEach(walk, allDay)
    requires MatchOf(os, allDay, walk, k) == Some(i)
    ensures !MetBy(os, allDay, walk, k, i)
  {
    if j :| 0 <= j < k && MatchOf(os, allDay, walk, j) == Some(i) {
      assert InstantOf(walk[j]) < InstantOf(walk[k]);
      if KeyOf(os[i].rid, allDay).OnDay? && !allDay {
        DateMetIff(os, allDay, walk, k, i);
      }
    }
  }

  /** An all-day series has at most one occurrence a day. */
  ghost predicate OneDayEach(walk: seq<Time>, allDay: bool) {
    allDay ==> forall j, k :: 0 <= j < k < |walk| ==> DayOf(walk[j]) != DayOf(walk[k])
  }

  /** `met` holds the overrides that replaced one of the first `k` starts. */
  ghost predicate MetSoFar(os: seq<Override>, allDay: bool, walk: seq<Time>, k: nat, met: set<nat>)
    requires k <= |walk|
  {
    forall i :: i in met <==> MetBy(os, allDay, walk, k, i)
  }

  lemma MetOneMore(os: seq<Override>, allDay: bool, walk: seq<Time>, k: nat, met: set<nat>)
    requires k < |walk| && MetSoFar(os, allDay, walk, k, met)
    ensures var i := MatchOf(os, allDay, walk, k);
              MetSoFar(os, allDay, walk, k + 1, if i.Some? then met + {i.value} else met)
  {
    var own := MatchOf(os, allDay, walk, k);
    forall i: nat ensures MetBy(os, allDay, walk, k + 1, i) <==> MetBy(os, allDay, walk, k, i) || own == Some(i) {
    }
  }

  lemma WalkedOn(m: Master, os: seq<Override>, walk: seq<Time>, window: Window, items: seq<Item>, items': seq<Item>,
                 k: nat, item: Item)
    requires k < |walk| && WalkedTo(m, os, walk, window, items, k)
    requires item == if MatchOf(os, m.start.isDate, walk, k).Some?
               then Changed(MatchOf(os, m.start.isDate, walk, k).value) else Plain(k)
    requires IsItem(m, os, walk, item)
    requires forall x :: x in items' ==> x in items || x == item
    requires forall x :: x in items ==> x in items'
    requires InWindow(ItemEntry(m, os, walk, item), window) ==> item in items'
    ensures WalkedTo(m, os, walk, window, items', k + 1)
  {
    var own := MatchOf(os, m.start.isDate, walk, k);
    forall i: nat
      ensures MetBy(os, m.start.isDate, walk, k + 1, i) <==> MetBy(os, m.start.isDate, walk, k, i) || own == Some(i)
    {
    }
  }

  /** One start handed out: listed by the override that replaces it or as it is; false once there is no room. */
  method ListStart(m: Master, os: seq<Override>, walk: seq<Time>, ghost steps: nat, window: Window, cap: nat, k: nat,
                   byKey: map<Key, nat>,
                   found: seq<Occurrence>, ghost items: seq<Item>, met: set<nat>)
    returns (found': seq<Occurrence>, ghost items': seq<Item>, met': set<nat>, ok: bool)
    requires k < |walk| && k < steps && InstantOf(walk[k]) < window.end
    requires Increasing(walk) && OneForm(walk, m.start.isDate) && OneDayEach(walk, m.start.isDate)
    requires CountedBy(os, m.start.isDate, byKey)
    requires Sound(m, os, walk, steps, window, found, items) && |found| <= cap
    requires WalkedTo(m, os, walk, window, items, k) && MetSoFar(os, m.start.isDate, walk, k, met)
    ensures Sound(m, os, walk, steps, window, found', items') && |found'| <= cap
    ensures ok ==> WalkedTo(m, os, walk, window, items', k + 1) && MetSoFar(os, m.start.isDate, walk, k + 1, met')
    ensures !ok ==> |found'| == cap
  {
    var i := FindMatch(m, os, walk, k, byKey, met);
    MetOneMore(os, m.start.isDate, walk, k, met);
    met' := if i.Some? then met + {i.value} else met;
    var entry := if i.Some? then EntryOf(os[i.value]) else UnmatchedEntry(m, os, m.start.isDate, walk[k]);
    ghost var item := if i.Some? then Changed(i.value) else Plain(k);
    NewItem(m, os, walk, window, items, k, item);
    found', items', ok := Add(m, os, walk, steps, window, cap, found, items, Occurrence(walk[k], entry), item);
    if ok { WalkedOn(m, os, walk, window, items, items', k, item); }
  }

  /** What the `k`th start is listed as has not been listed before. */
  lemma NewItem(m: Master, os: seq<Override>, walk: seq<Time>, window: Window, items: seq<Item>, k: nat, item: Item)
    requires k < |walk| && Increasing(walk) && OneForm(walk, m.start.isDate) && OneDayEach(walk, m.start.isDate)
    requires WalkedTo(m, os, walk, window, items, k)
    requires item == if MatchOf(os, m.start.isDate, walk, k).Some?
               then Changed(MatchOf(os, m.start.isDate, walk, k).value) else Plain(k)
    ensures item !in items && IsItem(m, os, walk, item)
  {
    if item.Changed? { MetOnce(os, m.start.isDate, walk, k, item.i); }
  }

  /** A start passed over is listed nowhere in the window. */
  lemma SkipStart(m: Master, os: seq<Override>, walk: seq<Time>, window: Window, items: seq<Item>, k: nat,
                  met: set<nat>)
    requires k < |walk| && os == [] && m.periods == map[] && DayOfMargin(walk, DurationOf(m.start, m.length))
    requires InstantOf(walk[k]) < window.start - DurationOf(m.start, m.length) - DAY_MS
    requires WalkedTo(m, os, walk, window, items, k) && MetSoFar(os, m.start.isDate, walk, k, met)
    ensures WalkedTo(m, os, walk, window, items, k + 1) && MetSoFar(os, m.start.isDate, walk, k + 1, met)
  {
    PassedOver(m, walk, k, window);
    WalkedOn(m, os, walk, window, items, items, k, Plain(k));
    MetOneMore(os, m.start.isDate, walk, k, met);
  }

  /** The first loop: the walk, up to the window's end or the step bound. */
  method WalkWindow(m: Master, os: seq<Override>, walk: seq<Time>, window: Window, cap: nat, steps: nat,
                    byKey: map<Key, nat>)
    returns (found: seq<Occurrence>, ghost items: seq<Item>, met: set<nat>, ghost n: nat, truncated: bool, gaveUp: bool)
    requires Increasing(walk) && OneForm(walk, m.start.isDate) && OneDayEach(walk, m.start.isDate)
    requires DayOfMargin(walk, DurationOf(m.start, m.length))
    requires CountedBy(os, m.start.isDate, byKey)
    ensures Sound(m, os, walk, steps, window, found, items) && |found| <= cap
    ensures n <= |walk|
    ensures !truncated ==> WalkedTo(m, os, walk, window, items, n) && MetSoFar(os, m.start.isDate, walk, n, met)
    ensures !truncated && !gaveUp ==> forall k :: n <= k < |walk| ==> InstantOf(walk[k]) >= window.end
    ensures truncated ==> |found| == cap
    ensures gaveUp ==> |walk| > steps
  {
    found, items, met, truncated, gaveUp := [], [], {}, false, false;
    var length := DurationOf(m.start, m.length);
    var passOver := if os == [] && m.periods.Keys == {} then Some(window.start - length - DAY_MS) else None;
    n := 0;
    var k := 0;
    while k < |walk|
      invariant 0 <= k <= |walk| && n == k && !truncated && !gaveUp
      invariant Sound(m, os, walk, steps, window, found, items) && |found| <= cap
      invariant WalkedTo(m, os, walk, window, items, k) && MetSoFar(os, m.start.isDate, walk, k, met)
    {
      if k + 1 > steps {
        gaveUp := true;
        break;
      }
      var at := InstantOf(walk[k]);
      if passOver.Some? && at < passOver.value {
        SkipStart(m, os, walk, window, items, k, met);
        k, n := k + 1, n + 1;
        continue;
      }
      if at >= window.end {
        LaterAreLater(walk, k);
        break;
      }
      var ok;
      found, items, met, ok := ListStart(m, os, walk, steps, window, cap, k, byKey, found, items, met);
      if !ok {
        truncated := true;
        break;
      }
      k, n := k + 1, n + 1;
    }
  }

  lemma LaterAreLater(walk: seq<Time>, k: nat)
    requires k < |walk| && Increasing(walk)
    ensures forall j :: k <= j < |walk| ==> InstantOf(walk[k]) <= InstantOf(walk[j])
  {
    forall j | k <= j < |walk| ensures InstantOf(walk[k]) <= InstantOf(walk[j]) {
      if k < j { assert InstantOf(walk[k]) < InstantOf(walk[j]); }
    }
  }

  /** Earliest first. */
  ghost predicate ByStart(found: seq<Occurrence>) {
    forall i, j :: 0 <= i < j < |found| ==> InstantOf(found[i].entry.start) <= InstantOf(found[j].entry.start)
  }

  /**
   * `occurrencesIn` for one master, earliest first: each override that counts
   * and overlaps the window exactly once, in place of its occurrence or on its
   * own; no stale revision; and exactly those of the other occurrences that
   * overlap it and start before its end, each once. What is reported by its
   * start is within the step bound.
   */
  method OccurrencesIn(m: Master, os: seq<Override>, walk: seq<Time>, window: Window, cap: nat, steps: nat)
    returns (found: seq<Occurrence>, ghost items: seq<Item>, truncated: bool, gaveUp: bool)
    requires Increasing(walk) && OneForm(walk, m.start.isDate) && OneDayEach(walk, m.start.isDate)
    requires DayOfMargin(walk, DurationOf(m.start, m.length))
    ensures Sound(m, os, walk, steps, window, found, items) && |found| <= cap && ByStart(found)
    ensures !truncated && !gaveUp ==>
              forall item :: item in items <==> Overlaps(m, os, walk, window, item) && BeforeEnd(walk, window, item)
    ensures truncated ==> |found| == cap
    ensures gaveUp ==> |walk| > steps
  {
    var byKey := CurrentOverrides(os, m.start.isDate);
    var met;
    ghost var n;
    found, items, met, n, truncated, gaveUp := WalkWindow(m, os, walk, window, cap, steps, byKey);
    if !truncated {
      ghost var walked := items;
      found, items, truncated := AddUnmet(m, os, walk, steps, window, cap, byKey, met, found, items);
      if !truncated && !gaveUp {
        AllListed(m, os, walk, window, n, walked, items);
        OnlyListed(m, os, walk, steps, window, found, items);
      }
    }
    found, items := Sorted(m, os, walk, steps, window, found, items);
  }

  lemma OnlyListed(m: Master, os: seq<Override>, walk: seq<Time>, steps: nat, window: Window,
                   found: seq<Occurrence>, items: seq<Item>)
    requires Sound(m, os, walk, steps, window, found, items)
    ensures forall item :: item in items ==> Overlaps(m, os, walk, window, item) && BeforeEnd(walk, window, item)
  {
  }

  /** The sort the answer ends with. */
  method Sorted(m: Master, os: seq<Override>, walk: seq<Time>, ghost steps: nat, window: Window,
                found: seq<Occurrence>, ghost items: seq<Item>)
    returns (found': seq<Occurrence>, ghost items': seq<Item>)
    requires Sound(m, os, walk, steps, window, found, items)
    ensures Sound(m, os, walk, steps, window, found', items') && ByStart(found') && |found'| == |found|
    ensures forall item :: item in items' <==> item in items
  {
    found', items' := [], [];
    for n := 0 to |found|
      invariant |found'| == n && Sound(m, os, walk, steps, window, found', items') && ByStart(found')
      invariant forall item :: item in items' <==> item in items[..n]
    {
      OneMoreItem(items, n);
      found', items' := InsertByStart(m, os, walk, steps, window, found', items', found[n], items[n]);
    }
    assert items[..|found|] == items;
  }

  lemma OneMoreItem(items: seq<Item>, n: nat)
    requires NoRepeats(items) && n < |items|
    ensures items[n] !in items[..n] && forall x :: x in items[..n + 1] <==> x in items[..n] || x == items[n]
  {
    assert items[..n + 1] == items[..n] + [items[n]];
  }

  method InsertByStart(m: Master, os: seq<Override>, walk: seq<Time>, ghost steps: nat, window: Window,
                       found: seq<Occurrence>, ghost items: seq<Item>, o: Occurrence, ghost item: Item)
    returns (found': seq<Occurrence>, ghost items': seq<Item>)
    requires Sound(m, os, walk, steps, window, found, items) && ByStart(found) && item !in items
    requires Reports(m, os, walk, steps, o, item) && BeforeEnd(walk, window, item) && InWindow(o.entry, window)
    ensures Sound(m, os, walk, steps, window, found', items') && ByStart(found') && |found'| == |found| + 1
    ensures forall x :: x in items' <==> x in items || x == item
  {
    var p := PlaceFor(found, o);
    found', items' := found[..p] + [o] + found[p..], items[..p] + [item] + items[p..];
    InsertedItems(items, p, item);
    InsertedSound(m, os, walk, steps, window, found, items, p, o, item);
    InsertedInOrder(found, p, o);
  }

  /** After every occurrence that starts no later. */
  method PlaceFor(found: seq<Occurrence>, o: Occurrence) returns (p: nat)
    ensures p <= |found| && (p > 0 ==> InstantOf(found[p - 1].entry.start) <= InstantOf(o.entry.start))
    ensures forall i :: p <= i < |found| ==> InstantOf(found[i].entry.start) > InstantOf(o.entry.start)
  {
    p := |found|;
    while p > 0 && InstantOf(found[p - 1].entry.start) > InstantOf(o.entry.start)
      invariant p <= |found|
      invariant forall i :: p <= i < |found| ==> InstantOf(found[i].entry.start) > InstantOf(o.entry.start)
    {
      p := p - 1;
    }
  }

  lemma InsertedSound(m: Master, os: seq<Override>, walk: seq<Time>, steps: nat, window: Window,
                      found: seq<Occurrence>, items: seq<Item>, p: nat, o: Occurrence, item: Item)
    requires Sound(m, os, walk, steps, window, found, items) && p <= |items| && item !in items
    requires Reports(m, os, walk, steps, o, item) && BeforeEnd(walk, window, item) && InWindow(o.entry, window)
    ensures Sound(m, os, walk, steps, window, found[..p] + [o] + found[p..], items[..p] + [item] + items[p..])
  {
    InsertedItems(items, p, item);
    InsertedFound(found, items, p, o, item);
    var (found', items') := (found[..p] + [o] + found[p..], items[..p] + [item] + items[p..]);
    forall n | 0 <= n < |items'|
      ensures Reports(m, os, walk, steps, found'[n], items'[n]) && BeforeEnd(walk, window, items'[n])
      ensures InWindow(found'[n].entry, window)
    {
    }
  }

  lemma InsertedFound(found: seq<Occurrence>, items: seq<Item>, p: nat, o: Occurrence, item: Item)
    requires p <= |items| == |found|
    ensures var (found', items') := (found[..p] + [o] + found[p..], items[..p] + [item] + items[p..]);
            forall n :: 0 <= n < |items'| ==>
              (found'[n] == o && items'[n] == item) || exists k ::
                0 <= k < |items| && found'[n] == found[k] && items'[n] == items[k]
  {
    var (found', items') := (found[..p] + [o] + found[p..], items[..p] + [item] + items[p..]);
    forall n | 0 <= n < |items'|
      ensures (found'[n] == o && items'[n] == item) || exists k ::
                0 <= k < |items| && found'[n] == found[k] && items'[n] == items[k]
    {
      if n != p {
        var k := if n < p then n else n - 1;
        assert found'[n] == found[k] && items'[n] == items[k];
      }
    }
  }

  lemma InsertedInOrder(found: seq<Occurrence>, p: nat, o: Occurrence)
    requires p <= |found| && ByStart(found)
    requires p > 0 ==> InstantOf(found[p - 1].entry.start) <= InstantOf(o.entry.start)
    requires forall i :: p <= i < |found| ==> InstantOf(found[i].entry.start) > InstantOf(o.entry.start)
    ensures ByStart(found[..p] + [o] + found[p..])
  {
    var found' := found[..p] + [o] + found[p..];
    assert forall n :: 0 <= n < |found'| ==>
      found'[n] == if n < p then found[n] else if n == p then o else found[n - 1];
  }

  lemma InsertedItems(items: seq<Item>, p: nat, item: Item)
    requires p <= |items| && NoRepeats(items) && item !in items
    ensures var items' := items[..p] + [item] + items[p..];
            NoRepeats(items') && forall x :: x in items' <==> x in items || x == item
  {
    var items' := items[..p] + [item] + items[p..];
    assert items == items[..p] + items[p..];
    assert forall n :: 0 <= n < |items'| ==>
      items'[n] == if n < p then items[n] else if n == p then item else items[n - 1];
  }

  /** The second loop: overrides that replace no start the walk met, each at its own time. */
  method AddUnmet(m: Master, os: seq<Override>, walk: seq<Time>, ghost steps: nat, window: Window, cap: nat,
                  byKey: map<Key, nat>, met: set<nat>,
                  found0: seq<Occurrence>, ghost items0: seq<Item>)
    returns (found: seq<Occurrence>, ghost items: seq<Item>, truncated: bool)
    requires Sound(m, os, walk, steps, window, found0, items0) && |found0| <= cap
    requires CountedBy(os, m.start.isDate, byKey)
    requires forall item :: item in items0 && item.Changed? ==> item.i in met
    ensures Sound(m, os, walk, steps, window, found, items) && |found| <= cap
    ensures forall item :: item in items0 ==> item in items
    ensures !truncated ==> forall i: nat ::
              i !in met && IsItem(m, os, walk, Changed(i)) && InWindow(EntryOf(os[i]), window) ==> Changed(i) in items
    ensures truncated ==> |found| == cap
  {
    found, items, truncated := found0, items0, false;
    var i := 0;
    while i < |os|
      invariant 0 <= i <= |os|
      invariant Sound(m, os, walk, steps, window, found, items) && |found| <= cap
      invariant forall item :: item in items0 ==> item in items
      invariant forall item :: item in items && item.Changed? ==> item.i in met || item.i < i
      invariant forall j: nat ::
                  j < i && j !in met && IsItem(m, os, walk, Changed(j)) && InWindow(EntryOf(os[j]), window) ==>
                  Changed(j) in items
    {
      var unmet := IsUnmet(m, os, byKey, met, i);
      if unmet {
        var ok;
        found, items, ok := Add(m, os, walk, steps, window, cap, found, items, Occurrence(os[i].rid, EntryOf(os[i])),
                                Changed(i));
        if !ok { return found, items, true; }
      }
      i := i + 1;
    }
  }

  /** The override at `i` counts for its key, and replaced no start. */
  method IsUnmet(m: Master, os: seq<Override>, byKey: map<Key, nat>, met: set<nat>, i: nat) returns (unmet: bool)
    requires i < |os| && CountedBy(os, m.start.isDate, byKey)
    ensures unmet <==> IsCurrent(os, m.start.isDate, KeyOf(os[i].rid, m.start.isDate), i) && i !in met
  {
    var key := KeyOf(os[i].rid, m.start.isDate);
    assert !Unnamed(os, m.start.isDate, key);
    if byKey[key] != i { NotCurrent(os, m.start.isDate, key, i, byKey[key]); }
    unmet := byKey[key] == i && i !in met;
  }

  lemma AllListed(m: Master, os: seq<Override>, walk: seq<Time>, window: Window, n: nat, walked: seq<Item>,
                  items: seq<Item>)
    requires n <= |walk| && WalkedTo(m, os, walk, window, walked, n)
    requires forall k :: n <= k < |walk| ==> InstantOf(walk[k]) >= window.end
    requires forall item :: item in walked ==> item in items
    requires forall i: nat ::
               !MetBy(os, m.start.isDate, walk, n, i) && IsItem(m, os, walk, Changed(i))
               && InWindow(EntryOf(os[i]), window) ==>
      Changed(i) in items
    ensures Complete(m, os, walk, window, items)
  {
    forall item | Overlaps(m, os, walk, window, item) && BeforeEnd(walk, window, item) ensures item in items
    {
      match item
      case Plain(k) => assert k < n;
      case Changed(i) => assert ItemEntry(m, os, walk, item) == EntryOf(os[i]);
    }
  }

  lemma NotCurrent(os: seq<Override>, allDay: bool, key: Key, i: nat, j: nat)
    requires IsCurrent(os, allDay, key, j) && i != j && i < |os| && KeyOf(os[i].rid, allDay) == key
    ensures !IsCurrent(os, allDay, key, i)
  {
    assert KeyOf(os[j].rid, allDay) == key;
  }

  // ---------------------------------------------------------------------
  // What the walk's stop at the window's end costs
  // ---------------------------------------------------------------------

  /**
   * An item that overlaps the window and is not what `OccurrencesIn` lists
   * there: its original start is at or past the end.
   */
  ghost predicate Missed(m: Master, os: seq<Override>, walk: seq<Time>, window: Window, item: Item) {
    Overlaps(m, os, walk, window, item) && !BeforeEnd(walk, window, item)
  }

  /** A RANGE=THISANDFUTURE override moves the `k`th start to an earlier instant. */
  ghost predicate MovedEarlier(m: Master, os: seq<Override>, walk: seq<Time>, k: nat)
    requires k < |walk|
  {
    && MatchOf(os, m.start.isDate, walk, k) == None
    && Governing(os, InstantOf(walk[k])).Some?
    && InstantOf(Shifted(Governing(os, InstantOf(walk[k])).value, walk[k]).start) < InstantOf(walk[k])
  }

  /** The listing of a window, neither bound hit, leaves out exactly what is missed in it. */
  lemma MissedIsLeftOut(m: Master, os: seq<Override>, walk: seq<Time>, window: Window, items: seq<Item>, item: Item)
    requires forall x :: x in items <==> Overlaps(m, os, walk, window, x) && BeforeEnd(walk, window, x)
    ensures Missed(m, os, walk, window, item) <==> Overlaps(m, os, walk, window, item) && item !in items
  {
  }

  /** No window misses anything exactly when no RANGE=THISANDFUTURE override moves an occurrence earlier. */
  lemma NothingMissedIff(m: Master, os: seq<Override>, walk: seq<Time>)
    ensures (forall window, item :: !Missed(m, os, walk, window, item)) <==>
              (forall k :: 0 <= k < |walk| ==> !MovedEarlier(m, os, walk, k))
  {
    forall window, item | Missed(m, os, walk, window, item) ensures MovedEarlier(m, os, walk, item.k) {
      assert ItemEntry(m, os, walk, item) == UnmatchedEntry(m, os, m.start.isDate, walk[item.k]);
    }
    forall k | 0 <= k < |walk| && MovedEarlier(m, os, walk, k)
      ensures exists window, item :: Missed(m, os, walk, window, item)
    {
      var at := InstantOf(ItemEntry(m, os, walk, Plain(k)).start);
      assert Missed(m, os, walk, Window(at, at + 1), Plain(k));
    }
  }

  // ---------------------------------------------------------------------
  // Addressing one occurrence
  // ---------------------------------------------------------------------

  datatype Kind = DateKind | InstantKind | ClockKind

  /** What a recurrence_id names: a date, an instant, or a clock time read as UTC. */
  datatype ReportedKey = ReportedKey(kind: Kind, ms: int)

  function Reported(t: Time): ReportedKey {
    ReportedKey(if t.isDate then DateKind else if t.zone.floating then ClockKind else InstantKind, InstantOf(t))
  }

  datatype Next = Unknown | NoNext | NextAt(wall: int, overridden: bool)

  /** What a write is told of the occurrence: `key` is what its overrides are matched by. */
  datatype FoundOccurrence = FoundOccurrence(wall: int, isDate: bool, key: Key, current: Option<nat>,
                                             range: Option<nat>, next: Next)

  /** A start's clock fields in the zone of the master's DTSTART. */
  function InSeriesZone(m: Master, t: Time): int {
    if t.isDate || t.zone.id == m.start.zone.id then t.wall else m.start.zone.show(InstantOf(t))
  }

  /** The key the lookup takes for a start: its own, or its day's where only that is named. */
  function AddressedKey(os: seq<Override>, allDay: bool, t: Time): Key {
    if !allDay && CurrentIndex(os, allDay, KeyOf(t, allDay)).None? && CurrentIndex(os, allDay, OnDay(DayOf(t))).Some?
    then OnDay(DayOf(t)) else KeyOf(t, allDay)
  }

  predicate HasOverride(os: seq<Override>, allDay: bool, t: Time) {
    CurrentIndex(os, allDay, AddressedKey(os, allDay, t)).Some?
  }

  /**
   * `findOccurrence`'s walk: the start the caller names, by its place, and
   * whether the walk ended before one more step.
   */
  method FindStart(walk: seq<Time>, want: ReportedKey, maxSteps: nat)
    returns (hit: Option<nat>, following: bool, gaveUp: bool)
    requires Increasing(walk)
    ensures hit.Some? ==> hit.value < |walk| && hit.value < maxSteps && Reported(walk[hit.value]) == want
    ensures hit.None? ==> forall k :: 0 <= k < |walk| && k < maxSteps ==> Reported(walk[k]) != want
    ensures hit.Some? ==> (following <==> hit.value + 1 < |walk| && hit.value + 1 < maxSteps)
    ensures hit.Some? ==> (gaveUp <==> hit.value + 1 < |walk| && hit.value + 1 >= maxSteps)
  {
    hit, following, gaveUp := None, false, false;
    var limit := want.ms + 2 * DAY_MS;
    var k := 0;
    while k < |walk|
      invariant 0 <= k <= |walk| && k <= maxSteps && !following && !gaveUp
      invariant hit.Some? ==> hit.value + 1 == k && Reported(walk[hit.value]) == want
      invariant hit.None? ==> forall j :: 0 <= j < k ==> Reported(walk[j]) != want
    {
      if k + 1 > maxSteps {
        gaveUp := true;
        break;
      }
      if hit.None? && Reported(walk[k]) == want {
        hit := Some(k);
        k := k + 1;
        continue;
      }
      if hit.Some? {
        following := true;
        break;
      }
      if InstantOf(walk[k]) > limit { break; }
      k := k + 1;
    }
  }

  /** The override `i` is the one that counts for its key. */
  ghost predicate Counts(os: seq<Override>, allDay: bool, i: nat) {
    i < |os| && IsCurrent(os, allDay, KeyOf(os[i].rid, allDay), i)
  }

  /** Some start within the step bound is reported as `want`. */
  ghost predicate WalkReports(walk: seq<Time>, want: ReportedKey, maxSteps: nat) {
    exists k :: 0 <= k < |walk| && k < maxSteps && Reported(walk[k]) == want
  }

  /**
   * What the lookup of `want` may answer: a start of the walk; failing that, an
   * override by its own RECURRENCE-ID; failing that, nothing.
   */
  ghost predicate LookedUp(m: Master, os: seq<Override>, walk: seq<Time>, want: ReportedKey, maxSteps: nat,
                           found: Option<FoundOccurrence>) {
    if WalkReports(walk, want, maxSteps) then
      exists k :: 0 <= k < |walk| && k < maxSteps && Reported(walk[k]) == want
        && found == Some(Addressed(m, os, walk, k, k + 1 < |walk| && k + 1 >= maxSteps))
    else if found.None? then forall i: nat :: Counts(os, m.start.isDate, i) ==> Reported(os[i].rid) != want
    else exists i: nat ::
      Counts(os, m.start.isDate, i) && Reported(os[i].rid) == want && found == Some(Orphaned(m, os, i))
  }

  /** An override the walk never meets, by its own RECURRENCE-ID. */
  function Orphaned(m: Master, os: seq<Override>, i: nat): FoundOccurrence
    requires i < |os|
  {
    FoundOccurrence(InSeriesZone(m, os[i].rid), os[i].rid.isDate, KeyOf(os[i].rid, m.start.isDate), Some(i), None,
                    Unknown)
  }

  method FindOrphan(m: Master, os: seq<Override>, want: ReportedKey) returns (orphan: Option<nat>)
    ensures orphan.Some? ==> Counts(os, m.start.isDate, orphan.value) && Reported(os[orphan.value].rid) == want
    ensures orphan.None? ==> forall i: nat :: Counts(os, m.start.isDate, i) ==> Reported(os[i].rid) != want
  {
    var byKey := CurrentOverrides(os, m.start.isDate);
    var i := 0;
    while i < |os|
      invariant 0 <= i <= |os|
      invariant forall j: nat :: j < i && Counts(os, m.start.isDate, j) ==> Reported(os[j].rid) != want
    {
      var key := KeyOf(os[i].rid, m.start.isDate);
      assert !Unnamed(os, m.start.isDate, key);
      if byKey[key] == i && Reported(os[i].rid) == want { return Some(i); }
      if byKey[key] != i { NotCurrent(os, m.start.isDate, key, i, byKey[key]); }
      i := i + 1;
    }
    orphan := None;
  }

  /** `lookUpOccurrence`, for an object with a master that recurs. */
  method LookUp(m: Master, os: seq<Override>, walk: seq<Time>, want: ReportedKey, maxSteps: nat)
    returns (found: Option<FoundOccurrence>)
    requires Increasing(walk)
    ensures LookedUp(m, os, walk, want, maxSteps, found)
  {
    var hit, following, gaveUp := FindStart(walk, want, maxSteps);
    if hit.None? {
      var orphan := FindOrphan(m, os, want);
      if orphan.None? { return None; }
      var rid := os[orphan.value].rid;
      return Some(FoundOccurrence(InSeriesZone(m, rid), rid.isDate, KeyOf(rid, m.start.isDate), Some(orphan.value),
                                  None, Unknown));
    }
    var allDay := m.start.isDate;
    var at := walk[hit.value];
    var key := AddressedKey(os, allDay, at);
    var current := CurrentIndex(os, allDay, key);
    var range := None;
    if current.None? { range := GoverningRange(os, at); }
    var next := Unknown;
    if following {
      next := NextAt(InSeriesZone(m, walk[hit.value + 1]), HasOverride(os, allDay, walk[hit.value + 1]));
    } else if !gaveUp {
      next := NoNext;
    }
    found := Some(FoundOccurrence(InSeriesZone(m, at), at.isDate, key, current, range, next));
    assert found.value == Addressed(m, os, walk, hit.value, hit.value + 1 < |walk| && hit.value + 1 >= maxSteps);
  }

  /** What the lookup says of the `k`th start; `gaveUp` when the step bound fell on it. */
  function Addressed(m: Master, os: seq<Override>, walk: seq<Time>, k: nat, gaveUp: bool): FoundOccurrence
    requires k < |walk|
  {
    var (allDay, at) := (m.start.isDate, walk[k]);
    var key := AddressedKey(os, allDay, at);
    var current := CurrentIndex(os, allDay, key);
    FoundOccurrence(InSeriesZone(m, at), at.isDate, key, current,
      if current.None? then GoverningIndex(os, InstantOf(at)) else None,
      if gaveUp then Unknown
      else if k + 1 == |walk| then NoNext
      else NextAt(InSeriesZone(m, walk[k + 1]), HasOverride(os, allDay, walk[k + 1])))
  }

  /**
   * Addressing agrees with listing: the lookup names the override the listing
   * replaced the start by, unless the start is a second one of a day whose DATE
   * override an earlier start took.
   */
  lemma AddressingAgreesIff(m: Master, os: seq<Override>, walk: seq<Time>, k: nat, gaveUp: bool)
    requires k < |walk|
    ensures var (allDay, at) := (m.start.isDate, walk[k]);
            Addressed(m, os, walk, k, gaveUp).current == MatchOf(os, allDay, walk, k) <==>
            !(!allDay && OpenToDate(os, allDay, at) && !Unnamed(os, allDay, OnDay(DayOf(at)))
              && DateTaken(os, allDay, walk, k))
  {
  }

  /** Everything the listing reports under a start of the walk, the lookup finds there, within the step bound. */
  lemma ListedIsFound(m: Master, os: seq<Override>, walk: seq<Time>, k: nat, j: nat)
    requires Increasing(walk) && k < |walk| && j < |walk|
    ensures Reported(walk[j]) == Reported(walk[k]) <==> j == k
  {
  }

  /** Dates are read as UTC. */
  ghost predicate DatesAsUtc(ts: seq<Time>) {
    forall i :: 0 <= i < |ts| && ts[i].isDate ==> InstantOf(ts[i]) == ts[i].wall
  }

  ghost predicate RidsAsUtc(os: seq<Override>) {
    forall i :: 0 <= i < |os| && os[i].rid.isDate ==> InstantOf(os[i].rid) == os[i].rid.wall
  }

  /** No other override that counts is reported as the one at `i` is. */
  ghost predicate ReportedAlone(os: seq<Override>, allDay: bool, i: nat)
    requires i < |os|
  {
    forall j: nat :: Counts(os, allDay, j) && Reported(os[j].rid) == Reported(os[i].rid) ==> j == i
  }

  /** So it is of every one that counts in a series whose own times are times. */
  lemma TimedIsUnambiguous(os: seq<Override>, i: nat)
    requires RidsAsUtc(os) && Counts(os, false, i)
    ensures ReportedAlone(os, false, i)
  {
    forall j: nat | Counts(os, false, j) && Reported(os[j].rid) == Reported(os[i].rid) ensures j == i {
      assert KeyOf(os[j].rid, false) == KeyOf(os[i].rid, false);
    }
  }

  /** An override no start meets is what the lookup of its RECURRENCE-ID finds exactly where it is. */
  lemma {:induction false} OnItsOwnAddressedIff(m: Master, os: seq<Override>, walk: seq<Time>, i: nat, maxSteps: nat)
    requires Increasing(walk) && OneForm(walk, m.start.isDate) && DatesAsUtc(walk) && RidsAsUtc(os)
    requires Counts(os, m.start.isDate, i) && !MetBy(os, m.start.isDate, walk, |walk|, i)
    ensures (forall found :: LookedUp(m, os, walk, Reported(os[i].rid), maxSteps, found) ==>
               found.Some? && found.value.current == Some(i)) <==>
            ReportedAlone(os, m.start.isDate, i)
  {
    var (allDay, want) := (m.start.isDate, Reported(os[i].rid));
    forall k | 0 <= k < |walk| ensures Reported(walk[k]) != want {
      if Reported(walk[k]) == want { MetAsReported(m, os, walk, i, k); }
    }
    forall j: nat | Counts(os, allDay, j) && Reported(os[j].rid) == want
      ensures LookedUp(m, os, walk, want, maxSteps, Some(Orphaned(m, os, j))) && Orphaned(m, os, j).current == Some(j)
    {
    }
  }

  /** A start reported as an override is meets it. */
  lemma MetAsReported(m: Master, os: seq<Override>, walk: seq<Time>, i: nat, k: nat)
    requires OneForm(walk, m.start.isDate) && DatesAsUtc(walk) && RidsAsUtc(os) && Counts(os, m.start.isDate, i)
    requires k < |walk| && Reported(walk[k]) == Reported(os[i].rid)
    ensures MetBy(os, m.start.isDate, walk, |walk|, i)
  {
    var allDay := m.start.isDate;
    assert KeyOf(walk[k], allDay) == KeyOf(os[i].rid, allDay);
    CurrentIs(os, allDay, KeyOf(walk[k], allDay), i);
    assert MatchOf(os, allDay, walk, k) == Some(i);
  }

  /** A second start of a day whose DATE override an earlier one took. */
  ghost predicate SecondOfItsDay(os: seq<Override>, allDay: bool, walk: seq<Time>, k: nat)
    requires k < |walk|
  {
    !allDay && OpenToDate(os, allDay, walk[k]) && !Unnamed(os, allDay, OnDay(DayOf(walk[k])))
      && DateTaken(os, allDay, walk, k)
  }

  /**
   * Whatever the listing reports, the lookup of its recurrence_id finds, and
   * names the override it was listed by, or none where it was listed by none:
   * starts of the walk within the step bound, and overrides that replace none.
   */
  lemma {:induction false} ReportedIsAddressed(m: Master, os: seq<Override>, walk: seq<Time>, o: Occurrence, item: Item,
                                               maxSteps: nat, found: Option<FoundOccurrence>)
    requires Increasing(walk) && OneForm(walk, m.start.isDate) && DatesAsUtc(walk) && RidsAsUtc(os)
    requires item.Changed? && item.i < |os| ==> ReportedAlone(os, m.start.isDate, item.i)
    requires Reports(m, os, walk, maxSteps, o, item)
    requires forall k :: 0 <= k < |walk| ==> !SecondOfItsDay(os, m.start.isDate, walk, k)
    requires LookedUp(m, os, walk, Reported(o.recurrenceId), maxSteps, found)
    ensures found.Some? && found.value.current == if item.Changed? then Some(item.i) else None
  {
    var (allDay, want) := (m.start.isDate, Reported(o.recurrenceId));
    if k :| 0 <= k < |walk| && k < maxSteps && o.recurrenceId == walk[k]
            && MatchOf(os, allDay, walk, k) == (if item.Changed? then Some(item.i) else None) {
      StartIsAddressed(m, os, walk, k, maxSteps, found);
    } else {
      assert o.recurrenceId == os[item.i].rid && Counts(os, allDay, item.i);
      if WalkReports(walk, want, maxSteps) {
        var k :| 0 <= k < |walk| && k < maxSteps && Reported(walk[k]) == want;
        assert KeyOf(walk[k], allDay) == KeyOf(os[item.i].rid, allDay);
        CurrentIs(os, allDay, KeyOf(walk[k], allDay), item.i);
        assert MatchOf(os, allDay, walk, k) == Some(item.i);
        StartIsAddressed(m, os, walk, k, maxSteps, found);
      }
    }
  }

  lemma StartIsAddressed(m: Master, os: seq<Override>, walk: seq<Time>, k: nat, maxSteps: nat,
                         found: Option<FoundOccurrence>)
    requires Increasing(walk) && k < |walk| && k < maxSteps && !SecondOfItsDay(os, m.start.isDate, walk, k)
    requires LookedUp(m, os, walk, Reported(walk[k]), maxSteps, found)
    ensures found.Some? && found.value.current == MatchOf(os, m.start.isDate, walk, k)
  {
    assert WalkReports(walk, Reported(walk[k]), maxSteps);
    var j :| 0 <= j < |walk| && j < maxSteps && Reported(walk[j]) == Reported(walk[k])
        && found == Some(Addressed(m, os, walk, j, j + 1 < |walk| && j + 1 >= maxSteps));
    ListedIsFound(m, os, walk, k, j);
    AddressingAgreesIff(m, os, walk, k, k + 1 < |walk| && k + 1 >= maxSteps);
  }

  /**
   * Two times of one day and a DATE override of it: both are addressed as the
   * override, only the first is listed as it.
   */
  lemma SecondOfTheDayDisagrees(m: Master, os: seq<Override>, walk: seq<Time>)
    requires |walk| == 2 && DayOf(walk[0]) == DayOf(walk[1]) && !m.start.isDate && OneForm(walk, false)
    requires |os| == 1 && os[0].rid.isDate && DayOf(os[0].rid) == DayOf(walk[0])
    ensures Addressed(m, os, walk, 1, false).current == Some(0)
    ensures MatchOf(os, false, walk, 0) == Some(0) && MatchOf(os, false, walk, 1) == None
  {
    var day := OnDay(DayOf(walk[0]));
    assert IsCurrent(os, false, day, 0);
    CurrentIs(os, false, day, 0);
    assert Unnamed(os, false, KeyOf(walk[0], false)) && Unnamed(os, false, KeyOf(walk[1], false));
    assert OpenToDate(os, false, walk[0]);
  }
}
