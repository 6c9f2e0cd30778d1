/**
 * Changing or deleting one occurrence is framed: every other occurrence lists
 * exactly as it did, and the one addressed becomes the patch of what was
 * listed, or is gone; so do the overrides listed on their own, and none is
 * added (src/ical-occurrence-edit.ts against src/ical-expand.ts).
 */
module OccurrenceFrames {
  import opened Options
  import opened Series
  import opened Reader
  import opened Listing
  import opened OccurrenceEdit

  /** The series as it is walked. */
  ghost predicate Walked(m: Master, walk: seq<Time>) {
    Increasing(walk) && OneForm(walk, m.start.isDate) && OneDayEach(walk, m.start.isDate)
  }

  /**
   * And the occurrence addressed in it, which is not a second one of a day
   * whose DATE override an earlier start took.
   */
  ghost predicate Addressable(m: Master, os: seq<Override>, walk: seq<Time>, k: nat) {
    k < |walk| && Walked(m, walk) && !SecondOfItsDay(os, m.start.isDate, walk, k)
  }

  /** What a start is written as has its key. */
  ghost predicate KeyKept(m: Master, t: Time) {
    KeyOf(InSeries(m, t), m.start.isDate) == KeyOf(t, m.start.isDate)
  }

  /** And it names its instant. */
  ghost predicate InstantKept(m: Master, t: Time) {
    InstantOf(InSeries(m, t)) == InstantOf(t)
  }

  /**
   * In the zone of the series both always hold; for a time in another they are
   * one, and fail on the second pass of an overlap.
   */
  lemma OwnZoneIsKept(m: Master, t: Time)
    ensures t.zone == m.start.zone ==> InSeries(m, t) == t && KeyKept(m, t) && InstantKept(m, t)
    ensures !m.start.isDate && !t.isDate ==> (KeyKept(m, t) <==> InstantKept(m, t))
    ensures !t.isDate && t.zone.id != m.start.zone.id ==>
              (InstantKept(m, t) <==> m.start.zone.place(m.start.zone.show(InstantOf(t))) == InstantOf(t))
  {
  }

  /** Starts of a walk have keys of their own. */
  lemma OwnKeys(m: Master, walk: seq<Time>)
    requires Walked(m, walk)
    ensures forall j, k :: 0 <= j < |walk| && 0 <= k < |walk| && j != k ==>
              KeyOf(walk[j], m.start.isDate) != KeyOf(walk[k], m.start.isDate)
  {
    forall j, k | 0 <= j < |walk| && 0 <= k < |walk| && j != k
      ensures KeyOf(walk[j], m.start.isDate) != KeyOf(walk[k], m.start.isDate)
    {
      assert if j < k then InstantOf(walk[j]) < InstantOf(walk[k]) else InstantOf(walk[k]) < InstantOf(walk[j]);
    }
  }

  /** What is listed on its own in a series is listed the same from two sets of overrides. */
  ghost predicate SameOnTheirOwn(m: Master, os: seq<Override>, os': seq<Override>, walk: seq<Time>) {
    forall x :: OnItsOwn(m, os', walk, x) == OnItsOwn(m, os, walk, x)
  }

  // ---------------------------------------------------------------------
  // An override edited in place
  // ---------------------------------------------------------------------

  lemma ReplacedLookups(os: seq<Override>, allDay: bool, key: Key, i: nat, o: Override)
    requires IsCurrent(os, allDay, key, i) && KeyOf(o.rid, allDay) == key && o.sequence >= os[i].sequence
    ensures forall x :: CurrentIndex(os[i := o], allDay, x) == CurrentIndex(os, allDay, x)
  {
    var os' := os[i := o];
    forall x ensures CurrentIndex(os', allDay, x) == CurrentIndex(os, allDay, x) {
      assert forall j :: 0 <= j < |os| ==> KeyOf(os'[j].rid, allDay) == KeyOf(os[j].rid, allDay);
      var c := CurrentIndex(os, allDay, x);
      if c.Some? {
        if x == key { CurrentIs(os, allDay, key, i); }
        assert IsCurrent(os', allDay, x, c.value);
        CurrentIs(os', allDay, x, c.value);
      }
    }
  }

  lemma ReplacedGoverning(os: seq<Override>, at: int, i: nat, o: Override)
    requires i < |os| && !os[i].range && !o.range
    ensures GoverningIndex(os[i := o], at) == GoverningIndex(os, at)
  {
    var os' := os[i := o];
    var g := GoverningIndex(os, at);
    if g.Some? {
      assert Governs(os', at, g.value);
      GoverningIs(os', at, g.value);
    }
  }

  /** The override that counts for its key edited in place: the start that meets it changes, and no other does. */
  lemma Edited(m: Master, os: seq<Override>, walk: seq<Time>, i: nat, o: Override, j: nat)
    requires Counts(os, m.start.isDate, i) && !os[i].range && !o.range && j < |walk|
    requires o.rid == os[i].rid && o.sequence >= os[i].sequence
    ensures MatchOf(os[i := o], m.start.isDate, walk, j) == MatchOf(os, m.start.isDate, walk, j)
    ensures EntryAt(m, os[i := o], walk, j) ==
            if MatchOf(os, m.start.isDate, walk, j) == Some(i) then EntryOf(o) else EntryAt(m, os, walk, j)
  {
    var (allDay, os') := (m.start.isDate, os[i := o]);
    ReplacedLookups(os, allDay, KeyOf(o.rid, allDay), i, o);
    assert forall t :: OpenToDate(os', allDay, t) == OpenToDate(os, allDay, t);
    assert MatchOf(os', allDay, walk, j) == MatchOf(os, allDay, walk, j);
    ReplacedGoverning(os, InstantOf(walk[j]), i, o);
    var g := GoverningIndex(os, InstantOf(walk[j]));
    assert g.Some? ==> g.value != i;
  }

  /** And on its own it stays on its own, and so does every other. */
  lemma EditedOnTheirOwn(m: Master, os: seq<Override>, walk: seq<Time>, i: nat, o: Override, x: Key)
    requires Counts(os, m.start.isDate, i) && o.rid == os[i].rid && o.sequence >= os[i].sequence
    ensures OnItsOwn(m, os[i := o], walk, x) ==
            if x == KeyOf(o.rid, m.start.isDate) && OnItsOwn(m, os, walk, x).Some? then Some(o)
            else OnItsOwn(m, os, walk, x)
  {
    var allDay := m.start.isDate;
    var (c, d) := (Counted(os, allDay), Counted(os[i := o], allDay));
    ReplacedLookups(os, allDay, KeyOf(o.rid, allDay), i, o);
    CurrentIs(os, allDay, KeyOf(o.rid, allDay), i);
    assert forall y :: d(y) == if y == KeyOf(o.rid, allDay) then Some(o) else c(y);
    assert forall t :: Wants(d, allDay, t, x) <==> Wants(c, allDay, t, x);
    assert Wanted(d, allDay, walk, x) <==> Wanted(c, allDay, walk, x);
  }

  /**
   * An occurrence with an override of its own, reaching no other: it alone
   * changes, to the patch of what was listed.
   */
  lemma PatchInPlace(m: Master, os: seq<Override>, walk: seq<Time>, k: nat, patch: Patch, gaveUp: bool, j: nat)
    requires Addressable(m, os, walk, k) && j < |walk|
    requires var found := Addressed(m, os, walk, k, gaveUp); found.current.Some? && !os[found.current.value].range
    ensures var found := Addressed(m, os, walk, k, gaveUp);
            var os' := Patched(m, os, found, patch);
            && os'.Some?
            && EntryAt(m, os'.value, walk, j) ==
               (if j == k then EntryOf(Apply(os[found.current.value], patch)) else EntryAt(m, os, walk, j))
            && SameOnTheirOwn(m, os, os'.value, walk)
    ensures EntryAt(m, os, walk, k) == EntryOf(os[Addressed(m, os, walk, k, gaveUp).current.value])
  {
    AddressingAgreesIff(m, os, walk, k, gaveUp);
    MetOnlyOnce(m, os, walk, k, Addressed(m, os, walk, k, gaveUp).current.value, j);
    PatchAtAStart(m, os, walk, k, k, patch, gaveUp, j);
  }

  lemma MetOnlyOnce(m: Master, os: seq<Override>, walk: seq<Time>, k: nat, i: nat, j: nat)
    requires Walked(m, walk) && k < |walk| && j < |walk| && MatchOf(os, m.start.isDate, walk, k) == Some(i)
    ensures MatchOf(os, m.start.isDate, walk, j) == Some(i) <==> j == k
  {
    if MatchOf(os, m.start.isDate, walk, j) == Some(i) && j != k {
      MetOnce(os, m.start.isDate, walk, if j < k then k else j, i);
    }
  }

  /** Whichever start the override addressed by one is met by, that start is the one patched. */
  lemma PatchAtAStart(m: Master, os: seq<Override>, walk: seq<Time>, k: nat, h: nat, patch: Patch, gaveUp: bool, j: nat)
    requires Walked(m, walk) && k < |walk| && h < |walk| && j < |walk|
    requires var found := Addressed(m, os, walk, k, gaveUp);
             && found.current.Some? && !os[found.current.value].range
             && MatchOf(os, m.start.isDate, walk, h) == found.current
    ensures var found := Addressed(m, os, walk, k, gaveUp);
            var os' := Patched(m, os, found, patch);
            && os'.Some?
            && MatchOf(os'.value, m.start.isDate, walk, j) == MatchOf(os, m.start.isDate, walk, j)
            && EntryAt(m, os'.value, walk, j) ==
               (if j == h then EntryOf(Apply(os[found.current.value], patch)) else EntryAt(m, os, walk, j))
            && SameOnTheirOwn(m, os, os'.value, walk)
  {
    var found := Addressed(m, os, walk, k, gaveUp);
    var (i, allDay) := (found.current.value, m.start.isDate);
    var o := Apply(os[i], patch);
    MetOnlyOnce(m, os, walk, h, i, j);
    Edited(m, os, walk, i, o, j);
    forall x ensures OnItsOwn(m, os[i := o], walk, x) == OnItsOwn(m, os, walk, x) {
      EditedOnTheirOwn(m, os, walk, i, o, x);
      MetIff(os, allDay, walk, i);
    }
  }

  /**
   * A second start of a day whose DATE override an earlier one took: what is
   * patched is that earlier one, and the start addressed lists as it did. So
   * the start addressed is the one patched exactly if it is not such a one.
   */
  lemma PatchGoesToTheFirst(m: Master, os: seq<Override>, walk: seq<Time>, k: nat, patch: Patch, gaveUp: bool, j: nat)
    returns (first: nat)
    requires Walked(m, walk) && k < |walk| && j < |walk|
    requires var found := Addressed(m, os, walk, k, gaveUp); found.current.Some? && !os[found.current.value].range
    ensures first < |walk| && (first == k <==> !SecondOfItsDay(os, m.start.isDate, walk, k))
    ensures first <= k && DayOf(walk[first]) == DayOf(walk[k])
    ensures var found := Addressed(m, os, walk, k, gaveUp);
            var os' := Patched(m, os, found, patch);
            && os'.Some?
            && EntryAt(m, os, walk, first) == EntryOf(os[found.current.value])
            && EntryAt(m, os'.value, walk, j) ==
               (if j == first then EntryOf(Apply(os[found.current.value], patch)) else EntryAt(m, os, walk, j))
            && SameOnTheirOwn(m, os, os'.value, walk)
  {
    first := FirstToMeet(m, os, walk, k, gaveUp);
    PatchAtAStart(m, os, walk, k, first, patch, gaveUp, j);
  }

  /** The start the override found for one is met by: that one, or an earlier of its day. */
  lemma FirstToMeet(m: Master, os: seq<Override>, walk: seq<Time>, k: nat, gaveUp: bool) returns (first: nat)
    requires Walked(m, walk) && k < |walk| && Addressed(m, os, walk, k, gaveUp).current.Some?
    ensures first <= k && DayOf(walk[first]) == DayOf(walk[k])
    ensures first == k <==> !SecondOfItsDay(os, m.start.isDate, walk, k)
    ensures MatchOf(os, m.start.isDate, walk, first) == Addressed(m, os, walk, k, gaveUp).current
  {
    AddressingAgreesIff(m, os, walk, k, gaveUp);
    first := k;
    if SecondOfItsDay(os, m.start.isDate, walk, k) { first := FirstTaker(os, false, walk, k, k); }
  }

  // ---------------------------------------------------------------------
  // An override made for an occurrence that had none
  // ---------------------------------------------------------------------

  lemma Appended(os: seq<Override>, allDay: bool, o: Override)
    ensures forall x :: Current(os + [o], allDay, x) ==
              if x == KeyOf(o.rid, allDay) && Wins(os, allDay, o) then Some(o) else Current(os, allDay, x)
    ensures !o.range ==> forall at :: Governing(os + [o], at) == Governing(os, at)
  {
    assert (os + [o])[..|os|] == os;
  }

  /** An override added counts for its key: no other there has a higher SEQUENCE. */
  predicate Wins(os: seq<Override>, allDay: bool, o: Override) {
    var held := Current(os, allDay, KeyOf(o.rid, allDay));
    held.None? || held.value.sequence <= o.sequence
  }

  /**
   * An override added, in a timed series of one form: the one start of its key
   * is replaced by it, if it counts; every other lists as it did, but for the
   * one that comes into a DATE override the start of the key had taken.
   */
  lemma OverrideAdded(m: Master, os: seq<Override>, walk: seq<Time>, o: Override, h: nat, j: nat)
    requires Walked(m, walk) && j < |walk| && !o.range && o.rid.isDate == m.start.isDate
    requires OnlyStart(walk, m.start.isDate, KeyOf(o.rid, m.start.isDate), h)
    ensures EntryAt(m, os + [o], walk, j) ==
            if j == h && Wins(os, m.start.isDate, o) then EntryOf(o)
            else if !m.start.isDate && j != h && h < |walk| && Took(Counted(os, false), walk, h)
                    && Heir(Counted(os, false), walk, h, j)
            then EntryOf(Current(os, false, OnDay(DayOf(walk[h]))).value)
            else EntryAt(m, os, walk, j)
  {
    var (allDay, w) := (m.start.isDate, KeyOf(o.rid, m.start.isDate));
    var (c, d) := (Counted(os, allDay), Counted(os + [o], allDay));
    Appended(os, allDay, o);
    EntryIs(m, os, walk, j);
    EntryIs(m, os + [o], walk, j);
    assert forall x :: d(x) == if x == w && Wins(os, allDay, o) then Some(o) else c(x);
    if !allDay && j != h { TurnedElsewhere(c, d, walk, w, w, h, j); }
  }

  /** And the overrides on their own: it is one, if no start has its key; and a DATE override with no heir. */
  lemma OverrideAddedOnTheirOwn(m: Master, os: seq<Override>, walk: seq<Time>, o: Override, h: nat, x: Key)
    requires Walked(m, walk) && o.rid.isDate == m.start.isDate
    requires OnlyStart(walk, m.start.isDate, KeyOf(o.rid, m.start.isDate), h)
    ensures OnItsOwn(m, os + [o], walk, x) ==
            if x == KeyOf(o.rid, m.start.isDate) && h >= |walk| && Wins(os, m.start.isDate, o) then Some(o)
            else if !m.start.isDate && Freed(Counted(os, false), walk, h, x) then Current(os, false, x)
            else OnItsOwn(m, os, walk, x)
  {
    var (allDay, w) := (m.start.isDate, KeyOf(o.rid, m.start.isDate));
    var (c, d) := (Counted(os, allDay), Counted(os + [o], allDay));
    Appended(os, allDay, o);
    assert forall y :: d(y) == if y == w && Wins(os, allDay, o) then Some(o) else c(y);
    if x == w {
      assert forall t :: 0 <= t < |walk| ==> (Wants(c, allDay, walk[t], x) <==> t == h);
      assert forall t :: 0 <= t < |walk| ==> (Wants(d, allDay, walk[t], x) <==> t == h);
    } else if allDay {
      assert Wanted(d, allDay, walk, x) <==> Wanted(c, allDay, walk, x) by {
        assert forall t :: Wants(d, allDay, t, x) <==> Wants(c, allDay, t, x);
      }
    } else {
      TurnedAlone(c, d, walk, w, w, h, x);
    }
  }

  /** The override a write makes where there was none. */
  function Made(m: Master, os: seq<Override>, found: FoundOccurrence): Override
    requires found.range.Some? ==> found.range.value < |os|
  {
    var time := OriginalStart(m, found.wall, found.isDate);
    if found.range.None? then OverrideFrom(m, time) else OverrideFromRange(os[found.range.value], time)
  }

  /**
   * An occurrence with no override, written under its own key: it becomes the
   * patch of what is made for it, every other lists as it did, and none is
   * added.
   */
  lemma PatchByNewOverride(m: Master, os: seq<Override>, walk: seq<Time>, k: nat, patch: Patch, gaveUp: bool, j: nat)
    requires Addressable(m, os, walk, k) && j < |walk| && KeyKept(m, walk[k])
    requires Addressed(m, os, walk, k, gaveUp).current.None?
    ensures var found := Addressed(m, os, walk, k, gaveUp);
            var os' := Patched(m, os, found, patch);
            && os'.Some?
            && EntryAt(m, os'.value, walk, j) ==
               (if j == k then EntryOf(Apply(Made(m, os, found), patch)) else EntryAt(m, os, walk, j))
            && SameOnTheirOwn(m, os, os'.value, walk)
  {
    var made := Apply(Made(m, os, Addressed(m, os, walk, k, gaveUp)), patch);
    MadeIsWritten(m, os, walk, k, gaveUp, patch);
    OwnKeys(m, walk);
    OverrideAdded(m, os, walk, made, k, j);
    forall x ensures OnItsOwn(m, os + [made], walk, x) == OnItsOwn(m, os, walk, x) {
      OverrideAddedOnTheirOwn(m, os, walk, made, k, x);
    }
  }

  /** The override made is appended, written as the start it is for, and reaches nothing else. */
  lemma MadeIsWritten(m: Master, os: seq<Override>, walk: seq<Time>, k: nat, gaveUp: bool, patch: Patch)
    requires k < |walk| && Addressed(m, os, walk, k, gaveUp).current.None?
    ensures var found := Addressed(m, os, walk, k, gaveUp);
            var made := Apply(Made(m, os, found), patch);
            && Patched(m, os, found, patch) == Some(os + [made]) && made.rid == InSeries(m, walk[k]) && !made.range
            && Unnamed(os, m.start.isDate, KeyOf(walk[k], m.start.isDate))
            && (!m.start.isDate ==> Unnamed(os, false, OnDay(DayOf(walk[k]))))
  {
  }

  /**
   * Written under another key, that of the start `h` or of none, it keeps
   * listing as it did, and so does every other but `h`, and one that comes into
   * a DATE override `h` had taken.
   */
  lemma PatchMissesItsStart(m: Master, os: seq<Override>, walk: seq<Time>, k: nat, patch: Patch, gaveUp: bool, h: nat,
                            j: nat)
    requires Addressable(m, os, walk, k) && j < |walk| && j != h && !m.start.isDate && !KeyKept(m, walk[k])
    requires Addressed(m, os, walk, k, gaveUp).current.None?
    requires OnlyStart(walk, false, KeyOf(InSeries(m, walk[k]), false), h)
    ensures var (os', c) := (Patched(m, os, Addressed(m, os, walk, k, gaveUp), patch), Counted(os, false));
            && os'.Some?
            && EntryAt(m, os'.value, walk, j) ==
               (if h < |walk| && Took(c, walk, h) && Heir(c, walk, h, j)
                then EntryOf(Current(os, false, OnDay(DayOf(walk[h]))).value) else EntryAt(m, os, walk, j))
            && (j == k ==> EntryAt(m, os'.value, walk, j) == EntryAt(m, os, walk, j))
  {
    MadeIsWritten(m, os, walk, k, gaveUp, patch);
    OverrideAdded(m, os, walk, Apply(Made(m, os, Addressed(m, os, walk, k, gaveUp)), patch), h, j);
  }

  /** That one is replaced instead, exactly unless an override of its own has a higher SEQUENCE. */
  lemma PatchGoesToAnother(m: Master, os: seq<Override>, walk: seq<Time>, k: nat, patch: Patch, gaveUp: bool, h: nat)
    requires Addressable(m, os, walk, k) && h < |walk| && Addressed(m, os, walk, k, gaveUp).current.None?
    requires KeyOf(walk[h], m.start.isDate) == KeyOf(InSeries(m, walk[k]), m.start.isDate)
    ensures var found := Addressed(m, os, walk, k, gaveUp);
            var (os', made) := (Patched(m, os, found, patch), Apply(Made(m, os, found), patch));
            && os'.Some?
            && (MatchOf(os'.value, m.start.isDate, walk, h) == Some(|os|) <==> Wins(os, m.start.isDate, made))
            && EntryAt(m, os'.value, walk, h) ==
               if Wins(os, m.start.isDate, made) then EntryOf(made) else EntryAt(m, os, walk, h)
  {
    MadeIsWritten(m, os, walk, k, gaveUp, patch);
    OwnKeys(m, walk);
    var made := Apply(Made(m, os, Addressed(m, os, walk, k, gaveUp)), patch);
    OverrideAdded(m, os, walk, made, h, h);
    assert (os + [made])[..|os|] == os;
  }

  /**
   * And the overrides on their own: the one made is one more where no start has
   * the key written, or instead of one there; and so is the DATE override `h`
   * had taken, where no start comes into it.
   */
  lemma PatchAddsOne(m: Master, os: seq<Override>, walk: seq<Time>, k: nat, patch: Patch, gaveUp: bool, h: nat, x: Key)
    requires Addressable(m, os, walk, k) && !m.start.isDate && !KeyKept(m, walk[k])
    requires Addressed(m, os, walk, k, gaveUp).current.None?
    requires OnlyStart(walk, false, KeyOf(InSeries(m, walk[k]), false), h)
    ensures var found := Addressed(m, os, walk, k, gaveUp);
            var (os', made) := (Patched(m, os, found, patch), Apply(Made(m, os, found), patch));
            && os'.Some?
            && OnItsOwn(m, os'.value, walk, x) ==
               (if x == KeyOf(made.rid, false) && h >= |walk| && Wins(os, false, made) then Some(made)
                else if Freed(Counted(os, false), walk, h, x) then Current(os, false, x)
                else OnItsOwn(m, os, walk, x))
            && (OnItsOwn(m, os, walk, x).None? && OnItsOwn(m, os'.value, walk, x).Some? <==>
                || (x == KeyOf(made.rid, false) && h >= |walk| && Unnamed(os, false, x))
                || Freed(Counted(os, false), walk, h, x))
  {
    MadeIsWritten(m, os, walk, k, gaveUp, patch);
    var made := Apply(Made(m, os, Addressed(m, os, walk, k, gaveUp)), patch);
    OverrideAddedOnTheirOwn(m, os, walk, made, h, x);
    var c := Counted(os, false);
    if x == KeyOf(made.rid, false) {
      assert forall t :: 0 <= t < |walk| ==> (Wants(c, false, walk[t], x) <==> t == h);
    }
    if Freed(c, walk, h, x) { assert Wants(c, false, walk[h], x); }
  }

  /**
   * So the occurrence is replaced by the override made for it exactly if that
   * has its key, whatever zone it is stored in.
   */
  lemma StartReplacedIff(m: Master, os: seq<Override>, walk: seq<Time>, k: nat, patch: Patch, gaveUp: bool)
    requires Addressable(m, os, walk, k) && Addressed(m, os, walk, k, gaveUp).current.None?
    ensures var os' := Patched(m, os, Addressed(m, os, walk, k, gaveUp), patch);
            os'.Some? && (MatchOf(os'.value, m.start.isDate, walk, k) == Some(|os|) <==> KeyKept(m, walk[k]))
  {
    MadeIsWritten(m, os, walk, k, gaveUp, patch);
    var made := Apply(Made(m, os, Addressed(m, os, walk, k, gaveUp)), patch);
    assert (os + [made])[..|os|] == os;
  }

  /** Two entries are shown alike: at the same instants, with the same properties. */
  ghost predicate ShownAlike(e: Entry, e': Entry) {
    InstantOf(e'.start) == InstantOf(e.start) && InstantOf(e'.end) == InstantOf(e.end) && e'.props == e.props
  }

  /**
   * What the override is made from is what was listed: for one a RANGE override
   * reaches, exactly where the start is written with the clock time it has; for
   * any other, where it is written with its instant and its end, a PERIOD's own
   * or the length added to the clock time written, names the same instant.
   */
  lemma MadeIsListedIff(m: Master, os: seq<Override>, walk: seq<Time>, k: nat, gaveUp: bool)
    requires Addressable(m, os, walk, k) && Addressed(m, os, walk, k, gaveUp).current.None?
    ensures var found := Addressed(m, os, walk, k, gaveUp);
            var (e, made, key) := (EntryAt(m, os, walk, k), EntryOf(Made(m, os, found)),
                                   KeyOf(walk[k], m.start.isDate));
            var length := DurationOf(m.start, m.length);
            if found.range.Some? then made == e <==> InSeriesZone(m, walk[k]) == walk[k].wall
            else
              ShownAlike(e, made) <==>
              && InstantKept(m, walk[k])
              && InstantOf(if key in m.periods then EndOf(walk[k], m.periods[key]) else Plus(walk[k], length))
                 == InstantOf(Plus(InSeries(m, walk[k]), length))
  {
  }

  // ---------------------------------------------------------------------
  // Deleting one occurrence
  // ---------------------------------------------------------------------

  /** The EXDATE takes exactly that start out of the walk. */
  lemma {:induction false} EmittedWithout(starts: seq<Time>, exdates: seq<Time>, e: Time, k: nat)
    requires Increasing(starts) && k < |Emitted(starts, exdates)|
    requires InstantOf(e) == InstantOf(Emitted(starts, exdates)[k])
    ensures Emitted(starts, exdates + [e]) == Without(Emitted(starts, exdates), k)
    decreases starts
  {
    var (first, tail) := (starts[0], starts[1..]);
    assert starts == [first] + tail;
    EmittedStep(first, tail, exdates);
    EmittedStep(first, tail, exdates + [e]);
    ExcludedByOneMore(exdates, e, first);
    var rest := Emitted(tail, exdates);
    if ExcludedBy(exdates, first) {
      EmittedWithout(tail, exdates, e, k);
    } else if k == 0 {
      EmittedPastHead(first, tail, exdates, e);
      WithoutFirst(first, rest);
    } else {
      assert ([first] + rest)[k] == rest[k - 1];
      EmittedPastFirst(first, tail, exdates, e, k - 1);
      EmittedWithout(tail, exdates, e, k - 1);
      WithoutLater(first, rest, k - 1);
    }
  }

  lemma EmittedStep(first: Time, tail: seq<Time>, exdates: seq<Time>)
    ensures Emitted([first] + tail, exdates) ==
            (if ExcludedBy(exdates, first) then [] else [first]) + Emitted(tail, exdates)
    ensures Increasing([first] + tail) ==> Increasing(tail)
  {
    assert ([first] + tail)[1..] == tail;
  }

  lemma EmittedPastHead(first: Time, tail: seq<Time>, exdates: seq<Time>, e: Time)
    requires Increasing([first] + tail) && InstantOf(e) == InstantOf(first)
    ensures Emitted(tail, exdates + [e]) == Emitted(tail, exdates)
  {
    forall j | 0 <= j < |tail| ensures InstantOf(tail[j]) != InstantOf(e) {
      assert ([first] + tail)[j + 1] == tail[j] && ([first] + tail)[0] == first;
    }
    EmittedUntouched(tail, exdates, e);
  }

  lemma WithoutFirst(first: Time, rest: seq<Time>)
    ensures Without([first] + rest, 0) == rest
  {
  }

  lemma WithoutLater(first: Time, rest: seq<Time>, k: nat)
    requires k < |rest|
    ensures Without([first] + rest, k + 1) == [first] + Without(rest, k)
  {
    assert ([first] + rest)[..k + 1] == [first] + rest[..k];
    assert ([first] + rest)[k + 2..] == rest[k + 1..];
  }

  lemma EmittedPastFirst(first: Time, tail: seq<Time>, exdates: seq<Time>, e: Time, k: nat)
    requires Increasing([first] + tail) && Increasing(tail) && k < |Emitted(tail, exdates)|
    requires InstantOf(e) == InstantOf(Emitted(tail, exdates)[k])
    ensures InstantOf(first) != InstantOf(e)
  {
    assert Emitted(tail, exdates)[k] in tail;
    var h :| 0 <= h < |tail| && tail[h] == Emitted(tail, exdates)[k];
    assert ([first] + tail)[h + 1] == tail[h] && ([first] + tail)[0] == first;
  }

  lemma ExcludedByOneMore(exdates: seq<Time>, e: Time, t: Time)
    ensures ExcludedBy(exdates + [e], t) <==> ExcludedBy(exdates, t) || InstantOf(e) == InstantOf(t)
  {
    if i :| 0 <= i < |exdates| && InstantOf(exdates[i]) == InstantOf(t) {
      assert (exdates + [e])[i] == exdates[i];
    }
    assert (exdates + [e])[|exdates|] == e;
  }

  lemma {:induction false} EmittedUntouched(starts: seq<Time>, exdates: seq<Time>, e: Time)
    requires forall j :: 0 <= j < |starts| ==> InstantOf(starts[j]) != InstantOf(e)
    ensures Emitted(starts, exdates + [e]) == Emitted(starts, exdates)
    decreases starts
  {
    if starts != [] {
      ExcludedByOneMore(exdates, e, starts[0]);
      EmittedUntouched(starts[1..], exdates, e);
    }
  }

  lemma CurrentAppended(os: seq<Override>, o: Override, allDay: bool, x: Key)
    ensures Current(os + [o], allDay, x) ==
      (var held := Current(os, allDay, x);
       if KeyOf(o.rid, allDay) == x && (held.None? || o.sequence >= held.value.sequence) then Some(o) else held)
  {
    assert (os + [o])[..|os|] == os;
  }

  /** Every other key is looked up as it was; the key removed not at all. */
  lemma {:induction false} RemovedLookups(os: seq<Override>, allDay: bool, key: Key, keep: Option<nat>, x: Key)
    requires x == key ==> keep.None? || keep.value >= |os| || KeyOf(os[keep.value].rid, allDay) != key
    ensures Current(RemoveKey(os, allDay, key, keep), allDay, x) == if x == key then None else Current(os, allDay, x)
    decreases os
  {
    if os != [] {
      var (init, o) := (os[..|os| - 1], os[|os| - 1]);
      assert os == init + [o];
      RemovedLookups(init, allDay, key, keep, x);
      RemoveStep(init, o, allDay, key, keep);
      CurrentAppended(init, o, allDay, x);
      CurrentAppended(RemoveKey(init, allDay, key, keep), o, allDay, x);
    }
  }

  /** But for the one that stays. */
  lemma {:induction false} KeptLookup(os: seq<Override>, allDay: bool, key: Key, i: nat)
    requires i < |os| && KeyOf(os[i].rid, allDay) == key
    ensures Current(RemoveKey(os, allDay, key, Some(i)), allDay, key) == Some(os[i])
    decreases os
  {
    var (init, o) := (os[..|os| - 1], os[|os| - 1]);
    assert os == init + [o];
    RemoveStep(init, o, allDay, key, Some(i));
    CurrentAppended(RemoveKey(init, allDay, key, Some(i)), o, allDay, key);
    if i == |init| {
      RemovedLookups(init, allDay, key, Some(i), key);
    } else {
      KeptLookup(init, allDay, key, i);
    }
  }

  lemma GoverningAppended(os: seq<Override>, o: Override, at: int)
    ensures Governing(os + [o], at) ==
      (var best := Governing(os, at);
       if o.range && InstantOf(o.rid) <= at && (best.None? || InstantOf(o.rid) >= InstantOf(best.value.rid))
         then Some(o) else best)
    ensures GoverningIndex(os + [o], at) ==
      (var best := Governing(os, at);
       if o.range && InstantOf(o.rid) <= at && (best.None? || InstantOf(o.rid) >= InstantOf(best.value.rid))
         then Some(|os|) else GoverningIndex(os, at))
  {
    assert (os + [o])[..|os|] == os;
  }

  /** What reaches `at` is removed with the key. */
  ghost predicate Losing(os: seq<Override>, allDay: bool, key: Key, keep: Option<nat>, at: int) {
    var g := GoverningIndex(os, at);
    g.Some? && KeyOf(os[g.value].rid, allDay) == key && keep != g
  }

  /** Unless it is, what reached it does still. */
  lemma {:induction false} RemovedGoverning(os: seq<Override>, allDay: bool, key: Key, keep: Option<nat>, at: int)
    ensures !Losing(os, allDay, key, keep, at) ==> Governing(RemoveKey(os, allDay, key, keep), at) == Governing(os, at)
    ensures Governing(RemoveKey(os, allDay, key, keep), at).Some? ==>
              && Governing(os, at).Some?
              && InstantOf(Governing(RemoveKey(os, allDay, key, keep), at).value.rid)
                 <= InstantOf(Governing(os, at).value.rid)
    decreases os
  {
    if os != [] {
      var (init, o) := (os[..|os| - 1], os[|os| - 1]);
      assert os == init + [o];
      RemovedGoverning(init, allDay, key, keep, at);
      RemoveStep(init, o, allDay, key, keep);
      GoverningAppended(init, o, at);
      GoverningAppended(RemoveKey(init, allDay, key, keep), o, at);
    }
  }

  /**
   * The overrides of the key the `k`th start is addressed by gone with it: a
   * start none of those replaced is replaced as it was, and one that one did is
   * by none; and every override on its own stays so.
   */
  lemma RemovedWithStart(m: Master, os: seq<Override>, walk: seq<Time>, k: nat, j: nat)
    requires Walked(m, walk) && k < |walk| && j < |walk| && j != k
    ensures var (allDay, c) := (m.start.isDate, Counted(os, m.start.isDate));
            var key := AddressedKey(os, allDay, walk[k]);
            Replaced(Counted(RemoveKey(os, allDay, key, None), allDay), allDay, Without(walk, k), After(k, j)) ==
            if KeyOf(walk[j], allDay) != key && Wants(c, allDay, walk[j], key) then None
              else Replaced(c, allDay, walk, j)
  {
    var (allDay, c) := (m.start.isDate, Counted(os, m.start.isDate));
    var key := AddressedKey(os, allDay, walk[k]);
    LookedUpWithout(m, os, walk, k);
    RemovedElsewhere(c, Counted(RemoveKey(os, allDay, key, None), allDay), allDay, walk, k, key, j);
  }

  lemma LookedUpWithout(m: Master, os: seq<Override>, walk: seq<Time>, k: nat)
    requires Walked(m, walk) && k < |walk|
    ensures var (allDay, c) := (m.start.isDate, Counted(os, m.start.isDate));
            var key := AddressedKey(os, allDay, walk[k]);
            var d := Counted(RemoveKey(os, allDay, key, None), allDay);
            && (forall x :: x != key ==> d(x) == c(x)) && d(key).None? && AddressedUnder(c, allDay, walk[k], key)
            && forall t :: 0 <= t < |walk| && t != k ==> KeyOf(walk[t], allDay) != KeyOf(walk[k], allDay)
  {
    var allDay := m.start.isDate;
    var key := AddressedKey(os, allDay, walk[k]);
    forall x ensures Current(RemoveKey(os, allDay, key, None), allDay, x) ==
                       if x == key then None else Current(os, allDay, x)
    {
      RemovedLookups(os, allDay, key, None, x);
    }
    OwnKeys(m, walk);
  }

  /** The master once the occurrence at `e` was deleted. */
  function Excluding(m: Master, e: Time): Master {
    m.(exdates := m.exdates + [e], sequence := m.sequence + 1)
  }

  /**
   * The series without its `k`th start: the walk is one start shorter, nothing
   * is left under its key, and what is on its own is what was.
   */
  ghost predicate Gone(m: Master, os: seq<Override>, os': seq<Override>, walk: seq<Time>, k: nat, key: Key)
    requires k < |walk|
  {
    var m' := Excluding(m, InSeries(m, walk[k]));
    && Emitted(m'.starts, m'.exdates) == Without(walk, k)
    && Unnamed(os', m.start.isDate, key)
    && forall x :: OnItsOwn(m', os', Without(walk, k), x) == OnItsOwn(m, os, walk, x)
  }

  /** The series' own starts, walked. */
  ghost predicate Emits(m: Master, walk: seq<Time>) {
    Increasing(m.starts) && walk == Emitted(m.starts, m.exdates)
  }

  lemma {:induction false} RemovedIsGone(m: Master, os: seq<Override>, walk: seq<Time>, k: nat)
    requires Walked(m, walk) && k < |walk| && Emits(m, walk) && InstantKept(m, walk[k])
    ensures var key := AddressedKey(os, m.start.isDate, walk[k]);
            Gone(m, os, RemoveKey(os, m.start.isDate, key, None), walk, k, key)
  {
    var (allDay, c) := (m.start.isDate, Counted(os, m.start.isDate));
    var key := AddressedKey(os, allDay, walk[k]);
    EmittedWithout(m.starts, m.exdates, InSeries(m, walk[k]), k);
    RemovedLookups(os, allDay, key, None, key);
    LookedUpWithout(m, os, walk, k);
    forall x ensures OnItsOwn(Excluding(m, InSeries(m, walk[k])), RemoveKey(os, allDay, key, None), Without(walk, k), x)
                     == OnItsOwn(m, os, walk, x)
    {
      RemovedAlone(c, Counted(RemoveKey(os, allDay, key, None), allDay), allDay, walk, k, key, x);
    }
  }

  /**
   * The EXDATE written for a start takes exactly the starts at its instant:
   * that start if and only if it is written with its own.
   */
  lemma DeletedIff(m: Master, walk: seq<Time>, k: nat)
    requires walk == Emitted(m.starts, m.exdates) && k < |walk|
    ensures var m' := Excluding(m, InSeries(m, walk[k]));
            && (forall t :: t in Emitted(m'.starts, m'.exdates) <==>
                t in walk && InstantOf(t) != InstantOf(InSeries(m, walk[k])))
            && (walk[k] !in Emitted(m'.starts, m'.exdates) <==> InstantKept(m, walk[k]))
  {
    forall t ensures ExcludedBy(m.exdates + [InSeries(m, walk[k])], t) <==>
        ExcludedBy(m.exdates, t) || InstantOf(InSeries(m, walk[k])) == InstantOf(t)
    {
      ExcludedByOneMore(m.exdates, InSeries(m, walk[k]), t);
    }
  }

  /**
   * Deleting an occurrence no change to "this and all following" begins at:
   * its start and its overrides are gone, every other lists as it did, or, where
   * one of the revisions removed is what reached it, as the rest give it; and
   * what is on its own is what was.
   */
  lemma {:induction false} DeleteFrame(m: Master, os: seq<Override>, walk: seq<Time>, k: nat, gaveUp: bool, j: nat)
    requires Addressable(m, os, walk, k) && j < |walk| && j != k
    requires Emits(m, walk) && InstantKept(m, walk[k])
    requires var found := Addressed(m, os, walk, k, gaveUp);
             found.current.Some? ==> !os[found.current.value].range
    ensures var found := Addressed(m, os, walk, k, gaveUp);
            var os' := OccurrenceEdit.Remaining(m, os, found);
            && os'.Some? && Gone(m, os, os'.value, walk, k, found.key)
            && var e := EntryAt(Excluding(m, InSeries(m, walk[k])), os'.value, Without(walk, k), After(k, j));
               if MatchOf(os, m.start.isDate, walk, j).Some?
                  || !Losing(os, m.start.isDate, found.key, None, InstantOf(walk[j]))
               then e == EntryAt(m, os, walk, j)
               else e == UnmatchedEntry(m, os'.value, m.start.isDate, walk[j])
  {
    RemovedIsGone(m, os, walk, k);
    var found := Addressed(m, os, walk, k, gaveUp);
    if found.current.Some? { MetOnlyOnceBy(m, os, walk, k, gaveUp, j); }
    DeletedElsewhere(m, os, walk, k, j);
  }

  /** What the other start is replaced by is not of the key addressed. */
  lemma MetOnlyOnceBy(m: Master, os: seq<Override>, walk: seq<Time>, k: nat, gaveUp: bool, j: nat)
    requires Addressable(m, os, walk, k) && j < |walk| && j != k && Addressed(m, os, walk, k, gaveUp).current.Some?
    ensures MatchOf(os, m.start.isDate, walk, j) != Addressed(m, os, walk, k, gaveUp).current
  {
    AddressingAgreesIff(m, os, walk, k, gaveUp);
    MetOnlyOnce(m, os, walk, k, Addressed(m, os, walk, k, gaveUp).current.value, j);
  }

  /** Where `j` is listed by no override of the key, it lists as it did. */
  lemma DeletedElsewhere(m: Master, os: seq<Override>, walk: seq<Time>, k: nat, j: nat)
    requires Walked(m, walk) && k < |walk| && j < |walk| && j != k
    ensures var (allDay, key) := (m.start.isDate, AddressedKey(os, m.start.isDate, walk[k]));
            var (o, m') := (MatchOf(os, allDay, walk, j), Excluding(m, InSeries(m, walk[k])));
            var e := EntryAt(m', RemoveKey(os, allDay, key, None), Without(walk, k), After(k, j));
            if o.Some? && o == CurrentIndex(os, allDay, key)
            then e == UnmatchedEntry(m, RemoveKey(os, allDay, key, None), allDay, walk[j])
            else
              && (o.Some? || !Losing(os, allDay, key, None, InstantOf(walk[j])) ==> e == EntryAt(m, os, walk, j))
              && (o.None? ==> e == UnmatchedEntry(m, RemoveKey(os, allDay, key, None), allDay, walk[j]))
  {
    var (allDay, key) := (m.start.isDate, AddressedKey(os, m.start.isDate, walk[k]));
    var os' := RemoveKey(os, allDay, key, None);
    RemovedWithStart(m, os, walk, k, j);
    RemovedGoverning(os, allDay, key, None, InstantOf(walk[j]));
    WithoutAt(walk, k, j);
    ReplacedIs(os, allDay, walk, j);
    EntryIs(m, os, walk, j);
    EntryIs(Excluding(m, InSeries(m, walk[k])), os', Without(walk, k), After(k, j));
    OwnKeys(m, walk);
  }

  /**
   * Deleting a second start of a day whose DATE override an earlier one took:
   * the start goes, and that override with it, so the earlier one, which nobody
   * addressed, goes back to what the series gives it. It does exactly where the
   * start deleted is such a one.
   */
  lemma {:induction false} DeleteUndoesTheFirst(m: Master, os: seq<Override>, walk: seq<Time>, k: nat, gaveUp: bool,
                                                j: nat)
    returns (first: nat)
    requires Walked(m, walk) && k < |walk| && j < |walk| && j != k && Emits(m, walk) && InstantKept(m, walk[k])
    requires var found := Addressed(m, os, walk, k, gaveUp); found.current.Some? && !os[found.current.value].range
    ensures first <= k && (first == k <==> !SecondOfItsDay(os, m.start.isDate, walk, k))
    ensures var found := Addressed(m, os, walk, k, gaveUp);
            var os' := OccurrenceEdit.Remaining(m, os, found);
            && os'.Some? && Gone(m, os, os'.value, walk, k, found.key)
            && EntryAt(m, os, walk, first) == EntryOf(os[found.current.value])
            && var e := EntryAt(Excluding(m, InSeries(m, walk[k])), os'.value, Without(walk, k), After(k, j));
               if j != first && (MatchOf(os, m.start.isDate, walk, j).Some?
                                 || !Losing(os, m.start.isDate, found.key, None, InstantOf(walk[j])))
               then e == EntryAt(m, os, walk, j)
               else e == UnmatchedEntry(m, os'.value, m.start.isDate, walk[j])
  {
    var found := Addressed(m, os, walk, k, gaveUp);
    first := FirstToMeet(m, os, walk, k, gaveUp);
    RemovedIsGone(m, os, walk, k);
    MetOnlyOnce(m, os, walk, first, found.current.value, j);
    DeletedElsewhere(m, os, walk, k, j);
  }

  // ---------------------------------------------------------------------
  // An override on its own
  // ---------------------------------------------------------------------

  /** It is addressed by its own RECURRENCE-ID; with a RANGE, a write at it is refused. */
  lemma OnItsOwnRefusedIff(m: Master, os: seq<Override>, i: nat, patch: Patch)
    requires i < |os|
    ensures Patched(m, os, Orphaned(m, os, i), patch).None? <==> os[i].range
    ensures Remaining(m, os, Orphaned(m, os, i)).None? <==> os[i].range
  {
  }

  /** Patched, it is the patch of what was listed; every start lists as it did, and so does every other on its own. */
  lemma PatchOnItsOwn(m: Master, os: seq<Override>, walk: seq<Time>, i: nat, patch: Patch, j: nat)
    requires Walked(m, walk) && Counts(os, m.start.isDate, i) && !os[i].range
    requires !MetBy(os, m.start.isDate, walk, |walk|, i)
    ensures var (os', key) := (Patched(m, os, Orphaned(m, os, i), patch), KeyOf(os[i].rid, m.start.isDate));
            && os'.Some?
            && (j < |walk| ==> EntryAt(m, os'.value, walk, j) == EntryAt(m, os, walk, j))
            && OnItsOwn(m, os, walk, key) == Some(os[i])
            && forall x :: OnItsOwn(m, os'.value, walk, x) ==
                           if x == key then Some(Apply(os[i], patch)) else OnItsOwn(m, os, walk, x)
  {
    var o := Apply(os[i], patch);
    OnItsOwnIff(m, os, walk, i);
    if j < |walk| { Edited(m, os, walk, i, o, j); }
    forall x ensures OnItsOwn(m, os[i := o], walk, x) ==
                       if x == KeyOf(o.rid, m.start.isDate) then Some(o) else OnItsOwn(m, os, walk, x)
    {
      EditedOnTheirOwn(m, os, walk, i, o, x);
    }
  }

  /** The start an EXDATE at `e` takes is `h`, or it takes none. */
  ghost predicate Takes(walk: seq<Time>, e: Time, h: nat) {
    && (h < |walk| ==> InstantOf(walk[h]) == InstantOf(e))
    && forall t :: 0 <= t < |walk| && t != h ==> InstantOf(walk[t]) != InstantOf(e)
  }

  function WithoutAny(walk: seq<Time>, h: nat): seq<Time> {
    if h < |walk| then Without(walk, h) else walk
  }

  lemma {:induction false} EmittedUnmet(starts: seq<Time>, exdates: seq<Time>, e: Time)
    requires forall t :: t in Emitted(starts, exdates) ==> InstantOf(t) != InstantOf(e)
    ensures Emitted(starts, exdates + [e]) == Emitted(starts, exdates)
    decreases starts
  {
    if starts != [] {
      var (first, tail) := (starts[0], starts[1..]);
      assert starts == [first] + tail;
      EmittedStep(first, tail, exdates);
      ExcludedByOneMore(exdates, e, first);
      assert forall t :: t in Emitted(tail, exdates) ==> t in Emitted(starts, exdates);
      EmittedUnmet(tail, exdates, e);
    }
  }

  lemma ExdateTakes(m: Master, walk: seq<Time>, e: Time, h: nat)
    requires Emits(m, walk) && Takes(walk, e, h)
    ensures Emitted(m.starts, m.exdates + [e]) == WithoutAny(walk, h)
  {
    if h < |walk| {
      EmittedWithout(m.starts, m.exdates, e, h);
    } else {
      EmittedUnmet(m.starts, m.exdates, e);
    }
  }

  /**
   * Deleted, it is gone, and so is every revision of it; the EXDATE written
   * takes no start, and everything else lists as it did, exactly where no start
   * is at the instant written. A start `h` that is goes with it.
   */
  lemma {:induction false} DeleteOnItsOwnIff(m: Master, os: seq<Override>, walk: seq<Time>, i: nat, h: nat)
    requires Walked(m, walk) && Emits(m, walk) && Counts(os, m.start.isDate, i) && !os[i].range
    requires !MetBy(os, m.start.isDate, walk, |walk|, i) && Takes(walk, InSeries(m, os[i].rid), h)
    ensures var (os', key) := (Remaining(m, os, Orphaned(m, os, i)), KeyOf(os[i].rid, m.start.isDate));
            var m' := Excluding(m, InSeries(m, os[i].rid));
            && os'.Some? && Unnamed(os'.value, m.start.isDate, key)
            && Emitted(m'.starts, m'.exdates) == WithoutAny(walk, h)
            && (Emitted(m'.starts, m'.exdates) == walk <==> h >= |walk|)
            && (h >= |walk| ==>
                  forall x :: OnItsOwn(m', os'.value, walk, x) == if x == key then None else OnItsOwn(m, os, walk, x))
    ensures !os[i].rid.isDate && KeyKept(m, os[i].rid) && !m.start.isDate ==> h >= |walk|
  {
    var (allDay, key) := (m.start.isDate, KeyOf(os[i].rid, m.start.isDate));
    ExdateTakes(m, walk, InSeries(m, os[i].rid), h);
    RemovedLookups(os, allDay, key, None, key);
    MetIff(os, allDay, walk, i);
    UnwantedHere(m, os, walk, key);
    assert h < |walk| ==> !Wants(Counted(os, allDay), allDay, walk[h], key);
  }

  lemma UnwantedHere(m: Master, os: seq<Override>, walk: seq<Time>, key: Key)
    requires !Wanted(Counted(os, m.start.isDate), m.start.isDate, walk, key)
    ensures var (allDay, os') := (m.start.isDate, RemoveKey(os, m.start.isDate, key, None));
            var (c, d) := (Counted(os, allDay), Counted(os', allDay));
            && (forall x :: x != key ==> d(x) == c(x)) && d(key).None?
            && (forall j :: 0 <= j < |walk| ==> Replaced(d, allDay, walk, j) == Replaced(c, allDay, walk, j))
            && (forall x :: OnItsOwn(m, os', walk, x) == if x == key then None else OnItsOwn(m, os, walk, x))
  {
    var (allDay, os') := (m.start.isDate, RemoveKey(os, m.start.isDate, key, None));
    forall x ensures Current(os', allDay, x) == if x == key then None else Current(os, allDay, x) {
      RemovedLookups(os, allDay, key, None, x);
    }
    UnwantedElsewhere(Counted(os, allDay), Counted(os', allDay), allDay, walk, key);
  }

  /**
   * What the starts list as then: each as it did, unless it loses what reached
   * it, or comes into a DATE override that the start taken with it had.
   */
  lemma {:induction false} DeleteOnItsOwnStarts(m: Master, os: seq<Override>, walk: seq<Time>, i: nat, h: nat, j: nat)
    requires Walked(m, walk) && Counts(os, m.start.isDate, i) && !os[i].range && j < |walk| && j != h
    requires !MetBy(os, m.start.isDate, walk, |walk|, i)
    ensures var (allDay, key) := (m.start.isDate, KeyOf(os[i].rid, m.start.isDate));
            var (os', m') := (RemoveKey(os, allDay, key, None), Excluding(m, InSeries(m, os[i].rid)));
            var e := EntryAt(m', os', WithoutAny(walk, h), if h < |walk| then After(h, j) else j);
            var c := Counted(os', allDay);
            && Remaining(m, os, Orphaned(m, os, i)) == Some(os')
            && if h < |walk| && !allDay && Took(c, walk, h) && Heir(c, walk, h, j)
               then e == EntryOf(c(OnDay(DayOf(walk[h]))).value)
               else if MatchOf(os, allDay, walk, j).Some? || !Losing(os, allDay, key, None, InstantOf(walk[j]))
               then e == EntryAt(m, os, walk, j)
               else e == UnmatchedEntry(m, os', allDay, walk[j])
  {
    var (allDay, key) := (m.start.isDate, KeyOf(os[i].rid, m.start.isDate));
    var (os', m') := (RemoveKey(os, allDay, key, None), Excluding(m, InSeries(m, os[i].rid)));
    MetIff(os, allDay, walk, i);
    UnwantedHere(m, os, walk, key);
    RemovedGoverning(os, allDay, key, None, InstantOf(walk[j]));
    ReplacedIs(os, allDay, walk, j);
    EntryIs(m, os, walk, j);
    if h < |walk| {
      WithoutAt(walk, h, j);
      DroppedElsewhere(Counted(os', allDay), allDay, walk, h, j);
      EntryIs(m', os', Without(walk, h), After(h, j));
    } else {
      EntryIs(m', os', walk, j);
    }
  }

  /** And what is on its own: everything but it, and what replaced the start taken with it. */
  lemma {:induction false} DeleteOnItsOwnOthers(m: Master, os: seq<Override>, walk: seq<Time>, i: nat, h: nat, x: Key)
    requires Walked(m, walk) && Counts(os, m.start.isDate, i) && !os[i].range && h < |walk|
    requires !MetBy(os, m.start.isDate, walk, |walk|, i)
    ensures var (allDay, key) := (m.start.isDate, KeyOf(os[i].rid, m.start.isDate));
            var (os', m') := (RemoveKey(os, allDay, key, None), Excluding(m, InSeries(m, os[i].rid)));
            && Remaining(m, os, Orphaned(m, os, i)) == Some(os')
            && OnItsOwn(m', os', Without(walk, h), x) ==
               if x == key then None
               else if x == KeyOf(walk[h], allDay) || (!allDay && Freed(Counted(os', false), walk, h, x))
               then Current(os, allDay, x)
               else OnItsOwn(m, os, walk, x)
  {
    var (allDay, key) := (m.start.isDate, KeyOf(os[i].rid, m.start.isDate));
    MetIff(os, allDay, walk, i);
    UnwantedHere(m, os, walk, key);
    OwnKeys(m, walk);
    DroppedAlone(Counted(RemoveKey(os, allDay, key, None), allDay), allDay, walk, h, x);
  }

  // ---------------------------------------------------------------------
  // A deletion that misses its start
  // ---------------------------------------------------------------------

  lemma {:induction false} RemoveUnnamed(os: seq<Override>, allDay: bool, key: Key)
    requires Unnamed(os, allDay, key)
    ensures RemoveKey(os, allDay, key, None) == os
    decreases os
  {
    if os != [] {
      var (init, o) := (os[..|os| - 1], os[|os| - 1]);
      assert os == init + [o];
      RemoveUnnamed(init, allDay, key);
      RemoveStep(init, o, allDay, key, None);
    }
  }

  /**
   * An occurrence with no override whose EXDATE does not name its instant stays
   * as it was; and so does every other but the one `h` there is at the instant
   * named, and one that comes into a DATE override `h` had taken.
   */
  lemma {:induction false} DeleteMissesItsStart(m: Master, os: seq<Override>, walk: seq<Time>, k: nat, gaveUp: bool,
                                                h: nat, j: nat)
    requires Walked(m, walk) && Emits(m, walk) && k < |walk| && j < |walk| && j != h && !InstantKept(m, walk[k])
    requires Addressed(m, os, walk, k, gaveUp).current.None? && Takes(walk, InSeries(m, walk[k]), h)
    ensures var (os', c) := (Remaining(m, os, Addressed(m, os, walk, k, gaveUp)), Counted(os, m.start.isDate));
            var m' := Excluding(m, InSeries(m, walk[k]));
            && os' == Some(os) && Emitted(m'.starts, m'.exdates) == WithoutAny(walk, h)
            && EntryAt(m', os, WithoutAny(walk, h), if h < |walk| then After(h, j) else j) ==
               (if h < |walk| && !m.start.isDate && Took(c, walk, h) && Heir(c, walk, h, j)
                then EntryOf(c(OnDay(DayOf(walk[h]))).value) else EntryAt(m, os, walk, j))
            && (j == k && !m.start.isDate ==>
                  EntryAt(m', os, WithoutAny(walk, h), if h < |walk| then After(h, j) else j)
                  == EntryAt(m, os, walk, j))
  {
    var (allDay, m') := (m.start.isDate, Excluding(m, InSeries(m, walk[k])));
    RemoveUnnamed(os, allDay, Addressed(m, os, walk, k, gaveUp).key);
    ExdateTakes(m, walk, InSeries(m, walk[k]), h);
    EntryIs(m, os, walk, j);
    if h < |walk| {
      WithoutAt(walk, h, j);
      DroppedElsewhere(Counted(os, allDay), allDay, walk, h, j);
      EntryIs(m', os, Without(walk, h), After(h, j));
    } else {
      EntryIs(m', os, walk, j);
    }
  }
}
