/**
 * The occurrence a RANGE=THISANDFUTURE override starts at, changed or deleted
 * alone (`detachRangeAnchor` in src/ical-occurrence-edit.ts): the override moves
 * on to the next start, wherever that is written, and what every other
 * occurrence lists as, and what is listed on its own, is said exactly.
 */
module AnchorFrames {
  import opened Options
  import opened Series
  import opened Reader
  import opened Listing
  import opened OccurrenceEdit
  import opened OccurrenceFrames

  /** The `k`th start is where the RANGE override `i` begins. */
  ghost predicate Anchor(m: Master, os: seq<Override>, walk: seq<Time>, k: nat, i: nat) {
    && Addressable(m, os, walk, k) && i < |os| && os[i].range
    && MatchOf(os, m.start.isDate, walk, k) == Some(i)
    && KeyOf(os[i].rid, m.start.isDate) == KeyOf(walk[k], m.start.isDate)
  }

  /** There is a next start, and it has no override: the change is moved on to it. */
  ghost predicate HasNext(m: Master, os: seq<Override>, walk: seq<Time>, k: nat) {
    k + 1 < |walk| && !HasOverride(os, m.start.isDate, walk[k + 1])
  }

  /** The time it is moved on to, as it is written. */
  function NextStart(m: Master, walk: seq<Time>, k: nat): Time
    requires k + 1 < |walk|
  {
    OriginalStart(m, InSeriesZone(m, walk[k + 1]), walk[k].isDate)
  }

  /** The override as it stands then. */
  function Moved(m: Master, os: seq<Override>, walk: seq<Time>, k: nat, i: nat): Override
    requires k + 1 < |walk| && i < |os|
  {
    MovedOn(os[i], NextStart(m, walk, k))
  }

  /**
   * Moving on keeps the length: a DURATION always, a DTEND where the next
   * occurrence, as it is placed, lasts as long.
   */
  ghost predicate KeepsLength(m: Master, os: seq<Override>, walk: seq<Time>, k: nat, i: nat)
    requires k + 1 < |walk| && i < |os|
  {
    var e := Shifted(os[i], NextStart(m, walk, k));
    os[i].length.Lasting? || InstantOf(e.end) - InstantOf(e.start) == DurationOf(os[i].start, os[i].length)
  }

  // ---------------------------------------------------------------------
  // What a RANGE override reaches, wherever it begins
  // ---------------------------------------------------------------------

  /** Beginning at `from`, the override at `i` reaches `at`: no other begins there or since. */
  ghost predicate ReachedFrom(os: seq<Override>, i: nat, from: int, at: int) {
    && from <= at
    && forall h :: 0 <= h < |os| && h != i && os[h].range && InstantOf(os[h].rid) <= at ==>
         InstantOf(os[h].rid) < from || (InstantOf(os[h].rid) == from && h < i)
  }

  /** The other overrides: that one with no RANGE. */
  function Rest(os: seq<Override>, i: nat): seq<Override>
    requires i < |os|
  {
    os[i := os[i].(range := false)]
  }

  lemma GoverningWith(os: seq<Override>, i: nat, o: Override, at: int)
    requires i < |os| && o.range
    ensures Governing(os[i := o], at) ==
            if ReachedFrom(os, i, InstantOf(o.rid), at) then Some(o) else Governing(Rest(os, i), at)
  {
    var os' := os[i := o];
    if ReachedFrom(os, i, InstantOf(o.rid), at) {
      assert Governs(os', at, i);
      GoverningIs(os', at, i);
    } else {
      GoverningWithout(os, i, o, at);
    }
  }

  lemma GoverningWithout(os: seq<Override>, i: nat, o: Override, at: int)
    requires i < |os| && o.range && !ReachedFrom(os, i, InstantOf(o.rid), at)
    ensures Governing(os[i := o], at) == Governing(Rest(os, i), at)
  {
    var (os', rest) := (os[i := o], Rest(os, i));
    var g := GoverningIndex(rest, at);
    assert !rest[i].range && forall h :: 0 <= h < |os| && h != i ==> rest[h] == os[h] == os'[h];
    if g.Some? {
      assert Governs(os', at, g.value);
      GoverningIs(os', at, g.value);
    } else {
      assert Ungoverned(os', at);
    }
  }

  /** What a start with no override is listed as without that change. */
  function Otherwise(m: Master, os: seq<Override>, i: nat, t: Time): Entry
    requires i < |os|
  {
    UnmatchedEntry(m, Rest(os, i), m.start.isDate, t)
  }

  /**
   * What a start with no override lists as stays the same once the change has
   * moved on: where it was reached and is, as long as the length is kept; and
   * where it was and is not, or is and was not, only if the two come to one.
   */
  ghost predicate ReachedAlike(m: Master, os: seq<Override>, walk: seq<Time>, k: nat, i: nat, t: Time)
    requires k + 1 < |walk| && i < |os|
  {
    var was := ReachedFrom(os, i, InstantOf(os[i].rid), InstantOf(t));
    var now := ReachedFrom(os, i, InstantOf(NextStart(m, walk, k)), InstantOf(t));
    if was then
      if now then KeepsLength(m, os, walk, k, i) else Otherwise(m, os, i, t) == Shifted(os[i], t)
    else now ==> Otherwise(m, os, i, t) == Shifted(Moved(m, os, walk, k, i), t)
  }

  lemma ShiftedAlikeIff(m: Master, os: seq<Override>, walk: seq<Time>, k: nat, i: nat, t: Time)
    requires k + 1 < |walk| && i < |os|
    ensures Shifted(Moved(m, os, walk, k, i), t) == Shifted(os[i], t) <==> KeepsLength(m, os, walk, k, i)
  {
    var (o, moved) := (os[i], Moved(m, os, walk, k, i));
    assert moved.start.wall - moved.rid.wall == o.start.wall - o.rid.wall;
    assert DurationOf(moved.start, moved.length) == DurationOf(o.start, o.length) <==> KeepsLength(m, os, walk, k, i);
    var (was, now) := (Shifted(o, t), Shifted(moved, t));
    assert now.start == was.start && now.props == was.props;
    assert now.end.wall - now.start.wall == DurationOf(moved.start, moved.length);
  }

  /** The overrides the write leaves, whatever `plain` is made of the copy. */
  function Written(m: Master, os: seq<Override>, walk: seq<Time>, k: nat, i: nat, plain: Override): seq<Override>
    requires k + 1 < |walk| && i < |os|
  {
    os[i := Moved(m, os, walk, k, i)] + [plain]
  }

  lemma UnmatchedAlikeIff(m: Master, os: seq<Override>, walk: seq<Time>, k: nat, i: nat, plain: Override, t: Time)
    requires k + 1 < |walk| && i < |os| && os[i].range && !plain.range
    ensures var now := UnmatchedEntry(m, Written(m, os, walk, k, i, plain), m.start.isDate, t);
            now == UnmatchedEntry(m, os, m.start.isDate, t) <==> ReachedAlike(m, os, walk, k, i, t)
  {
    GoverningWith(os, i, os[i], InstantOf(t));
    assert os[i := os[i]] == os;
    GoverningWith(os, i, Moved(m, os, walk, k, i), InstantOf(t));
    Appended(os[i := Moved(m, os, walk, k, i)], m.start.isDate, plain);
    ShiftedAlikeIff(m, os, walk, k, i, t);
  }

  /**
   * Written between where it began and the next start, with no other beginning
   * there, it reaches the starts it did.
   */
  lemma NearlyReachedAlike(m: Master, os: seq<Override>, walk: seq<Time>, k: nat, i: nat, j: nat)
    requires Anchor(m, os, walk, k, i) && k + 1 < |walk| && j < |walk| && j != k
    requires InstantOf(os[i].rid) == InstantOf(walk[k])
    requires InstantOf(walk[k]) <= InstantOf(NextStart(m, walk, k)) <= InstantOf(walk[k + 1])
    requires forall h :: 0 <= h < |os| && h != i && os[h].range ==>
               InstantOf(os[h].rid) < InstantOf(walk[k]) || InstantOf(walk[k + 1]) < InstantOf(os[h].rid)
    ensures ReachedAlike(m, os, walk, k, i, walk[j]) <==>
            ReachedFrom(os, i, InstantOf(walk[k]), InstantOf(walk[j])) ==> KeepsLength(m, os, walk, k, i)
  {
    assert if j < k then InstantOf(walk[j]) < InstantOf(walk[k]) else InstantOf(walk[k + 1]) <= InstantOf(walk[j]);
  }

  // ---------------------------------------------------------------------
  // What the overrides are looked up as then
  // ---------------------------------------------------------------------

  /** The override moved on counts for the key it is written under, which is another than it had. */
  ghost predicate MovedCounts(m: Master, os: seq<Override>, walk: seq<Time>, k: nat, i: nat)
    requires k + 1 < |walk| && i < |os|
  {
    var (moved, allDay) := (Moved(m, os, walk, k, i), m.start.isDate);
    var held := CurrentIndex(os, allDay, KeyOf(moved.rid, allDay));
    && KeyOf(moved.rid, allDay) != KeyOf(os[i].rid, allDay)
    && (held.None? || os[held.value].sequence < moved.sequence
        || (os[held.value].sequence == moved.sequence && held.value < i))
  }

  /** What counts for a key then. */
  ghost function CountedAfter(m: Master, os: seq<Override>, walk: seq<Time>, k: nat, i: nat, plain: Override,
                              x: Key): Option<Override>
    requires k + 1 < |walk| && i < |os|
  {
    var (allDay, moved) := (m.start.isDate, Moved(m, os, walk, k, i));
    if x == KeyOf(os[i].rid, allDay) then Some(plain)
    else if x == KeyOf(moved.rid, allDay) && MovedCounts(m, os, walk, k, i) then Some(moved)
    else Current(os, allDay, x)
  }

  lemma WrittenLookups(m: Master, os: seq<Override>, walk: seq<Time>, k: nat, i: nat, plain: Override, x: Key)
    requires k + 1 < |walk| && Counts(os, m.start.isDate, i)
    requires KeyOf(plain.rid, m.start.isDate) == KeyOf(os[i].rid, m.start.isDate)
    requires plain.sequence == os[i].sequence + 1
    ensures Current(Written(m, os, walk, k, i, plain), m.start.isDate, x) == CountedAfter(m, os, walk, k, i, plain, x)
  {
    var (allDay, moved, os') := (m.start.isDate, Moved(m, os, walk, k, i), Written(m, os, walk, k, i, plain));
    assert os'[|os|] == plain && os'[i] == moved && forall h :: 0 <= h < |os| && h != i ==> os'[h] == os[h];
    if x == KeyOf(os[i].rid, allDay) {
      CurrentIs(os, allDay, x, i);
      assert IsCurrent(os', allDay, x, |os|);
      CurrentIs(os', allDay, x, |os|);
    } else if x == KeyOf(moved.rid, allDay) && MovedCounts(m, os, walk, k, i) {
      assert IsCurrent(os', allDay, x, i);
      CurrentIs(os', allDay, x, i);
    } else {
      HeldStill(os, os', allDay, i, x);
    }
  }

  lemma HeldStill(os: seq<Override>, os': seq<Override>, allDay: bool, i: nat, x: Key)
    requires i < |os| && |os'| == |os| + 1 && forall h :: 0 <= h < |os| && h != i ==> os'[h] == os[h]
    requires KeyOf(os[i].rid, allDay) != x && KeyOf(os'[|os|].rid, allDay) != x
    requires KeyOf(os'[i].rid, allDay) == x ==>
               var held := CurrentIndex(os, allDay, x);
               && held.Some? && os'[i].sequence <= os[held.value].sequence
               && (os'[i].sequence == os[held.value].sequence ==> i < held.value)
    ensures Current(os', allDay, x) == Current(os, allDay, x)
  {
    var held := CurrentIndex(os, allDay, x);
    if held.Some? {
      assert IsCurrent(os', allDay, x, held.value);
      CurrentIs(os', allDay, x, held.value);
    } else {
      assert Unnamed(os', allDay, x);
    }
  }

  /** So only the key written is newly named. */
  lemma WrittenTurned(m: Master, os: seq<Override>, walk: seq<Time>, k: nat, i: nat, plain: Override)
    requires k + 1 < |walk| && Counts(os, m.start.isDate, i)
    requires KeyOf(plain.rid, m.start.isDate) == KeyOf(os[i].rid, m.start.isDate)
    requires plain.sequence == os[i].sequence + 1
    ensures var (allDay, moved) := (m.start.isDate, Moved(m, os, walk, k, i));
            var (c, d) := (Counted(os, allDay), Counted(Written(m, os, walk, k, i, plain), allDay));
            && Turned(c, d, KeyOf(os[i].rid, allDay), KeyOf(moved.rid, allDay))
            && d(KeyOf(os[i].rid, allDay)) == Some(plain)
            && (KeyOf(moved.rid, allDay) != KeyOf(os[i].rid, allDay) ==>
                  d(KeyOf(moved.rid, allDay)) ==
                  if MovedCounts(m, os, walk, k, i) then Some(moved) else c(KeyOf(moved.rid, allDay)))
  {
    var allDay := m.start.isDate;
    forall x
      ensures Current(Written(m, os, walk, k, i, plain), allDay, x) == CountedAfter(m, os, walk, k, i, plain, x)
    {
      WrittenLookups(m, os, walk, k, i, plain, x);
    }
    CurrentIs(os, allDay, KeyOf(os[i].rid, allDay), i);
  }

  /** What a start is listed as, of the starts there are, then: `h` is the one of the key written, if any is. */
  lemma WrittenAt(m: Master, os: seq<Override>, walk: seq<Time>, k: nat, i: nat, plain: Override, h: nat, j: nat)
    requires Anchor(m, os, walk, k, i) && k + 1 < |walk| && j < |walk| && j != k
    requires plain.rid == os[i].rid && plain.sequence == os[i].sequence + 1
    requires OnlyStart(walk, m.start.isDate, KeyOf(NextStart(m, walk, k), m.start.isDate), h)
    ensures var (allDay, c) := (m.start.isDate, Counted(os, m.start.isDate));
            Replaced(Counted(Written(m, os, walk, k, i, plain), allDay), allDay, walk, j) ==
            if j == h && MovedCounts(m, os, walk, k, i) then Some(Moved(m, os, walk, k, i))
            else if !allDay && j != h && h < |walk| && Took(c, walk, h) && Heir(c, walk, h, j)
            then c(OnDay(DayOf(walk[h])))
            else Replaced(c, allDay, walk, j)
  {
    var (allDay, key, w) := (m.start.isDate, KeyOf(os[i].rid, m.start.isDate),
                             KeyOf(NextStart(m, walk, k), m.start.isDate));
    var (c, d) := (Counted(os, allDay), Counted(Written(m, os, walk, k, i, plain), allDay));
    WrittenTurned(m, os, walk, k, i, plain);
    CurrentIs(os, allDay, key, i);
    OwnKeys(m, walk);
    if !allDay && j != h { TurnedElsewhere(c, d, walk, key, w, h, j); }
  }

  /** The write that takes the occurrence out of the change's reach. */
  lemma AnchorPatched(m: Master, os: seq<Override>, walk: seq<Time>, k: nat, i: nat, patch: Patch)
    requires Anchor(m, os, walk, k, i) && HasNext(m, os, walk, k)
    ensures Patched(m, os, Addressed(m, os, walk, k, false), patch) ==
            Some(Written(m, os, walk, k, i, Apply(os[i].(range := false), patch)))
    ensures Addressed(m, os, walk, k, false).key == KeyOf(walk[k], m.start.isDate)
  {
    AddressingAgreesIff(m, os, walk, k, false);
    var found := Addressed(m, os, walk, k, false);
    var base := os[i := Moved(m, os, walk, k, i)];
    var plain := os[i].(range := false);
    assert found.current == Some(i) && found.next == NextAt(InSeriesZone(m, walk[k + 1]), false);
    assert (base + [plain])[|os| := Apply(plain, patch)] == base + [Apply(plain, patch)];
  }

  // ---------------------------------------------------------------------
  // A change there
  // ---------------------------------------------------------------------

  /**
   * The occurrence a change to "this and all following" begins at is changed
   * alone: it becomes the patch of what was listed. Where the next one is
   * written under its own key it is listed by the change, now its beginning;
   * as it was exactly if it is written with its own clock time, where the
   * change reached it.
   */
  lemma PatchAnchor(m: Master, os: seq<Override>, walk: seq<Time>, k: nat, i: nat, patch: Patch)
    requires Anchor(m, os, walk, k, i) && HasNext(m, os, walk, k)
    ensures var os' := Patched(m, os, Addressed(m, os, walk, k, false), patch);
            && os'.Some?
            && EntryAt(m, os, walk, k) == EntryOf(os[i])
            && EntryAt(m, os'.value, walk, k) == EntryOf(Apply(os[i].(range := false), patch))
            && (KeyKept(m, walk[k + 1]) ==> EntryAt(m, os'.value, walk, k + 1) == EntryOf(Moved(m, os, walk, k, i)))
            && (KeyKept(m, walk[k + 1]) && GoverningIndex(os, InstantOf(walk[k + 1])) == Some(i) ==>
                  (EntryAt(m, os'.value, walk, k + 1) == EntryAt(m, os, walk, k + 1) <==>
                     InSeriesZone(m, walk[k + 1]) == walk[k + 1].wall))
  {
    var (allDay, plain) := (m.start.isDate, Apply(os[i].(range := false), patch));
    AnchorPatched(m, os, walk, k, i, patch);
    WrittenTurned(m, os, walk, k, i, plain);
    EntryIs(m, Written(m, os, walk, k, i, plain), walk, k);
    if KeyKept(m, walk[k + 1]) { NextByTheChange(m, os, walk, k, i, plain); }
  }

  lemma NextByTheChange(m: Master, os: seq<Override>, walk: seq<Time>, k: nat, i: nat, plain: Override)
    requires Anchor(m, os, walk, k, i) && HasNext(m, os, walk, k) && KeyKept(m, walk[k + 1])
    requires plain.rid == os[i].rid && plain.sequence == os[i].sequence + 1
    ensures EntryAt(m, Written(m, os, walk, k, i, plain), walk, k + 1) == EntryOf(Moved(m, os, walk, k, i))
    ensures GoverningIndex(os, InstantOf(walk[k + 1])) == Some(i) ==>
              (EntryOf(Moved(m, os, walk, k, i)) == EntryAt(m, os, walk, k + 1) <==>
                 InSeriesZone(m, walk[k + 1]) == walk[k + 1].wall)
  {
    OwnKeys(m, walk);
    NextListedAs(m, os, walk, k);
    WrittenAt(m, os, walk, k, i, plain, k + 1, k + 1);
    EntryIs(m, Written(m, os, walk, k, i, plain), walk, k + 1);
    MovedEntry(m, os, walk, k, i);
  }

  /** The override moved on lists where it put the next start, at the clock time that is written with. */
  lemma MovedEntry(m: Master, os: seq<Override>, walk: seq<Time>, k: nat, i: nat)
    requires k + 1 < |walk| && i < |os| && walk[k + 1].isDate == walk[k].isDate
    ensures EntryOf(Moved(m, os, walk, k, i)) == Shifted(os[i], NextStart(m, walk, k))
    ensures EntryOf(Moved(m, os, walk, k, i)) == Shifted(os[i], walk[k + 1]) <==>
            InSeriesZone(m, walk[k + 1]) == walk[k + 1].wall
  {
  }

  /** The next start has no override. */
  lemma NextListedAs(m: Master, os: seq<Override>, walk: seq<Time>, k: nat)
    requires HasNext(m, os, walk, k)
    ensures EntryAt(m, os, walk, k + 1) == UnmatchedEntry(m, os, m.start.isDate, walk[k + 1])
    ensures CurrentIndex(os, m.start.isDate, KeyOf(walk[k + 1], m.start.isDate)).None?
  {
  }

  /**
   * Every other occurrence: the start `h` of the key written is listed by the
   * override moved on, where that counts; one that comes into a DATE override
   * `h` had taken, by that; and any other as it was, exactly if it has an
   * override or the change reaches it alike.
   */
  lemma PatchAnchorOthers(m: Master, os: seq<Override>, walk: seq<Time>, k: nat, i: nat, patch: Patch, h: nat, j: nat)
    requires Anchor(m, os, walk, k, i) && HasNext(m, os, walk, k) && j < |walk| && j != k
    requires OnlyStart(walk, m.start.isDate, KeyOf(NextStart(m, walk, k), m.start.isDate), h)
    ensures var (os', c) := (Patched(m, os, Addressed(m, os, walk, k, false), patch), Counted(os, m.start.isDate));
            && os'.Some?
            && var e := EntryAt(m, os'.value, walk, j);
               if j == h && MovedCounts(m, os, walk, k, i) then e == EntryOf(Moved(m, os, walk, k, i))
               else if !m.start.isDate && j != h && h < |walk| && Took(c, walk, h) && Heir(c, walk, h, j)
               then e == EntryOf(c(OnDay(DayOf(walk[h]))).value)
               else e == EntryAt(m, os, walk, j) <==>
                    MatchOf(os, m.start.isDate, walk, j).Some? || ReachedAlike(m, os, walk, k, i, walk[j])
  {
    var plain := Apply(os[i].(range := false), patch);
    AnchorPatched(m, os, walk, k, i, patch);
    WrittenAt(m, os, walk, k, i, plain, h, j);
    ReplacedIs(os, m.start.isDate, walk, j);
    EntryIs(m, os, walk, j);
    EntryIs(m, Written(m, os, walk, k, i, plain), walk, j);
    UnmatchedAlikeIff(m, os, walk, k, i, plain, walk[j]);
  }

  /**
   * And what is listed on its own: the override moved on is one more exactly
   * where it is written under a key that no start has and no override had; where
   * it is written under the key it had, it is none.
   */
  lemma PatchAnchorOnTheirOwn(m: Master, os: seq<Override>, walk: seq<Time>, k: nat, i: nat, patch: Patch, h: nat,
                              x: Key)
    requires Anchor(m, os, walk, k, i) && HasNext(m, os, walk, k)
    requires OnlyStart(walk, m.start.isDate, KeyOf(NextStart(m, walk, k), m.start.isDate), h)
    ensures var (os', c) := (Patched(m, os, Addressed(m, os, walk, k, false), patch), Counted(os, m.start.isDate));
            var (w, freed) := (KeyOf(NextStart(m, walk, k), m.start.isDate), !m.start.isDate && Freed(c, walk, h, x));
            && os'.Some?
            && OnItsOwn(m, os'.value, walk, x) ==
               (if x == w && h >= |walk| && MovedCounts(m, os, walk, k, i) then Some(Moved(m, os, walk, k, i))
                else if freed then c(x)
                else OnItsOwn(m, os, walk, x))
            && (OnItsOwn(m, os, walk, x).None? && OnItsOwn(m, os'.value, walk, x).Some? <==>
                  (x == w && h >= |walk| && c(x).None?) || freed)
            && (w == KeyOf(os[i].rid, m.start.isDate) ==> OnItsOwn(m, os'.value, walk, w).None?)
  {
    var plain := Apply(os[i].(range := false), patch);
    AnchorPatched(m, os, walk, k, i, patch);
    WrittenOnTheirOwn(m, os, walk, k, i, plain, h, x);
    var c := Counted(os, m.start.isDate);
    if !m.start.isDate && Freed(c, walk, h, x) { assert Wants(c, false, walk[h], x); }
    UnwantedKey(m, c, walk, KeyOf(NextStart(m, walk, k), m.start.isDate), h);
    CurrentIs(os, m.start.isDate, KeyOf(os[i].rid, m.start.isDate), i);
    assert Wants(c, m.start.isDate, walk[k], KeyOf(os[i].rid, m.start.isDate));
    assert Wants(Counted(Written(m, os, walk, k, i, plain), m.start.isDate), m.start.isDate, walk[k],
                 KeyOf(os[i].rid, m.start.isDate));
  }

  /** A key of the form the starts have is wanted by the start that has it. */
  lemma UnwantedKey(m: Master, c: Lookup, walk: seq<Time>, w: Key, h: nat)
    requires Walked(m, walk) && OnlyStart(walk, m.start.isDate, w, h) && (!m.start.isDate ==> w.AtInstant?)
    ensures Wanted(c, m.start.isDate, walk, w) <==> h < |walk|
  {
    assert forall t :: 0 <= t < |walk| ==> (Wants(c, m.start.isDate, walk[t], w) <==> t == h);
  }

  lemma WrittenOnTheirOwn(m: Master, os: seq<Override>, walk: seq<Time>, k: nat, i: nat, plain: Override, h: nat,
                          x: Key)
    requires Anchor(m, os, walk, k, i) && k + 1 < |walk| && plain.rid == os[i].rid
    requires plain.sequence == os[i].sequence + 1
    requires OnlyStart(walk, m.start.isDate, KeyOf(NextStart(m, walk, k), m.start.isDate), h)
    ensures var (allDay, c) := (m.start.isDate, Counted(os, m.start.isDate));
            OnItsOwn(m, Written(m, os, walk, k, i, plain), walk, x) ==
            if x == KeyOf(NextStart(m, walk, k), allDay) && h >= |walk| && MovedCounts(m, os, walk, k, i)
            then Some(Moved(m, os, walk, k, i))
            else if !allDay && Freed(c, walk, h, x) then c(x)
            else OnItsOwn(m, os, walk, x)
  {
    var (allDay, key, w) := (m.start.isDate, KeyOf(os[i].rid, m.start.isDate),
                             KeyOf(NextStart(m, walk, k), m.start.isDate));
    var (c, d) := (Counted(os, allDay), Counted(Written(m, os, walk, k, i, plain), allDay));
    WrittenTurned(m, os, walk, k, i, plain);
    CurrentIs(os, allDay, key, i);
    if x == key {
      assert Wants(c, allDay, walk[k], x) && Wants(d, allDay, walk[k], x);
    } else if x == w {
      UnwantedKey(m, c, walk, w, h);
      UnwantedKey(m, d, walk, w, h);
    } else if allDay {
      assert Wanted(d, allDay, walk, x) <==> Wanted(c, allDay, walk, x) by {
        assert forall t :: Wants(d, allDay, t, x) <==> Wants(c, allDay, t, x);
      }
    } else {
      TurnedAlone(c, d, walk, key, w, h, x);
    }
  }

  /**
   * With no occurrence after it the change reaches nothing further: every other
   * occurrence lists as it did, exactly unless it had no override and was
   * reached, which none before the change began is.
   */
  lemma PatchLastAnchor(m: Master, os: seq<Override>, walk: seq<Time>, k: nat, i: nat, patch: Patch, j: nat)
    requires Anchor(m, os, walk, k, i) && k == |walk| - 1 && j < |walk|
    ensures var os' := Patched(m, os, Addressed(m, os, walk, k, false), patch);
            && os'.Some?
            && EntryAt(m, os, walk, k) == EntryOf(os[i])
            && EntryAt(m, os'.value, walk, k) == EntryOf(Apply(os[i].(range := false), patch))
            && (j != k ==>
                  (EntryAt(m, os'.value, walk, j) == EntryAt(m, os, walk, j) <==>
                   || MatchOf(os, m.start.isDate, walk, j).Some?
                   || !ReachedFrom(os, i, InstantOf(os[i].rid), InstantOf(walk[j]))
                   || Otherwise(m, os, i, walk[j]) == Shifted(os[i], walk[j])))
            && SameOnTheirOwn(m, os, os'.value, walk)
  {
    AddressingAgreesIff(m, os, walk, k, false);
    var (allDay, o) := (m.start.isDate, Apply(os[i].(range := false), patch));
    var os' := os[i := o];
    assert os[i := os[i].(range := false)][i := o] == os';
    assert Patched(m, os, Addressed(m, os, walk, k, false), patch) == Some(os');
    ReplacedLookups(os, allDay, KeyOf(o.rid, allDay), i, o);
    assert forall t :: OpenToDate(os', allDay, t) == OpenToDate(os, allDay, t);
    assert MatchOf(os', allDay, walk, j) == MatchOf(os, allDay, walk, j);
    assert MatchOf(os', allDay, walk, k) == MatchOf(os, allDay, walk, k);
    MetOnlyOnce(m, os, walk, k, i, j);
    PlainGoverning(os, i, o, InstantOf(walk[j]));
    GoverningWith(os, i, os[i], InstantOf(walk[j]));
    assert os[i := os[i]] == os;
    forall x ensures OnItsOwn(m, os', walk, x) == OnItsOwn(m, os, walk, x) {
      EditedOnTheirOwn(m, os, walk, i, o, x);
      MetIff(os, allDay, walk, i);
    }
  }

  /** Whatever else is made of an override with no RANGE, it reaches nothing. */
  lemma PlainGoverning(os: seq<Override>, i: nat, o: Override, at: int)
    requires i < |os| && !o.range
    ensures Governing(os[i := o], at) == Governing(Rest(os, i), at)
  {
    var (os', rest) := (os[i := o], Rest(os, i));
    assert !rest[i].range && !os'[i].range && forall h :: 0 <= h < |os| && h != i ==> rest[h] == os[h] == os'[h];
    var g := GoverningIndex(rest, at);
    if g.Some? {
      assert Governs(os', at, g.value);
      GoverningIs(os', at, g.value);
    } else {
      assert Ungoverned(os', at);
    }
  }

  /**
   * A write that cannot move the change on is refused: exactly where the next
   * start has an override or is not known.
   */
  lemma AnchorRefusedIff(m: Master, os: seq<Override>, walk: seq<Time>, k: nat, i: nat, patch: Patch, gaveUp: bool)
    requires Anchor(m, os, walk, k, i)
    ensures Patched(m, os, Addressed(m, os, walk, k, gaveUp), patch).None? <==>
            gaveUp || (k + 1 < |walk| && HasOverride(os, m.start.isDate, walk[k + 1]))
    ensures Remaining(m, os, Addressed(m, os, walk, k, gaveUp)).None? <==>
            Patched(m, os, Addressed(m, os, walk, k, gaveUp), patch).None?
  {
    AddressingAgreesIff(m, os, walk, k, gaveUp);
  }

  // ---------------------------------------------------------------------
  // A deletion there
  // ---------------------------------------------------------------------

  /** What it leaves of the overrides: the one moved on, and every other but those of the key. */
  function Left(m: Master, os: seq<Override>, walk: seq<Time>, k: nat, i: nat): seq<Override>
    requires k + 1 < |walk| && i < |os|
  {
    RemoveKey(os[i := Moved(m, os, walk, k, i)], m.start.isDate, KeyOf(walk[k], m.start.isDate), Some(i))
  }

  lemma AnchorRemoved(m: Master, os: seq<Override>, walk: seq<Time>, k: nat, i: nat)
    requires Anchor(m, os, walk, k, i) && HasNext(m, os, walk, k)
    ensures Remaining(m, os, Addressed(m, os, walk, k, false)) == Some(Left(m, os, walk, k, i))
  {
    AddressingAgreesIff(m, os, walk, k, false);
    var same: Patch := (start, length, props) => (start, length, props);
    AnchorPatched(m, os, walk, k, i, same);
  }

  /** The copy a change would be made of. */
  function Plain(o: Override): Override {
    o.(range := false, sequence := o.sequence + 1)
  }

  /**
   * Keys are looked up as after a change there, but for the key of the start
   * that is gone: that is the moved override's where it is written under it, and
   * nobody's otherwise.
   */
  lemma LeftLookups(m: Master, os: seq<Override>, walk: seq<Time>, k: nat, i: nat, x: Key)
    requires Anchor(m, os, walk, k, i) && k + 1 < |walk|
    ensures var (allDay, key) := (m.start.isDate, KeyOf(walk[k], m.start.isDate));
            Current(Left(m, os, walk, k, i), allDay, x) ==
            if x != key then Current(Written(m, os, walk, k, i, Plain(os[i])), allDay, x)
            else if KeyOf(NextStart(m, walk, k), allDay) == key then Some(Moved(m, os, walk, k, i))
            else None
  {
    var (allDay, key) := (m.start.isDate, KeyOf(walk[k], m.start.isDate));
    var (moved, base) := (Moved(m, os, walk, k, i), os[i := Moved(m, os, walk, k, i)]);
    assert base[i] == moved;
    if x == key && KeyOf(moved.rid, allDay) == key {
      KeptLookup(base, allDay, key, i);
    } else {
      RemovedLookups(base, allDay, key, Some(i), x);
      Appended(base, allDay, Plain(os[i]));
    }
  }

  /** What would reach `t` after the change moved on is a revision removed with the start. */
  ghost predicate LosingAt(m: Master, os: seq<Override>, walk: seq<Time>, k: nat, i: nat, t: Time)
    requires k + 1 < |walk| && i < |os|
  {
    Losing(os[i := Moved(m, os, walk, k, i)], m.start.isDate, KeyOf(walk[k], m.start.isDate), Some(i), InstantOf(t))
  }

  /** And a start is reached by what reaches it after a change there, unless that is removed. */
  lemma LeftGoverning(m: Master, os: seq<Override>, walk: seq<Time>, k: nat, i: nat, at: int)
    requires k + 1 < |walk| && i < |os|
    requires !Losing(os[i := Moved(m, os, walk, k, i)], m.start.isDate, KeyOf(walk[k], m.start.isDate), Some(i), at)
    ensures Governing(Left(m, os, walk, k, i), at) == Governing(Written(m, os, walk, k, i, Plain(os[i])), at)
  {
    RemovedGoverning(os[i := Moved(m, os, walk, k, i)], m.start.isDate, KeyOf(walk[k], m.start.isDate), Some(i), at);
    Appended(os[i := Moved(m, os, walk, k, i)], m.start.isDate, Plain(os[i]));
  }

  /** Without its start, the listing is that after a change there. */
  lemma LeftAt(m: Master, os: seq<Override>, walk: seq<Time>, k: nat, i: nat, j: nat)
    requires Anchor(m, os, walk, k, i) && k + 1 < |walk| && j < |walk| && j != k
    ensures var (allDay, os') := (m.start.isDate, Written(m, os, walk, k, i, Plain(os[i])));
            Replaced(Counted(Left(m, os, walk, k, i), allDay), allDay, Without(walk, k), After(k, j)) ==
            Replaced(Counted(os', allDay), allDay, walk, j)
  {
    var (allDay, os') := (m.start.isDate, Written(m, os, walk, k, i, Plain(os[i])));
    LeftTurned(m, os, walk, k, i);
    WithoutAt(walk, k, j);
    DroppedElsewhere(Counted(os', allDay), allDay, walk, k, j);
  }

  lemma LeftTurned(m: Master, os: seq<Override>, walk: seq<Time>, k: nat, i: nat)
    requires Anchor(m, os, walk, k, i) && k + 1 < |walk|
    ensures var (allDay, key) := (m.start.isDate, KeyOf(walk[k], m.start.isDate));
            var (d, e) := (Counted(Written(m, os, walk, k, i, Plain(os[i])), allDay),
                           Counted(Left(m, os, walk, k, i), allDay));
            && (forall x :: x != key ==> e(x) == d(x)) && d(key).Some? && !Wanted(d, allDay, Without(walk, k), key)
            && (forall j :: 0 <= j < |walk| - 1 ==>
                  Replaced(e, allDay, Without(walk, k), j) == Replaced(d, allDay, Without(walk, k), j))
            && (forall x :: Alone(e, allDay, Without(walk, k), x) ==
                              if x == key then e(x) else Alone(d, allDay, Without(walk, k), x))
  {
    var (allDay, key) := (m.start.isDate, KeyOf(walk[k], m.start.isDate));
    var (d, e) := (Counted(Written(m, os, walk, k, i, Plain(os[i])), allDay), Counted(Left(m, os, walk, k, i), allDay));
    forall x | x != key ensures e(x) == d(x) {
      LeftLookups(m, os, walk, k, i, x);
    }
    WrittenTurned(m, os, walk, k, i, Plain(os[i]));
    OwnKeys(m, walk);
    forall n | 0 <= n < |Without(walk, k)| ensures !Wants(d, allDay, Without(walk, k)[n], key) {
      WithoutAt(walk, k, if n < k then n else n + 1);
    }
    UnwantedElsewhere(d, e, allDay, Without(walk, k), key);
  }

  /**
   * Deleting the occurrence such a change begins at: its start is gone, and
   * every other lists as after a change there, or, where a revision removed with
   * it is what would reach it, as the rest give it.
   */
  lemma {:induction false} DeleteAnchor(m: Master, os: seq<Override>, walk: seq<Time>, k: nat, i: nat, h: nat, j: nat)
    requires Anchor(m, os, walk, k, i) && HasNext(m, os, walk, k) && j < |walk| && j != k
    requires Emits(m, walk) && InstantKept(m, walk[k])
    requires OnlyStart(walk, m.start.isDate, KeyOf(NextStart(m, walk, k), m.start.isDate), h)
    ensures var (os', c) := (Remaining(m, os, Addressed(m, os, walk, k, false)), Counted(os, m.start.isDate));
            var m' := Excluding(m, InSeries(m, walk[k]));
            && os'.Some? && Emitted(m'.starts, m'.exdates) == Without(walk, k)
            && var e := EntryAt(m', os'.value, Without(walk, k), After(k, j));
               if j == h && MovedCounts(m, os, walk, k, i) then e == EntryOf(Moved(m, os, walk, k, i))
               else if !m.start.isDate && j != h && h < |walk| && Took(c, walk, h) && Heir(c, walk, h, j)
               then e == EntryOf(c(OnDay(DayOf(walk[h]))).value)
               else if MatchOf(os, m.start.isDate, walk, j).None? && LosingAt(m, os, walk, k, i, walk[j])
               then e == UnmatchedEntry(m, os'.value, m.start.isDate, walk[j])
               else e == EntryAt(m, os, walk, j) <==>
                    MatchOf(os, m.start.isDate, walk, j).Some? || ReachedAlike(m, os, walk, k, i, walk[j])
  {
    AnchorRemoved(m, os, walk, k, i);
    EmittedWithout(m.starts, m.exdates, InSeries(m, walk[k]), k);
    DeletedAnchorAt(m, os, walk, k, i, h, j);
  }

  lemma DeletedAnchorAt(m: Master, os: seq<Override>, walk: seq<Time>, k: nat, i: nat, h: nat, j: nat)
    requires Anchor(m, os, walk, k, i) && k + 1 < |walk| && j < |walk| && j != k
    requires OnlyStart(walk, m.start.isDate, KeyOf(NextStart(m, walk, k), m.start.isDate), h)
    ensures var c := Counted(os, m.start.isDate);
            var m' := Excluding(m, InSeries(m, walk[k]));
            var e := EntryAt(m', Left(m, os, walk, k, i), Without(walk, k), After(k, j));
            if j == h && MovedCounts(m, os, walk, k, i) then e == EntryOf(Moved(m, os, walk, k, i))
            else if !m.start.isDate && j != h && h < |walk| && Took(c, walk, h) && Heir(c, walk, h, j)
            then e == EntryOf(c(OnDay(DayOf(walk[h]))).value)
            else if MatchOf(os, m.start.isDate, walk, j).None? && LosingAt(m, os, walk, k, i, walk[j])
            then e == UnmatchedEntry(m, Left(m, os, walk, k, i), m.start.isDate, walk[j])
            else e == EntryAt(m, os, walk, j) <==>
                 MatchOf(os, m.start.isDate, walk, j).Some? || ReachedAlike(m, os, walk, k, i, walk[j])
  {
    LeftListsAs(m, os, walk, k, i, j);
    WrittenAt(m, os, walk, k, i, Plain(os[i]), h, j);
    ReplacedIs(os, m.start.isDate, walk, j);
    EntryIs(m, os, walk, j);
    if !LosingAt(m, os, walk, k, i, walk[j]) { LeftUnmatchedIff(m, os, walk, k, i, walk[j]); }
  }

  lemma LeftListsAs(m: Master, os: seq<Override>, walk: seq<Time>, k: nat, i: nat, j: nat)
    requires Anchor(m, os, walk, k, i) && k + 1 < |walk| && j < |walk| && j != k
    ensures var (allDay, m') := (m.start.isDate, Excluding(m, InSeries(m, walk[k])));
            var o := Replaced(Counted(Written(m, os, walk, k, i, Plain(os[i])), allDay), allDay, walk, j);
            EntryAt(m', Left(m, os, walk, k, i), Without(walk, k), After(k, j)) ==
            if o.Some? then EntryOf(o.value) else UnmatchedEntry(m, Left(m, os, walk, k, i), allDay, walk[j])
  {
    LeftAt(m, os, walk, k, i, j);
    WithoutAt(walk, k, j);
    EntryIs(Excluding(m, InSeries(m, walk[k])), Left(m, os, walk, k, i), Without(walk, k), After(k, j));
  }

  lemma LeftUnmatchedIff(m: Master, os: seq<Override>, walk: seq<Time>, k: nat, i: nat, t: Time)
    requires k + 1 < |walk| && i < |os| && os[i].range && !LosingAt(m, os, walk, k, i, t)
    ensures var now := UnmatchedEntry(m, Left(m, os, walk, k, i), m.start.isDate, t);
            now == UnmatchedEntry(m, os, m.start.isDate, t) <==> ReachedAlike(m, os, walk, k, i, t)
  {
    LeftGoverning(m, os, walk, k, i, InstantOf(t));
    UnmatchedAlikeIff(m, os, walk, k, i, Plain(os[i]), t);
  }

  /**
   * And what is listed on its own: as after a change there, but that the
   * override moved on is one more also where it is written under the very key of
   * the start that is gone.
   */
  lemma {:induction false} DeleteAnchorOnTheirOwn(m: Master, os: seq<Override>, walk: seq<Time>, k: nat, i: nat, h: nat,
                                                  x: Key)
    requires Anchor(m, os, walk, k, i) && HasNext(m, os, walk, k)
    requires OnlyStart(walk, m.start.isDate, KeyOf(NextStart(m, walk, k), m.start.isDate), h)
    ensures var (os', c) := (Remaining(m, os, Addressed(m, os, walk, k, false)), Counted(os, m.start.isDate));
            var (w, freed) := (KeyOf(NextStart(m, walk, k), m.start.isDate), !m.start.isDate && Freed(c, walk, h, x));
            var own := OnItsOwn(Excluding(m, InSeries(m, walk[k])), os'.value, Without(walk, k), x);
            && os'.Some?
            && own == (if x == w && (h == k || (h >= |walk| && MovedCounts(m, os, walk, k, i)))
                       then Some(Moved(m, os, walk, k, i))
                       else if freed then c(x)
                       else OnItsOwn(m, os, walk, x))
            && (OnItsOwn(m, os, walk, x).None? && own.Some? <==>
                  (x == w && (h == k || (h >= |walk| && c(x).None?))) || freed)
  {
    AnchorRemoved(m, os, walk, k, i);
    LeftOnItsOwn(m, os, walk, k, i, h, x);
    var (allDay, c) := (m.start.isDate, Counted(os, m.start.isDate));
    assert Wants(c, allDay, walk[k], KeyOf(walk[k], allDay));
    if !allDay && Freed(c, walk, h, x) { assert Wants(c, false, walk[h], x); }
    UnwantedKey(m, c, walk, KeyOf(NextStart(m, walk, k), allDay), h);
  }

  lemma LeftOnItsOwn(m: Master, os: seq<Override>, walk: seq<Time>, k: nat, i: nat, h: nat, x: Key)
    requires Anchor(m, os, walk, k, i) && k + 1 < |walk|
    requires OnlyStart(walk, m.start.isDate, KeyOf(NextStart(m, walk, k), m.start.isDate), h)
    ensures var (allDay, c, w) := (m.start.isDate, Counted(os, m.start.isDate),
                                   KeyOf(NextStart(m, walk, k), m.start.isDate));
            OnItsOwn(Excluding(m, InSeries(m, walk[k])), Left(m, os, walk, k, i), Without(walk, k), x) ==
            if x == w && (h == k || (h >= |walk| && MovedCounts(m, os, walk, k, i))) then Some(Moved(m, os, walk, k, i))
            else if !allDay && Freed(c, walk, h, x) then c(x)
            else OnItsOwn(m, os, walk, x)
  {
    var (allDay, c) := (m.start.isDate, Counted(os, m.start.isDate));
    LeftTurned(m, os, walk, k, i);
    LeftLookups(m, os, walk, k, i, KeyOf(walk[k], allDay));
    OwnKeys(m, walk);
    DroppedAlone(Counted(Written(m, os, walk, k, i, Plain(os[i])), allDay), allDay, walk, k, x);
    WrittenOnTheirOwn(m, os, walk, k, i, Plain(os[i]), h, x);
    assert Wants(c, allDay, walk[k], KeyOf(walk[k], allDay));
  }

  /**
   * Deleting the last occurrence, where such a change began: every other lists
   * as it did, or, where a revision removed is what reached it, which before the
   * change began none did, as the rest give it; what is on its own is what was.
   */
  lemma {:induction false} DeleteLastAnchor(m: Master, os: seq<Override>, walk: seq<Time>, k: nat, i: nat, j: nat)
    requires Anchor(m, os, walk, k, i) && k == |walk| - 1 && j < k
    requires Emits(m, walk) && InstantKept(m, walk[k])
    ensures var found := Addressed(m, os, walk, k, false);
            var os' := Remaining(m, os, found);
            && os'.Some? && Gone(m, os, os'.value, walk, k, found.key)
            && var e := EntryAt(Excluding(m, InSeries(m, walk[k])), os'.value, Without(walk, k), j);
               if MatchOf(os, m.start.isDate, walk, j).Some?
                  || !Losing(os, m.start.isDate, found.key, None, InstantOf(walk[j]))
               then e == EntryAt(m, os, walk, j)
               else e == UnmatchedEntry(m, os'.value, m.start.isDate, walk[j])
    ensures !m.start.isDate && InstantOf(walk[j]) < InstantOf(walk[k]) ==>
              !Losing(os, m.start.isDate, KeyOf(walk[k], m.start.isDate), None, InstantOf(walk[j]))
  {
    var found := Addressed(m, os, walk, k, false);
    AddressingAgreesIff(m, os, walk, k, false);
    CurrentIs(os, m.start.isDate, KeyOf(os[i].rid, m.start.isDate), i);
    RemovedIsGone(m, os, walk, k);
    MetOnlyOnce(m, os, walk, k, i, j);
    DeletedElsewhere(m, os, walk, k, j);
  }
}
