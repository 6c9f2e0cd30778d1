/**
 * Wall time and instants (src/ical-zones-intl.ts, src/ical-zones.ts).
 *
 * A zone is one question, the UTC offset in effect at an instant: a function
 * from epoch milliseconds to milliseconds. A wall time is its clock fields read
 * as if they were UTC, also a number of milliseconds, so that the calendar's
 * bijection between fields and numbers never has to be opened.
 */
module WallClock {
  const SECOND: int := 1000
  const MINUTE: int := 60 * SECOND
  const HOUR: int := 60 * MINUTE
  const DAY_MS: int := 24 * HOUR

  /** How far either side of a wall time its possible offsets are looked for. */
  const OFFSET_SEARCH_MS: int := 36 * HOUR

  /** The furthest any zone's offset is from UTC. */
  const MAX_OFFSET_MS: int := 14 * HOUR

  type OffsetAt = int -> int

  /** The whole second `ms` lies in. */
  function WholeSecond(ms: int): (r: int)
    ensures r % SECOND == 0 && r <= ms < r + SECOND
  {
    ms - ms % SECOND
  }

  /** The offset in effect at `t` is a new one. */
  ghost predicate Changes(f: OffsetAt, t: int) {
    f(t - 1) != f(t)
  }

  ghost predicate Bounded(f: OffsetAt) {
    forall t :: -MAX_OFFSET_MS <= f(t) <= MAX_OFFSET_MS
  }

  /** No two changes after `lo` and up to `hi`. */
  ghost predicate AtMostOneChange(f: OffsetAt, lo: int, hi: int) {
    forall x, y :: lo < x <= hi && lo < y <= hi && Changes(f, x) && Changes(f, y) ==> x == y
  }

  ghost predicate Constant(f: OffsetAt, lo: int, hi: int) {
    forall t :: lo <= t <= hi ==> f(t) == f(lo)
  }

  lemma {:induction false} ConstantWithoutChange(f: OffsetAt, lo: int, hi: int)
    requires lo <= hi
    requires forall x :: lo < x <= hi ==> !Changes(f, x)
    ensures Constant(f, lo, hi)
    decreases hi - lo
  {
    if lo < hi {
      ConstantWithoutChange(f, lo, hi - 1);
      assert !Changes(f, hi);
    }
  }

  /** Two instants with different offsets have a change between them. */
  lemma {:induction false} ChangeBetween(f: OffsetAt, lo: int, hi: int) returns (t: int)
    requires lo <= hi && f(lo) != f(hi)
    ensures lo < t <= hi && Changes(f, t)
    decreases hi - lo
  {
    if f(hi - 1) != f(hi) {
      t := hi;
    } else {
      t := ChangeBetween(f, lo, hi - 1);
    }
  }

  /** A span with at most one change is two constant stretches, meeting at `t`. */
  lemma TwoStretches(f: OffsetAt, lo: int, hi: int) returns (t: int)
    requires lo <= hi && AtMostOneChange(f, lo, hi)
    ensures lo < t <= hi + 1
    ensures forall x :: lo <= x < t ==> f(x) == f(lo)
    ensures forall x :: t <= x <= hi ==> f(x) == f(hi)
    ensures f(lo) != f(hi) ==> t <= hi && Changes(f, t) && f(t - 1) == f(lo) && f(t) == f(hi)
  {
    if f(lo) == f(hi) {
      t := hi + 1;
      forall x | lo < x <= hi ensures !Changes(f, x) {
        if Changes(f, x) {
          if f(lo) != f(x - 1) {
            var y := ChangeBetween(f, lo, x - 1);
          } else {
            var y := ChangeBetween(f, x, hi);
          }
        }
      }
      ConstantWithoutChange(f, lo, hi);
    } else {
      t := ChangeBetween(f, lo, hi);
      ConstantWithoutChange(f, lo, t - 1);
      ConstantWithoutChange(f, t, hi);
      assert f(t) == f(hi);
    }
  }

  // ---------------------------------------------------------------------
  // Wall time to instant
  // ---------------------------------------------------------------------

  /** The clocks of the zone show `wall` at the instant `t`. */
  ghost predicate Shows(f: OffsetAt, t: int, wall: int) {
    t + f(t) == wall
  }

  datatype Found = Nothing | At(instant: int)

  /** `found`, or the instant `offset` makes of `wall` where it maps back to it and is earlier. */
  function Earlier(found: Found, wall: int, offset: int, f: OffsetAt): Found {
    if f(wall - offset) == offset && (found.Nothing? || wall - offset < found.instant) then At(wall - offset) else found
  }

  /** `wallToInstantBy`: the earliest instant any candidate offset gives, or the reading with the offset from before. */
  function WallToInstant(wall: int, f: OffsetAt): int {
    var before := f(wall - OFFSET_SEARCH_MS);
    var after := f(wall + OFFSET_SEARCH_MS);
    var one := Earlier(Earlier(Nothing, wall, before, f), wall, after, f);
    var found := Earlier(Earlier(one, wall, f(wall - before), f), wall, f(wall - after), f);
    if found.At? then found.instant else wall - before
  }

  /** The hypothesis on the zone around `wall`: offsets of at most 14 h, one change at most within 36 h either side. */
  ghost predicate Regular(f: OffsetAt, wall: int) {
    Bounded(f) && AtMostOneChange(f, wall - OFFSET_SEARCH_MS, wall + OFFSET_SEARCH_MS)
  }

  /** No instant shows `wall`: the change at `t` skips it. */
  ghost predicate SkippedAt(f: OffsetAt, wall: int, t: int) {
    Changes(f, t) && t + f(t - 1) <= wall < t + f(t)
  }

  /** Section 3.3.5 of RFC 5545, an ordinary time or one shown twice: the earliest instant showing it. */
  lemma EarliestShowing(wall: int, f: OffsetAt, t: int)
    requires Regular(f, wall) && Shows(f, t, wall)
    ensures Shows(f, WallToInstant(wall, f), wall)
    ensures WallToInstant(wall, f) <= t
  {
    var lo, hi := wall - OFFSET_SEARCH_MS, wall + OFFSET_SEARCH_MS;
    var c := TwoStretches(f, lo, hi);
    assert t < c ==> t == wall - f(lo);
    assert t >= c ==> t == wall - f(hi);
  }

  /** Section 3.3.5 of RFC 5545, a time the clocks skip: read with the offset from before the gap. */
  lemma ReadBeforeGap(wall: int, f: OffsetAt) returns (t: int)
    requires Regular(f, wall)
    requires forall x :: !Shows(f, x, wall)
    ensures SkippedAt(f, wall, t)
    ensures WallToInstant(wall, f) == wall - f(t - 1)
    ensures t <= WallToInstant(wall, f) < t + (f(t) - f(t - 1))
  {
    var lo, hi := wall - OFFSET_SEARCH_MS, wall + OFFSET_SEARCH_MS;
    t := TwoStretches(f, lo, hi);
    assert !Shows(f, wall - f(lo), wall);
    assert !Shows(f, wall - f(hi), wall);
    assert !Shows(f, wall - f(wall - f(lo)), wall);
    assert !Shows(f, wall - f(wall - f(hi)), wall);
  }

  /** Converting the wall time an instant shows gives that instant back, except on the second pass of an overlap. */
  lemma LeftInverseOfWallAt(wall: int, f: OffsetAt, t: int)
    requires Regular(f, wall) && Shows(f, t, wall)
    ensures WallToInstant(wall, f) == t <==> forall x :: Shows(f, x, wall) ==> t <= x
  {
    EarliestShowing(wall, f, t);
    forall x | Shows(f, x, wall) ensures WallToInstant(wall, f) <= x {
      EarliestShowing(wall, f, x);
    }
  }

  /** Whatever the zone, the answer is `wall` less an offset the zone does have. */
  lemma InstantWithinReach(wall: int, f: OffsetAt)
    requires Bounded(f)
    ensures wall - MAX_OFFSET_MS <= WallToInstant(wall, f) <= wall + MAX_OFFSET_MS
  {
  }

  // ---------------------------------------------------------------------
  // Order: what a rule's UNTIL and a day's working hours rely on
  // ---------------------------------------------------------------------

  /** Changes are 72 hours apart or more, so every wall time is `Regular`. */
  ghost predicate Spaced(f: OffsetAt) {
    Bounded(f) && forall x, y :: x < y && Changes(f, x) && Changes(f, y) ==> y - x >= 2 * OFFSET_SEARCH_MS
  }

  /** A wall time the zone's clocks do show. */
  ghost predicate Shown(f: OffsetAt, wall: int) {
    Shows(f, WallToInstant(wall, f), wall)
  }

  lemma ShownIff(f: OffsetAt, wall: int)
    requires Regular(f, wall)
    ensures Shown(f, wall) <==> exists t :: Shows(f, t, wall)
  {
    if t :| Shows(f, t, wall) {
      EarliestShowing(wall, f, t);
    }
  }

  /** Of two wall times the clocks show, the earlier names the earlier instant. */
  lemma ShownInOrder(f: OffsetAt, w1: int, w2: int)
    requires Spaced(f) && w1 < w2 && Shown(f, w1) && Shown(f, w2)
    ensures WallToInstant(w1, f) < WallToInstant(w2, f)
  {
    var t1, t2 := WallToInstant(w1, f), WallToInstant(w2, f);
    if t2 <= t1 {
      // The offset fell between them, so w1 was also shown before t2.
      var c := ChangeBetween(f, t2, t1);
      var early := w1 - f(t2);
      assert early < t2 && t2 - early <= 2 * MAX_OFFSET_MS;
      forall x | early < x <= t2 ensures !Changes(f, x) {
      }
      ConstantWithoutChange(f, early, t2);
      assert Shows(f, early, w1);
      EarliestShowing(w1, f, early);
    }
  }

  /** The largest jump the clocks make at one change is a day (Samoa skipped one in 2011). */
  ghost predicate JumpsAtMostADay(f: OffsetAt) {
    forall t :: f(t) - f(t - 1) <= DAY_MS
  }

  ghost predicate JumpsLessThanADay(f: OffsetAt) {
    forall t :: f(t) - f(t - 1) < DAY_MS
  }

  /**
   * Wall times a day or more apart name instants in order, whether or not the
   * clocks show them; two of them one instant only across a skipped day.
   */
  lemma DaysInOrder(f: OffsetAt, w1: int, w2: int)
    requires Spaced(f) && JumpsAtMostADay(f) && w1 + DAY_MS <= w2
    ensures WallToInstant(w1, f) <= WallToInstant(w2, f)
    ensures JumpsLessThanADay(f) ==> WallToInstant(w1, f) < WallToInstant(w2, f)
  {
    ShownIff(f, w1);
    ShownIff(f, w2);
    InstantWithinReach(w1, f);
    InstantWithinReach(w2, f);
    if Shown(f, w1) && Shown(f, w2) {
      ShownInOrder(f, w1, w2);
    } else if w2 - w1 <= 2 * MAX_OFFSET_MS {
      if !Shown(f, w1) {
        SkippedThenLater(f, w1, w2);
      } else {
        ShownThenSkipped(f, w1, w2);
      }
    }
  }

  lemma SkippedThenLater(f: OffsetAt, w1: int, w2: int)
    requires Spaced(f) && JumpsAtMostADay(f) && w1 + DAY_MS <= w2 <= w1 + 2 * MAX_OFFSET_MS
    requires forall x :: !Shows(f, x, w1)
    ensures WallToInstant(w1, f) <= WallToInstant(w2, f)
    ensures JumpsLessThanADay(f) ==> WallToInstant(w1, f) < WallToInstant(w2, f)
  {
    var t := ReadBeforeGap(w1, f);
    var t1, t2 := WallToInstant(w1, f), WallToInstant(w2, f);
    assert f(t) - f(t - 1) <= DAY_MS && (JumpsLessThanADay(f) ==> f(t) - f(t - 1) < DAY_MS);
    if t2 <= t1 {
      if exists x :: Shows(f, x, w2) {
        var x :| Shows(f, x, w2);
        EarliestShowing(w2, f, x);
        if t2 < t {
          Settled(f, t, t2);
        } else {
          SettledAfter(f, t, t2);
        }
      } else {
        var u := ReadBeforeGap(w2, f);
      }
    }
  }

  lemma ShownThenSkipped(f: OffsetAt, w1: int, w2: int)
    requires Spaced(f) && w1 + DAY_MS <= w2 <= w1 + 2 * MAX_OFFSET_MS
    requires Shown(f, w1)
    requires forall x :: !Shows(f, x, w2)
    ensures WallToInstant(w1, f) < WallToInstant(w2, f)
  {
    var t := ReadBeforeGap(w2, f);
    var t1, t2 := WallToInstant(w1, f), WallToInstant(w2, f);
    if t2 <= t1 {
      SettledAfter(f, t, t1);
    }
  }

  /** Within reach before a change, the offset is the one it replaces. */
  lemma Settled(f: OffsetAt, t: int, x: int)
    requires Spaced(f) && Changes(f, t) && t - 2 * OFFSET_SEARCH_MS < x < t
    ensures f(x) == f(t - 1)
  {
    if f(x) != f(t - 1) {
      var c := ChangeBetween(f, x, t - 1);
    }
  }

  /** Within reach after a change, the offset is the one it set. */
  lemma SettledAfter(f: OffsetAt, t: int, x: int)
    requires Spaced(f) && Changes(f, t) && t <= x < t + 2 * OFFSET_SEARCH_MS
    ensures f(x) == f(t)
  {
    if f(x) != f(t) {
      var c := ChangeBetween(f, t, x);
    }
  }
}
