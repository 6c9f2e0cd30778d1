/**
 * The daily scan and bisection that find a zone's offset changes
 * (src/ical-zones-intl.ts, `offsetChanges`).
 */
module OffsetScan {
  import opened WallClock

  datatype Change = Change(at: int, from: int, to: int)

  /** The offset in effect at a span's start, and every change in it. */
  datatype OffsetChanges = OffsetChanges(first: int, changes: seq<Change>)

  /** Offsets, and so their changes, fall on whole seconds. */
  ghost predicate OnSeconds(f: OffsetAt) {
    forall t {:trigger WholeSecond(t)} :: f(t) == f(WholeSecond(t))
  }

  /** No two changes within one day. */
  ghost predicate ADayApart(f: OffsetAt) {
    forall x, y :: x < y && Changes(f, x) && Changes(f, y) ==> y - x >= DAY_MS
  }

  function Record(f: OffsetAt, at: int): Change {
    Change(at, f(at - 1), f(at))
  }

  ghost predicate InOrder(changes: seq<Change>) {
    forall i, j :: 0 <= i < j < |changes| ==> changes[i].at < changes[j].at
  }

  /** `scan` says exactly how the offset goes from `lo` to `hi`: every change after `lo`, up to `hi`, and no other. */
  ghost predicate Exact(f: OffsetAt, lo: int, hi: int, scan: OffsetChanges) {
    && scan.first == f(lo)
    && InOrder(scan.changes)
    && (forall c :: c in scan.changes ==> lo < c.at <= hi && Changes(f, c.at) && c == Record(f, c.at))
    && (forall x :: lo < x <= hi && Changes(f, x) ==> Record(f, x) in scan.changes)
  }

  lemma ChangeOnSecond(f: OffsetAt, t: int)
    requires OnSeconds(f) && Changes(f, t)
    ensures t % SECOND == 0
  {
    assert f(t - 1) == f(WholeSecond(t - 1)) && f(t) == f(WholeSecond(t));
  }

  /** Equal offsets at the ends of a day mean no change in it. */
  lemma QuietDay(f: OffsetAt, lo: int, hi: int, x: int)
    requires ADayApart(f) && lo < x <= hi <= lo + DAY_MS && Changes(f, x)
    ensures f(lo) != f(hi) && f(x - 1) == f(lo) && f(x) == f(hi)
  {
    if f(lo) != f(x - 1) {
      var y := ChangeBetween(f, lo, x - 1);
    }
    if f(x) != f(hi) {
      var y := ChangeBetween(f, x, hi);
    }
  }

  /** A stretch with one change in it, at `x`. */
  ghost predicate ChangesOnceAt(f: OffsetAt, lo: int, hi: int, x: int) {
    && lo < x <= hi && Changes(f, x)
    && (forall t :: lo <= t < x ==> f(t) == f(lo))
    && (forall t :: x <= t <= hi ==> f(t) == f(hi) != f(lo))
  }

  /** Different offsets at its ends mean there is just one. */
  lemma ChangingDay(f: OffsetAt, lo: int, hi: int) returns (x: int)
    requires OnSeconds(f) && ADayApart(f) && lo < hi <= lo + DAY_MS && f(lo) != f(hi)
    ensures ChangesOnceAt(f, lo, hi, x) && x % SECOND == 0
  {
    x := ChangeBetween(f, lo, hi);
    ChangeOnSecond(f, x);
    QuietDay(f, lo, hi, x);
    forall t | lo <= t < x ensures f(t) == f(lo) {
      if f(t) != f(lo) { var y := ChangeBetween(f, lo, t); }
    }
    forall t | x <= t <= hi ensures f(t) == f(hi) {
      if f(t) != f(hi) { var y := ChangeBetween(f, t, hi); }
    }
  }

  // ---------------------------------------------------------------------
  // The two loops, turn by turn
  // ---------------------------------------------------------------------

  function Midpoint(a: int, b: int): int {
    a + (b - a) / (2 * SECOND) * SECOND
  }

  /** Where the scan stands: at the day from `lo`, or bisecting the bracket from `a` to `b`. */
  datatype Stand = AtDay(lo: int, before: int) | Bisecting(before: int, a: int, b: int)

  function DayEnd(lo: int, toMs: int): int {
    if lo + DAY_MS < toMs then lo + DAY_MS else toMs
  }

  /** One turn of whichever loop it is in. */
  function Turn(f: OffsetAt, toMs: int, at: Stand): Stand {
    match at
    case AtDay(lo, before) =>
      if lo >= toMs then at
      else if f(DayEnd(lo, toMs)) == before then AtDay(lo + DAY_MS, before)
      else Bisecting(before, lo, DayEnd(lo, toMs))
    case Bisecting(before, a, b) =>
      if b - a <= SECOND then AtDay(b, f(b))
      else if f(Midpoint(a, b)) == before then Bisecting(before, Midpoint(a, b), b)
      else Bisecting(before, a, Midpoint(a, b))
  }

  function Turns(f: OffsetAt, toMs: int, at: Stand, n: nat): Stand
    decreases n
  {
    if n == 0 then at else Turns(f, toMs, Turn(f, toMs, at), n - 1)
  }

  predicate Over(toMs: int, at: Stand) {
    at.AtDay? && at.lo >= toMs
  }

  ghost predicate Ends(f: OffsetAt, toMs: int, at: Stand) {
    exists n: nat :: Over(toMs, Turns(f, toMs, at, n))
  }

  lemma EndsATurnEarlier(f: OffsetAt, toMs: int, at: Stand)
    requires Ends(f, toMs, Turn(f, toMs, at))
    ensures Ends(f, toMs, at)
  {
    var n: nat :| Over(toMs, Turns(f, toMs, Turn(f, toMs, at), n));
    assert Turns(f, toMs, at, n + 1) == Turns(f, toMs, Turn(f, toMs, at), n);
  }

  // ---------------------------------------------------------------------
  // The bisection
  // ---------------------------------------------------------------------

  /** The bracket's upper end is off the second, and the change is at the very second it lies in. */
  predicate Stuck(b: int, x: int) {
    b % SECOND != 0 && x == WholeSecond(b)
  }

  /** A bracket about the change at `x`; its lower end, and the change, on whole seconds. */
  ghost predicate Bracket(f: OffsetAt, before: int, a: int, b: int, x: int) {
    before == f(a) && ChangesOnceAt(f, a, b, x) && a % SECOND == 0 && x % SECOND == 0
  }

  /**
   * While the bracket is wider than a second it goes on closing in on the
   * change, unless it is stuck: then it never is any narrower than that.
   */
  lemma Halved(f: OffsetAt, before: int, a: int, b: int, x: int)
    requires Bracket(f, before, a, b, x)
    ensures b - a <= SECOND ==> b == x && !Stuck(b, x)
    ensures b - a > SECOND ==>
      var mid := Midpoint(a, b);
      if f(mid) == before then Bracket(f, before, mid, b, x) && (!Stuck(b, x) ==> a < mid)
      else Bracket(f, before, a, mid, x) && mid < b && !Stuck(b, x) && !Stuck(mid, x)
  {
    MidpointInside(a, b);
    SecondsApart(a, x);
    if b - a > SECOND {
      var mid := Midpoint(a, b);
      if f(mid) == before {
        assert mid < x;
      } else {
        assert mid >= x;
        assert forall t :: x <= t <= mid ==> f(t) == f(mid);
      }
    }
  }

  lemma SecondsApart(a: int, x: int)
    requires a % SECOND == 0 && x % SECOND == 0 && a < x
    ensures a + SECOND <= x
  {
  }

  lemma MidpointInside(a: int, b: int)
    requires a < b && a % SECOND == 0
    ensures Midpoint(a, b) % SECOND == 0 && a <= Midpoint(a, b) < b
    ensures b - a >= 2 * SECOND ==> a < Midpoint(a, b)
    ensures b - a < 2 * SECOND ==> a == Midpoint(a, b)
  {
    var k := (b - a) / (2 * SECOND);
    assert 0 <= k * (2 * SECOND) <= b - a;
  }

  /** The bisection of a bracket ends exactly where the change is not in the last, broken, second of it. */
  lemma {:induction false} BisectionEndsIff(f: OffsetAt, toMs: int, before: int, a: int, b: int, x: int)
    requires Bracket(f, before, a, b, x)
    ensures (exists n: nat :: Turns(f, toMs, Bisecting(before, a, b), n).AtDay?) <==> !Stuck(b, x)
  {
    if Stuck(b, x) {
      forall n: nat ensures Turns(f, toMs, Bisecting(before, a, b), n).Bisecting? {
        BisectionStalls(f, toMs, before, a, b, x, n);
      }
    } else {
      var n := BisectionEnds(f, toMs, before, a, b, x);
    }
  }

  lemma {:induction false} BisectionStalls(f: OffsetAt, toMs: int, before: int, a: int, b: int, x: int, n: nat)
    requires Bracket(f, before, a, b, x) && Stuck(b, x)
    ensures Turns(f, toMs, Bisecting(before, a, b), n).Bisecting?
    decreases n
  {
    if n > 0 {
      Halved(f, before, a, b, x);
      BisectionStalls(f, toMs, before, Midpoint(a, b), b, x, n - 1);
    }
  }

  lemma {:induction false} BisectionEnds(f: OffsetAt, toMs: int, before: int, a: int, b: int, x: int) returns (n: nat)
    requires Bracket(f, before, a, b, x) && !Stuck(b, x)
    ensures Turns(f, toMs, Bisecting(before, a, b), n) == AtDay(x, f(x))
    decreases b - a
  {
    Halved(f, before, a, b, x);
    var rest := 0;
    if b - a > SECOND {
      var mid := Midpoint(a, b);
      if f(mid) == before {
        rest := BisectionEnds(f, toMs, before, mid, b, x);
      } else {
        rest := BisectionEnds(f, toMs, before, a, mid, x);
      }
    }
    n := rest + 1;
  }

  // ---------------------------------------------------------------------
  // When the scan ends
  // ---------------------------------------------------------------------

  /** The last change before `t`, or the scan's start: where the scan last took up its days. */
  ghost predicate TakenUpAt(f: OffsetAt, start: int, t: int, base: int) {
    start <= base < t && (base == start || Changes(f, base)) && forall x :: base < x < t ==> !Changes(f, x)
  }

  /** The days taken up there do not run to `t`. */
  ghost predicate DaysRunPast(f: OffsetAt, start: int, t: int) {
    exists base :: TakenUpAt(f, start, t, base) && (t - base) % DAY_MS != 0
  }

  /**
   * The span ends off the second, within the second of a change, and that
   * change is no whole number of days from where the scan last took them up.
   */
  ghost predicate Stalls(f: OffsetAt, start: int, toMs: int) {
    toMs % SECOND != 0 && Changes(f, WholeSecond(toMs)) && DaysRunPast(f, start, WholeSecond(toMs))
  }

  /** A quiet day changes nothing about that. */
  lemma StallsPastQuietDay(f: OffsetAt, lo: int, toMs: int)
    requires OnSeconds(f) && ADayApart(f) && lo < toMs && lo % SECOND == 0 && f(lo) == f(DayEnd(lo, toMs))
    ensures Stalls(f, lo, toMs) <==> Stalls(f, lo + DAY_MS, toMs)
  {
    var t := WholeSecond(toMs);
    NoneInQuietDay(f, lo, DayEnd(lo, toMs));
    if Changes(f, t) && toMs % SECOND != 0 && lo < t {
      if t < lo + DAY_MS { SecondsApart(t, lo + DAY_MS); }
      DaysRunOn(f, lo, t);
    }
  }

  lemma NoneInQuietDay(f: OffsetAt, lo: int, hi: int)
    requires ADayApart(f) && lo < hi <= lo + DAY_MS && f(lo) == f(hi)
    ensures forall x :: lo < x <= hi ==> !Changes(f, x)
  {
    forall x | lo < x <= hi ensures !Changes(f, x) {
      if Changes(f, x) { QuietDay(f, lo, hi, x); }
    }
  }

  lemma DaysRunOn(f: OffsetAt, lo: int, t: int)
    requires lo + DAY_MS < t && forall x :: lo < x <= lo + DAY_MS ==> !Changes(f, x)
    ensures DaysRunPast(f, lo, t) <==> DaysRunPast(f, lo + DAY_MS, t)
  {
    assert (t - lo) % DAY_MS == (t - (lo + DAY_MS)) % DAY_MS;
    if DaysRunPast(f, lo, t) {
      var base :| TakenUpAt(f, lo, t, base) && (t - base) % DAY_MS != 0;
      assert TakenUpAt(f, lo + DAY_MS, t, if base == lo then lo + DAY_MS else base);
    }
    if DaysRunPast(f, lo + DAY_MS, t) {
      var base :| TakenUpAt(f, lo + DAY_MS, t, base) && (t - base) % DAY_MS != 0;
      assert TakenUpAt(f, lo, t, if base == lo + DAY_MS then lo else base);
    }
  }

  /** Past a day with a change the scan goes on from the change, unless it gets stuck on it. */
  lemma StallsPastChange(f: OffsetAt, lo: int, toMs: int, x: int)
    requires OnSeconds(f) && ADayApart(f) && lo < toMs && lo % SECOND == 0
    requires ChangesOnceAt(f, lo, DayEnd(lo, toMs), x) && x % SECOND == 0
    ensures Stalls(f, lo, toMs) <==> Stuck(DayEnd(lo, toMs), x) || Stalls(f, x, toMs)
  {
    var t := WholeSecond(toMs);
    assert x <= t;
    if toMs % SECOND != 0 && Changes(f, t) {
      if x < t {
        DaysTakenUp(f, lo, x, t);
        assert t - x >= DAY_MS;
      } else {
        StuckWithinADay(lo, toMs, t);
        FirstDays(f, lo, t);
      }
    }
  }

  /** The days are taken up anew at a change. */
  lemma DaysTakenUp(f: OffsetAt, lo: int, x: int, t: int)
    requires lo < x < t && Changes(f, x) && forall y :: lo < y < x ==> !Changes(f, y)
    ensures DaysRunPast(f, lo, t) <==> DaysRunPast(f, x, t)
  {
    forall base ensures TakenUpAt(f, lo, t, base) <==> TakenUpAt(f, x, t, base) {
    }
  }

  lemma FirstDays(f: OffsetAt, lo: int, t: int)
    requires lo < t && forall y :: lo < y < t ==> !Changes(f, y)
    ensures DaysRunPast(f, lo, t) <==> (t - lo) % DAY_MS != 0
  {
    assert TakenUpAt(f, lo, t, lo);
  }

  lemma StuckWithinADay(lo: int, toMs: int, t: int)
    requires toMs % SECOND != 0 && t == WholeSecond(toMs) && lo % SECOND == 0 && lo < t <= DayEnd(lo, toMs)
    ensures Stuck(DayEnd(lo, toMs), t) <==> (t - lo) % DAY_MS != 0
  {
    if t < lo + DAY_MS { SecondsApart(t, lo + DAY_MS); }
  }

  /** Standing where it will not end. */
  ghost predicate Endless(f: OffsetAt, toMs: int, at: Stand) {
    match at
    case AtDay(lo, before) => before == f(lo) && lo % SECOND == 0 && Stalls(f, lo, toMs)
    case Bisecting(before, a, b) => exists x :: Bracket(f, before, a, b, x) && (Stuck(b, x) || Stalls(f, x, toMs))
  }

  lemma StaysEndless(f: OffsetAt, toMs: int, at: Stand)
    requires OnSeconds(f) && ADayApart(f) && Endless(f, toMs, at)
    ensures !Over(toMs, at) && Endless(f, toMs, Turn(f, toMs, at))
  {
    match at
    case AtDay(lo, before) => DayStaysEndless(f, toMs, lo);
    case Bisecting(before, a, b) =>
      var x :| Bracket(f, before, a, b, x) && (Stuck(b, x) || Stalls(f, x, toMs));
      Halved(f, before, a, b, x);
  }

  lemma DayStaysEndless(f: OffsetAt, toMs: int, lo: int)
    requires OnSeconds(f) && ADayApart(f) && lo % SECOND == 0 && Stalls(f, lo, toMs)
    ensures lo < toMs && Endless(f, toMs, Turn(f, toMs, AtDay(lo, f(lo))))
  {
    var hi := DayEnd(lo, toMs);
    if f(hi) == f(lo) {
      StallsPastQuietDay(f, lo, toMs);
    } else {
      var x := ChangingDay(f, lo, hi);
      StallsPastChange(f, lo, toMs, x);
      assert Bracket(f, f(lo), lo, hi, x);
    }
  }

  lemma {:induction false} NeverOver(f: OffsetAt, toMs: int, at: Stand, n: nat)
    requires OnSeconds(f) && ADayApart(f) && Endless(f, toMs, at)
    ensures !Over(toMs, Turns(f, toMs, at, n))
    decreases n
  {
    StaysEndless(f, toMs, at);
    if n > 0 { NeverOver(f, toMs, Turn(f, toMs, at), n - 1); }
  }

  lemma {:induction false} EndsTurnsEarlier(f: OffsetAt, toMs: int, at: Stand, n: nat)
    requires Ends(f, toMs, Turns(f, toMs, at, n))
    ensures Ends(f, toMs, at)
    decreases n
  {
    if n > 0 {
      EndsTurnsEarlier(f, toMs, Turn(f, toMs, at), n - 1);
      EndsATurnEarlier(f, toMs, at);
    }
  }

  lemma {:induction false} EndsFrom(f: OffsetAt, toMs: int, lo: int, before: int)
    requires OnSeconds(f) && ADayApart(f) && lo % SECOND == 0 && (lo < toMs ==> before == f(lo)) && !Stalls(f, lo, toMs)
    ensures Ends(f, toMs, AtDay(lo, before))
    decreases toMs - lo
  {
    if lo >= toMs {
      assert Over(toMs, Turns(f, toMs, AtDay(lo, before), 0));
    } else if f(DayEnd(lo, toMs)) == before {
      StallsPastQuietDay(f, lo, toMs);
      EndsFrom(f, toMs, lo + DAY_MS, before);
      EndsATurnEarlier(f, toMs, AtDay(lo, before));
    } else {
      var x := ChangingDay(f, lo, DayEnd(lo, toMs));
      StallsPastChange(f, lo, toMs, x);
      var n := BisectionEnds(f, toMs, before, lo, DayEnd(lo, toMs), x);
      EndsFrom(f, toMs, x, f(x));
      EndsTurnsEarlier(f, toMs, Bisecting(before, lo, DayEnd(lo, toMs)), n);
      EndsATurnEarlier(f, toMs, AtDay(lo, before));
    }
  }

  /** The whole scan ends exactly where it does not stall so. */
  lemma {:induction false} ScanEndsIff(f: OffsetAt, start: int, toMs: int)
    requires OnSeconds(f) && ADayApart(f) && start % SECOND == 0
    ensures Ends(f, toMs, AtDay(start, f(start))) <==> !Stalls(f, start, toMs)
  {
    if Stalls(f, start, toMs) {
      forall n: nat ensures !Over(toMs, Turns(f, toMs, AtDay(start, f(start)), n)) {
        NeverOver(f, toMs, AtDay(start, f(start)), n);
      }
    } else {
      EndsFrom(f, toMs, start, f(start));
    }
  }

  /** A zone whose clocks go forward an hour at `at`. */
  function ForwardAt(at: int): OffsetAt {
    t => if t < at then 0 else HOUR
  }

  /**
   * Half a second past such a change at three o'clock, a scan from midnight
   * stalls; from the change itself, or from a day before it, one ends.
   */
  lemma HalfASecondPastAChange(midnight: int)
    requires midnight % SECOND == 0
    ensures var (change, f) := (midnight + 3 * HOUR, ForwardAt(midnight + 3 * HOUR));
            && OnSeconds(f) && ADayApart(f)
            && Stalls(f, midnight, change + SECOND / 2)
            && !Stalls(f, change, change + SECOND / 2)
            && !Stalls(f, change - DAY_MS, change + SECOND / 2)
  {
    var (change, f) := (midnight + 3 * HOUR, ForwardAt(midnight + 3 * HOUR));
    assert forall x :: Changes(f, x) <==> x == change;
    assert WholeSecond(change + SECOND / 2) == change;
    assert TakenUpAt(f, midnight, change, midnight);
    var dayBefore := change - DAY_MS;
    forall base ensures TakenUpAt(f, dayBefore, change, base) ==> base == dayBefore {
    }
  }

  // ---------------------------------------------------------------------
  // The scan
  // ---------------------------------------------------------------------

  /** `offsetChanges`: exact for every span it ends on. */
  method ScanOffsets(f: OffsetAt, fromMs: int, toMs: int) returns (scan: OffsetChanges)
    requires OnSeconds(f) && ADayApart(f)
    requires !Stalls(f, WholeSecond(fromMs), toMs)
    ensures var start := WholeSecond(fromMs);
            Exact(f, start, if start < toMs then toMs else start, scan)
  {
    var start := WholeSecond(fromMs);
    var first := f(start);
    var changes: seq<Change> := [];
    var before := first;
    var lo := start;
    while lo < toMs
      invariant Scanned(f, start, toMs, lo, before, OffsetChanges(first, changes))
      decreases toMs - lo
    {
      var hi := if lo + DAY_MS < toMs then lo + DAY_MS else toMs;
      var after := f(hi);
      if after == before {
        PastQuietDay(f, start, toMs, lo, OffsetChanges(first, changes));
        lo := lo + DAY_MS;
      } else {
        ghost var x := ChangingDay(f, lo, hi);
        StallsPastChange(f, lo, toMs, x);
        var b := Bisect(f, before, lo, hi, x);
        changes := Extended(f, start, lo, b, OffsetChanges(first, changes));
        before, lo := f(b), b;
      }
    }
    scan := OffsetChanges(first, changes);
  }

  /** How far the span has been gone through when its days have been up to `lo`. */
  function Reached(start: int, toMs: int, lo: int): int {
    if lo < toMs then lo else if start < toMs then toMs else start
  }

  ghost predicate Scanned(f: OffsetAt, start: int, toMs: int, lo: int, before: int, scan: OffsetChanges) {
    && start <= lo && lo % SECOND == 0 && before == f(Reached(start, toMs, lo)) && !Stalls(f, lo, toMs)
    && Exact(f, start, Reached(start, toMs, lo), scan)
  }

  lemma PastQuietDay(f: OffsetAt, start: int, toMs: int, lo: int, scan: OffsetChanges)
    requires OnSeconds(f) && ADayApart(f) && lo < toMs && f(lo) == f(DayEnd(lo, toMs))
    requires Scanned(f, start, toMs, lo, f(lo), scan)
    ensures Scanned(f, start, toMs, lo + DAY_MS, f(lo), scan)
  {
    NoneInQuietDay(f, lo, DayEnd(lo, toMs));
    StallsPastQuietDay(f, lo, toMs);
  }

  /** The inner loop: the first second showing the new offset. */
  method Bisect(f: OffsetAt, before: int, lo: int, hi: int, ghost x: int) returns (b: int)
    requires Bracket(f, before, lo, hi, x) && !Stuck(hi, x)
    ensures b == x && forall y :: lo < y < b ==> !Changes(f, y)
  {
    var a := lo;
    b := hi;
    while b - a > SECOND
      invariant Bracket(f, before, a, b, x) && !Stuck(b, x)
      decreases b - a
    {
      Halved(f, before, a, b, x);
      var mid := Midpoint(a, b);
      if f(mid) == before { a := mid; } else { b := mid; }
    }
    Halved(f, before, a, b, x);
  }

  /** The scan so far with the change at `b` added. */
  function Extended(f: OffsetAt, ghost start: int, ghost lo: int, b: int, scan: OffsetChanges): (changes: seq<Change>)
    requires start <= lo < b && Exact(f, start, lo, scan)
    requires Changes(f, b) && f(b - 1) == f(lo)
    requires forall x :: lo < x < b ==> !Changes(f, x)
    ensures Exact(f, start, b, OffsetChanges(scan.first, changes))
  {
    assert forall c :: c in scan.changes ==> c.at <= lo;
    scan.changes + [Record(f, b)]
  }

  // ---------------------------------------------------------------------
  // Reading a scan
  // ---------------------------------------------------------------------

  /** The lookup `utcOffsetMs` makes: the last change at or before `ms`, of a list in order. */
  method OffsetFrom(scan: OffsetChanges, ms: int) returns (offset: int)
    ensures offset == LookedUp(scan.first, scan.changes, ms)
  {
    offset := scan.first;
    var i := 0;
    while i < |scan.changes|
      invariant 0 <= i <= |scan.changes|
      invariant LookedUp(scan.first, scan.changes, ms) == LookedUp(offset, scan.changes[i..], ms)
    {
      if scan.changes[i].at > ms { break; }
      offset := scan.changes[i].to;
      i := i + 1;
    }
  }

  function LookedUp(first: int, changes: seq<Change>, ms: int): int
    decreases |changes|
  {
    if changes == [] || changes[0].at > ms then first else LookedUp(changes[0].to, changes[1..], ms)
  }

  /** Looking an exact scan up is asking the zone. */
  lemma {:induction false} LookupIsExact(f: OffsetAt, lo: int, hi: int, scan: OffsetChanges, ms: int)
    requires Exact(f, lo, hi, scan) && lo <= ms <= hi
    ensures LookedUp(scan.first, scan.changes, ms) == f(ms)
    decreases |scan.changes|
  {
    var cs := scan.changes;
    if cs == [] || cs[0].at > ms {
      if f(lo) != f(ms) {
        var x := ChangeBetween(f, lo, ms);
      }
    } else {
      RestIsExact(f, lo, hi, scan);
      LookupIsExact(f, cs[0].at, hi, OffsetChanges(cs[0].to, cs[1..]), ms);
    }
  }

  /** From its first change on, an exact scan is one of the rest of the span. */
  lemma RestIsExact(f: OffsetAt, lo: int, hi: int, scan: OffsetChanges)
    requires Exact(f, lo, hi, scan) && scan.changes != []
    ensures var c := scan.changes[0]; Exact(f, c.at, hi, OffsetChanges(c.to, scan.changes[1..]))
  {
    var cs := scan.changes;
    assert cs[0] in cs;
    assert forall c :: c in cs[1..] ==> c in cs && c.at > cs[0].at;
    forall x | cs[0].at < x <= hi && Changes(f, x) ensures Record(f, x) in cs[1..] {
      assert Record(f, x) in cs;
    }
  }

  /** There is one exact scan of a span: the listing is determined, order and all. */
  lemma {:induction false} ExactIsUnique(f: OffsetAt, lo: int, hi: int, s1: OffsetChanges, s2: OffsetChanges)
    requires Exact(f, lo, hi, s1) && Exact(f, lo, hi, s2)
    ensures s1 == s2
    decreases |s1.changes|
  {
    var c1, c2 := s1.changes, s2.changes;
    if c1 != [] {
      assert c1[0] in c1 && c1[0] in c2 && c2[0] in c1;
      assert c1[0] == c2[0];
      RestIsExact(f, lo, hi, s1);
      RestIsExact(f, lo, hi, s2);
      ExactIsUnique(f, c1[0].at, hi, OffsetChanges(c1[0].to, c1[1..]), OffsetChanges(c1[0].to, c2[1..]));
    }
  }
}
