/**
 * A whole series moved to another clock time or given another length
 * (src/ical-series-shift.ts). No rule is walked there: what moves is every
 * value keyed to the old start times, each by one difference on the clock of
 * the series, so that the rule, walked later, meets them where it used to.
 */
module SeriesShift {
  import opened Options
  import opened WallClock
  import opened Series

  /** An RDATE value: a start, and for a PERIOD the end it gives. */
  datatype RDate = RDate(start: Time, period: Option<Length>)

  /**
   * A recurrence rule: the dates it gives before UNTIL, each at the clock time
   * of DTSTART. `ownTimes` says that it fixes times of its own, by a sub-daily
   * FREQ or a BYHOUR, BYMINUTE or BYSECOND.
   */
  datatype Rule = Rule(dates: seq<int>, ownTimes: bool, until: Option<Time>)

  /** A stored series: what its master says, and its overrides. */
  datatype Stored = Stored(start: Time, length: Length, sequence: int, props: string,
                           rules: seq<Rule>, rdates: seq<RDate>, exdates: seq<Time>, overrides: seq<Override>)

  // ---------------------------------------------------------------------
  // Values moved
  // ---------------------------------------------------------------------

  /**
   * `shiftProperty` on one value, called for a difference there is: a date is
   * left, the series' own clock moves field by field, any other zone's as an
   * instant.
   */
  function Moved(t: Time, ms: int, z: Zone): Time {
    if t.isDate || ms == 0 then t
    else if t.zone.id == z.id then Plus(t, ms)
    else t.(wall := t.zone.show(z.place(z.show(InstantOf(t)) + ms)))
  }

  function MovedLength(length: Length, ms: int, z: Zone): Length {
    if length.Until? then Until(Moved(length.end, ms, z)) else length
  }

  function MovedRDate(r: RDate, ms: int, z: Zone): RDate {
    RDate(Moved(r.start, ms, z), if r.period.None? then None else Some(MovedLength(r.period.value, ms, z)))
  }

  /** `shiftUntil` on one UNTIL: in UTC it moves as an instant on the series' clock, floating on its own. */
  function MovedUntil(t: Time, ms: int, z: Zone): Time {
    if t.isDate || ms == 0 then t
    else if t.zone.id == UTC.id then Time(z.place(z.show(InstantOf(t)) + ms), UTC, false)
    else Plus(t, ms)
  }

  function MovedRule(r: Rule, ms: int, z: Zone): Rule {
    r.(until := if r.until.None? then None else Some(MovedUntil(r.until.value, ms, z)))
  }

  /** `writtenTime`: an instant in a zone, or in UTC where no clock time there names it. */
  function Written(ms: int, z: Zone): Time {
    var whole := WholeSecond(ms);
    if z.place(z.show(whole)) == whole then Time(z.show(whole), z, false) else Time(whole, UTC, false)
  }

  /** A new end `ms` after a start: a DURATION in seconds, or a DTEND in the zone it had. */
  function Lengthened(start: Time, length: Length, ms: int): Length {
    if length.Until? then Until(Written(InstantOf(start) + ms, length.end.zone))
      else Lasting((ms + SECOND / 2) / SECOND * SECOND)
  }

  /** An override still at its original occurrence with the series' old length. */
  predicate Unrescheduled(o: Override, oldLength: int, allDay: bool) {
    KeyOf(o.start, allDay) == KeyOf(o.rid, allDay) && DurationOf(o.start, o.length) == oldLength
  }

  /** What a shift by `ms`, to the new length where one is given, makes of an override. */
  function MovedOverride(o: Override, ms: int, length: Option<int>, oldLength: int, z: Zone): Override {
    var rid := Moved(o.rid, ms, z);
    if !Unrescheduled(o, oldLength, false) then
      o.(rid := rid, sequence := if ms == 0 then o.sequence else o.sequence + 1)
    else
      var start := Moved(o.start, ms, z);
      var end := if length.None? then MovedLength(o.length, ms, z) else Lengthened(start, o.length, length.value);
      o.(rid := rid, start := start, length := end, sequence := if ms == 0 && length.None? then o.sequence
         else o.sequence + 1)
  }

  function MapRDates(rs: seq<RDate>, ms: int, z: Zone): (r: seq<RDate>)
    ensures |r| == |rs| && forall i :: 0 <= i < |rs| ==> r[i] == MovedRDate(rs[i], ms, z)
  {
    seq(|rs|, i requires 0 <= i < |rs| => MovedRDate(rs[i], ms, z))
  }

  function MapTimes(ts: seq<Time>, ms: int, z: Zone): (r: seq<Time>)
    ensures |r| == |ts| && forall i :: 0 <= i < |ts| ==> r[i] == Moved(ts[i], ms, z)
  {
    seq(|ts|, i requires 0 <= i < |ts| => Moved(ts[i], ms, z))
  }

  function MapRules(rs: seq<Rule>, ms: int, z: Zone): (r: seq<Rule>)
    ensures |r| == |rs| && forall i :: 0 <= i < |rs| ==> r[i] == MovedRule(rs[i], ms, z)
  {
    seq(|rs|, i requires 0 <= i < |rs| => MovedRule(rs[i], ms, z))
  }

  function MapOverrides(os: seq<Override>, ms: int, length: Option<int>, oldLength: int, z: Zone): (r: seq<Override>)
    ensures |r| == |os| && forall i :: 0 <= i < |os| ==> r[i] == MovedOverride(os[i], ms, length, oldLength, z)
  {
    seq(|os|, i requires 0 <= i < |os| => MovedOverride(os[i], ms, length, oldLength, z))
  }

  /** The whole series moved by `ms` on its own clock. */
  function ShiftedBy(s: Stored, ms: int, length: Option<int>): Stored {
    var z := s.start.zone;
    var start := Plus(s.start, ms);
    Stored(start,
      if length.None? then MovedLength(s.length, ms, z) else Lengthened(start, s.length, length.value),
      s.sequence + 1, s.props,
      MapRules(s.rules, ms, z), MapRDates(s.rdates, ms, z), MapTimes(s.exdates, ms, z),
      MapOverrides(s.overrides, ms, length, DurationOf(s.start, s.length), z))
  }

  /** No difference moves nothing. */
  lemma NothingMoves(z: Zone, exdates: seq<Time>, rdates: seq<RDate>, rules: seq<Rule>)
    ensures MapTimes(exdates, 0, z) == exdates && MapRDates(rdates, 0, z) == rdates && MapRules(rules, 0, z) == rules
  {
  }

  // ---------------------------------------------------------------------
  // The write
  // ---------------------------------------------------------------------

  datatype Refusal = OtherDay | RuleHasTimes | EndsBeforeItStarts

  /** The difference asked for: from the clock time of the occurrence described to the new start's, on the same day. */
  function DeltaOf(s: Stored, anchor: int, start: Option<int>): int {
    if start.None? then 0 else s.start.zone.show(start.value) - anchor
  }

  function LengthOf(s: Stored, anchor: int, delta: int, end: Option<int>): Option<int> {
    if end.None? then None else Some(end.value - s.start.zone.place(anchor + delta))
  }

  /** Why a change of a timed series is refused, or none. */
  function RefusalOf(s: Stored, anchor: int, start: Option<int>, end: Option<int>): Option<Refusal> {
    var delta := DeltaOf(s, anchor, start);
    var length := LengthOf(s, anchor, delta, end);
    if start.Some? && s.start.zone.show(start.value) / DAY_MS != anchor / DAY_MS then Some(OtherDay)
    else if delta != 0 && exists i :: 0 <= i < |s.rules| && s.rules[i].ownTimes then Some(RuleHasTimes)
    else if length.Some? && length.value <= 0 then Some(EndsBeforeItStarts)
    else None
  }

  /** A length of whole days from the day of `start`. */
  function DaysFrom(start: Time, length: Length, days: int): Length {
    if length.Until? then Until(Time(DayOf(start) * DAY_MS + days * DAY_MS, start.zone, true))
      else Lasting(days * DAY_MS)
  }

  function ResizedOverride(o: Override, days: int, oldLength: int): Override {
    if Unrescheduled(o, oldLength, true)
      then o.(length := DaysFrom(o.start, o.length, days), sequence := o.sequence + 1) else o
  }

  /** An all-day series given another length in days. */
  function Resized(s: Stored, days: int): (r: Stored)
    ensures |r.overrides| == |s.overrides|
  {
    s.(length := DaysFrom(s.start, s.length, days), sequence := s.sequence + 1,
       overrides := seq(|s.overrides|,
                        i requires 0 <= i < |s.overrides| =>
                          ResizedOverride(s.overrides[i], days, DurationOf(s.start, s.length))))
  }

  /** Why a change of an all-day series is refused, or none. */
  function AllDayRefusal(anchorDay: int, startDay: Option<int>, endDay: Option<int>): Option<Refusal> {
    if startDay.Some? && startDay.value != anchorDay then Some(OtherDay)
    else if endDay.Some? && endDay.value <= anchorDay then Some(EndsBeforeItStarts)
    else None
  }

  /** The VEVENTs of one UID, edited in place. */
  class SeriesToShift {
    var start: Time
    var length: Length
    var sequence: int
    var props: string
    var rules: seq<Rule>
    var rdates: seq<RDate>
    var exdates: seq<Time>
    var overrides: seq<Override>

    function Value(): Stored
      reads this
    {
      Stored(start, length, sequence, props, rules, rdates, exdates, overrides)
    }

    /** What the caller asks of the series, as a difference and a length, or why it is refused. */
    method Asked(anchor: int, newStart: Option<int>, newEnd: Option<int>)
      returns (refusal: Option<Refusal>, delta: int, newLength: Option<int>)
      ensures refusal == RefusalOf(Value(), anchor, newStart, newEnd)
      ensures refusal.None? ==>
                delta == DeltaOf(Value(), anchor, newStart) && newLength == LengthOf(Value(), anchor, delta, newEnd)
    {
      var z := start.zone;
      delta, newLength := 0, None;
      if newStart.Some? {
        var wall := z.show(newStart.value);
        if wall / DAY_MS != anchor / DAY_MS { return Some(OtherDay), 0, None; }
        delta := wall - anchor;
      }
      if delta != 0 {
        var n := 0;
        while n < |rules|
          invariant 0 <= n <= |rules|
          invariant forall i :: 0 <= i < n ==> !rules[i].ownTimes
        {
          if rules[n].ownTimes { return Some(RuleHasTimes), 0, None; }
          n := n + 1;
        }
      }
      if newEnd.Some? {
        var startMs := z.place(anchor + delta);
        if newEnd.value <= startMs { return Some(EndsBeforeItStarts), 0, None; }
        newLength := Some(newEnd.value - startMs);
      }
      refusal := None;
    }

    /** `shiftTimedSeries`: `anchor` is the clock time of the occurrence the new start and end describe. */
    method ShiftTimed(anchor: int, newStart: Option<int>, newEnd: Option<int>) returns (refusal: Option<Refusal>)
      modifies this
      ensures refusal == RefusalOf(old(Value()), anchor, newStart, newEnd)
      ensures Value() == if refusal.Some? then old(Value()) else
                var delta := DeltaOf(old(Value()), anchor, newStart);
                ShiftedBy(old(Value()), delta, LengthOf(old(Value()), anchor, delta, newEnd))
    {
      var delta, newLength;
      refusal, delta, newLength := Asked(anchor, newStart, newEnd);
      if refusal.Some? { return; }
      var z := start.zone;
      var oldLength := DurationOf(start, length);
      start := Plus(start, delta);
      if newLength.Some? {
        length := Lengthened(start, length, newLength.value);
      } else if delta != 0 {
        length := MovedLength(length, delta, z);
      }
      if delta != 0 {
        MoveExdates(delta, z);
        MoveRDates(delta, z);
        MoveRules(delta, z);
      } else {
        NothingMoves(z, exdates, rdates, rules);
      }
      MoveOverrides(delta, newLength, oldLength, z);
      sequence := sequence + 1;
    }

    /** `shiftAllDaySeries`: the day stays, and a new length is in whole days. */
    method ShiftAllDay(anchorDay: int, startDay: Option<int>, endDay: Option<int>) returns (refusal: Option<Refusal>)
      modifies this`length, this`overrides, this`sequence
      ensures refusal == AllDayRefusal(anchorDay, startDay, endDay)
      ensures Value() ==
              if refusal.Some? then old(Value())
              else if endDay.None? then old(Value()).(sequence := old(sequence) + 1)
              else Resized(old(Value()), endDay.value - anchorDay)
    {
      if startDay.Some? && startDay.value != anchorDay { return Some(OtherDay); }
      if endDay.Some? {
        var days := endDay.value - anchorDay;
        if days <= 0 { return Some(EndsBeforeItStarts); }
        var oldLength := DurationOf(start, length);
        length := DaysFrom(start, length, days);
        var n := 0;
        while n < |overrides|
          invariant length == DaysFrom(start, old(length), days) && sequence == old(sequence)
          invariant 0 <= n <= |overrides| == |old(overrides)|
          invariant forall i :: 0 <= i < |overrides| ==>
            overrides[i] == if i < n then ResizedOverride(old(overrides)[i], days, oldLength) else old(overrides)[i]
        {
          if Unrescheduled(overrides[n], oldLength, true) {
            var o := overrides[n].(length := DaysFrom(overrides[n].start, overrides[n].length, days));
            overrides := overrides[n := o.(sequence := o.sequence + 1)];
          }
          n := n + 1;
        }
        assert overrides == Resized(old(Value()), days).overrides;
      }
      sequence := sequence + 1;
      refusal := None;
    }

    method MoveExdates(delta: int, z: Zone)
      modifies this`exdates
      ensures exdates == MapTimes(old(exdates), delta, z)
    {
      var n := 0;
      while n < |exdates|
        invariant 0 <= n <= |exdates| == |old(exdates)|
        invariant forall i :: 0 <= i < |exdates| ==>
                    exdates[i] == if i < n then Moved(old(exdates)[i], delta, z) else old(exdates)[i]
      {
        exdates := exdates[n := Moved(exdates[n], delta, z)];
        n := n + 1;
      }
    }

    method MoveRDates(delta: int, z: Zone)
      modifies this`rdates
      ensures rdates == MapRDates(old(rdates), delta, z)
    {
      var n := 0;
      while n < |rdates|
        invariant 0 <= n <= |rdates| == |old(rdates)|
        invariant forall i :: 0 <= i < |rdates| ==>
                    rdates[i] == if i < n then MovedRDate(old(rdates)[i], delta, z) else old(rdates)[i]
      {
        rdates := rdates[n := MovedRDate(rdates[n], delta, z)];
        n := n + 1;
      }
    }

    method MoveRules(delta: int, z: Zone)
      modifies this`rules
      ensures rules == MapRules(old(rules), delta, z)
    {
      var n := 0;
      while n < |rules|
        invariant 0 <= n <= |rules| == |old(rules)|
        invariant forall i :: 0 <= i < |rules| ==>
                    rules[i] == if i < n then MovedRule(old(rules)[i], delta, z) else old(rules)[i]
      {
        rules := rules[n := MovedRule(rules[n], delta, z)];
        n := n + 1;
      }
    }

    method MoveOverrides(delta: int, newLength: Option<int>, oldLength: int, z: Zone)
      modifies this`overrides
      ensures overrides == MapOverrides(old(overrides), delta, newLength, oldLength, z)
    {
      var n := 0;
      while n < |overrides|
        invariant 0 <= n <= |overrides| == |old(overrides)|
        invariant forall i :: 0 <= i < |overrides| ==>
          overrides[i] == if i < n then MovedOverride(old(overrides)[i], delta, newLength, oldLength, z)
            else old(overrides)[i]
      {
        var o := MoveOverride(overrides[n], delta, newLength, oldLength, z);
        overrides := overrides[n := o];
        n := n + 1;
      }
    }
  }

  /** One override's turn in the loop of `shiftTimedSeries`. */
  method MoveOverride(ve: Override, delta: int, newLength: Option<int>, oldLength: int, z: Zone) returns (o: Override)
    ensures o == MovedOverride(ve, delta, newLength, oldLength, z)
  {
    o := ve;
    var moves := Unrescheduled(o, oldLength, false);
    var changed := false;
    if delta != 0 {
      o := o.(rid := Moved(o.rid, delta, z));
      changed := true;
    }
    if moves {
      if delta != 0 { o := o.(start := Moved(o.start, delta, z)); }
      if newLength.Some? {
        o := o.(length := Lengthened(o.start, o.length, newLength.value));
        changed := true;
      } else if delta != 0 {
        o := o.(length := MovedLength(o.length, delta, z));
      }
      changed := changed || delta != 0;
    }
    if changed { o := o.(sequence := o.sequence + 1); }
  }
}
