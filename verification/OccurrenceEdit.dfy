/**
 * One occurrence of a series changed or deleted (src/ical-occurrence-edit.ts):
 * what the stored object says before and after, occurrence by occurrence.
 */
module OccurrenceEdit {
  import opened Options
  import opened Series
  import opened Reader

  /** What a patch makes of the times and properties of the override it is applied to. */
  type Patch = (Time, Length, string) -> (Time, Length, string)

  /** The patch applied, and the revision raised. */
  function Apply(o: Override, patch: Patch): Override {
    var (start, length, props) := patch(o.start, o.length, o.props);
    o.(start := start, length := length, props := props, sequence := o.sequence + 1)
  }

  /**
   * The time an occurrence started at, as a value beside the master: its fields
   * in the zone of the master's DTSTART.
   */
  function OriginalStart(m: Master, wall: int, isDate: bool): Time {
    Time(wall, m.start.zone, isDate)
  }

  /** The time a start of the walk is written as, in a RECURRENCE-ID or an EXDATE. */
  function InSeries(m: Master, t: Time): Time {
    OriginalStart(m, InSeriesZone(m, t), t.isDate)
  }

  /** An override put where `e` is: a DTEND follows, a DURATION is left alone. */
  function Placed(o: Override, e: Entry): Override {
    o.(start := e.start, length := if o.length.Until? then Until(e.end) else o.length)
  }

  /** A new override copied from the master. */
  function OverrideFrom(m: Master, time: Time): Override {
    Override(time, false, m.sequence, time,
      if m.length.Until? then Until(Plus(time, DurationOf(m.start, m.length))) else m.length, m.props)
  }

  /** A new override for an occurrence a RANGE override reaches: that override as listed there, with no RANGE. */
  function OverrideFromRange(range: Override, time: Time): Override {
    Placed(range.(rid := time, range := false), Shifted(range, time))
  }

  /** A RANGE override moved on to start at `time`, its revision raised. */
  function MovedOn(range: Override, time: Time): Override {
    Placed(range.(rid := time, sequence := range.sequence + 1), Shifted(range, time))
  }

  /** Every override but those of one key, of which the one at `keep` stays. */
  function RemoveKey(os: seq<Override>, allDay: bool, key: Key, keep: Option<nat>): seq<Override> {
    if os == [] then []
    else
      var n := |os| - 1;
      RemoveKey(os[..n], allDay, key, keep)
        + (if KeyOf(os[n].rid, allDay) == key && keep != Some(n) then [] else [os[n]])
  }

  // ---------------------------------------------------------------------
  // The writes
  // ---------------------------------------------------------------------

  /**
   * The RANGE override at `i` moved on, and a plain one for the occurrence it
   * started at; none where that is refused.
   */
  function Detached(m: Master, os: seq<Override>, i: nat, found: FoundOccurrence): Option<(seq<Override>, nat)>
    requires i < |os|
  {
    match found.next
    case NoNext => Some((os[i := os[i].(range := false)], i))
    case Unknown => None
    case NextAt(wall, overridden) =>
      if overridden then None
      else Some((os[i := MovedOn(os[i], OriginalStart(m, wall, found.isDate))] + [os[i].(range := false)], |os|))
  }

  function Patched(m: Master, os: seq<Override>, found: FoundOccurrence, patch: Patch): Option<seq<Override>>
    requires found.current.Some? ==> found.current.value < |os|
    requires found.range.Some? ==> found.range.value < |os|
  {
    if found.current.None? then
      var time := OriginalStart(m, found.wall, found.isDate);
      var made := if found.range.None? then OverrideFrom(m, time) else OverrideFromRange(os[found.range.value], time);
      Some(os + [Apply(made, patch)])
    else
      var i := found.current.value;
      if !os[i].range then Some(os[i := Apply(os[i], patch)])
      else
        var d := Detached(m, os, i, found);
        if d.None? then None else Some(d.value.0[d.value.1 := Apply(d.value.0[d.value.1], patch)])
  }

  /**
   * What is left of the overrides once the occurrence's own are gone: of those,
   * a RANGE override that moved on stays, whatever key it moved to.
   */
  function Remaining(m: Master, os: seq<Override>, found: FoundOccurrence): Option<seq<Override>>
    requires found.current.Some? ==> found.current.value < |os|
  {
    if found.current.None? || !os[found.current.value].range then Some(RemoveKey(os, m.start.isDate, found.key, None))
    else
      var i := found.current.value;
      match found.next
      case NoNext => Some(RemoveKey(os, m.start.isDate, found.key, None))
      case Unknown => None
      case NextAt(wall, overridden) =>
        if overridden then None
        else
          var moved := MovedOn(os[i], OriginalStart(m, wall, found.isDate));
          Some(RemoveKey(os[i := moved], m.start.isDate, found.key, Some(i)))
  }

  /** The VEVENTs of one UID, edited in place. */
  class SeriesObject {
    var master: Master
    var overrides: seq<Override>

    /** `detachRangeAnchor`: the override to go on editing, or a refusal that changed nothing. */
    method DetachRangeAnchor(i: nat, found: FoundOccurrence) returns (target: Option<nat>)
      requires i < |overrides|
      modifies this`overrides
      ensures target == (var d := Detached(master, old(overrides), i, found); if d.Some? then Some(d.value.1) else None)
      ensures overrides == (var d := Detached(master, old(overrides), i, found);
                            if d.Some? then d.value.0 else old(overrides))
      ensures target.Some? ==> target.value < |overrides|
    {
      if found.next.NoNext? {
        overrides := overrides[i := overrides[i].(range := false)];
        return Some(i);
      }
      if found.next.Unknown? || found.next.overridden { return None; }
      var plain := overrides[i].(range := false);
      var time := OriginalStart(master, found.next.wall, found.isDate);
      var e := Shifted(overrides[i], time);
      var moved := overrides[i].(rid := time);
      moved := moved.(start := e.start);
      if moved.length.Until? { moved := moved.(length := Until(e.end)); }
      moved := moved.(sequence := moved.sequence + 1);
      overrides := overrides[i := moved];
      overrides := overrides + [plain];
      target := Some(|overrides| - 1);
    }

    /** `applyOccurrencePatch`: false is the refusal, with the object as it was. */
    method ApplyOccurrencePatch(found: FoundOccurrence, patch: Patch) returns (ok: bool)
      requires found.current.Some? ==> found.current.value < |overrides|
      requires found.range.Some? ==> found.range.value < |overrides|
      modifies this`overrides
      ensures ok <==> Patched(master, old(overrides), found, patch).Some?
      ensures overrides == (var p := Patched(master, old(overrides), found, patch);
                            if p.Some? then p.value else old(overrides))
    {
      var target;
      if found.current.Some? {
        target := found.current.value;
        if overrides[target].range {
          var detached := DetachRangeAnchor(target, found);
          if detached.None? { return false; }
          target := detached.value;
        }
      } else {
        var time := OriginalStart(master, found.wall, found.isDate);
        var made;
        if found.range.None? {
          made := OverrideFrom(master, time);
        } else {
          made := OverrideFromRange(overrides[found.range.value], time);
        }
        overrides := overrides + [made];
        target := |overrides| - 1;
      }
      overrides := overrides[target := Apply(overrides[target], patch)];
      ok := true;
    }

    /**
     * `excludeOccurrence`: the overrides gone, an EXDATE in the master; false is
     * the refusal, with the object as it was.
     */
    method ExcludeOccurrence(found: FoundOccurrence) returns (ok: bool)
      requires found.current.Some? ==> found.current.value < |overrides|
      requires found.current.Some? ==> KeyOf(overrides[found.current.value].rid, master.start.isDate) == found.key
      modifies this
      ensures ok <==> Remaining(old(master), old(overrides), found).Some?
      ensures overrides == (var r := Remaining(old(master), old(overrides), found);
                            if r.Some? then r.value else old(overrides))
      ensures master == if !ok then old(master) else
                old(master).(exdates := old(master).exdates + [OriginalStart(old(master), found.wall, found.isDate)],
                             sequence := old(master).sequence + 1)
    {
      ghost var before := overrides;
      var keep := None;
      if found.current.Some? && overrides[found.current.value].range {
        var detached := DetachRangeAnchor(found.current.value, found);
        if detached.None? { return false; }
        if detached != found.current { keep := found.current; }
        RemoveDetached(master, before, found);
      }
      DropKey(master.start.isDate, found.key, keep);
      var time := OriginalStart(master, found.wall, found.isDate);
      master := master.(exdates := master.exdates + [time]);
      master := master.(sequence := master.sequence + 1);
      ok := true;
    }

    /** Every revision of `key` out of the object, but the one at `keep`. */
    method DropKey(allDay: bool, key: Key, keep: Option<nat>)
      modifies this`overrides
      ensures overrides == RemoveKey(old(overrides), allDay, key, keep)
    {
      var kept: seq<Override> := [];
      var n := 0;
      while n < |overrides|
        invariant 0 <= n <= |overrides|
        invariant kept == RemoveKey(overrides[..n], allDay, key, keep)
      {
        assert overrides[..n + 1][..n] == overrides[..n];
        if KeyOf(overrides[n].rid, allDay) != key || keep == Some(n) { kept := kept + [overrides[n]]; }
        n := n + 1;
      }
      assert overrides[..n] == overrides;
      overrides := kept;
    }
  }

  /** The plain copy put aside for a deletion goes with the occurrence's other revisions. */
  lemma RemoveDetached(m: Master, os: seq<Override>, found: FoundOccurrence)
    requires found.current.Some? && found.current.value < |os| && os[found.current.value].range
    requires KeyOf(os[found.current.value].rid, m.start.isDate) == found.key
    requires Detached(m, os, found.current.value, found).Some?
    ensures var (os', target) := Detached(m, os, found.current.value, found).value;
            Remaining(m, os, found) ==
            Some(RemoveKey(os', m.start.isDate, found.key,
                           if Some(target) != found.current then found.current else None))
  {
    var i := found.current.value;
    var allDay := m.start.isDate;
    if found.next.NoNext? {
      RemoveReplaced(os, allDay, found.key, i, os[i].(range := false));
    } else {
      var moved := os[i := MovedOn(os[i], OriginalStart(m, found.next.wall, found.isDate))];
      RemoveStep(moved, os[i].(range := false), allDay, found.key, Some(i));
    }
  }

  lemma RemoveStep(os: seq<Override>, o: Override, allDay: bool, key: Key, keep: Option<nat>)
    ensures RemoveKey(os + [o], allDay, key, keep) ==
            RemoveKey(os, allDay, key, keep) + (if KeyOf(o.rid, allDay) == key && keep != Some(|os|) then [] else [o])
    ensures KeyOf(o.rid, allDay) == key && keep != Some(|os|) ==>
              RemoveKey(os + [o], allDay, key, keep) == RemoveKey(os, allDay, key, keep)
  {
    assert (os + [o])[..|os|] == os;
  }

  lemma {:induction false} RemoveReplaced(os: seq<Override>, allDay: bool, key: Key, i: nat, o: Override)
    requires i < |os| && KeyOf(os[i].rid, allDay) == key == KeyOf(o.rid, allDay)
    ensures RemoveKey(os[i := o], allDay, key, None) == RemoveKey(os, allDay, key, None)
    decreases |os|
  {
    var n := |os| - 1;
    if i < n {
      assert os[i := o][..n] == os[..n][i := o];
      RemoveReplaced(os[..n], allDay, key, i, o);
    } else {
      assert os[i := o][..n] == os[..n];
    }
  }
}
