/**
 * What a change of a guest list comes to (src/ical-attendees.ts): whom the
 * answer names is exactly who may be emailed, nobody is invited behind the
 * caller's back, and everyone not named keeps their line.
 */
module GuestListMeaning {
  import opened Options
  import opened GuestList
  import DavEtags

  lemma {:induction false} KeptLines(attendees: seq<Attendee>, remove: seq<string>)
    ensures forall a :: a in Kept(attendees, remove) <==> a in attendees && !KeyIn(remove, KeyOf(a))
    decreases |attendees|
  {
    if attendees != [] {
      var n := |attendees| - 1;
      KeptLines(attendees[..n], remove);
      assert attendees == attendees[..n] + [attendees[n]];
    }
  }

  lemma {:induction false} AddedLines(attendees: seq<Attendee>, add: seq<string>, strict: bool, notify: bool)
    ensures forall a :: a in Added(attendees, add, strict, notify) <==>
              exists address :: address in add && a == AddedLine(address, notify)
                && (strict || !ListedOn(VEvent([], attendees), AddressKey(address)))
    decreases |add|
  {
    if add != [] {
      var n := |add| - 1;
      AddedLines(attendees, add[..n], strict, notify);
      assert add == add[..n] + [add[n]];
    }
  }

  lemma AddedIsThatPerson(address: string, notify: bool)
    ensures KeyOf(AddedLine(address, notify)) == AddressKey(address)
    ensures ClientScheduled(AddedLine(address, notify)) <==> !notify
  {
    WrittenIsTheSamePerson(address);
    assert Lower("CLIENT") == "client";
  }

  /** Who is listed, and who plainly, by lines. */
  lemma ByLine(ve: VEvent, key: string)
    ensures ListedOn(ve, key) <==> exists a :: a in ve.attendees && KeyOf(a) == key
    ensures PlainOn(ve, key) <==> exists a :: a in ve.attendees && KeyOf(a) == key && !ClientScheduled(a)
  {
  }

  lemma {:induction false} AddedByKey(ve: VEvent, call: Call, strict: bool, key: string)
    ensures (exists a :: a in Added(ve.attendees, call.add, strict, call.notify) && KeyOf(a) == key) <==>
            KeyIn(call.add, key) && (strict || !ListedOn(ve, key))
    ensures forall a :: a in Added(ve.attendees, call.add, strict, call.notify) ==>
              (ClientScheduled(a) <==> !call.notify)
  {
    var lines := Added(ve.attendees, call.add, strict, call.notify);
    AddedLines(ve.attendees, call.add, strict, call.notify);
    forall k ensures ListedOn(VEvent([], ve.attendees), k) <==> ListedOn(ve, k) {
    }
    forall a | a in lines
      ensures (ClientScheduled(a) <==> !call.notify)
      ensures (KeyOf(a) == key ==> KeyIn(call.add, key) && (strict || !ListedOn(ve, key)))
    {
      AddedFromSomeone(ve, call, strict, a);
    }
    if KeyIn(call.add, key) && (strict || !ListedOn(ve, key)) {
      var i :| 0 <= i < |call.add| && AddressKey(call.add[i]) == key;
      AddedIsThatPerson(call.add[i], call.notify);
      assert AddedLine(call.add[i], call.notify) in lines;
    }
  }

  lemma AddedFromSomeone(ve: VEvent, call: Call, strict: bool, a: Attendee)
    requires exists address :: address in call.add && a == AddedLine(address, call.notify)
               && (strict || !ListedOn(VEvent([], ve.attendees), AddressKey(address)))
    ensures ClientScheduled(a) <==> !call.notify
    ensures KeyIn(call.add, KeyOf(a)) && (strict || !ListedOn(ve, KeyOf(a)))
  {
    var address :| address in call.add && a == AddedLine(address, call.notify)
                   && (strict || !ListedOn(VEvent([], ve.attendees), AddressKey(address)));
    AddedIsThatPerson(address, call.notify);
    var i :| 0 <= i < |call.add| && call.add[i] == address;
    assert AddressKey(call.add[i]) == KeyOf(a);
    assert ListedOn(VEvent([], ve.attendees), KeyOf(a)) <==> ListedOn(ve, KeyOf(a));
  }

  /** Who one target lists after the change, and who plainly. */
  lemma {:induction false} ChangedLists(ve: VEvent, call: Call, strict: bool, key: string)
    ensures ListedOn(Changed(ve, call, strict), key) <==>
            (ListedOn(ve, key) && !KeyIn(call.remove, key)) || (KeyIn(call.add, key) && (strict || !ListedOn(ve, key)))
    ensures PlainOn(Changed(ve, call, strict), key) <==>
            (PlainOn(ve, key) && !KeyIn(call.remove, key))
              || (call.notify && KeyIn(call.add, key) && (strict || !ListedOn(ve, key)))
  {
    KeptLines(ve.attendees, call.remove);
    AddedByKey(ve, call, strict, key);
    ByLine(ve, key);
    ByLine(Changed(ve, call, strict), key);
  }

  /** The ORGANIZER changes nobody's line but to mark it. */
  lemma {:induction false} OrganizedLists(ve: VEvent, existing: Option<Organizer>, organizer: Organizer, notify: bool,
                                          key: string)
    ensures var ve' := Organized(ve, existing, organizer, notify);
            && (ListedOn(ve', key) <==> ListedOn(ve, key))
            && (PlainOn(ve', key) ==> PlainOn(ve, key))
            && (existing.Some? || notify ==> (PlainOn(ve', key) <==> PlainOn(ve, key)))
  {
    var ve' := Organized(ve, existing, organizer, notify);
    assert |ve'.attendees| == |ve.attendees|;
    assert forall i :: 0 <= i < |ve.attendees| ==> KeyOf(ve'.attendees[i]) == KeyOf(ve.attendees[i]);
    assert forall i :: 0 <= i < |ve.attendees| && !ClientScheduled(ve'.attendees[i]) ==>
      !ClientScheduled(ve.attendees[i]) by {
      assert Lower("CLIENT") == "client";
    }
    if ListedOn(ve, key) {
      var i :| 0 <= i < |ve.attendees| && KeyOf(ve.attendees[i]) == key;
      assert KeyOf(ve'.attendees[i]) == key;
    }
  }

  /** `n` is one the change is aimed at. */
  predicate IsTarget(strict: nat, lenient: seq<nat>, n: nat) {
    n == strict || n in lenient
  }

  /** Who the `n`th VEVENT lists after the change, and who plainly. */
  lemma {:induction false} WrittenLists(before: seq<VEvent>, after: seq<VEvent>, strict: nat, lenient: seq<nat>,
                                        call: Call, own: seq<string>, n: nat, key: string)
    requires Written(before, after, strict, lenient, call, own) && n < |before|
    ensures ListedOn(after[n], key) <==>
              if !IsTarget(strict, lenient, n) then ListedOn(before[n], key)
              else
                (ListedOn(before[n], key) && !KeyIn(call.remove, key))
                || (KeyIn(call.add, key) && (n == strict || !ListedOn(before[n], key)))
    ensures PlainOn(after[n], key) ==>
              (PlainOn(before[n], key) && !(IsTarget(strict, lenient, n) && KeyIn(call.remove, key)))
              || (call.notify && IsTarget(strict, lenient, n) && KeyIn(call.add, key))
    ensures (call.notify || Existing(before).Some?)
            && PlainOn(before[n], key) && !(IsTarget(strict, lenient, n) && KeyIn(call.remove, key)) ==>
              PlainOn(after[n], key)
  {
    var organizer := Organizer(MailtoOf(own[0]), "");
    var ve := Organized(before[n], Existing(before), organizer, call.notify);
    OrganizedLists(before[n], Existing(before), organizer, call.notify, key);
    assert after[n] == WrittenAt(before, n, strict, lenient, call, organizer);
    ChangedLists(ve, call, n == strict, key);
  }

  /** On every target the people removed are gone, the people added are listed, and nobody else comes or goes. */
  lemma {:induction false} TargetsListWhatWasAsked(before: seq<VEvent>, after: seq<VEvent>, strict: nat,
                                                   lenient: seq<nat>, patch: Patch, own: seq<string>, n: nat,
                                                   key: string)
    requires strict < |before| && patch.notify.Some? && RefusalOf(before, strict, lenient, patch, own) == None
    requires Written(before, after, strict, lenient, Call(patch.add, patch.remove, patch.notify.value), own)
    requires n < |before| && IsTarget(strict, lenient, n)
    ensures ListedOn(after[n], key) <==>
              KeyIn(patch.add, key) || (ListedOn(before[n], key) && !KeyIn(patch.remove, key))
  {
    WrittenLists(before, after, strict, lenient, Call(patch.add, patch.remove, patch.notify.value), own, n, key);
    AddedNotRemoved(patch, key);
  }

  /** Nobody is added and removed in one call. */
  lemma AddedNotRemoved(patch: Patch, key: string)
    requires !Twice(patch.add + patch.remove)
    ensures !(KeyIn(patch.add, key) && KeyIn(patch.remove, key))
  {
    var both := patch.add + patch.remove;
    assert forall i :: 0 <= i < |patch.add| ==> both[i] == patch.add[i];
    assert forall j :: 0 <= j < |patch.remove| ==> patch.remove[j] == both[|patch.add| + j];
  }

  /** Without `notify` nobody becomes someone the server is free to email. */
  lemma {:induction false} NobodyNewlyScheduled(before: seq<VEvent>, after: seq<VEvent>, strict: nat, lenient: seq<nat>,
                                                call: Call, own: seq<string>, key: string)
    requires Written(before, after, strict, lenient, call, own) && !call.notify && PlainAnywhere(after, key)
    ensures PlainAnywhere(before, key)
  {
    var n :| 0 <= n < |after| && PlainOn(after[n], key);
    WrittenLists(before, after, strict, lenient, call, own, n, key);
  }

  /**
   * The answer names exactly those the server was free to email before or is
   * after, the account's own addresses aside.
   */
  ghost predicate Exact(before: seq<VEvent>, after: seq<VEvent>, strict: nat, lenient: seq<nat>, call: Call,
                        own: seq<string>) {
    forall key :: !KeyIn(own, key) ==>
      (Leaves(before, strict, lenient, call, own, key) || PlainAnywhere(after, key) <==>
         PlainAnywhere(before, key) || PlainAnywhere(after, key))
  }

  /** A change that was made: every check passed, and it was written. */
  ghost predicate Made(before: seq<VEvent>, after: seq<VEvent>, strict: nat, lenient: seq<nat>, patch: Patch,
                       own: seq<string>) {
    && Targets(before, strict, lenient) && patch.notify.Some? && RefusalOf(before, strict, lenient, patch, own) == None
    && Written(before, after, strict, lenient, CallOf(patch), own)
  }

  function CallOf(patch: Patch): Call
    requires patch.notify.Some?
  {
    Call(patch.add, patch.remove, patch.notify.value)
  }

  /** This change supplies the ORGANIZER, and marks whom it makes a guest by that. */
  predicate Supplies(before: seq<VEvent>, patch: Patch) {
    patch.notify == Some(false) && Existing(before).None?
  }

  /** Where it does not, the answer is exact, whatever the addresses. */
  lemma {:induction false} ExactUnlessSupplied(before: seq<VEvent>, after: seq<VEvent>, strict: nat, lenient: seq<nat>,
                                               patch: Patch, own: seq<string>)
    requires Made(before, after, strict, lenient, patch, own) && !Supplies(before, patch)
    ensures Exact(before, after, strict, lenient, CallOf(patch), own)
  {
    var call := CallOf(patch);
    forall key | !KeyIn(own, key)
      ensures Leaves(before, strict, lenient, call, own, key) || PlainAnywhere(after, key) <==>
              PlainAnywhere(before, key) || PlainAnywhere(after, key)
    {
      if Leaves(before, strict, lenient, call, own, key) {
        var n :| n in [strict] + lenient && n < |before| && PlainOn(before[n], key);
      } else if PlainAnywhere(before, key) {
        NobodyPlainIsRemoved(before, strict, lenient, patch, own, key);
        PlainStaysOrLeaves(before, after, strict, lenient, call, own, key);
      }
    }
  }

  /** Without `notify` nobody listed plainly on a target is removed: that is refused. */
  lemma NobodyPlainIsRemoved(before: seq<VEvent>, strict: nat, lenient: seq<nat>, patch: Patch, own: seq<string>,
                             key: string)
    requires strict < |before| && patch.notify.Some? && RefusalOf(before, strict, lenient, patch, own) == None
    ensures !patch.notify.value && KeyIn(patch.remove, key) ==> !PlainAmongTargets(before, [strict] + lenient, key)
  {
  }

  /** Whoever was listed plainly still is, or leaves. */
  lemma {:induction false} PlainStaysOrLeaves(before: seq<VEvent>, after: seq<VEvent>, strict: nat, lenient: seq<nat>,
                                              call: Call, own: seq<string>, key: string)
    requires Targets(before, strict, lenient) && Written(before, after, strict, lenient, call, own)
    requires !KeyIn(own, key) && PlainAnywhere(before, key) && (call.notify || Existing(before).Some?)
    requires !call.notify && KeyIn(call.remove, key) ==> !PlainAmongTargets(before, [strict] + lenient, key)
    ensures Leaves(before, strict, lenient, call, own, key) || PlainAnywhere(after, key)
  {
    var n :| 0 <= n < |before| && PlainOn(before[n], key);
    WrittenLists(before, after, strict, lenient, call, own, n, key);
    if IsTarget(strict, lenient, n) && KeyIn(call.remove, key) {
      assert n in [strict] + lenient && PlainAmongTargets(before, [strict] + lenient, key);
    }
  }

  // ---------------------------------------------------------------------
  // Where the ORGANIZER is supplied without notifying
  // ---------------------------------------------------------------------

  /** Some line of `ve` lists `key` plainly by a SCHEDULE-AGENT of its own, which no mark replaces. */
  ghost predicate AgentOn(ve: VEvent, key: string) {
    exists i :: 0 <= i < |ve.attendees| && KeyOf(ve.attendees[i]) == key
      && ve.attendees[i].agent.Some? && !ClientScheduled(ve.attendees[i])
  }

  ghost predicate AgentAnywhere(ves: seq<VEvent>, key: string) {
    exists n :: 0 <= n < |ves| && AgentOn(ves[n], key)
  }

  lemma {:induction false} MarkingLeavesAgents(ve: VEvent, organizer: Organizer, key: string)
    ensures PlainOn(Organized(ve, None, organizer, false), key) <==> AgentOn(ve, key)
  {
    var ve' := Organized(ve, None, organizer, false);
    assert Lower("CLIENT") == "client";
    assert |ve'.attendees| == |ve.attendees|;
    forall i | 0 <= i < |ve.attendees|
      ensures KeyOf(ve'.attendees[i]) == KeyOf(ve.attendees[i])
      ensures !ClientScheduled(ve'.attendees[i]) <==> ve.attendees[i].agent.Some? && !ClientScheduled(ve.attendees[i])
    {
      assert ve'.attendees[i] == MarkedLine(ve.attendees[i]);
    }
    if i :| 0 <= i < |ve.attendees| && KeyOf(ve.attendees[i]) == key && ve.attendees[i].agent.Some?
            && !ClientScheduled(ve.attendees[i]) {
      assert KeyOf(ve'.attendees[i]) == key;
    }
    if i :| 0 <= i < |ve'.attendees| && KeyOf(ve'.attendees[i]) == key && !ClientScheduled(ve'.attendees[i]) {
      assert KeyOf(ve.attendees[i]) == key;
    }
  }

  /** Then those listed plainly after are those with such a line. */
  lemma {:induction false} PlainAfterIff(before: seq<VEvent>, after: seq<VEvent>, strict: nat, lenient: seq<nat>,
                                         patch: Patch, own: seq<string>, key: string)
    requires Made(before, after, strict, lenient, patch, own) && Supplies(before, patch)
    ensures PlainAnywhere(after, key) <==> AgentAnywhere(before, key)
    ensures AgentAnywhere(before, key) ==> PlainAnywhere(before, key)
  {
    var call := CallOf(patch);
    NobodyPlainIsRemoved(before, strict, lenient, patch, own, key);
    forall n | 0 <= n < |before|
      ensures (PlainOn(after[n], key) <==> AgentOn(before[n], key))
      ensures (AgentOn(before[n], key) ==> PlainOn(before[n], key))
    {
      PlainAfterOn(before, after, strict, lenient, call, own, key, n);
    }
  }

  lemma {:induction false} PlainAfterOn(before: seq<VEvent>, after: seq<VEvent>, strict: nat, lenient: seq<nat>,
                                        call: Call, own: seq<string>, key: string, n: nat)
    requires Written(before, after, strict, lenient, call, own) && n < |before| && !call.notify
    requires Existing(before).None?
    requires KeyIn(call.remove, key) ==> !PlainAmongTargets(before, [strict] + lenient, key)
    ensures (PlainOn(after[n], key) <==> AgentOn(before[n], key))
    ensures (AgentOn(before[n], key) ==> PlainOn(before[n], key))
  {
    var organizer := Organizer(MailtoOf(own[0]), "");
    var ve := Organized(before[n], None, organizer, false);
    MarkingLeavesAgents(before[n], organizer, key);
    assert after[n] == WrittenAt(before, n, strict, lenient, call, organizer);
    ChangedLists(ve, call, n == strict, key);
    if AgentOn(before[n], key) && IsTarget(strict, lenient, n) && KeyIn(call.remove, key) {
      assert n in [strict] + lenient && PlainOn(before[n], key);
    }
  }

  /** Somebody listed plainly who is not the account. */
  ghost predicate Guest(before: seq<VEvent>, own: seq<string>, key: string) {
    PlainAnywhere(before, key) && !KeyIn(own, key)
  }

  /** The address as it is shown is read as the same person. */
  predicate ReadsBack(key: string) {
    AddressKey(key) == key
  }

  /**
   * Those marked are named by their addresses read again as they are shown:
   * the answer is exact exactly where everyone's is read as some guest, or the
   * account itself, and everyone without an agent of their own is read so from
   * some guest's.
   */
  lemma {:induction false} ExactIff(before: seq<VEvent>, after: seq<VEvent>, strict: nat, lenient: seq<nat>,
                                    patch: Patch, own: seq<string>)
    requires Made(before, after, strict, lenient, patch, own) && Supplies(before, patch)
    ensures Exact(before, after, strict, lenient, CallOf(patch), own) <==>
            forall key :: Guest(before, own, key) ==>
              && (KeyIn(own, AddressKey(key)) || PlainAnywhere(before, AddressKey(key)))
              && (AgentAnywhere(before, key) || exists k :: Guest(before, own, k) && AddressKey(k) == key)
  {
    forall key
      ensures PlainAnywhere(after, key) <==> AgentAnywhere(before, key)
      ensures AgentAnywhere(before, key) ==> PlainAnywhere(before, key)
    {
      PlainAfterIff(before, after, strict, lenient, patch, own, key);
    }
    var call := CallOf(patch);
    forall key
      ensures Leaves(before, strict, lenient, call, own, key) <==>
                exists k :: Guest(before, own, k) && AddressKey(k) == key
    {
      if k :| Guest(before, own, k) && AddressKey(k) == key {
        assert PlainAnywhere(before, k) && !KeyIn(own, k) && AddressKey(k) == key;
      }
    }
    if Exact(before, after, strict, lenient, call, own) {
      forall key | Guest(before, own, key)
        ensures KeyIn(own, AddressKey(key)) || PlainAnywhere(before, AddressKey(key))
        ensures AgentAnywhere(before, key) || exists k :: Guest(before, own, k) && AddressKey(k) == key
      {
        assert Leaves(before, strict, lenient, call, own, AddressKey(key));
      }
    }
  }

  /** No guest has an agent of their own but the client: nothing is listed plainly after. */
  ghost predicate Agentless(before: seq<VEvent>) {
    forall key :: !AgentAnywhere(before, key)
  }

  /** In such a list that is exactly where every guest's address, as it is shown, reads back. */
  lemma {:induction false} ExactIffAllReadBack(before: seq<VEvent>, after: seq<VEvent>, strict: nat, lenient: seq<nat>,
                                               patch: Patch, own: seq<string>)
    requires Made(before, after, strict, lenient, patch, own) && Supplies(before, patch) && Agentless(before)
    ensures Exact(before, after, strict, lenient, CallOf(patch), own) <==>
              forall key :: Guest(before, own, key) ==> ReadsBack(key)
  {
    ExactIff(before, after, strict, lenient, patch, own);
    if Exact(before, after, strict, lenient, CallOf(patch), own) {
      forall key | Guest(before, own, key) ensures ReadsBack(key) {
        if !ReadsBack(key) {
          assert AllReadFromSome(before, own) by {
            assert forall k :: Guest(before, own, k) ==> !AgentAnywhere(before, k);
          }
          LongerAndLonger(before, own, key);
        }
      }
    } else {
      forall key | Guest(before, own, key) && forall k :: Guest(before, own, k) ==> ReadsBack(k)
        ensures (KeyIn(own, AddressKey(key)) || PlainAnywhere(before, AddressKey(key)))
                && exists k :: Guest(before, own, k) && AddressKey(k) == key
      {
        assert ReadsBack(key) && AddressKey(key) == key;
      }
    }
  }

  /** Some guest's address, as it is shown, is read as `key`. */
  ghost predicate ReadFromSome(before: seq<VEvent>, own: seq<string>, key: string) {
    exists from :: Guest(before, own, from) && AddressKey(from) == key
  }

  ghost predicate AllReadFromSome(before: seq<VEvent>, own: seq<string>) {
    forall key :: Guest(before, own, key) ==> ReadFromSome(before, own, key)
  }

  /** A guest who does not read back would have to be read from a longer one, and so on without end. */
  lemma {:induction false} LongerAndLonger(before: seq<VEvent>, own: seq<string>, key: string)
    requires AllReadFromSome(before, own) && Guest(before, own, key) && !ReadsBack(key)
    ensures false
    decreases KeysUpTo(before) - |key|
  {
    var from := ReadFromLonger(before, own, key);
    KeysAreShort(before, from);
    LongerAndLonger(before, own, from);
  }

  lemma {:induction false} ReadFromLonger(before: seq<VEvent>, own: seq<string>, key: string) returns (from: string)
    requires ReadFromSome(before, own, key) && !ReadsBack(key)
    ensures Guest(before, own, from) && !ReadsBack(from) && |from| > |key|
  {
    from :| Guest(before, own, from) && AddressKey(from) == key;
    KeysAreKeys(before, from);
    ReadingShortens(from);
  }

  /** Reading an address shortens it, unless it leaves it as it is. */
  lemma ReadingShortens(key: string)
    ensures |AddressKey(key)| < |key| || Bare(key) == key
    ensures Lower(key) == key && AddressKey(key) != key ==> |AddressKey(key)| < |key|
  {
    TrimmingShortens(key);
  }

  lemma {:induction false} TrimLeftShortens(s: string)
    ensures |DavEtags.TrimLeft(s)| < |s| || DavEtags.TrimLeft(s) == s
    decreases s
  {
    if s != [] && DavEtags.IsBlank(s[0]) { TrimLeftShortens(s[1..]); }
  }

  lemma {:induction false} TrimRightShortens(s: string)
    ensures |DavEtags.TrimRight(s)| < |s| || DavEtags.TrimRight(s) == s
    decreases |s|
  {
    if s != [] && DavEtags.IsBlank(s[|s| - 1]) { TrimRightShortens(s[..|s| - 1]); }
  }

  lemma TrimmingShortens(s: string)
    ensures |DavEtags.Trim(s)| < |s| || DavEtags.Trim(s) == s
  {
    TrimLeftShortens(s);
    TrimRightShortens(DavEtags.TrimLeft(s));
  }

  /** A bound on the keys listed. */
  function KeysUpTo(ves: seq<VEvent>): nat {
    if ves == [] then 0 else LinesUpTo(ves[0].attendees) + KeysUpTo(ves[1..])
  }

  function LinesUpTo(attendees: seq<Attendee>): nat {
    if attendees == [] then 0 else |KeyOf(attendees[0])| + LinesUpTo(attendees[1..])
  }

  lemma {:induction false} LinesAreShort(attendees: seq<Attendee>, i: nat)
    requires i < |attendees|
    ensures |KeyOf(attendees[i])| <= LinesUpTo(attendees)
    decreases attendees
  {
    if i > 0 { LinesAreShort(attendees[1..], i - 1); }
  }

  lemma {:induction false} KeysAreShort(ves: seq<VEvent>, key: string)
    requires PlainAnywhere(ves, key)
    ensures |key| <= KeysUpTo(ves)
    decreases ves
  {
    var n :| 0 <= n < |ves| && PlainOn(ves[n], key);
    if n == 0 {
      var i :| 0 <= i < |ves[0].attendees| && KeyOf(ves[0].attendees[i]) == key
        && !ClientScheduled(ves[0].attendees[i]);
      LinesAreShort(ves[0].attendees, i);
    } else {
      assert ves[1..][n - 1] == ves[n];
      KeysAreShort(ves[1..], key);
    }
  }

  lemma KeysAreKeys(ves: seq<VEvent>, key: string)
    requires PlainAnywhere(ves, key)
    ensures Lower(key) == key
  {
    var n :| 0 <= n < |ves| && PlainOn(ves[n], key);
    var i :| 0 <= i < |ves[n].attendees| && KeyOf(ves[n].attendees[i]) == key && !ClientScheduled(ves[n].attendees[i]);
  }

  // ---------------------------------------------------------------------
  // Addresses that do not read back
  // ---------------------------------------------------------------------

  /** One with a blank after its `mailto:` does not, nor one with two of those. */
  lemma BlankDoesNotReadBack()
    ensures KeyOf(Attendee("mailto: b", None, "")) == " b" && !ReadsBack(" b")
    ensures KeyOf(Attendee("mailto:" + "mailto:b", None, "")) == "mailto:b" && !ReadsBack("mailto:b")
  {
    KeysOfTwiceMailto();
    var address := "mailto: b";
    DavEtags.Trimmed(address);
    assert address[..7] == "mailto:" && address[7..] == " b" && Lower("mailto:") == "mailto:" && Lower(" b") == " b";
    assert DavEtags.TrimLeft(" b") == "b" by { assert " b"[1..] == "b"; }
    DavEtags.Trimmed("b");
    assert |"b"| == 1 && |" b"| == 2;
    assert |AddressKey(" b")| <= 1;
  }

  lemma Prefixed(address: string)
    requires address == [] || (!DavEtags.IsBlank(address[0]) && !DavEtags.IsBlank(address[|address| - 1]))
    ensures AddressKey("mailto:" + address) == Lower(address)
  {
    var written := "mailto:" + address;
    assert written[..7] == "mailto:" && written[7..] == address && Lower("mailto:") == "mailto:";
    assert address != [] ==> written[|written| - 1] == address[|address| - 1];
    DavEtags.Trimmed(written);
  }

  /** A guest written `mailto:mailto:` is marked, and somebody else is named for it. */
  lemma TwiceMailtoIsMisnamed(guest: Attendee, call: Call, own: seq<string>)
    requires guest.agent.None? && guest.address == "mailto:" + "mailto:b" && !call.notify && own == ["mailto:m"]
    ensures var before := [VEvent([], [guest])];
            && PlainAnywhere(before, "mailto:b") && !KeyIn(own, "mailto:b")
            && Leaves(before, 0, [], call, own, "b") && !Leaves(before, 0, [], call, own, "mailto:b")
  {
    KeysOfTwiceMailto();
    assert AddressKey(own[0]) == "m";
    OnlyGuest(guest, call, own, "mailto:b", "b");
  }

  lemma KeysOfTwiceMailto()
    ensures AddressKey("mailto:" + "mailto:b") == "mailto:b" && AddressKey("mailto:b") == "b"
    ensures AddressKey("mailto:m") == "m"
  {
    Prefixed("mailto:b");
    Prefixed("b");
    Prefixed("m");
    assert "mailto:" + "b" == "mailto:b" && "mailto:" + "m" == "mailto:m";
    assert Lower("mailto:b") == "mailto:b" && Lower("b") == "b" && Lower("m") == "m";
  }

  /**
   * One guest, listed plainly on an event with no ORGANIZER: whoever their
   * address shown is read as leaves, and nobody else.
   */
  lemma OnlyGuest(guest: Attendee, call: Call, own: seq<string>, key: string, shown: string)
    requires guest.agent.None? && KeyOf(guest) == key && AddressKey(key) == shown && !call.notify && !KeyIn(own, key)
    ensures var before := [VEvent([], [guest])];
            PlainAnywhere(before, key) && forall k :: Leaves(before, 0, [], call, own, k) <==> k == shown
  {
    var before := [VEvent([], [guest])];
    assert KeyOf(before[0].attendees[0]) == key && PlainOn(before[0], key);
    assert forall k :: PlainAnywhere(before, k) ==> k == key;
  }

  // ---------------------------------------------------------------------
  // The organizer, and everyone not named
  // ---------------------------------------------------------------------

  /** The ORGANIZER a change gives: the one some VEVENT names already, or the account. */
  function GivenOrganizer(before: seq<VEvent>, own: seq<string>): Organizer
    requires own != []
  {
    if Existing(before).Some? then Existing(before).value else Organizer(MailtoOf(own[0]), "")
  }

  lemma OrganizersAfter(before: seq<VEvent>, after: seq<VEvent>, strict: nat, lenient: seq<nat>, call: Call,
                        own: seq<string>, n: nat)
    requires Written(before, after, strict, lenient, call, own) && n < |after|
    ensures after[n].organizers == if before[n].organizers != [] then before[n].organizers
              else [GivenOrganizer(before, own)]
  {
    assert after[n] == WrittenAt(before, n, strict, lenient, call, Organizer(MailtoOf(own[0]), ""));
  }

  lemma GivenIsOwn(before: seq<VEvent>, own: seq<string>)
    requires own != [] && !Foreign(before, own)
    ensures KeyIn(own, AddressKey(GivenOrganizer(before, own).address))
  {
    WrittenIsTheSamePerson(own[0]);
    if Existing(before).Some? {
      var n :| 0 <= n < |before| && before[n].organizers != [] && before[n].organizers[0] == Existing(before).value;
    } else {
      assert AddressKey(own[0]) == AddressKey(GivenOrganizer(before, own).address);
    }
  }

  /** After a change every VEVENT names an ORGANIZER, and every one named is the account's. */
  lemma {:induction false} EveryVeventIsOrganized(before: seq<VEvent>, after: seq<VEvent>, strict: nat,
                                                  lenient: seq<nat>, call: Call, own: seq<string>)
    requires Written(before, after, strict, lenient, call, own) && !Foreign(before, own)
    ensures forall n :: 0 <= n < |after| ==> after[n].organizers != []
    ensures !Foreign(after, own)
    ensures forall n :: 0 <= n < |after| && before[n].organizers != [] ==> after[n].organizers == before[n].organizers
  {
    GivenIsOwn(before, own);
    forall n | 0 <= n < |after|
      ensures after[n].organizers == if before[n].organizers != [] then before[n].organizers
                else [GivenOrganizer(before, own)]
    {
      OrganizersAfter(before, after, strict, lenient, call, own, n);
    }
  }

  lemma {:induction false} KeptJoined(a: seq<Attendee>, b: seq<Attendee>, remove: seq<string>)
    ensures Kept(a + b, remove) == Kept(a, remove) + Kept(b, remove)
    decreases |b|
  {
    if b == [] {
      assert a + b == a;
    } else {
      var n := |b| - 1;
      assert (a + b)[..|a + b| - 1] == a + b[..n];
      KeptJoined(a, b[..n], remove);
    }
  }

  /** Taking some people's lines away and then more is taking all of them away at once. */
  lemma {:induction false} KeptOfKept(a: seq<Attendee>, some: seq<string>, all: seq<string>)
    requires forall key :: KeyIn(some, key) ==> KeyIn(all, key)
    ensures Kept(Kept(a, some), all) == Kept(a, all)
    decreases |a|
  {
    if a != [] {
      var n := |a| - 1;
      KeptOfKept(a[..n], some, all);
      var rest := if KeyIn(some, KeyOf(a[n])) then [] else [a[n]];
      KeptJoined(Kept(a[..n], some), rest, all);
      assert rest != [] ==>
        rest[..0] == [] && Kept(rest, all) == Kept([], all) + if KeyIn(all, KeyOf(a[n])) then [] else [a[n]];
    }
  }

  lemma {:induction false} KeptOfAdded(attendees: seq<Attendee>, add: seq<string>, strict: bool, notify: bool,
                                       all: seq<string>)
    requires forall i :: 0 <= i < |add| ==> KeyIn(all, AddressKey(add[i]))
    ensures Kept(Added(attendees, add, strict, notify), all) == []
    decreases |add|
  {
    if add != [] {
      var n := |add| - 1;
      KeptOfAdded(attendees, add[..n], strict, notify, all);
      KeptAfterOneMore(Added(attendees, add[..n], strict, notify), add[n], notify, all);
    }
  }

  lemma KeptAfterOneMore(lines: seq<Attendee>, address: string, notify: bool, all: seq<string>)
    requires Kept(lines, all) == [] && KeyIn(all, AddressKey(address))
    ensures Kept(lines + [AddedLine(address, notify)], all) == [] && Kept(lines + [], all) == []
  {
    var line := AddedLine(address, notify);
    AddedIsThatPerson(address, notify);
    assert (lines + [line])[..|lines|] == lines && lines + [] == lines;
  }

  lemma {:induction false} KeptOfMarked(a: seq<Attendee>, all: seq<string>)
    ensures Kept(MarkedLines(a), all) == MarkedLines(Kept(a, all))
    decreases |a|
  {
    if a != [] {
      var n := |a| - 1;
      KeptOfMarked(a[..n], all);
      assert MarkedLines(a)[..n] == MarkedLines(a[..n]);
      assert KeyOf(MarkedLine(a[n])) == KeyOf(a[n]);
    }
  }

  /**
   * Everyone the call does not name keeps their lines, in their order and to
   * the last parameter, on every VEVENT; where this call supplies the
   * ORGANIZER without notifying, those with no SCHEDULE-AGENT get one.
   */
  lemma {:induction false} UnnamedKeepTheirLines(before: seq<VEvent>, after: seq<VEvent>, strict: nat,
                                                 lenient: seq<nat>, call: Call, own: seq<string>, n: nat)
    requires Written(before, after, strict, lenient, call, own) && n < |before|
    ensures var named := call.remove + call.add;
            var (was, now) := (Kept(before[n].attendees, named), Kept(after[n].attendees, named));
            now == if Existing(before).None? && !call.notify then MarkedLines(was) else was
  {
    var organizer := Organizer(MailtoOf(own[0]), "");
    var ve := Organized(before[n], Existing(before), organizer, call.notify);
    assert after[n] == WrittenAt(before, n, strict, lenient, call, organizer);
    KeptOfMarked(before[n].attendees, call.remove + call.add);
    if IsTarget(strict, lenient, n) { ChangedKeepsUnnamed(ve, call, n == strict); }
  }

  lemma {:induction false} ChangedKeepsUnnamed(ve: VEvent, call: Call, strict: bool)
    ensures var named := call.remove + call.add;
              Kept(Changed(ve, call, strict).attendees, named) == Kept(ve.attendees, named)
  {
    var named := call.remove + call.add;
    var (kept, added) := (Kept(ve.attendees, call.remove), Added(ve.attendees, call.add, strict, call.notify));
    NamedAreIn(call);
    KeptJoined(kept, added, named);
    KeptOfKept(ve.attendees, call.remove, named);
    forall i | 0 <= i < |call.add| ensures KeyIn(named, AddressKey(call.add[i])) {
      assert KeyIn(call.add, AddressKey(call.add[i]));
    }
    KeptOfAdded(ve.attendees, call.add, strict, call.notify, named);
  }

  lemma NamedAreIn(call: Call)
    ensures forall key :: KeyIn(call.remove, key) || KeyIn(call.add, key) ==> KeyIn(call.remove + call.add, key)
  {
    var named := call.remove + call.add;
    forall key | KeyIn(call.remove, key) || KeyIn(call.add, key) ensures KeyIn(named, key) {
      if i :| 0 <= i < |call.remove| && AddressKey(call.remove[i]) == key {
        assert named[i] == call.remove[i];
      } else {
        var j :| 0 <= j < |call.add| && AddressKey(call.add[j]) == key;
        assert named[|call.remove| + j] == call.add[j];
      }
    }
  }
}
