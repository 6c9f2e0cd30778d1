/**
 * The guest list of a meeting changed in place, over every VEVENT of its UID
 * (src/ical-attendees.ts): what is refused, what is written, and whom the
 * calendar server may email about it.
 */
module GuestList {
  import opened Options
  import DavEtags

  // ---------------------------------------------------------------------
  // Who an address is
  // ---------------------------------------------------------------------

  function Lower(s: string): (r: string)
    ensures |r| == |s|
  {
    seq(|s|, i requires 0 <= i < |s| => LowerChar(s[i]))
  }

  function LowerChar(c: char): char {
    if 'A' <= c <= 'Z' then c - 'A' + 'a' else c
  }

  predicate HasMailto(s: string) {
    |s| >= 7 && Lower(s[..7]) == "mailto:"
  }

  /** The address trimmed, without `mailto:`. */
  function Bare(address: string): string {
    var t := DavEtags.Trim(address);
    if HasMailto(t) then t[7..] else t
  }

  /** `mailtoOf`. */
  function MailtoOf(address: string): string {
    "mailto:" + Bare(address)
  }

  /** `addressKey`: what every comparison of two addresses goes through. */
  function AddressKey(address: string): string {
    Lower(Bare(address))
  }

  lemma {:induction false} TrimLeftKeeps(s: string)
    ensures DavEtags.TrimLeft(s) == [] || !DavEtags.IsBlank(DavEtags.TrimLeft(s)[0])
    ensures s != [] && !DavEtags.IsBlank(s[|s| - 1]) ==>
              DavEtags.TrimLeft(s) != [] && DavEtags.TrimLeft(s)[|DavEtags.TrimLeft(s)| - 1] == s[|s| - 1]
    decreases s
  {
    if s != [] && DavEtags.IsBlank(s[0]) { TrimLeftKeeps(s[1..]); }
  }

  lemma {:induction false} TrimRightKeeps(s: string)
    ensures DavEtags.TrimRight(s) == [] || !DavEtags.IsBlank(DavEtags.TrimRight(s)[|DavEtags.TrimRight(s)| - 1])
    ensures s != [] && !DavEtags.IsBlank(s[0]) ==> DavEtags.TrimRight(s) != [] && DavEtags.TrimRight(s)[0] == s[0]
    decreases |s|
  {
    if s != [] && DavEtags.IsBlank(s[|s| - 1]) { TrimRightKeeps(s[..|s| - 1]); }
  }

  /** An address as it is written is the same person as the address given, and is never prefixed twice. */
  lemma WrittenIsTheSamePerson(address: string)
    ensures AddressKey(MailtoOf(address)) == AddressKey(address)
    ensures MailtoOf(MailtoOf(address)) == MailtoOf(address)
  {
    var left := DavEtags.TrimLeft(address);
    TrimRightKeeps(left);
    var t := DavEtags.Trim(address);
    var written := MailtoOf(address);
    assert written[..7] == "mailto:" && written[7..] == Bare(address);
    assert Lower("mailto:") == "mailto:";
    if Bare(address) != [] {
      assert written[|written| - 1] == t[|t| - 1];
    }
    DavEtags.Trimmed(written);
  }

  lemma {:induction false} TrimLeftLower(s: string)
    ensures DavEtags.TrimLeft(Lower(s)) == Lower(DavEtags.TrimLeft(s))
    decreases s
  {
    if s != [] && DavEtags.IsBlank(s[0]) {
      TrimLeftLower(s[1..]);
      assert Lower(s)[1..] == Lower(s[1..]);
    }
  }

  lemma {:induction false} TrimRightLower(s: string)
    ensures DavEtags.TrimRight(Lower(s)) == Lower(DavEtags.TrimRight(s))
    decreases |s|
  {
    if s != [] && DavEtags.IsBlank(s[|s| - 1]) {
      TrimRightLower(s[..|s| - 1]);
      assert Lower(s)[..|s| - 1] == Lower(s[..|s| - 1]);
    }
  }

  /** An address in lower case is the same person. */
  lemma LowerIsTheSamePerson(address: string)
    ensures AddressKey(Lower(address)) == AddressKey(address)
  {
    TrimLeftLower(address);
    TrimRightLower(DavEtags.TrimLeft(address));
    var t := DavEtags.Trim(address);
    assert DavEtags.Trim(Lower(address)) == Lower(t);
    assert Lower(Lower(t)) == Lower(t);
    if |t| >= 7 {
      assert Lower(t)[..7] == Lower(t[..7]) && Lower(t)[7..] == Lower(t[7..]);
      assert Lower(Lower(t[..7])) == Lower(t[..7]) && Lower(Lower(t[7..])) == Lower(t[7..]);
    }
  }

  // ---------------------------------------------------------------------
  // What is stored
  // ---------------------------------------------------------------------

  /** An ATTENDEE line: `agent` is its SCHEDULE-AGENT, `rest` every other parameter. */
  datatype Attendee = Attendee(address: string, agent: Option<string>, rest: string)

  datatype Organizer = Organizer(address: string, rest: string)

  datatype VEvent = VEvent(organizers: seq<Organizer>, attendees: seq<Attendee>)

  function KeyOf(a: Attendee): string {
    AddressKey(a.address)
  }

  /** `clientScheduled`: the server is not to schedule this one. */
  predicate ClientScheduled(a: Attendee) {
    a.agent.Some? && Lower(a.agent.value) in {"client", "none"}
  }

  ghost predicate ListedOn(ve: VEvent, key: string) {
    exists i :: 0 <= i < |ve.attendees| && KeyOf(ve.attendees[i]) == key
  }

  /** Some line of `ve` lists `key` plainly: the server is free to email them. */
  ghost predicate PlainOn(ve: VEvent, key: string) {
    exists i :: 0 <= i < |ve.attendees| && KeyOf(ve.attendees[i]) == key && !ClientScheduled(ve.attendees[i])
  }

  ghost predicate PlainAmong(attendees: seq<Attendee>, n: int, key: string)
    requires n <= |attendees|
  {
    exists k :: 0 <= k < n && KeyOf(attendees[k]) == key && !ClientScheduled(attendees[k])
  }

  ghost predicate PlainAnywhere(ves: seq<VEvent>, key: string) {
    exists n :: 0 <= n < |ves| && PlainOn(ves[n], key)
  }

  ghost predicate KeyIn(addresses: seq<string>, key: string) {
    exists i :: 0 <= i < |addresses| && AddressKey(addresses[i]) == key
  }

  method Lists(ve: VEvent, key: string) returns (listed: bool)
    ensures listed <==> ListedOn(ve, key)
  {
    var i := 0;
    while i < |ve.attendees|
      invariant 0 <= i <= |ve.attendees|
      invariant forall k :: 0 <= k < i ==> KeyOf(ve.attendees[k]) != key
    {
      if KeyOf(ve.attendees[i]) == key { return true; }
      i := i + 1;
    }
    listed := false;
  }

  method Names(addresses: seq<string>, key: string) returns (found: bool)
    ensures found <==> KeyIn(addresses, key)
  {
    var i := 0;
    while i < |addresses|
      invariant 0 <= i <= |addresses|
      invariant forall k :: 0 <= k < i ==> AddressKey(addresses[k]) != key
    {
      if AddressKey(addresses[i]) == key { return true; }
      i := i + 1;
    }
    found := false;
  }

  // ---------------------------------------------------------------------
  // Whom the server may email
  // ---------------------------------------------------------------------

  /** A person named in an answer, by key and as the address is shown. */
  datatype Named = Named(key: string, bare: string)

  ghost predicate IsNamed(named: seq<Named>, key: string) {
    exists i :: 0 <= i < |named| && named[i].key == key
  }

  ghost predicate EachOnce(named: seq<Named>) {
    && (forall i, j :: 0 <= i < j < |named| ==> named[i].key != named[j].key)
    && (forall i :: 0 <= i < |named| ==> named[i].key == Lower(named[i].bare))
  }

  /** One address noted, unless it is the account's own or named already. */
  method Note(named: seq<Named>, address: string, own: seq<string>) returns (r: seq<Named>)
    requires EachOnce(named)
    ensures EachOnce(r) && named <= r
    ensures forall key :: IsNamed(r, key) <==> IsNamed(named, key) || (key == AddressKey(address) && !KeyIn(own, key))
  {
    r := named;
    var key := AddressKey(address);
    var mine := Names(own, key);
    if mine { return; }
    var i := 0;
    while i < |named|
      invariant 0 <= i <= |named|
      invariant forall k :: 0 <= k < i ==> named[k].key != key
    {
      if named[i].key == key { return; }
      i := i + 1;
    }
    r := named + [Named(key, Bare(address))];
    forall k ensures IsNamed(r, k) <==> IsNamed(named, k) || k == key {
      if IsNamed(named, k) {
        var j :| 0 <= j < |named| && named[j].key == k;
        assert r[j].key == k;
      }
      assert r[|named|].key == key;
    }
  }

  /**
   * `schedulable`: everyone in `leaving`, then everyone listed plainly, without
   * the account's own addresses, each once.
   */
  method Schedulable(ves: seq<VEvent>, leaving: seq<string>, own: seq<string>) returns (named: seq<Named>)
    ensures EachOnce(named)
    ensures forall key :: IsNamed(named, key) <==> !KeyIn(own, key) && (KeyIn(leaving, key) || PlainAnywhere(ves, key))
  {
    named := [];
    var i := 0;
    while i < |leaving|
      invariant 0 <= i <= |leaving| && EachOnce(named)
      invariant forall key :: IsNamed(named, key) <==> !KeyIn(own, key) && KeyIn(leaving[..i], key)
    {
      named := Note(named, leaving[i], own);
      KeyInMore(leaving, i);
      i := i + 1;
    }
    assert leaving[..i] == leaving;
    var n := 0;
    while n < |ves|
      invariant 0 <= n <= |ves| && EachOnce(named)
      invariant forall key :: IsNamed(named, key) <==>
                  !KeyIn(own, key) && (KeyIn(leaving, key) || PlainAnywhere(ves[..n], key))
    {
      named := NotePlain(named, ves[n], own);
      PlainMore(ves, n);
      n := n + 1;
    }
    assert ves[..n] == ves;
  }

  method NotePlain(named: seq<Named>, ve: VEvent, own: seq<string>) returns (r: seq<Named>)
    requires EachOnce(named)
    ensures EachOnce(r)
    ensures forall key :: IsNamed(r, key) <==> IsNamed(named, key) || (PlainOn(ve, key) && !KeyIn(own, key))
  {
    r := named;
    var i := 0;
    while i < |ve.attendees|
      invariant 0 <= i <= |ve.attendees| && EachOnce(r)
      invariant forall key :: IsNamed(r, key) <==>
                  IsNamed(named, key) || (!KeyIn(own, key) && PlainAmong(ve.attendees, i, key))
    {
      if !ClientScheduled(ve.attendees[i]) { r := Note(r, ve.attendees[i].address, own); }
      i := i + 1;
    }
  }

  lemma KeyInMore(addresses: seq<string>, i: nat)
    requires i < |addresses|
    ensures forall key :: KeyIn(addresses[..i + 1], key) <==>
              KeyIn(addresses[..i], key) || key == AddressKey(addresses[i])
  {
    forall key
      ensures KeyIn(addresses[..i + 1], key) <==> KeyIn(addresses[..i], key) || key == AddressKey(addresses[i])
    {
      var (less, more) := (addresses[..i], addresses[..i + 1]);
      if k :| 0 <= k < |less| && AddressKey(less[k]) == key { assert more[k] == less[k]; }
      if k :| 0 <= k < |more| && AddressKey(more[k]) == key { assert k < i ==> less[k] == more[k]; }
      assert more[i] == addresses[i];
    }
  }

  lemma KeyInAppended(addresses: seq<string>, address: string)
    ensures forall key :: KeyIn(addresses + [address], key) <==> KeyIn(addresses, key) || key == AddressKey(address)
  {
    KeyInMore(addresses + [address], |addresses|);
    assert (addresses + [address])[..|addresses|] == addresses
      && (addresses + [address])[..|addresses| + 1] == addresses + [address];
  }

  lemma PlainMore(ves: seq<VEvent>, n: nat)
    requires n < |ves|
    ensures forall key :: PlainAnywhere(ves[..n + 1], key) <==> PlainAnywhere(ves[..n], key) || PlainOn(ves[n], key)
  {
    forall key ensures PlainAnywhere(ves[..n + 1], key) <==> PlainAnywhere(ves[..n], key) || PlainOn(ves[n], key) {
      var (less, more) := (ves[..n], ves[..n + 1]);
      if k :| 0 <= k < |less| && PlainOn(less[k], key) { assert more[k] == less[k]; }
      if k :| 0 <= k < |more| && PlainOn(more[k], key) { assert k < n ==> less[k] == more[k]; }
      assert more[n] == ves[n];
    }
  }

  // ---------------------------------------------------------------------
  // What is written
  // ---------------------------------------------------------------------

  /** The attendee half of a patch, checked. */
  datatype Call = Call(add: seq<string>, remove: seq<string>, notify: bool)

  /** The first ORGANIZER any VEVENT names. */
  function Existing(ves: seq<VEvent>): (r: Option<Organizer>)
    ensures r.None? <==> forall n :: 0 <= n < |ves| ==> ves[n].organizers == []
    ensures r.Some? ==> exists n :: 0 <= n < |ves| && ves[n].organizers != [] && ves[n].organizers[0] == r.value
  {
    if ves == [] then None
    else if ves[0].organizers != [] then Some(ves[0].organizers[0])
    else
      var rest := Existing(ves[1..]);
      assert rest.Some? ==>
        exists n :: 0 <= n < |ves[1..]| && ves[1..][n].organizers != [] && ves[1..][n].organizers[0] == rest.value
                    && ves[n + 1] == ves[1..][n];
      assert forall n :: 1 <= n < |ves| ==> ves[n] == ves[1..][n - 1];
      rest
  }

  function WithOrganizer(ve: VEvent, organizer: Organizer): VEvent {
    if ve.organizers == [] then ve.(organizers := [organizer]) else ve
  }

  /** An ATTENDEE with no SCHEDULE-AGENT of its own marked as the client's to schedule. */
  function MarkedLine(a: Attendee): Attendee {
    if a.agent.None? then a.(agent := Some("CLIENT")) else a
  }

  function MarkedLines(attendees: seq<Attendee>): (r: seq<Attendee>)
    ensures |r| == |attendees| && forall i :: 0 <= i < |r| ==> r[i] == MarkedLine(attendees[i])
  {
    seq(|attendees|, i requires 0 <= i < |attendees| => MarkedLine(attendees[i]))
  }

  /** `addAttendee`'s line. */
  function AddedLine(address: string, notify: bool): Attendee {
    Attendee(MailtoOf(address), if notify then None else Some("CLIENT"), "")
  }

  /** Every line but those of the people removed. */
  ghost function Kept(attendees: seq<Attendee>, remove: seq<string>): seq<Attendee> {
    if attendees == [] then []
    else
      var n := |attendees| - 1;
      Kept(attendees[..n], remove) + (if KeyIn(remove, KeyOf(attendees[n])) then [] else [attendees[n]])
  }

  /** The lines added: everyone, or on the others of a series those not listed yet. */
  ghost function Added(attendees: seq<Attendee>, add: seq<string>, strict: bool, notify: bool): seq<Attendee> {
    if add == [] then []
    else
      var n := |add| - 1;
      Added(attendees, add[..n], strict, notify) +
      (if !strict && ListedOn(VEvent([], attendees), AddressKey(add[n])) then [] else [AddedLine(add[n], notify)])
  }

  /** The guest list of one VEVENT changed. */
  ghost function Changed(ve: VEvent, call: Call, strict: bool): VEvent {
    ve.(attendees := Kept(ve.attendees, call.remove) + Added(ve.attendees, call.add, strict, call.notify))
  }

  ghost function ChangedSoFar(ve: VEvent, n: nat, strict: nat, done: seq<nat>, call: Call): VEvent {
    if n == strict then Changed(ve, call, true) else if n in done then Changed(ve, call, false) else ve
  }

  /**
   * Every VEVENT given the ORGANIZER, and where this call supplies it without
   * notifying, every line with no agent marked.
   */
  ghost function Organized(ve: VEvent, existing: Option<Organizer>, organizer: Organizer, notify: bool): VEvent {
    var with := WithOrganizer(ve, if existing.Some? then existing.value else organizer);
    if existing.None? && !notify then with.(attendees := MarkedLines(with.attendees)) else with
  }

  /** What a whole change makes of the `n`th VEVENT: `strict` and those in `lenient` are the ones it is aimed at. */
  ghost function WrittenAt(ves: seq<VEvent>, n: nat, strict: nat, lenient: seq<nat>, call: Call,
                           organizer: Organizer): VEvent
    requires n < |ves|
  {
    ChangedSoFar(Organized(ves[n], Existing(ves), organizer, call.notify), n, strict, lenient, call)
  }

  // ---------------------------------------------------------------------
  // What is refused
  // ---------------------------------------------------------------------

  datatype Patch = Patch(add: seq<string>, remove: seq<string>, notify: Option<bool>)

  datatype Refusal =
    NotifyMissing | NamedTwice | NoOwnAddress | SomeoneElses | ListedPlainly | AlreadyListed | NotListed

  ghost predicate Twice(addresses: seq<string>) {
    exists i, j :: 0 <= i < j < |addresses| && AddressKey(addresses[i]) == AddressKey(addresses[j])
  }

  /** `foreignOrganizer` finds one. */
  ghost predicate Foreign(ves: seq<VEvent>, own: seq<string>) {
    exists n, i :: 0 <= n < |ves| && 0 <= i < |ves[n].organizers|
      && !KeyIn(own, AddressKey(ves[n].organizers[i].address))
  }

  ghost predicate ListedAmong(ves: seq<VEvent>, targets: seq<nat>, key: string) {
    exists n :: n in targets && n < |ves| && ListedOn(ves[n], key)
  }

  ghost predicate PlainAmongTargets(ves: seq<VEvent>, targets: seq<nat>, key: string) {
    exists n :: n in targets && n < |ves| && PlainOn(ves[n], key)
  }

  /** Why a change is refused, the first reason there is. */
  ghost function RefusalOf(ves: seq<VEvent>, strict: nat, lenient: seq<nat>, patch: Patch,
                           own: seq<string>): Option<Refusal>
    requires strict < |ves|
  {
    var targets := [strict] + lenient;
    if patch.notify.None? then Some(NotifyMissing)
    else if Twice(patch.add + patch.remove) then Some(NamedTwice)
    else if own == [] then Some(NoOwnAddress)
    else if Foreign(ves, own) then Some(SomeoneElses)
    else if !patch.notify.value
            && exists i :: 0 <= i < |patch.remove| && PlainAmongTargets(ves, targets, AddressKey(patch.remove[i]))
    then Some(ListedPlainly)
    else if exists i :: 0 <= i < |patch.add| && ListedOn(ves[strict], AddressKey(patch.add[i])) then Some(AlreadyListed)
    else if exists i :: 0 <= i < |patch.remove| && !ListedAmong(ves, targets, AddressKey(patch.remove[i]))
    then Some(NotListed)
    else None
  }

  // ---------------------------------------------------------------------
  // The change, as it runs
  // ---------------------------------------------------------------------

  datatype Answer = NothingAsked | Refused(why: Refusal) | Done(mayNotify: seq<Named>)

  method NamedMoreThanOnce(addresses: seq<string>) returns (twice: bool)
    ensures twice <==> Twice(addresses)
  {
    var i := 0;
    while i < |addresses|
      invariant 0 <= i <= |addresses|
      invariant forall a, b :: 0 <= a < b < i ==> AddressKey(addresses[a]) != AddressKey(addresses[b])
    {
      var before := addresses[..i];
      var seen := Names(before, AddressKey(addresses[i]));
      if seen {
        var a :| 0 <= a < |before| && AddressKey(before[a]) == AddressKey(addresses[i]);
        assert addresses[a] == before[a];
        return true;
      }
      assert forall a :: 0 <= a < i ==> before[a] == addresses[a];
      i := i + 1;
    }
    twice := false;
  }

  method HasPlain(ve: VEvent, key: string) returns (plain: bool)
    ensures plain <==> PlainOn(ve, key)
  {
    var i := 0;
    while i < |ve.attendees|
      invariant 0 <= i <= |ve.attendees|
      invariant forall k :: 0 <= k < i ==> KeyOf(ve.attendees[k]) != key || ClientScheduled(ve.attendees[k])
    {
      if KeyOf(ve.attendees[i]) == key && !ClientScheduled(ve.attendees[i]) { return true; }
      i := i + 1;
    }
    plain := false;
  }

  /** The targets of a change: places among the VEVENTs, each once. */
  ghost predicate Targets(ves: seq<VEvent>, strict: nat, lenient: seq<nat>) {
    && strict < |ves| && strict !in lenient
    && (forall i :: 0 <= i < |lenient| ==> lenient[i] < |ves|)
    && forall i, j :: 0 <= i < j < |lenient| ==> lenient[i] != lenient[j]
  }

  class Meeting {
    var vevents: seq<VEvent>

    method HasForeignOrganizer(own: seq<string>) returns (foreign: bool)
      ensures foreign <==> Foreign(vevents, own)
    {
      var n := 0;
      while n < |vevents|
        invariant 0 <= n <= |vevents|
        invariant forall m, i :: 0 <= m < n && 0 <= i < |vevents[m].organizers| ==>
                    KeyIn(own, AddressKey(vevents[m].organizers[i].address))
      {
        var i := 0;
        while i < |vevents[n].organizers|
          invariant 0 <= i <= |vevents[n].organizers|
          invariant forall k :: 0 <= k < i ==> KeyIn(own, AddressKey(vevents[n].organizers[k].address))
        {
          var mine := Names(own, AddressKey(vevents[n].organizers[i].address));
          if !mine { return true; }
          i := i + 1;
        }
        n := n + 1;
      }
      foreign := false;
    }

    /** `scheduledOn` and its like: whether some target lists `key`, plainly where that is asked. */
    method OnSome(targets: seq<nat>, key: string, plainly: bool) returns (found: bool)
      requires forall i :: 0 <= i < |targets| ==> targets[i] < |vevents|
      ensures found <==> if plainly then PlainAmongTargets(vevents, targets, key)
                else ListedAmong(vevents, targets, key)
    {
      var i := 0;
      while i < |targets|
        invariant 0 <= i <= |targets|
        invariant forall k :: 0 <= k < i ==>
                    !(if plainly then PlainOn(vevents[targets[k]], key) else ListedOn(vevents[targets[k]], key))
      {
        if plainly { found := HasPlain(vevents[targets[i]], key); } else { found := Lists(vevents[targets[i]], key); }
        if found { return; }
        i := i + 1;
      }
      found := false;
    }

    /** Every check, in order, before anything is written. */
    method Check(strict: nat, lenient: seq<nat>, patch: Patch, own: seq<string>) returns (refusal: Option<Refusal>)
      requires Targets(vevents, strict, lenient)
      ensures refusal == RefusalOf(vevents, strict, lenient, patch, own)
    {
      var targets := [strict] + lenient;
      if patch.notify.None? { return Some(NotifyMissing); }
      var twice := NamedMoreThanOnce(patch.add + patch.remove);
      if twice { return Some(NamedTwice); }
      if own == [] { return Some(NoOwnAddress); }
      var foreign := HasForeignOrganizer(own);
      if foreign { return Some(SomeoneElses); }
      if !patch.notify.value {
        var plain := SomeAddress(targets, patch.remove, true);
        if plain { return Some(ListedPlainly); }
      }
      var already := AlreadyOn(strict, patch.add);
      if already { return Some(AlreadyListed); }
      var missing := SomeAddress(targets, patch.remove, false);
      if missing { return Some(NotListed); }
      refusal := None;
    }

    /** Some of `addresses` is listed plainly on a target, or is listed on none. */
    method SomeAddress(targets: seq<nat>, addresses: seq<string>, plainly: bool) returns (found: bool)
      requires forall i :: 0 <= i < |targets| ==> targets[i] < |vevents|
      ensures plainly ==>
                (found <==>
                  exists i :: 0 <= i < |addresses| && PlainAmongTargets(vevents, targets, AddressKey(addresses[i])))
      ensures !plainly ==>
                (found <==>
                  exists i :: 0 <= i < |addresses| && !ListedAmong(vevents, targets, AddressKey(addresses[i])))
    {
      var i := 0;
      while i < |addresses|
        invariant 0 <= i <= |addresses|
        invariant forall k :: 0 <= k < i ==>
          if plainly then !PlainAmongTargets(vevents, targets, AddressKey(addresses[k]))
            else ListedAmong(vevents, targets, AddressKey(addresses[k]))
      {
        var on := OnSome(targets, AddressKey(addresses[i]), plainly);
        if on == plainly { return true; }
        i := i + 1;
      }
      found := false;
    }

    method AlreadyOn(strict: nat, addresses: seq<string>) returns (found: bool)
      requires strict < |vevents|
      ensures found <==> exists i :: 0 <= i < |addresses| && ListedOn(vevents[strict], AddressKey(addresses[i]))
    {
      var i := 0;
      while i < |addresses|
        invariant 0 <= i <= |addresses|
        invariant forall k :: 0 <= k < i ==> !ListedOn(vevents[strict], AddressKey(addresses[k]))
      {
        found := Lists(vevents[strict], AddressKey(addresses[i]));
        if found { return; }
        i := i + 1;
      }
      found := false;
    }

    /** The ORGANIZER on every VEVENT, and the lines marked where this call supplies it without notifying. */
    method GiveOrganizer(organizer: Organizer, notify: bool)
      modifies this`vevents
      ensures |vevents| == |old(vevents)|
      ensures forall n :: 0 <= n < |vevents| ==>
                vevents[n] == Organized(old(vevents)[n], Existing(old(vevents)), organizer, notify)
    {
      var existing := Existing(vevents);
      var n := 0;
      while n < |vevents|
        invariant 0 <= n <= |vevents| == |old(vevents)|
        invariant forall k :: 0 <= k < n ==>
                    vevents[k] == WithOrganizer(old(vevents)[k], if existing.Some? then existing.value else organizer)
        invariant forall k :: n <= k < |vevents| ==> vevents[k] == old(vevents)[k]
      {
        if vevents[n].organizers == [] {
          vevents := vevents[n := vevents[n].(organizers := [if existing.Some? then existing.value else organizer])];
        }
        n := n + 1;
      }
      if existing.None? && !notify { MarkLines(); }
    }

    method MarkLines()
      modifies this`vevents
      ensures |vevents| == |old(vevents)|
      ensures forall n :: 0 <= n < |vevents| ==>
                vevents[n] == old(vevents)[n].(attendees := MarkedLines(old(vevents)[n].attendees))
    {
      var n := 0;
      while n < |vevents|
        invariant 0 <= n <= |vevents| == |old(vevents)|
        invariant forall k :: 0 <= k < n ==>
                    vevents[k] == old(vevents)[k].(attendees := MarkedLines(old(vevents)[k].attendees))
        invariant forall k :: n <= k < |vevents| ==> vevents[k] == old(vevents)[k]
      {
        var lines := MarkEach(vevents[n].attendees);
        vevents := vevents[n := vevents[n].(attendees := lines)];
        n := n + 1;
      }
    }

    method WriteGuestList(strict: nat, lenient: seq<nat>, call: Call, organizer: Organizer)
      requires Targets(vevents, strict, lenient)
      modifies this`vevents
      ensures |vevents| == |old(vevents)|
      ensures forall n :: 0 <= n < |vevents| ==>
                vevents[n] == WrittenAt(old(vevents), n, strict, lenient, call, organizer)
    {
      GiveOrganizer(organizer, call.notify);
      ghost var organized := vevents;
      var first := ChangeOne(vevents[strict], call, true);
      vevents := vevents[strict := first];
      var i := 0;
      while i < |lenient|
        invariant 0 <= i <= |lenient| && |vevents| == |organized|
        invariant forall n :: 0 <= n < |vevents| ==>
                    vevents[n] == ChangedSoFar(organized[n], n, strict, lenient[..i], call)
      {
        assert lenient[i] !in lenient[..i];
        var ve := ChangeOne(vevents[lenient[i]], call, false);
        vevents := vevents[lenient[i] := ve];
        assert lenient[..i + 1] == lenient[..i] + [lenient[i]];
        i := i + 1;
      }
      assert lenient[..i] == lenient;
    }

    /** `changeGuestList`: every check, then the write, then whom the server may now email. */
    method ChangeGuestList(strict: nat, lenient: seq<nat>, patch: Patch, own: seq<string>) returns (answer: Answer)
      requires Targets(vevents, strict, lenient)
      modifies this`vevents
      ensures answer.NothingAsked? <==> patch.add == [] && patch.remove == []
      ensures !answer.Done? ==> vevents == old(vevents)
      ensures !answer.NothingAsked? ==>
                (var why := RefusalOf(old(vevents), strict, lenient, patch, own);
                 if why.Some? then answer == Refused(why.value) else answer.Done?)
      ensures answer.Done? ==>
                Written(old(vevents), vevents, strict, lenient, Call(patch.add, patch.remove, patch.notify.value), own)
      ensures answer.Done? ==> EachOnce(answer.mayNotify)
      ensures answer.Done? ==>
                var call := Call(patch.add, patch.remove, patch.notify.value);
                forall key :: IsNamed(answer.mayNotify, key) <==>
                  !KeyIn(own, key)
                    && (Leaves(old(vevents), strict, lenient, call, own, key) || PlainAnywhere(vevents, key))
    {
      if patch.add == [] && patch.remove == [] { return NothingAsked; }
      var why := Check(strict, lenient, patch, own);
      if why.Some? { return Refused(why.value); }
      var call := Call(patch.add, patch.remove, patch.notify.value);
      var leaving := Leaving(strict, lenient, call, own);
      WriteGuestList(strict, lenient, call, Organizer(MailtoOf(own[0]), ""));
      var named := Schedulable(vevents, leaving, own);
      answer := Done(named);
    }

    /** Whoever the server was free to schedule and this call takes out of its hands, as addresses. */
    method Leaving(strict: nat, lenient: seq<nat>, call: Call, own: seq<string>) returns (addresses: seq<string>)
      requires Targets(vevents, strict, lenient)
      ensures forall key :: KeyIn(addresses, key) <==> Leaves(vevents, strict, lenient, call, own, key)
    {
      if call.notify {
        addresses := Cancelled([strict] + lenient, call.remove);
      } else if Existing(vevents).None? {
        var marked := Schedulable(vevents, [], own);
        addresses := Bares(marked);
      } else {
        addresses := [];
      }
    }

    method Cancelled(targets: seq<nat>, remove: seq<string>) returns (addresses: seq<string>)
      requires forall i :: 0 <= i < |targets| ==> targets[i] < |vevents|
      ensures forall key :: KeyIn(addresses, key) <==> KeyIn(remove, key) && PlainAmongTargets(vevents, targets, key)
    {
      addresses := [];
      var i := 0;
      while i < |remove|
        invariant 0 <= i <= |remove|
        invariant forall key :: KeyIn(addresses, key) <==>
                    KeyIn(remove[..i], key) && PlainAmongTargets(vevents, targets, key)
      {
        var plain := OnSome(targets, AddressKey(remove[i]), true);
        KeyInMore(remove, i);
        if plain {
          KeyInAppended(addresses, remove[i]);
          addresses := addresses + [remove[i]];
        }
        i := i + 1;
      }
      assert remove[..i] == remove;
    }
  }

  method MarkEach(attendees: seq<Attendee>) returns (lines: seq<Attendee>)
    ensures lines == MarkedLines(attendees)
  {
    lines := attendees;
    var i := 0;
    while i < |attendees|
      invariant 0 <= i <= |attendees| == |lines|
      invariant forall k :: 0 <= k < |lines| ==> lines[k] == if k < i then MarkedLine(attendees[k]) else attendees[k]
    {
      if lines[i].agent.None? { lines := lines[i := lines[i].(agent := Some("CLIENT"))]; }
      i := i + 1;
    }
  }

  /** One target's guest list. */
  method ChangeOne(ve: VEvent, call: Call, strict: bool) returns (r: VEvent)
    ensures r == Changed(ve, call, strict)
  {
    var kept := KeepLines(ve.attendees, call.remove);
    var added := AddLines(ve.attendees, call.add, strict, call.notify);
    r := ve.(attendees := kept + added);
  }

  method KeepLines(attendees: seq<Attendee>, remove: seq<string>) returns (kept: seq<Attendee>)
    ensures kept == Kept(attendees, remove)
  {
    kept := [];
    for i := 0 to |attendees|
      invariant kept == Kept(attendees[..i], remove)
    {
      assert attendees[..i + 1][..i] == attendees[..i];
      var gone := Names(remove, KeyOf(attendees[i]));
      kept := kept + if gone then [] else [attendees[i]];
    }
    assert attendees[..|attendees|] == attendees;
  }

  method AddLines(attendees: seq<Attendee>, add: seq<string>, strict: bool, notify: bool) returns (added: seq<Attendee>)
    ensures added == Added(attendees, add, strict, notify)
  {
    added := [];
    for i := 0 to |add|
      invariant added == Added(attendees, add[..i], strict, notify)
    {
      assert add[..i + 1][..i] == add[..i];
      var listed := Lists(VEvent([], attendees), AddressKey(add[i]));
      added := added + if !strict && listed then [] else [AddedLine(add[i], notify)];
    }
    assert add[..|add|] == add;
  }

  /** The addresses as they are shown; who they are is read off them again. */
  method Bares(named: seq<Named>) returns (addresses: seq<string>)
    requires EachOnce(named)
    ensures forall key :: KeyIn(addresses, key) <==> exists k :: IsNamed(named, k) && AddressKey(k) == key
  {
    addresses := [];
    var i := 0;
    while i < |named|
      invariant 0 <= i <= |named| == |addresses| + |named| - i
      invariant forall k :: 0 <= k < i ==> addresses[k] == named[k].bare
    {
      addresses := addresses + [named[i].bare];
      i := i + 1;
    }
    forall i | 0 <= i < |named| ensures AddressKey(addresses[i]) == AddressKey(named[i].key) {
      LowerIsTheSamePerson(named[i].bare);
    }
    forall key ensures KeyIn(addresses, key) <==> exists k :: IsNamed(named, k) && AddressKey(k) == key {
      if i :| 0 <= i < |addresses| && AddressKey(addresses[i]) == key { assert IsNamed(named, named[i].key); }
      if k :| IsNamed(named, k) && AddressKey(k) == key {
        var i :| 0 <= i < |named| && named[i].key == k;
        assert AddressKey(addresses[i]) == key;
      }
    }
  }

  ghost predicate Written(before: seq<VEvent>, after: seq<VEvent>, strict: nat, lenient: seq<nat>, call: Call,
                          own: seq<string>) {
    && |after| == |before| && own != []
    && forall n :: 0 <= n < |after| ==>
      after[n] == WrittenAt(before, n, strict, lenient, call, Organizer(MailtoOf(own[0]), ""))
  }

  /**
   * `key` is someone the server was free to schedule whom this call removes
   * with `notify`, or marks as it supplies the ORGANIZER without, their address
   * read again as it is shown.
   */
  ghost predicate Leaves(ves: seq<VEvent>, strict: nat, lenient: seq<nat>, call: Call, own: seq<string>, key: string) {
    if call.notify then KeyIn(call.remove, key) && PlainAmongTargets(ves, [strict] + lenient, key)
    else Existing(ves).None? && exists k :: PlainAnywhere(ves, k) && !KeyIn(own, k) && AddressKey(k) == key
  }
}
