/**
 * A secret created at first boot by several processes at once
 * (shared/secrets.ts): one path, read, cleared where it is blank, and linked
 * into place by steps of which each is atomic and none of them together.
 */
module Secrets {

  /** The file at the path: not there, there with nothing in it, or holding a whole value. */
  datatype File = Absent | Blank | Full(value: string)

  /** How far one process is: the step it takes next, or how it ended. */
  datatype Pc = Reading | Checking | Removing | Linking | Adopting | Done(value: string) | Failed

  /** The next step of a process that would create `value`, against the file as it finds it. */
  function Next(pc: Pc, value: string, file: File): (Pc, File) {
    match pc
    case Reading => (if file.Full? then Done(file.value) else Checking, file)
    case Checking => (if file.Absent? then Linking else Removing, file)
    case Removing => (Linking, Absent)
    case Linking => if file.Absent? then (Done(value), Full(value)) else (Adopting, file)
    case Adopting => (if file.Full? then Done(file.value) else Failed, file)
    case Done(_) => (pc, file)
    case Failed => (pc, file)
  }

  predicate Ended(pc: Pc) {
    pc.Done? || pc.Failed?
  }

  /** One step: what the code does next, or a failure of the file system, which leaves the file alone. */
  predicate Stepped(value: string, pc: Pc, file: File, pc': Pc, file': File) {
    !Ended(pc) && ((pc', file') == Next(pc, value, file) || (pc' == Failed && file' == file))
  }

  // ---------------------------------------------------------------------
  // One process, as it runs
  // ---------------------------------------------------------------------

  /** What a process does at the path, and what it found and left there. */
  datatype Op = Read(found: File) | Exists(found: File) | Unlink(found: File, left: File) | Link(value: string,
                     found: File, left: File)

  /** The path, changed between one process's steps by the others, and what this process did there. */
  class Disk {
    var file: File
    var others: seq<File>
    var failures: seq<bool>
    ghost var log: seq<Op>

    /** Whatever the others did meanwhile. */
    method Meanwhile()
      modifies this`file, this`others
    {
      if others != [] {
        file := others[0];
        others := others[1..];
      }
    }

    method Fails() returns (fails: bool)
      modifies this`failures
    {
      fails := failures != [] && failures[0];
      if failures != [] { failures := failures[1..]; }
    }

    /** `readFileSync`: nothing for a file that is not there. */
    method ReadFile() returns (found: File)
      modifies this`file, this`others, this`log
      ensures log == old(log) + [Read(found)] && file == found
    {
      Meanwhile();
      found := file;
      log := log + [Read(found)];
    }

    method ExistsFile() returns (there: bool)
      modifies this`file, this`others, this`log
      ensures log == old(log) + [Exists(file)] && there == !file.Absent?
    {
      Meanwhile();
      there := !file.Absent?;
      log := log + [Exists(file)];
    }

    /** `unlinkSync`, an absent file no failure: false where the file system refused, with the file as it was. */
    method UnlinkFile() returns (ok: bool, ghost op: Op)
      modifies this
      ensures log == old(log) + [op] && op.Unlink? && op.left == file
      ensures file == if ok then Absent else op.found
    {
      Meanwhile();
      ghost var found := file;
      var fails := Fails();
      if !fails { file := Absent; }
      op := Unlink(found, file);
      log := log + [op];
      ok := !fails;
    }

    /** `linkSync` of a file written in full: it takes the path only where nothing is there. */
    method LinkFile(value: string) returns (ok: bool, taken: bool, ghost op: Op)
      modifies this
      ensures log == old(log) + [op] && op.Link? && op.value == value && op.left == file
      ensures ok ==> taken == !op.found.Absent? && file == if taken then op.found else Full(value)
      ensures !ok ==> file == op.found
    {
      Meanwhile();
      ghost var found := file;
      var fails := Fails();
      taken := !file.Absent?;
      if !fails && !taken { file := Full(value); }
      op := Link(value, found, file);
      log := log + [op];
      ok := !fails;
    }
  }

  /** What a process at `pc` does at the path. */
  ghost predicate DoneAt(op: Op, pc: Pc, value: string) {
    match op
    case Read(_) => pc == Reading || pc == Adopting
    case Exists(_) => pc == Checking
    case Unlink(_, _) => pc == Removing
    case Link(v, _, _) => pc == Linking && v == value
  }

  function LeftBy(op: Op): File {
    if op.Unlink? || op.Link? then op.left else op.found
  }

  /** The operations took a process from `from` to `to`, each of them a step of it. */
  ghost predicate Traced(ops: seq<Op>, value: string, from: Pc, to: Pc) {
    if ops == [] then to == from
    else
      var last := ops[|ops| - 1];
      exists pc :: Traced(ops[..|ops| - 1], value, from, pc) && DoneAt(last, pc, value)
        && Stepped(value, pc, last.found, to, LeftBy(last))
  }

  lemma OneMore(ops: seq<Op>, value: string, from: Pc, pc: Pc, op: Op, to: Pc)
    requires Traced(ops, value, from, pc) && DoneAt(op, pc, value) && Stepped(value, pc, op.found, to, LeftBy(op))
    ensures Traced(ops + [op], value, from, to)
  {
    var more := ops + [op];
    assert more[..|more| - 1] == ops && more[|more| - 1] == op;
    assert Traced(more[..|more| - 1], value, from, pc) && DoneAt(op, pc, value);
  }

  /** `createExclusively`: the value linked, or the winner's adopted. */
  method CreateExclusively(disk: Disk, value: string, ghost before: seq<Op>, ghost from: Pc)
    returns (end: Pc, ghost ops: seq<Op>)
    requires Traced(before, value, from, Linking)
    modifies disk
    ensures Ended(end) && disk.log == old(disk.log) + ops && Traced(before + ops, value, from, end)
  {
    var ok, taken;
    ghost var link;
    ok, taken, link := disk.LinkFile(value);
    if !ok || !taken {
      end := if ok then Done(value) else Failed;
      OneMore(before, value, from, Linking, link, end);
      return end, [link];
    }
    OneMore(before, value, from, Linking, link, Adopting);
    var winner := disk.ReadFile();
    end := if winner.Full? then Done(winner.value) else Failed;
    OneMore(before + [link], value, from, Adopting, Read(winner), end);
    ops := [link, Read(winner)];
    assert before + ops == before + [link] + [Read(winner)];
  }

  /** `resolveSecret`, for a secret that may be generated. */
  method ResolveSecret(disk: Disk, value: string) returns (end: Pc, ghost ops: seq<Op>)
    modifies disk
    ensures Ended(end) && disk.log == old(disk.log) + ops && Traced(ops, value, Reading, end)
  {
    var existing := disk.ReadFile();
    ops := [Read(existing)];
    if existing.Full? {
      OneMore([], value, Reading, Reading, ops[0], Done(existing.value));
      assert [] + ops == ops;
      return Done(existing.value), ops;
    }
    OneMore([], value, Reading, Reading, ops[0], Checking);
    assert [] + ops == ops;
    var blank := disk.ExistsFile();
    OneMore(ops, value, Reading, Checking, Exists(disk.file), if blank then Removing else Linking);
    ops := ops + [Exists(disk.file)];
    ghost var more;
    if blank {
      end, more := ReplaceBlank(disk, value, ops);
    } else {
      end, more := CreateExclusively(disk, value, ops, Reading);
    }
    ops := ops + more;
  }

  /** A blank file out of the way, and the secret created. */
  method ReplaceBlank(disk: Disk, value: string, ghost before: seq<Op>) returns (end: Pc, ghost ops: seq<Op>)
    requires Traced(before, value, Reading, Removing)
    modifies disk
    ensures Ended(end) && disk.log == old(disk.log) + ops && Traced(before + ops, value, Reading, end)
  {
    var ok;
    ghost var unlink;
    ok, unlink := disk.UnlinkFile();
    OneMore(before, value, Reading, Removing, unlink, if ok then Linking else Failed);
    if !ok { return Failed, [unlink]; }
    ghost var more;
    end, more := CreateExclusively(disk, value, before + [unlink], Reading);
    ops := [unlink] + more;
    assert before + ops == before + [unlink] + more;
  }

  // ---------------------------------------------------------------------
  // All of them
  // ---------------------------------------------------------------------

  datatype System = System(file: File, pcs: seq<Pc>)

  /** Process `p` takes a step. */
  ghost predicate Moved(values: seq<string>, p: nat, s: System, s': System) {
    && p < |s.pcs| == |values| && |s'.pcs| == |s.pcs| && s'.pcs == s.pcs[p := s'.pcs[p]]
    && Stepped(values[p], s.pcs[p], s.file, s'.pcs[p], s'.file)
  }

  /** An interleaving: which process moves at each step, and the states between. */
  ghost predicate Run(values: seq<string>, movers: seq<nat>, states: seq<System>) {
    && |states| == |movers| + 1 && |states[0].pcs| == |values|
    && forall n :: 0 <= n < |movers| ==> Moved(values, movers[n], states[n], states[n + 1])
  }

  /** At step `n` a process removes a file that holds a whole secret. */
  ghost predicate Clobbers(movers: seq<nat>, states: seq<System>, n: nat) {
    && n < |movers| < |states| && movers[n] < |states[n].pcs| && |states[n].pcs| == |states[n + 1].pcs|
    && states[n].pcs[movers[n]] == Removing && states[n].file.Full? && states[n + 1].file.Absent?
  }

  ghost predicate NeverClobbers(movers: seq<nat>, states: seq<System>, n: nat) {
    forall k :: 0 <= k < n ==> !Clobbers(movers, states, k)
  }

  /** Every process that has a value has the one at the path. */
  ghost predicate Agreed(s: System) {
    forall p :: 0 <= p < |s.pcs| && s.pcs[p].Done? ==> s.file == Full(s.pcs[p].value)
  }

  lemma {:induction false} StepAgrees(values: seq<string>, p: nat, s: System, s': System)
    requires Moved(values, p, s, s') && Agreed(s)
    requires !(s.pcs[p] == Removing && s.file.Full? && s'.file.Absent?)
    ensures Agreed(s') && (s.file.Full? ==> s'.file == s.file)
  {
    forall q | 0 <= q < |s'.pcs| && s'.pcs[q].Done? ensures s'.file == Full(s'.pcs[q].value) {
      if q != p { assert s'.pcs[q] == s.pcs[q]; }
    }
  }

  /**
   * Where no whole secret is removed all processes agree, whatever their order,
   * and the value at the path never changes once there.
   */
  lemma {:induction false} AgreesUnlessClobbered(values: seq<string>, movers: seq<nat>, states: seq<System>, m: nat,
                                                 n: nat)
    requires Run(values, movers, states) && Agreed(states[0]) && m <= n <= |movers| && NeverClobbers(movers, states, n)
    ensures Agreed(states[n]) && (states[m].file.Full? ==> states[n].file == states[m].file)
    decreases n
  {
    if n > 0 {
      AgreesUnlessClobbered(values, movers, states, if m < n then m else m - 1, n - 1);
      assert Moved(values, movers[n - 1], states[n - 1], states[n]);
      assert !Clobbers(movers, states, n - 1);
      StepAgrees(values, movers[n - 1], states[n - 1], states[n]);
    }
  }

  // ---------------------------------------------------------------------
  // createExclusively alone
  // ---------------------------------------------------------------------

  /** Nobody removes: every process is in `createExclusively`. */
  ghost predicate Creating(s: System) {
    forall p :: 0 <= p < |s.pcs| ==> s.pcs[p] == Linking || s.pcs[p] == Adopting || Ended(s.pcs[p])
  }

  lemma {:induction false} StaysCreating(values: seq<string>, movers: seq<nat>, states: seq<System>, n: nat)
    requires Run(values, movers, states) && Creating(states[0]) && n <= |movers|
    ensures Creating(states[n]) && NeverClobbers(movers, states, n)
  {
    if n > 0 {
      StaysCreating(values, movers, states, n - 1);
      var (s, s') := (states[n - 1], states[n]);
      assert Moved(values, movers[n - 1], s, s');
      forall p | 0 <= p < |s'.pcs| ensures s'.pcs[p] == Linking || s'.pcs[p] == Adopting || Ended(s'.pcs[p]) {
        if p != movers[n - 1] { assert s'.pcs[p] == s.pcs[p]; }
      }
    }
  }

  /**
   * Processes racing through `createExclusively` on an absent path: all of
   * them return one value, and the path is only ever absent or holds it whole.
   */
  lemma {:induction false} CreatorsAgree(values: seq<string>, movers: seq<nat>, states: seq<System>, n: nat, p: nat,
                                         q: nat)
    requires Run(values, movers, states) && n <= |movers|
    requires states[0].file == Absent && forall i :: 0 <= i < |values| ==> states[0].pcs[i] == Linking
    requires p < |values| && q < |values| && |states[n].pcs| == |values|
    ensures states[n].file != Blank
    ensures states[n].pcs[p].Done? ==> states[n].file == Full(states[n].pcs[p].value)
    ensures states[n].pcs[p].Done? && states[n].pcs[q].Done? ==> states[n].pcs[p].value == states[n].pcs[q].value
    ensures forall m :: n <= m <= |movers| && states[n].file.Full? ==> states[m].file == states[n].file
  {
    StaysCreating(values, movers, states, |movers|);
    StaysCreating(values, movers, states, n);
    AgreesUnlessClobbered(values, movers, states, 0, n);
    NeverBlank(values, movers, states, n);
    forall m | n <= m <= |movers| && states[n].file.Full? ensures states[m].file == states[n].file {
      AgreesUnlessClobbered(values, movers, states, n, m);
    }
  }

  /** None of them fails unless the file system does. */
  lemma {:induction false} CreatorsReturn(values: seq<string>, movers: seq<nat>, states: seq<System>, n: nat)
    requires Run(values, movers, states) && n <= |movers|
    requires states[0].file == Absent && forall i :: 0 <= i < |values| ==> states[0].pcs[i] == Linking
    requires forall k :: 0 <= k < n && movers[k] < |states[k].pcs| == |values| == |states[k + 1].pcs| ==>
      (states[k + 1].pcs[movers[k]], states[k + 1].file) == Next(states[k].pcs[movers[k]], values[movers[k]],
                                                                 states[k].file)
    ensures forall p :: 0 <= p < |states[n].pcs| ==>
              states[n].pcs[p] != Failed && (states[n].pcs[p] == Adopting ==> states[n].file.Full?)
    ensures states[n].file != Blank && Creating(states[n])
  {
    if n > 0 {
      CreatorsReturn(values, movers, states, n - 1);
      var (s, s', mover) := (states[n - 1], states[n], movers[n - 1]);
      assert Moved(values, mover, s, s');
      forall p | 0 <= p < |s'.pcs| ensures s'.pcs[p] != Failed && (s'.pcs[p] == Adopting ==> s'.file.Full?) {
        if p != mover { assert s'.pcs[p] == s.pcs[p]; }
      }
      StaysCreating(values, movers, states, n);
    }
  }

  /** Nothing here leaves a blank file where there was none. */
  lemma {:induction false} NeverBlank(values: seq<string>, movers: seq<nat>, states: seq<System>, n: nat)
    requires Run(values, movers, states) && states[0].file != Blank && n <= |movers|
    ensures states[n].file != Blank
  {
    if n > 0 {
      NeverBlank(values, movers, states, n - 1);
      assert Moved(values, movers[n - 1], states[n - 1], states[n]);
    }
  }

  // ---------------------------------------------------------------------
  // resolveSecret
  // ---------------------------------------------------------------------

  /** A secret is linked at step `n`. */
  ghost predicate Links(states: seq<System>, n: nat)
    requires n + 1 < |states|
  {
    states[n].file.Absent? && states[n + 1].file.Full?
  }

  /** No secret is linked while another process has read nothing and not yet acted on it. */
  ghost predicate NoLinkBetween(movers: seq<nat>, states: seq<System>) {
    |states| == |movers| + 1 &&
    forall n, p ::
      0 <= n < |movers| && 0 <= p < |states[n].pcs|
      && (states[n].pcs[p] == Checking || states[n].pcs[p] == Removing) ==>
      !Links(states, n)
  }

  /** Then a process about to clear the file never finds a whole secret there. */
  lemma {:induction false} ClearsOnlyBlanks(values: seq<string>, movers: seq<nat>, states: seq<System>, n: nat)
    requires Run(values, movers, states) && NoLinkBetween(movers, states) && n <= |movers|
    requires forall p :: 0 <= p < |values| ==> states[0].pcs[p] == Reading
    ensures forall p :: 0 <= p < |states[n].pcs| && (states[n].pcs[p] == Checking || states[n].pcs[p] == Removing) ==>
              !states[n].file.Full?
    ensures NeverClobbers(movers, states, n)
  {
    if n > 0 {
      ClearsOnlyBlanks(values, movers, states, n - 1);
      var (s, s', mover) := (states[n - 1], states[n], movers[n - 1]);
      assert Moved(values, mover, s, s');
      forall p | 0 <= p < |s'.pcs| && (s'.pcs[p] == Checking || s'.pcs[p] == Removing) ensures !s'.file.Full? {
        if p != mover {
          assert s'.pcs[p] == s.pcs[p];
          assert !Links(states, n - 1);
        }
      }
    }
  }

  lemma {:induction false} ResolversAgree(values: seq<string>, movers: seq<nat>, states: seq<System>, n: nat)
    requires Run(values, movers, states) && NoLinkBetween(movers, states) && n <= |movers|
    requires forall p :: 0 <= p < |values| ==> states[0].pcs[p] == Reading
    ensures Agreed(states[n])
  {
    ClearsOnlyBlanks(values, movers, states, n);
    AgreesUnlessClobbered(values, movers, states, 0, n);
  }

  /** Every process has a value in the end. */
  ghost predicate AllDone(s: System) {
    forall p :: 0 <= p < |s.pcs| ==> s.pcs[p].Done?
  }

  ghost predicate OneValue(s: System) {
    forall p, q :: 0 <= p < |s.pcs| && 0 <= q < |s.pcs| && s.pcs[p].Done? && s.pcs[q].Done? ==>
      s.pcs[p].value == s.pcs[q].value
  }

  ghost predicate Distinct(values: seq<string>) {
    forall i, j :: 0 <= i < j < |values| ==> values[i] != values[j]
  }

  /** A whole secret at the path, up to the first one removed, was put there by a process that has it. */
  lemma {:induction false} LinkedBySomeone(values: seq<string>, movers: seq<nat>, states: seq<System>, n: nat)
    returns (p: nat)
    requires Run(values, movers, states) && n <= |movers| && states[n].file.Full? && !states[0].file.Full?
    ensures p < |values| && |states[n].pcs| == |values| && states[n].file == Full(values[p])
    ensures states[n].pcs[p] == Done(values[p])
  {
    var (s, s', mover) := (states[n - 1], states[n], movers[n - 1]);
    assert Moved(values, mover, s, s');
    if s.file.Full? {
      p := LinkedBySomeone(values, movers, states, n - 1);
      if p != mover { assert s'.pcs[p] == s.pcs[p]; }
    } else {
      p := mover;
      SameLength(values, movers, states, n);
    }
  }

  lemma {:induction false} SameLength(values: seq<string>, movers: seq<nat>, states: seq<System>, n: nat)
    requires Run(values, movers, states) && n <= |movers|
    ensures |states[n].pcs| == |values|
  {
    if n > 0 {
      SameLength(values, movers, states, n - 1);
      assert Moved(values, movers[n - 1], states[n - 1], states[n]);
    }
  }

  /** Once its file is gone, the value of `p` never comes back, and `q`, who removed it, ends with another. */
  ghost predicate Parted(s: System, p: nat, q: nat, w: string) {
    && p < |s.pcs| && q < |s.pcs| && s.pcs[p] == Done(w) && s.file != Full(w)
    && (s.pcs[q] == Linking || s.pcs[q] == Adopting || s.pcs[q] == Failed || (s.pcs[q].Done? && s.pcs[q].value != w))
  }

  lemma {:induction false} PartedForGood(values: seq<string>, movers: seq<nat>, states: seq<System>, m: nat, n: nat,
                                         p: nat, q: nat)
    requires Run(values, movers, states) && Distinct(values) && m <= n <= |movers|
    requires p < |values| && Parted(states[m], p, q, values[p])
    ensures Parted(states[n], p, q, values[p])
    decreases n
  {
    if m < n {
      PartedForGood(values, movers, states, m, n - 1, p, q);
      var (s, s', mover) := (states[n - 1], states[n], movers[n - 1]);
      assert Moved(values, mover, s, s');
      assert mover != p && values[mover] != values[p];
      assert s'.pcs[p] == s.pcs[p];
      if q != mover { assert s'.pcs[q] == s.pcs[q]; }
    }
  }

  /**
   * Processes with values of their own, each of which ended with one: they
   * agree exactly if none of them ever removed a secret another had linked
   * whole, taking it for the blank file it had read.
   */
  lemma {:induction false} AgreeIffNoneIsClobbered(values: seq<string>, movers: seq<nat>, states: seq<System>)
    requires Run(values, movers, states) && Distinct(values) && AllDone(states[|movers|])
    requires !states[0].file.Full? && forall p :: 0 <= p < |values| ==> states[0].pcs[p] == Reading
    ensures OneValue(states[|movers|]) <==> NeverClobbers(movers, states, |movers|)
  {
    var last := |movers|;
    if NeverClobbers(movers, states, last) {
      AgreesUnlessClobbered(values, movers, states, 0, last);
    } else {
      var k :| 0 <= k < last && Clobbers(movers, states, k);
      var p := LinkedBySomeone(values, movers, states, k);
      var q := movers[k];
      assert Moved(values, q, states[k], states[k + 1]);
      assert states[k + 1].pcs[p] == states[k].pcs[p];
      PartedForGood(values, movers, states, k + 1, last, p, q);
      assert states[last].pcs[q].Done?;
    }
  }

  /**
   * It happens: both read nothing; one links its secret; the other finds a
   * file, takes it for a blank one and replaces it.
   */
  lemma TwoSecrets(a: string, b: string) returns (movers: seq<nat>, states: seq<System>)
    requires a != b
    ensures Run([a, b], movers, states) && states[0] == System(Absent, [Reading, Reading])
    ensures AllDone(states[|movers|]) && !OneValue(states[|movers|])
  {
    movers := [0, 1, 0, 0, 1, 1, 1];
    states := [
      System(Absent, [Reading, Reading]), System(Absent, [Checking, Reading]), System(Absent, [Checking, Checking]),
      System(Absent, [Linking, Checking]), System(Full(a), [Done(a), Checking]), System(Full(a), [Done(a), Removing]),
      System(Absent, [Done(a), Linking]), System(Full(b), [Done(a), Done(b)])
    ];
    assert states[7].pcs[0].value != states[7].pcs[1].value;
  }
}
