/**
 * The pool stored objects are expanded in (src/ical-worker-pool.ts): who goes
 * next, which worker runs it, and what becomes of it when a worker answers,
 * runs out its deadline or is lost. Timers, messages and the starting of a
 * worker are events from outside; what they find decides what they do.
 */
module WorkerPool {
  import opened Options
  import opened PoolState
  import opened PoolTurns

  const HANGING_REMEMBERED_MS := 60 * 60000
  const HANGING_REMEMBERED_MAX := 1000

  /** An object, by URL and version, that ran out its deadline, and when. */
  datatype Hang = Hang(key: string, at: int)

  predicate Remembered(hanging: seq<Hang>, key: string, now: int) {
    exists i :: 0 <= i < |hanging| && hanging[i].key == key && now - hanging[i].at <= HANGING_REMEMBERED_MS
  }

  /** Each object is remembered once, and not more of them than the cap. */
  ghost predicate WellRemembered(hanging: seq<Hang>) {
    |hanging| <= HANGING_REMEMBERED_MAX && forall i, j :: 0 <= i < j < |hanging| ==> hanging[i].key != hanging[j].key
  }

  /** Where an object is remembered, or the end. */
  function IndexOf(hanging: seq<Hang>, key: string): (i: nat)
    ensures i <= |hanging|
    ensures i < |hanging| ==> hanging[i].key == key
    ensures i == |hanging| ==> forall k :: 0 <= k < |hanging| ==> hanging[k].key != key
  {
    if hanging == [] || hanging[0].key == key then 0 else 1 + IndexOf(hanging[1..], key)
  }

  // ---------------------------------------------------------------------
  // How much is waiting
  // ---------------------------------------------------------------------

  function Total(order: seq<Group>, waiting: map<Group, seq<Task>>): nat {
    if order == [] then 0 else |WaitingOf(waiting, order[0])| + Total(order[1..], waiting)
  }

  lemma {:induction false} TotalWithout(order: seq<Group>, waiting: map<Group, seq<Task>>, i: nat)
    requires i < |order|
    ensures Total(order, waiting) == Total(Without(order, i), waiting) + |WaitingOf(waiting, order[i])|
    decreases order
  {
    if i == 0 {
      assert Without(order, 0) == order[1..];
    } else {
      TotalWithout(order[1..], waiting, i - 1);
      assert Without(order, i) == [order[0]] + Without(order[1..], i - 1);
      assert ([order[0]] + Without(order[1..], i - 1))[1..] == Without(order[1..], i - 1);
    }
  }

  lemma {:induction false} TotalElsewhere(order: seq<Group>, waiting: map<Group, seq<Task>>, g: Group, ts: seq<Task>)
    requires g !in order
    ensures Total(order, waiting[g := ts]) == Total(order, waiting)
    decreases order
  {
    if order != [] { TotalElsewhere(order[1..], waiting, g, ts); }
  }

  lemma TotalTaken(st: State, i: nat)
    requires InTurn(st) && i < |st.order| && WaitingOf(st.waiting, st.order[i]) != []
    ensures var st' := Taken(st, i); Total(st'.order, st'.waiting) == Total(st.order, st.waiting) - 1
  {
    var g := st.order[i];
    var st' := Taken(st, i);
    var rest := Without(st.order, i);
    TurnsWithout(st.order, i);
    TotalWithout(st.order, st.waiting, i);
    TotalElsewhere(rest, st.waiting, g, st'.waiting[g]);
    if st'.order != rest {
      TotalWithout(st'.order, st'.waiting, |rest|);
      assert Without(st'.order, |rest|) == rest;
    } else {
      assert st'.waiting[g] == [];
    }
  }

  /** `Taken`, with one task fewer waiting. */
  lemma TakeStep(st: State, i: nat) returns (st': State)
    requires Kept(st) && st.held == None && i < |st.order|
    ensures WaitingOf(st.waiting, st.order[i]) != [] && st' == Taken(st, i) && Kept(st')
    ensures Total(st'.order, st'.waiting) == Total(st.order, st.waiting) - 1
  {
    KeptIff(st);
    TakeKeeps(st, i);
    TotalTaken(st, i);
    st' := Taken(st, i);
    KeptIff(st');
  }

  lemma GiveStep(st: State, i: nat) returns (st': State)
    requires Kept(st) && st.held.Some? && i < |st.slots| && st.slots[i].ready && st.slots[i].task.None?
    ensures st' == Given(st, i) && Kept(st')
  {
    KeptIff(st);
    GiveKeeps(st, i);
    st' := Given(st, i);
    KeptIff(st');
  }

  lemma TakeInPlaceStep(st: State) returns (st': State)
    requires Kept(st) && st.held == None && st.order != []
    ensures WaitingOf(st.waiting, st.order[0]) != [] && st' == TakenInPlace(st) && Kept(st')
    ensures Total(st'.order, st'.waiting) < Total(st.order, st.waiting)
  {
    KeptIff(st);
    TakeInPlaceKeeps(st);
    TotalTakenInPlace(st);
    st' := TakenInPlace(st);
    KeptIff(st');
  }

  lemma TotalTakenInPlace(st: State)
    requires InTurn(st) && st.order != [] && WaitingOf(st.waiting, st.order[0]) != []
    ensures var st' := TakenInPlace(st); Total(st'.order, st'.waiting) == Total(st.order, st.waiting) - 1
  {
    var g := st.order[0];
    var st' := TakenInPlace(st);
    TurnsWithout(st.order, 0);
    assert Without(st.order, 0) == st.order[1..];
    TotalElsewhere(st.order[1..], st.waiting, g, st'.waiting[g]);
  }

  // ---------------------------------------------------------------------
  // Whose turn it is
  // ---------------------------------------------------------------------

  method FewestRunning(order: seq<Group>, running: map<Group, nat>) returns (best: int)
    requires order != []
    ensures Fewest(order, running, best)
  {
    best := 0;
    var i := 1;
    while i < |order|
      invariant 1 <= i <= |order| && 0 <= best < i
      invariant forall k :: 0 <= k < i ==> RunningOf(running, order[best]) <= RunningOf(running, order[k])
      invariant forall k :: 0 <= k < best ==> RunningOf(running, order[best]) < RunningOf(running, order[k])
    {
      if RunningOf(running, order[i]) < RunningOf(running, order[best]) { best := i; }
      i := i + 1;
    }
  }

  // ---------------------------------------------------------------------
  // The pool
  // ---------------------------------------------------------------------

  class ExpansionPool {
    const size: nat
    var slots: seq<Slot>
    var groups: seq<Group>
    var waiting: map<Group, seq<Task>>
    var running: map<Group, nat>
    var settled: map<nat, Outcome>
    var nextId: nat
    var nextSlot: nat
    var closed: bool
    var hanging: seq<Hang>
    /** Whether the next workers to be started can be; each can once these run out. */
    var starts: seq<bool>
    /** Where every task ever submitted is; the fields above are what of it the pool keeps. */
    ghost var st: State
    ghost var submitted: map<nat, Task>
    /** The turns taken so far. */
    ghost var log: Record

    ghost predicate Synced()
      reads this
    {
      st == State(slots, groups, waiting, running, settled, nextId, nextSlot, st.held, st.place, submitted)
    }

    /** Within a step of the pool. */
    ghost predicate Open()
      reads this
    {
      !closed && Kept(st) && Synced() && |slots| <= size && size >= 1 && WellRemembered(hanging)
    }

    /** Every task ever submitted is settled, and nothing is left to run. */
    ghost predicate Over()
      reads this
    {
      slots == [] && groups == [] && (forall id :: 1 <= id < nextId <==> id in settled)
    }

    /** No worker that could run a task waits beside one that is queued. */
    ghost predicate Served()
      reads this
    {
      groups != [] ==> slots != [] && forall i :: 0 <= i < |slots| && slots[i].ready ==> slots[i].task.Some?
    }

    /** The turns recorded end at the turn order there is. */
    ghost predicate Recorded()
      reads this`log, this`groups
    {
      OrderOf(log) == groups
    }

    /** No worker is left, and the next cannot be started. */
    ghost predicate CannotStart()
      reads this`slots, this`starts
    {
      slots == [] && StartFails(starts)
    }

    /** Between events. */
    ghost predicate Valid()
      reads this
    {
      Recorded() && if closed then Over() else Open() && st.held == None && Served()
    }

    constructor (size: nat)
      ensures Valid() && !closed && nextId == 1 && submitted == map[] && this.size == if size < 1 then 1 else size
    {
      this.size := if size < 1 then 1 else size;
      slots, groups, waiting, running, settled := [], [], map[], map[], map[];
      nextId, nextSlot, closed, hanging, starts := 1, 0, false, [], [];
      st, submitted := State([], [], map[], map[], map[], 1, 0, None, map[], map[]), map[];
      log := NoTurns;
    }

    /** `knownHanging`: forgets an entry past its hour. */
    method KnownHanging(key: string, now: int) returns (known: bool)
      requires WellRemembered(hanging)
      modifies this`hanging
      ensures known <==> Remembered(old(hanging), key, now)
      ensures WellRemembered(hanging) && (known ==> hanging == old(hanging))
      ensures SameMemory(old(hanging), hanging, now)
    {
      var i := IndexOf(hanging, key);
      if i == |hanging| { return false; }
      if now - hanging[i].at > HANGING_REMEMBERED_MS {
        ghost var before := hanging;
        hanging := Without(hanging, i);
        Forgetting(before, i, now);
        return false;
      }
      known := true;
    }

    /** `rememberHanging`: the object is remembered anew, the oldest forgotten for it once the cap is reached. */
    method RememberHanging(key: string, now: int)
      requires WellRemembered(hanging)
      modifies this`hanging
      ensures hanging == Remembering(old(hanging), key, now)
      ensures WellRemembered(hanging) && Remembered(hanging, key, now)
    {
      RememberingKeeps(hanging, key, now);
      var i := IndexOf(hanging, key);
      if i < |hanging| { hanging := Without(hanging, i); }
      if |hanging| >= HANGING_REMEMBERED_MAX { hanging := hanging[1..]; }
      hanging := hanging + [Hang(key, now)];
    }

    /** The task in hand is answered: it has not been before. */
    method Settle(t: Task, o: Outcome)
      requires Open() && st.held == Some(t)
      modifies this`settled, this`st
      ensures Open() && st.held == None && t.id !in old(settled) && settled == old(settled)[t.id := o]
    {
      KeptIff(st);
      FinishKeeps(st, o);
      KeptIff(Finished(st, o));
      st := Finished(st, o);
      settled := settled[t.id := o];
    }

    /** The first task of the group at `best` in turn, off its queue. */
    method Shift(best: nat) returns (t: Task)
      requires Open() && st.held == None && best < |groups|
      modifies this`groups, this`waiting, this`st
      ensures WaitingOf(old(waiting), old(groups[best])) != [] && st == Taken(old(st), best) && st.held == Some(t)
      ensures Open() && Total(groups, waiting) == Total(old(groups), old(waiting)) - 1
    {
      ghost var after := TakeStep(st, best);
      t := ShiftFrom(best);
      st := after;
    }

    method ShiftFrom(best: nat) returns (t: Task)
      requires best < |groups| && WaitingOf(waiting, groups[best]) != []
      modifies this`groups, this`waiting
      ensures var queue := WaitingOf(old(waiting), old(groups)[best]);
              && t == queue[0] && waiting == old(waiting)[old(groups)[best] := queue[1..]]
              && groups == Without(old(groups), best) + (if queue[1..] == [] then [] else [old(groups)[best]])
    {
      var g := groups[best];
      var queue := WaitingOf(waiting, g);
      t := queue[0];
      groups := Without(groups, best);
      waiting := waiting[g := queue[1..]];
      groups := groups + if queue[1..] == [] then [] else [g];
    }

    /** The first task of the group whose turn it is. */
    method NextInTurn() returns (t: Task, ghost best: nat)
      requires Open() && st.held == None && groups != []
      modifies this`groups, this`waiting, this`st
      ensures Fewest(old(groups), running, best) && WaitingOf(old(st).waiting, old(st).order[best]) != []
      ensures st == Taken(old(st), best) && t.group == old(groups)[best]
      ensures Step(Turns(old(groups), running), Serve(best, t.group), Turns(groups, running))
      ensures Open() && st.held == Some(t) && Total(groups, waiting) < Total(old(groups), old(waiting))
    {
      var place := FewestRunning(groups, running);
      best := place;
      KeptIff(st);
      QueuedWithItsGroup(st, best);
      PoolTakesTurns(st, best);
      t := Shift(place);
    }

    method NextRecorded() returns (t: Task)
      requires Open() && st.held == None && groups != [] && Recorded()
      modifies this`groups, this`waiting, this`st, this`log
      ensures Open() && st.held == Some(t) && Total(groups, waiting) < Total(old(groups), old(waiting))
      ensures Recorded() && ServesLast(log, running) && log.earlier == old(log) && log.turn.group == t.group
    {
      ghost var best;
      t, best := NextInTurn();
      LogTurn(old(groups), Serve(best, t.group));
    }

    /** A turn taken, `before` being the order before it. */
    ghost method LogTurn(before: seq<Group>, turn: Turn)
      requires OrderOf(log) == before && Step(Turns(before, running), turn, Turns(groups, running))
      modifies this`log
      ensures log == After(old(log), running, turn, groups) && Recorded() && Extends(old(log), log)
    {
      log := After(log, running, turn, groups);
    }

    /** A task whose object timed out meanwhile is refused with that. */
    method RefuseIfHanging(t: Task, now: int) returns (known: bool)
      requires Open() && st.held == Some(t)
      modifies this`settled, this`hanging, this`st
      ensures Open() && st.held == (if known then None else Some(t))
      ensures (known <==> Remembered(old(hanging), t.key, now))
      ensures SameMemory(old(hanging), hanging, now)
      ensures SettledSince(old(settled), settled, {TimedOut})
      ensures TimedOutAsRemembered(old(settled), settled, submitted, hanging, now)
    {
      InHandAsSubmitted(st, t);
      known := KnownHanging(t.key, now);
      if known { Settle(t, TimedOut); }
    }

    /** One turn of `take`: the task whose turn it is, or none where it was refused. */
    method TakeTurn(now: int) returns (next: Option<Task>)
      requires Open() && st.held == None && groups != [] && Recorded()
      modifies this`groups, this`waiting, this`settled, this`hanging, this`st, this`log
      ensures Open() && st.held == next && Total(groups, waiting) < Total(old(groups), old(waiting))
      ensures next.Some? ==> !Remembered(hanging, next.value.key, now)
      ensures SameMemory(old(hanging), hanging, now) && SettledSince(old(settled), settled, {TimedOut})
      ensures TimedOutAsRemembered(old(settled), settled, submitted, hanging, now)
      ensures Recorded() && ServesLast(log, running) && log.earlier == old(log)
      ensures next.Some? ==> log.turn.group == next.value.group
    {
      var t;
      t := NextRecorded();
      var known := RefuseIfHanging(t, now);
      next := if known then None else Some(t);
    }

    /**
     * `take`: the next task to run, from the group whose turn it is, never one
     * whose object is remembered as hanging; those passed for it are.
     */
    method Take(now: int) returns (next: Option<Task>)
      requires Open() && st.held == None && Recorded()
      modifies this`groups, this`waiting, this`settled, this`hanging, this`st, this`log
      ensures Open() && st.held == next
      ensures next == None ==> groups == [] && Total(groups, waiting) <= Total(old(groups), old(waiting))
      ensures next.Some? ==>
                !Remembered(hanging, next.value.key, now) && Total(groups, waiting) < Total(old(groups), old(waiting))
      ensures SameMemory(old(hanging), hanging, now) && SettledSince(old(settled), settled, {TimedOut})
      ensures TimedOutAsRemembered(old(settled), settled, submitted, hanging, now)
      ensures Recorded() && Extends(old(log), log)
      ensures next.Some? ==> ServesLast(log, running) && log.turn.group == next.value.group
      ensures OnlyServes(old(log), if next.Some? then log.earlier else log, running)
    {
      next := None;
      while next == None && groups != []
        invariant Open() && st.held == next && Total(groups, waiting) <= Total(old(groups), old(waiting))
        invariant next.Some? ==> !Remembered(hanging, next.value.key, now)
        invariant next.Some? ==> Total(groups, waiting) < Total(old(groups), old(waiting))
        invariant SameMemory(old(hanging), hanging, now) && SettledSince(old(settled), settled, {TimedOut})
        invariant TimedOutAsRemembered(old(settled), settled, submitted, hanging, now)
        invariant Recorded() && (next.Some? ==> ServesLast(log, running) && log.turn.group == next.value.group)
        invariant OnlyServes(old(log), if next.Some? then log.earlier else log, running)
        decreases Total(groups, waiting)
      {
        next := TakeTurn(now);
      }
      ServesExtend(old(log), log, running);
    }

    /** The queue failed: every task waiting is answered with `o`. */
    method FailQueue(o: Outcome)
      requires Open() && st.held == None && Recorded()
      modifies this`groups, this`waiting, this`settled, this`st, this`log
      ensures Open() && st.held == None && groups == [] && SettledSince(old(settled), settled, {o})
      ensures Recorded() && Extends(old(log), log)
    {
      EmptyQueue(o);
      LogTurn(old(groups), Fail);
    }

    method EmptyQueue(o: Outcome)
      requires Open() && st.held == None
      modifies this`groups, this`waiting, this`settled, this`st
      ensures Open() && st.held == None && groups == [] && SettledSince(old(settled), settled, {o})
    {
      while groups != []
        invariant Open() && st.held == None && SettledSince(old(settled), settled, {o})
        decreases Total(groups, waiting)
      {
        FailFirst(o);
      }
    }

    method FailFirst(o: Outcome)
      requires Open() && st.held == None && groups != []
      modifies this`groups, this`waiting, this`settled, this`st
      ensures Open() && st.held == None && Total(groups, waiting) < Total(old(groups), old(waiting))
      ensures SettledSince(old(settled), settled, {o})
    {
      var t := ShiftInPlace();
      Settle(t, o);
    }

    method ShiftInPlace() returns (t: Task)
      requires Open() && st.held == None && groups != []
      modifies this`groups, this`waiting, this`st
      ensures Open() && st.held == Some(t) && Total(groups, waiting) < Total(old(groups), old(waiting))
    {
      ghost var after := TakeInPlaceStep(st);
      t := ShiftFirst();
      st := after;
    }

    method ShiftFirst() returns (t: Task)
      requires groups != [] && WaitingOf(waiting, groups[0]) != []
      modifies this`groups, this`waiting
      ensures var queue := WaitingOf(old(waiting), old(groups)[0]);
              && t == queue[0] && waiting == old(waiting)[old(groups)[0] := queue[1..]]
              && groups == if queue[1..] == [] then old(groups)[1..] else old(groups)
    {
      var g := groups[0];
      var queue := WaitingOf(waiting, g);
      t := queue[0];
      groups, waiting := if queue[1..] == [] then groups[1..] else groups, waiting[g := queue[1..]];
    }

    /** `dispatch`: the task in hand to an idle worker, its deadline running from now. */
    method Dispatch(i: nat, t: Task)
      requires Open() && st.held == Some(t) && i < |slots| && slots[i].ready && slots[i].task.None?
      modifies this`slots, this`running, this`st
      ensures Open() && st.held == None && slots == old(slots)[i := old(slots)[i].(task := Some(t))]
    {
      ghost var after := GiveStep(st, i);
      slots, running := slots[i := slots[i].(task := Some(t))], running[t.group := RunningOf(running, t.group) + 1];
      st := after;
    }

    /** `release`: a worker's task off it, in hand. */
    method Release(i: nat) returns (t: Option<Task>)
      requires Open() && st.held == None && i < |slots|
      modifies this`slots, this`running, this`st
      ensures Open() && st.held == t == old(slots)[i].task && slots == old(slots)[i := old(slots)[i].(task := None)]
    {
      t := slots[i].task;
      if t.None? { return; }
      KeptIff(st);
      ReleaseKeeps(st, i);
      KeptIff(Released(st, i));
      slots := slots[i := slots[i].(task := None)];
      running := running[t.value.group := RunningOf(running, t.value.group) - 1];
      st := Released(st, i);
    }

    /** `remove`. */
    method Remove(i: nat)
      requires Open() && i < |slots| && slots[i].task.None?
      modifies this`slots, this`st
      ensures Open() && st.held == old(st.held) && slots == Without(old(slots), i)
    {
      KeptIff(st);
      RemoveKeeps(st, i);
      KeptIff(Removed(st, i));
      st := Removed(st, i);
      slots := Without(slots, i);
    }

    method NextStart() returns (ok: bool)
      modifies this`starts
      ensures ok <==> !StartFails(old(starts))
    {
      ok := starts == [] || starts[0];
      if starts != [] { starts := starts[1..]; }
    }

    /** `spawn`: false where no worker could be started; with none at all the queue fails with the reason. */
    method Spawn() returns (ok: bool)
      requires Open() && st.held == None && |slots| < size && Recorded()
      modifies this`slots, this`nextSlot, this`starts, this`groups, this`waiting, this`settled, this`st, this`log
      ensures Open() && st.held == None
      ensures ok <==> !StartFails(old(starts))
      ensures ok ==> slots == old(slots) + [Slot(old(nextSlot), false, None)]
      ensures ok ==> groups == old(groups) && settled == old(settled)
      ensures SettledSince(old(settled), settled, if old(CannotStart()) then {Rejected} else {})
      ensures !ok ==> slots == old(slots) && (if slots == [] then groups == [] else groups == old(groups))
      ensures old(BusyOrStarting()) ==> BusyOrStarting()
      ensures Recorded() && Extends(old(log), log) && (ok ==> log == old(log))
    {
      ok := NextStart();
      if !ok {
        if slots == [] { FailQueue(Rejected); }
        return;
      }
      AddSlot();
    }

    method AddSlot()
      requires Open() && st.held == None && |slots| < size
      modifies this`slots, this`nextSlot, this`st
      ensures Open() && st.held == None && slots == old(slots) + [Slot(old(nextSlot), false, None)]
      ensures old(BusyOrStarting()) ==> BusyOrStarting()
    {
      KeptIff(st);
      StartKeeps(st);
      KeptIff(Started(st));
      st := Started(st);
      slots := slots + [Slot(nextSlot, false, None)];
      nextSlot := nextSlot + 1;
    }

    method Idle() returns (i: nat)
      ensures i <= |slots|
      ensures i < |slots| ==> slots[i].ready && slots[i].task.None?
      ensures i == |slots| ==> forall k :: 0 <= k < |slots| && slots[k].ready ==> slots[k].task.Some?
    {
      i := 0;
      while i < |slots| && !(slots[i].ready && slots[i].task.None?)
        invariant i <= |slots|
        invariant forall k :: 0 <= k < i && slots[k].ready ==> slots[k].task.Some?
      {
        i := i + 1;
      }
    }

    /** The first half of `pump`: queued tasks to idle workers, for as long as there are both. */
    method Fill(now: int)
      requires Open() && st.held == None && Recorded()
      modifies this`slots, this`groups, this`waiting, this`running, this`settled, this`hanging, this`st, this`log
      ensures Open() && st.held == None && |slots| == |old(slots)| && SlotsKept(old(slots), slots)
      ensures (groups != [] ==> BusyOrStarting())
      ensures SettledSince(old(settled), settled, {TimedOut}) && SameMemory(old(hanging), hanging, now)
      ensures TimedOutAsRemembered(old(settled), settled, submitted, hanging, now)
      ensures slots == [] ==> groups == old(groups)
      ensures Recorded() && Extends(old(log), log)
    {
      var i := Idle();
      while i < |slots|
        invariant Open() && st.held == None && |slots| == |old(slots)| && SlotsKept(old(slots), slots)
        invariant SettledSince(old(settled), settled, {TimedOut}) && SameMemory(old(hanging), hanging, now)
        invariant TimedOutAsRemembered(old(settled), settled, submitted, hanging, now)
        invariant Recorded() && Extends(old(log), log)
        invariant 0 <= i <= |slots| && (slots == [] ==> groups == old(groups))
        invariant i < |slots| ==> slots[i].ready && slots[i].task.None?
        invariant i == |slots| ==> BusyOrStarting()
        decreases Total(groups, waiting), |slots| - i
      {
        ghost var (before, were) := (log, slots);
        var more := FillOne(i, now);
        SlotGiven(were, i, slots[i].task);
        ExtendsOn(old(log), before, log);
        if !more { return; }
        i := Idle();
      }
    }

    /** The next task to the idle worker at `i`; false where there is none. */
    method FillOne(i: nat, now: int) returns (more: bool)
      requires Open() && st.held == None && i < |slots| && slots[i].ready && slots[i].task.None? && Recorded()
      modifies this`slots, this`groups, this`waiting, this`running, this`settled, this`hanging, this`st, this`log
      ensures Open() && st.held == None
      ensures !more ==> slots == old(slots)
      ensures more ==> |slots| == |old(slots)| && slots == old(slots)[i := old(slots)[i].(task := slots[i].task)]
      ensures if more then Total(groups, waiting) < Total(old(groups), old(waiting)) else groups == []
      ensures SettledSince(old(settled), settled, {TimedOut}) && SameMemory(old(hanging), hanging, now)
      ensures TimedOutAsRemembered(old(settled), settled, submitted, hanging, now)
      ensures Recorded() && Extends(old(log), log)
    {
      var next := Take(now);
      more := next.Some?;
      if more { Dispatch(i, next.value); }
    }

    /** No ready worker is idle. */
    ghost predicate BusyOrStarting()
      reads this`slots
    {
      forall k :: 0 <= k < |slots| && slots[k].ready ==> slots[k].task.Some?
    }

    method Starting() returns (n: nat)
      ensures n <= |slots| && (slots == [] ==> n == 0)
    {
      n := 0;
      var i := 0;
      while i < |slots|
        invariant 0 <= i <= |slots| && n <= i
      {
        if !slots[i].ready { n := n + 1; }
        i := i + 1;
      }
    }

    method CountWaiting() returns (n: nat)
      ensures n == Total(groups, waiting)
    {
      n := 0;
      var i := 0;
      while i < |groups|
        invariant 0 <= i <= |groups| && n + Total(groups[i..], waiting) == Total(groups, waiting)
      {
        n := n + |WaitingOf(waiting, groups[i])|;
        i := i + 1;
      }
    }

    /** `pump`. Nothing is rejected by it unless the first worker cannot be started. */
    method Pump(now: int)
      requires Open() && st.held == None && Recorded()
      modifies this`slots, this`groups, this`waiting, this`running, this`settled, this`hanging, this`st, this`log
      modifies this`nextSlot, this`starts
      ensures Valid() && !closed
      ensures SettledSince(old(settled), settled, if old(CannotStart() && groups != []) then {TimedOut, Rejected}
                           else {TimedOut})
      ensures TimedOutAsRemembered(old(settled), settled, submitted, hanging, now)
      ensures SameMemory(old(hanging), hanging, now) && SlotsKept(old(slots), slots) && Extends(old(log), log)
    {
      Fill(now);
      ghost var (filled, so) := (log, settled);
      ghost var fails := CannotStart() && groups != [];
      StartWorkers();
      ExtendsOn(old(log), filled, log);
      SettledByPump(old(settled), so, settled, fails, submitted, hanging, now);
    }

    /** The second half: workers started, as many as the queue needs and the pool may have. */
    method StartWorkers()
      requires Open() && st.held == None && (groups != [] ==> BusyOrStarting()) && Recorded()
      modifies this`slots, this`nextSlot, this`starts, this`groups, this`waiting, this`settled, this`st, this`log
      ensures Valid() && !closed && SlotsKept(old(slots), slots) && Extends(old(log), log)
      ensures SettledSince(old(settled), settled, if old(CannotStart() && groups != []) then {Rejected} else {})
    {
      if groups != [] { QueuedWithItsGroup(st, 0); }
      var n := Starting();
      var left := CountWaiting();
      while n < left && |slots| < size
        invariant Open() && st.held == None && (groups != [] ==> BusyOrStarting())
        invariant groups != [] && slots == [] ==> n < left
        invariant SlotsKept(old(slots), slots) && log == old(log) && Recorded()
        invariant settled == old(settled) && groups == old(groups) && left == Total(groups, waiting)
        invariant slots == [] ==> old(slots) == [] && starts == old(starts)
        decreases size - |slots|
      {
        var ok := StartAnother();
        if !ok { return; }
        n := n + 1;
        left := CountWaiting();
      }
    }

    /** One more worker; where it cannot be started no more are tried. */
    method StartAnother() returns (ok: bool)
      requires Open() && st.held == None && groups != [] && BusyOrStarting() && |slots| < size && Recorded()
      modifies this`slots, this`nextSlot, this`starts, this`groups, this`waiting, this`settled, this`st, this`log
      ensures ok ==> Open() && st.held == None && BusyOrStarting() && Recorded()
      ensures ok ==> settled == old(settled) && groups == old(groups) && log == old(log) && slots != []
      ensures SlotsKept(old(slots), slots) && (ok ==> |slots| == |old(slots)| + 1)
      ensures !ok ==> Valid() && !closed && Extends(old(log), log)
      ensures !ok ==> SettledSince(old(settled), settled, if old(CannotStart()) then {Rejected} else {})
    {
      ok := Spawn();
    }

    // -------------------------------------------------------------------
    // Events
    // -------------------------------------------------------------------

    /** `submit`: the task's number, or why it is refused at once. */
    method Submit(g: Group, key: string, now: int) returns (refused: Option<Outcome>)
      requires Valid()
      modifies this
      ensures Valid() && closed == old(closed)
      ensures refused == if old(closed) then Some(PoolClosed) else if Remembered(old(hanging), key, now)
                then Some(TimedOut) else None
      ensures nextId == if refused.Some? then old(nextId) else old(nextId) + 1
      ensures submitted == if refused.Some? then old(submitted)
                else old(submitted)[old(nextId) := Task(old(nextId), key, g)]
      ensures refused.Some? ==> settled == old(settled)
      ensures SettledSince(old(settled), settled, if old(CannotStart()) then {TimedOut, Rejected} else {TimedOut})
      ensures TimedOutAsRemembered(old(settled), settled, submitted, hanging, now)
      ensures SameMemory(old(hanging), hanging, now) && Extends(old(log), log)
    {
      if closed { return Some(PoolClosed); }
      var known := KnownHanging(key, now);
      if known { return Some(TimedOut); }
      Accept(g, key, now);
      refused := None;
    }

    /** The task queued, and the queue taken on. */
    method Accept(g: Group, key: string, now: int)
      requires Open() && st.held == None && Recorded()
      modifies this
      ensures Valid() && !closed && nextId == old(nextId) + 1
      ensures submitted == old(submitted)[old(nextId) := Task(old(nextId), key, g)]
      ensures SettledSince(old(settled), settled, if old(CannotStart()) then {TimedOut, Rejected} else {TimedOut})
      ensures TimedOutAsRemembered(old(settled), settled, submitted, hanging, now)
      ensures SameMemory(old(hanging), hanging, now) && Extends(old(log), log)
    {
      Enqueue(g, key);
      ghost var arrived := log;
      Pump(now);
      ExtendsOn(old(log), arrived, log);
    }

    method Enqueue(g: Group, key: string)
      requires Open() && st.held == None && Recorded()
      modifies this`groups, this`waiting, this`nextId, this`st, this`submitted, this`log
      ensures Open() && st.held == None && st == Enqueued(old(st), key, g)
      ensures log == After(old(log), running, Arrive(Arriving(old(st), g)), groups) && Recorded()
    {
      PoolArrivals(st, key, g);
      EnqueueTask(g, key);
      LogTurn(old(groups), Arrive(Arriving(old(st), g)));
    }

    method EnqueueTask(g: Group, key: string)
      requires Open() && st.held == None
      modifies this`groups, this`waiting, this`nextId, this`st, this`submitted
      ensures Open() && st.held == None && st == Enqueued(old(st), key, g)
    {
      ghost var t := Task(nextId, key, g);
      KeptIff(st);
      EnqueueKeeps(st, key, g);
      KeptIff(Enqueued(st, key, g));
      Push(g, key);
      st, submitted := Enqueued(st, key, g), submitted[t.id := t];
    }

    method Push(g: Group, key: string)
      modifies this`groups, this`waiting, this`nextId
      ensures nextId == old(nextId) + 1
      ensures groups == if WaitingOf(old(waiting), g) == [] then old(groups) + [g] else old(groups)
      ensures waiting == old(waiting)[g := WaitingOf(old(waiting), g) + [Task(old(nextId), key, g)]]
    {
      var t := Task(nextId, key, g);
      nextId := nextId + 1;
      if WaitingOf(waiting, g) == [] { groups := groups + [g]; }
      waiting := waiting[g := WaitingOf(waiting, g) + [t]];
    }

    /** Where a worker is among the slots, or their number. */
    method SlotOf(id: nat) returns (i: nat)
      ensures i <= |slots| && (i < |slots| ==> slots[i].id == id)
      ensures i == |slots| ==> forall k :: 0 <= k < |slots| ==> slots[k].id != id
      ensures TaskOf(slots, id) == if i < |slots| then slots[i].task else None
    {
      i := 0;
      while i < |slots| && slots[i].id != id
        invariant i <= |slots|
        invariant forall k :: 0 <= k < i ==> slots[k].id != id
        invariant TaskOf(slots, id) == TaskOf(slots[i..], id)
      {
        i := i + 1;
      }
    }

    /** A worker has loaded. One already out of the pool changes nothing by it but the pumping. */
    method OnReady(id: nat, now: int)
      requires Valid()
      modifies this
      ensures Valid() && closed == old(closed) && nextId == old(nextId) && submitted == old(submitted)
      ensures SettledSince(old(settled), settled, {TimedOut})
      ensures TimedOutAsRemembered(old(settled), settled, submitted, hanging, now)
      ensures SameMemory(old(hanging), hanging, now) && Extends(old(log), log)
      ensures old(HasSlot(id)) && !closed ==> IsReady(id)
    {
      if closed { return; }
      var i := SlotOf(id);
      if i < |slots| { MakeReady(i); }
      Pump(now);
      if i < |old(slots)| { assert slots[i] in slots && slots[i].id == id && slots[i].ready; }
    }

    method MakeReady(i: nat)
      requires Open() && st.held == None && i < |slots|
      modifies this`slots, this`st
      ensures Open() && st.held == None
      ensures slots == old(slots)[i := old(slots)[i].(ready := true)]
    {
      KeptIff(st);
      ReadyKeeps(st, i);
      KeptIff(MadeReady(st, i));
      st := MadeReady(st, i);
      slots := slots[i := slots[i].(ready := true)];
    }

    /** A worker has answered: only an answer to the task it has now is one. */
    method OnAnswer(id: nat, task: nat, failed: bool, now: int)
      requires Valid()
      modifies this
      ensures Valid() && closed == old(closed) && nextId == old(nextId) && submitted == old(submitted)
      ensures old(HasTask(id, task)) ==> task in settled && settled[task] == if failed then Rejected else Resolved
      ensures !old(HasTask(id, task)) ==> settled == old(settled)
      ensures SettledSince(if old(HasTask(id, task)) then old(settled)[task := if failed then Rejected else Resolved]
                           else old(settled),
                           settled, {TimedOut})
      ensures TimedOutAsRemembered(old(settled), settled, submitted, hanging, now)
      ensures SameMemory(old(hanging), hanging, now) && Extends(old(log), log)
    {
      var i := SlotOf(id);
      if i == |slots| || slots[i].task.None? || slots[i].task.value.id != task { return; }
      Answer(i, if failed then Rejected else Resolved, now);
    }

    method Answer(i: nat, o: Outcome, now: int)
      requires Valid() && !closed && i < |slots| && slots[i].task.Some? && o != TimedOut
      modifies this
      ensures Valid() && !closed && nextId == old(nextId) && submitted == old(submitted)
      ensures SettledSince(old(settled)[old(slots)[i].task.value.id := o], settled, {TimedOut})
      ensures TimedOutAsRemembered(old(settled), settled, submitted, hanging, now)
      ensures SameMemory(old(hanging), hanging, now) && Extends(old(log), log)
    {
      ghost var task := slots[i].task.value.id;
      FinishSlot(i, o);
      ghost var answered := settled;
      Pump(now);
      TimedOutSince(old(settled), answered, settled, submitted, hanging, now);
    }

    method FinishSlot(i: nat, o: Outcome)
      requires Open() && st.held == None && i < |slots| && slots[i].task.Some?
      modifies this`slots, this`running, this`settled, this`st
      ensures Open() && st.held == None && slots == old(slots)[i := old(slots)[i].(task := None)]
      ensures settled == old(settled)[old(slots)[i].task.value.id := o] && old(slots)[i].task.value.id !in old(settled)
      ensures SettledSince(old(settled), settled, {o})
    {
      var t := Release(i);
      Settle(t.value, o);
    }

    ghost predicate HasTask(id: nat, task: nat)
      reads this`slots
    {
      var running := TaskOf(slots, id);
      running.Some? && running.value.id == task
    }

    /** A worker's deadline: the worker goes, its task has timed out, and its object is remembered. */
    method OnDeadline(id: nat, now: int)
      requires Valid()
      modifies this
      ensures Valid() && closed == old(closed) && nextId == old(nextId) && submitted == old(submitted)
      ensures var task := TaskOf(old(slots), id);
              && SettledSince(With(old(settled), task, TimedOut), settled, if old(LastCannotStart(id))
                              then {TimedOut, Rejected} else {TimedOut})
              && SameMemory(if task.Some? then Remembering(old(hanging), task.value.key, now)
                            else old(hanging), hanging, now)
      ensures TimedOutAsRemembered(old(settled), settled, submitted, hanging, now)
      ensures Extends(old(log), log)
      ensures forall slot :: slot in old(slots) && slot.id == id && slot.task.Some? ==>
                slot.task.value.id in settled && settled[slot.task.value.id] == TimedOut
                  && Remembered(hanging, slot.task.value.key, now)
    {
      var i := SlotOf(id);
      if !closed { TaskOfSlot(st, id); }
      if i == |slots| || slots[i].task.None? { return; }
      LastSlot(slots, i, id);
      Expire(i, now);
    }

    method Expire(i: nat, now: int)
      requires Valid() && !closed && i < |slots| && slots[i].task.Some?
      modifies this
      ensures Valid() && !closed && nextId == old(nextId) && submitted == old(submitted)
      ensures var task := old(slots)[i].task.value;
              && SettledSince(old(settled)[task.id := TimedOut], settled,
                              if Without(old(slots), i) == [] && StartFails(old(starts)) then {TimedOut, Rejected}
                                else {TimedOut})
              && SameMemory(Remembering(old(hanging), task.key, now), hanging, now)
                && Remembered(hanging, task.key, now)
      ensures TimedOutAsRemembered(old(settled), settled, submitted, hanging, now)
      ensures Extends(old(log), log)
    {
      TimeOut(i, now);
      ghost var (timedOut, remembered) := (settled, hanging);
      Pump(now);
      RememberedStill(old(settled), timedOut, submitted, remembered, hanging, now);
      TimedOutSince(old(settled), timedOut, settled, submitted, hanging, now);
    }

    /** The worker at `i` out of the pool, its task timed out and its object remembered. */
    method TimeOut(i: nat, now: int)
      requires Open() && st.held == None && i < |slots| && slots[i].task.Some?
      modifies this`slots, this`running, this`settled, this`hanging, this`st
      ensures Open() && st.held == None && slots == Without(old(slots), i)
      ensures hanging == Remembering(old(hanging), old(slots)[i].task.value.key, now)
      ensures Remembered(hanging, old(slots)[i].task.value.key, now)
      ensures settled == old(settled)[old(slots)[i].task.value.id := TimedOut]
      ensures old(slots)[i].task.value.id !in old(settled)
      ensures TimedOutAsRemembered(old(settled), settled, submitted, hanging, now)
    {
      AtWorkAsSubmitted(st, i);
      var key := slots[i].task.value.key;
      FinishSlot(i, TimedOut);
      Remember(key, now);
      Remove(i);
    }

    method Remember(key: string, now: int)
      requires Open() && st.held == None
      modifies this`hanging
      ensures Open() && st.held == None && Remembered(hanging, key, now)
      ensures hanging == Remembering(old(hanging), key, now)
    {
      RememberHanging(key, now);
    }

    /** `lose`: a worker gone; one that never loaded fails the whole queue, and the next request tries a fresh one. */
    method OnLost(id: nat, now: int)
      requires Valid()
      modifies this
      ensures Valid() && closed == old(closed) && nextId == old(nextId) && submitted == old(submitted)
      ensures !old(HasSlot(id)) ==> settled == old(settled) && groups == old(groups)
      ensures old(HasSlot(id)) && !old(IsReady(id)) ==> groups == []
      ensures SettledSince(With(old(settled), TaskOf(old(slots), id), Rejected), settled,
                           if old(HasSlot(id) && !IsReady(id)) then {Rejected}
                           else if old(LastCannotStart(id)) then {TimedOut, Rejected} else {TimedOut})
      ensures TimedOutAsRemembered(old(settled), settled, submitted, hanging, now)
      ensures SameMemory(old(hanging), hanging, now) && Extends(old(log), log)
      ensures forall slot :: slot in old(slots) && slot.id == id && slot.task.Some? ==>
                slot.task.value.id in settled && settled[slot.task.value.id] == Rejected
    {
      var i := SlotOf(id);
      if i == |slots| { return; }
      OneSlotEach(st, i);
      LastSlot(slots, i, id);
      assert slots[i] in slots;
      var ready := slots[i].ready;
      DropSlot(i);
      Recover(ready, now);
    }

    /** What follows the loss of a worker: the queue failed where it had never loaded, and otherwise taken on. */
    method Recover(ready: bool, now: int)
      requires Open() && st.held == None && Recorded()
      modifies this
      ensures Valid() && closed == old(closed) && nextId == old(nextId) && submitted == old(submitted)
      ensures !ready ==> groups == []
      ensures SettledSince(old(settled), settled,
                           if !ready then {Rejected} else if old(CannotStart()) then {TimedOut, Rejected}
                             else {TimedOut})
      ensures TimedOutAsRemembered(old(settled), settled, submitted, hanging, now)
      ensures SameMemory(old(hanging), hanging, now) && Extends(old(log), log)
    {
      if ready { Pump(now); } else { FailQueue(Rejected); }
    }

    /** That worker is the last, and no other can be started. */
    ghost predicate LastCannotStart(id: nat)
      reads this`slots, this`starts
    {
      (forall slot :: slot in slots ==> slot.id == id) && StartFails(starts)
    }

    ghost predicate HasSlot(id: nat)
      reads this`slots
    {
      exists slot :: slot in slots && slot.id == id
    }

    ghost predicate IsReady(id: nat)
      reads this`slots
    {
      exists slot :: slot in slots && slot.id == id && slot.ready
    }

    /** A worker out of the pool, its task rejected. */
    method DropSlot(i: nat)
      requires Open() && st.held == None && i < |slots|
      modifies this`slots, this`running, this`settled, this`st
      ensures Open() && st.held == None && slots == Without(old(slots), i)
      ensures settled == With(old(settled), old(slots)[i].task, Rejected)
      ensures SettledSince(old(settled), settled, {Rejected})
    {
      var t := Release(i);
      if t.Some? { Settle(t.value, Rejected); }
      Remove(i);
    }

    /** `close`: every task ever submitted is settled, none of them twice. */
    method Close()
      requires Valid()
      modifies this
      ensures Valid() && closed && nextId == old(nextId) && submitted == old(submitted)
      ensures SettledSince(old(settled), settled, {PoolClosed}) && Extends(old(log), log)
    {
      if closed { return; }
      FailQueue(PoolClosed);
      while slots != []
        invariant Open() && st.held == None && groups == [] && nextId == old(nextId) && submitted == old(submitted)
        invariant SettledSince(old(settled), settled, {PoolClosed})
        invariant Recorded() && Extends(old(log), log)
        decreases |slots|
      {
        CloseSlot();
      }
      NothingLeft(st);
      closed := true;
    }

    method CloseSlot()
      requires Open() && st.held == None && slots != [] && groups == []
      modifies this`slots, this`running, this`settled, this`st
      ensures Open() && st.held == None && |slots| == |old(slots)| - 1
      ensures SettledSince(old(settled), settled, {PoolClosed})
    {
      var t := Release(0);
      if t.Some? { Settle(t.value, PoolClosed); }
      Remove(0);
    }
  }

  lemma OneSlotEach(st: State, i: nat)
    requires Kept(st) && i < |st.slots|
    ensures forall slot :: slot in st.slots && slot.id == st.slots[i].id ==> slot == st.slots[i]
  {
    KeptIff(st);
  }

  /** With no queue and no worker everything is settled. */
  lemma NothingLeft(st: State)
    requires Kept(st) && st.held == None && st.order == [] && st.slots == []
    ensures forall id :: 1 <= id < st.nextId <==> id in st.settled
  {
    KeptIff(st);
    forall id ensures 1 <= id < st.nextId <==> id in st.settled {
      if 1 <= id < st.nextId { assert id in st.place; }
    }
  }

  /** The workers there were are there still, each as ready as it was; others may have joined them. */
  ghost predicate SlotsKept(before: seq<Slot>, after: seq<Slot>) {
    |before| <= |after| && forall i :: 0 <= i < |before| ==>
      after[i].id == before[i].id && after[i].ready == before[i].ready
  }

  lemma SlotGiven(slots: seq<Slot>, i: nat, task: Option<Task>)
    requires i < |slots|
    ensures SlotsKept(slots, slots[i := slots[i].(task := task)])
  {
  }

  /** The same objects are remembered at `now`. */
  ghost predicate SameMemory(before: seq<Hang>, after: seq<Hang>, now: int) {
    forall k :: Remembered(after, k, now) <==> Remembered(before, k, now)
  }

  /** What was settled stays so, and what was settled since ended in one of `ways`. */
  ghost predicate SettledSince(before: map<nat, Outcome>, after: map<nat, Outcome>, ways: set<Outcome>) {
    forall id :: (id in before ==> id in after && after[id] == before[id])
      && (id in after && id !in before ==> after[id] in ways)
  }

  /** The next worker cannot be started. */
  predicate StartFails(starts: seq<bool>) {
    starts != [] && !starts[0]
  }

  /** What the worker `id` runs. */
  function TaskOf(slots: seq<Slot>, id: nat): Option<Task> {
    if slots == [] then None else if slots[0].id == id then slots[0].task else TaskOf(slots[1..], id)
  }

  function With(settled: map<nat, Outcome>, task: Option<Task>, o: Outcome): map<nat, Outcome> {
    if task.Some? then settled[task.value.id := o] else settled
  }

  lemma LastSlot(slots: seq<Slot>, i: nat, id: nat)
    requires i < |slots| && slots[i].id == id
    ensures Without(slots, i) == [] ==> forall slot :: slot in slots ==> slot.id == id
  {
  }

  /** The object of the task `id` is remembered as hanging. */
  ghost predicate TimedOutRemembered(submitted: map<nat, Task>, hanging: seq<Hang>, id: nat, now: int) {
    id in submitted && Remembered(hanging, submitted[id].key, now)
  }

  /** Whatever timed out since is a task whose object is remembered as hanging. */
  ghost predicate TimedOutAsRemembered(before: map<nat, Outcome>, after: map<nat, Outcome>, submitted: map<nat, Task>,
                                       hanging: seq<Hang>, now: int) {
    forall id :: id in after && id !in before && after[id] == TimedOut ==>
      TimedOutRemembered(submitted, hanging, id, now)
  }

  /** In two steps, the memory the same over the second. */
  lemma TimedOutSince(a: map<nat, Outcome>, b: map<nat, Outcome>, c: map<nat, Outcome>, submitted: map<nat, Task>,
                      hanging: seq<Hang>, now: int)
    requires TimedOutAsRemembered(a, b, submitted, hanging, now) && TimedOutAsRemembered(b, c, submitted, hanging, now)
    requires forall id :: id in b ==> id in c && c[id] == b[id]
    ensures TimedOutAsRemembered(a, c, submitted, hanging, now)
  {
  }

  lemma RememberedStill(a: map<nat, Outcome>, b: map<nat, Outcome>, submitted: map<nat, Task>, was: seq<Hang>,
                        hanging: seq<Hang>,
                        now: int)
    requires TimedOutAsRemembered(a, b, submitted, was, now) && SameMemory(was, hanging, now)
    ensures TimedOutAsRemembered(a, b, submitted, hanging, now)
  {
  }

  /** What two halves of a pump settle. */
  lemma SettledByPump(a: map<nat, Outcome>, b: map<nat, Outcome>, c: map<nat, Outcome>, fails: bool,
                      submitted: map<nat, Task>,
                      hanging: seq<Hang>, now: int)
    requires SettledSince(a, b, {TimedOut}) && SettledSince(b, c, if fails then {Rejected} else {})
    requires TimedOutAsRemembered(a, b, submitted, hanging, now)
    ensures SettledSince(a, c, if fails then {TimedOut, Rejected} else {TimedOut})
    ensures TimedOutAsRemembered(a, c, submitted, hanging, now)
  {
  }

  lemma {:induction false} TaskOfSlot(st: State, id: nat)
    requires Kept(st)
    ensures forall slot :: slot in st.slots && slot.id == id ==> TaskOf(st.slots, id) == slot.task
  {
    KeptIff(st);
    forall i | 0 <= i < |st.slots| && st.slots[i].id == id ensures TaskOf(st.slots, id) == st.slots[i].task {
      TaskAt(st.slots, i);
    }
  }

  lemma {:induction false} TaskAt(slots: seq<Slot>, i: nat)
    requires i < |slots| && forall k :: 0 <= k < i ==> slots[k].id != slots[i].id
    ensures TaskOf(slots, slots[i].id) == slots[i].task
    decreases i
  {
    if i > 0 { TaskAt(slots[1..], i - 1); }
  }

  lemma InHandAsSubmitted(st: State, t: Task)
    requires Kept(st) && st.held == Some(t)
    ensures t.id in st.submitted && st.submitted[t.id] == t
  {
    KeptIff(st);
    assert Holds(st, t);
  }

  lemma AtWorkAsSubmitted(st: State, i: nat)
    requires Kept(st) && i < |st.slots| && st.slots[i].task.Some?
    ensures var t := st.slots[i].task.value; t.id in st.submitted && st.submitted[t.id] == t
  {
    KeptIff(st);
    assert HasWorker(st.slots, st.slots[i].task.value) && Holds(st, st.slots[i].task.value);
  }

  lemma QueuedWithItsGroup(st: State, i: nat)
    requires Kept(st) && i < |st.order|
    ensures WaitingOf(st.waiting, st.order[i]) != [] && WaitingOf(st.waiting, st.order[i])[0].group == st.order[i]
  {
    KeptIff(st);
    assert st.order[i] in st.order;
    assert WaitingOf(st.waiting, st.order[i])[0] in WaitingOf(st.waiting, st.order[i]);
  }

  // ---------------------------------------------------------------------
  // Turns
  // ---------------------------------------------------------------------

  /** The last turn of `log`, taken while `running` is running, serves a group. */
  ghost predicate ServesLast(log: Log, running: map<Group, nat>) {
    log.After? && log.turn.Serve? && log.running == running
  }

  /** Since `from` groups were served, and nothing else happened to the order. */
  ghost predicate OnlyServes(from: Log, log: Log, running: map<Group, nat>) {
    log == from || (ServesLast(log, running) && OnlyServes(from, log.earlier, running))
  }

  lemma {:induction false} ServesExtend(from: Log, log: Log, running: map<Group, nat>)
    requires OnlyServes(from, log, running)
    ensures Extends(from, log)
  {
    if log != from { ServesExtend(from, log.earlier, running); }
  }

  /**
   * The pool keeps its turns: a request waiting in its order at one time is
   * served within its place, plus one, of turns, whatever arrives meanwhile.
   */
  lemma PoolServesInTurn(pool: ExpansionPool, from: Log, g: Group, i: nat)
    requires pool.Valid() && Extends(from, pool.log) && i < |OrderOf(from)| && OrderOf(from)[i] == g
    requires KeepsWaiting(from, pool.log, g)
    ensures Served(from, pool.log) <= i && i - Served(from, pool.log) < |pool.groups|
    ensures pool.groups[i - Served(from, pool.log)] == g
  {
    ServedInTurn(from, pool.log, g, i);
  }

  // ---------------------------------------------------------------------
  // What is remembered
  // ---------------------------------------------------------------------

  /** The others remembered, in their order. */
  function Others(hanging: seq<Hang>, key: string): seq<Hang> {
    var i := IndexOf(hanging, key);
    if i < |hanging| then Without(hanging, i) else hanging
  }

  /** `key` the newest, and the oldest of the others gone where there was no room. */
  function Remembering(hanging: seq<Hang>, key: string, now: int): seq<Hang> {
    var rest := Others(hanging, key);
    (if |rest| >= HANGING_REMEMBERED_MAX then rest[1..] else rest) + [Hang(key, now)]
  }

  lemma RememberingKeeps(hanging: seq<Hang>, key: string, now: int)
    requires WellRemembered(hanging)
    ensures WellRemembered(Remembering(hanging, key, now)) && Remembered(Remembering(hanging, key, now), key, now)
  {
    OthersAreOthers(hanging, key);
    var (rest, after) := (Others(hanging, key), Remembering(hanging, key, now));
    assert after[|after| - 1] == Hang(key, now);
  }

  lemma OthersAreOthers(hanging: seq<Hang>, key: string)
    requires WellRemembered(hanging)
    ensures WellRemembered(Others(hanging, key))
    ensures forall k :: 0 <= k < |Others(hanging, key)| ==> Others(hanging, key)[k].key != key
  {
  }

  /** Every other object is remembered as it was, but the one longest remembered, where as many are as can be. */
  lemma OnlyTheOldestIsForgotten(hanging: seq<Hang>, key: string, now: int, other: string, at: int)
    requires WellRemembered(hanging) && other != key
    ensures Remembered(Remembering(hanging, key, now), other, at) <==>
            && Remembered(hanging, other, at)
            && !(|Others(hanging, key)| == HANGING_REMEMBERED_MAX && Others(hanging, key)[0].key == other)
  {
    var rest := Others(hanging, key);
    OthersAreKept(hanging, key, other, at);
    if |rest| < HANGING_REMEMBERED_MAX {
      RememberedWithOneMore(rest, key, now, other, at);
    } else {
      RememberedWithOneMore(rest[1..], key, now, other, at);
      RememberedPastFirst(rest, other, at);
    }
  }

  lemma RememberedWithOneMore(rest: seq<Hang>, key: string, now: int, other: string, at: int)
    requires other != key
    ensures Remembered(rest + [Hang(key, now)], other, at) <==> Remembered(rest, other, at)
  {
    var after := rest + [Hang(key, now)];
    if k :| 0 <= k < |rest| && rest[k].key == other && at - rest[k].at <= HANGING_REMEMBERED_MS {
      assert after[k] == rest[k];
    }
  }

  lemma RememberedPastFirst(rest: seq<Hang>, other: string, at: int)
    requires WellRemembered(rest) && rest != []
    ensures Remembered(rest[1..], other, at) <==> Remembered(rest, other, at) && rest[0].key != other
  {
    if k :| 0 <= k < |rest[1..]| && rest[1..][k].key == other && at - rest[1..][k].at <= HANGING_REMEMBERED_MS {
      assert rest[k + 1] == rest[1..][k];
    }
    if k :| 0 < k < |rest| && rest[k].key == other && at - rest[k].at <= HANGING_REMEMBERED_MS {
      assert rest[1..][k - 1] == rest[k];
    }
  }

  lemma OthersAreKept(hanging: seq<Hang>, key: string, other: string, at: int)
    requires WellRemembered(hanging) && other != key
    ensures WellRemembered(Others(hanging, key))
    ensures Remembered(Others(hanging, key), other, at) <==> Remembered(hanging, other, at)
  {
    var (i, rest) := (IndexOf(hanging, key), Others(hanging, key));
    if k :| 0 <= k < |hanging| && hanging[k].key == other && at - hanging[k].at <= HANGING_REMEMBERED_MS {
      assert rest[if k < i then k else k - 1] == hanging[k];
    }
  }

  /** An entry past its hour is no longer remembered either way. */
  lemma Forgetting(hanging: seq<Hang>, i: nat, now: int)
    requires WellRemembered(hanging) && i < |hanging| && now - hanging[i].at > HANGING_REMEMBERED_MS
    ensures WellRemembered(Without(hanging, i))
    ensures SameMemory(hanging, Without(hanging, i), now)
    ensures !Remembered(hanging, hanging[i].key, now)
  {
    var rest := Without(hanging, i);
    forall k ensures Remembered(rest, k, now) <==> Remembered(hanging, k, now) {
      if a :| 0 <= a < |hanging| && hanging[a].key == k && now - hanging[a].at <= HANGING_REMEMBERED_MS {
        assert rest[if a < i then a else a - 1] == hanging[a];
      }
    }
  }
}
