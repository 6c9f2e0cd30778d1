/**
 * Where the work of the expansion pool is (src/ical-worker-pool.ts): queued
 * with its group, with a worker, or settled; and what each step of the pool
 * does to that.
 */
module PoolState {
  import opened Options

  /** A request: its objects take turns with every other request's. */
  type Group = nat

  datatype Task = Task(id: nat, key: string, group: Group)

  datatype Outcome = Resolved | Rejected | TimedOut | PoolClosed

  /** A worker: `ready` once it has loaded, `task` what it runs, with a deadline running while it does. */
  datatype Slot = Slot(id: nat, ready: bool, task: Option<Task>)

  datatype Place = Waiting(group: Group) | Working(slot: nat) | InHand | Settled

  /**
   * `order` is the turn order of the groups with tasks waiting. `place` says
   * of every task ever submitted where it is, and `submitted` what it is;
   * `held` is one taken off a queue or a worker and not yet given on, within
   * one step of the pool.
   */
  datatype State = State(slots: seq<Slot>, order: seq<Group>, waiting: map<Group, seq<Task>>, running: map<Group, nat>,
                         settled: map<nat, Outcome>, nextId: nat, nextSlot: nat, held: Option<Task>,
                         place: map<nat, Place>, submitted: map<nat, Task>)

  function WaitingOf(waiting: map<Group, seq<Task>>, g: Group): seq<Task> {
    if g in waiting then waiting[g] else []
  }

  function RunningOf(running: map<Group, nat>, g: Group): nat {
    if g in running then running[g] else 0
  }

  /** How many workers run a task of `g`. */
  function Busy(slots: seq<Slot>, g: Group): nat {
    if slots == [] then 0
    else Busy(slots[1..], g) + (if slots[0].task.Some? && slots[0].task.value.group == g then 1 else 0)
  }

  // ---------------------------------------------------------------------
  // What every state keeps
  // ---------------------------------------------------------------------

  /** Every task submitted is in one place, and is what the place says it is. */
  ghost predicate Placed(st: State) {
    && (forall id :: id in st.place <==> 1 <= id < st.nextId)
    && (forall id :: id in st.place ==>
          match st.place[id]
          case Waiting(g) => exists t :: t in WaitingOf(st.waiting, g) && t.id == id
          case Working(s) => exists slot ::
            slot in st.slots && slot.id == s && slot.task.Some? && slot.task.value.id == id
          case InHand => st.held.Some? && st.held.value.id == id
          case Settled => id in st.settled)
  }

  ghost predicate Distinct(ts: seq<Task>) {
    forall i, j :: 0 <= i < j < |ts| ==> ts[i].id != ts[j].id
  }

  /** And it is nowhere else. */
  ghost predicate NowhereElse(st: State) {
    && (forall g, t :: t in WaitingOf(st.waiting, g) ==>
        t.group == g && t.id in st.place && st.place[t.id] == Waiting(g))
    && (forall g :: Distinct(WaitingOf(st.waiting, g)))
    && (forall slot :: slot in st.slots && slot.task.Some? ==>
          slot.task.value.id in st.place && st.place[slot.task.value.id] == Working(slot.id))
    && (forall id :: id in st.settled ==> id in st.place && st.place[id] == Settled)
    && (st.held.Some? ==> st.held.value.id in st.place && st.place[st.held.value.id] == InHand)
  }

  /** The turn order holds exactly the groups with tasks waiting, each once. */
  ghost predicate InTurn(st: State) {
    && (forall i, j :: 0 <= i < j < |st.order| ==> st.order[i] != st.order[j])
    && (forall g :: g in st.order <==> WaitingOf(st.waiting, g) != [])
  }

  /** Workers are told apart, only a ready one has a task, and `running` counts them. */
  ghost predicate Counted(st: State) {
    && (forall i, j :: 0 <= i < j < |st.slots| ==> st.slots[i].id != st.slots[j].id)
    && (forall i :: 0 <= i < |st.slots| ==>
        st.slots[i].id < st.nextSlot && (st.slots[i].task.Some? ==> st.slots[i].ready))
    && (forall g {:trigger RunningOf(st.running, g)} :: RunningOf(st.running, g) == Busy(st.slots, g))
  }

  ghost predicate HasWorker(slots: seq<Slot>, t: Task) {
    exists i :: 0 <= i < |slots| && slots[i].task == Some(t)
  }

  /** `t` is queued with its group, with a worker, or in hand. */
  ghost predicate Holds(st: State, t: Task) {
    t in WaitingOf(st.waiting, t.group) || st.held == Some(t) || HasWorker(st.slots, t)
  }

  /** What the pool holds is what was submitted: object and group are nobody else's. */
  ghost predicate Faithful(st: State) {
    && (forall id :: id in st.submitted <==> 1 <= id < st.nextId)
    && (forall t :: Holds(st, t) ==> t.id in st.submitted && st.submitted[t.id] == t)
  }

  ghost predicate Sound(st: State) {
    st.nextId >= 1 && Placed(st) && NowhereElse(st) && InTurn(st) && Counted(st) && Faithful(st)
  }

  /** The same, rule by rule. */
  datatype Rule = EachInItsPlace | NothingTwice | GroupsInTurn | WorkersCounted | AllAsSubmitted

  ghost predicate Keeps(st: State, rule: Rule) {
    match rule
    case EachInItsPlace => st.nextId >= 1 && Placed(st)
    case NothingTwice => NowhereElse(st)
    case GroupsInTurn => InTurn(st)
    case WorkersCounted => Counted(st)
    case AllAsSubmitted => Faithful(st)
  }

  ghost predicate Kept(st: State) {
    forall rule :: Keeps(st, rule)
  }

  lemma KeptIff(st: State)
    ensures Kept(st) <==> Sound(st)
  {
    if Kept(st) {
      assert Keeps(st, EachInItsPlace) && Keeps(st, NothingTwice) && Keeps(st, GroupsInTurn);
      assert Keeps(st, WorkersCounted) && Keeps(st, AllAsSubmitted);
    }
  }

  /** A task not settled is with its own group or a worker, as it was submitted. */
  lemma HeldAsSubmitted(st: State, id: nat)
    requires Sound(st) && st.held == None && 1 <= id < st.nextId && id !in st.settled
    ensures id in st.submitted && Holds(st, st.submitted[id])
  {
    assert id in st.place;
    match st.place[id]
    case Waiting(g) => var t :| t in WaitingOf(st.waiting, g) && t.id == id; assert Holds(st, t);
    case Working(s) =>
      var slot :| slot in st.slots && slot.id == s && slot.task.Some? && slot.task.value.id == id;
      assert HasWorker(st.slots, slot.task.value) && Holds(st, slot.task.value);
    case _ =>
  }

  lemma FaithfulStays(st: State, st': State)
    requires Faithful(st) && st'.submitted == st.submitted && st'.nextId == st.nextId
    requires forall t :: Holds(st', t) ==> Holds(st, t)
    ensures Faithful(st')
  {
  }

  /** Nothing is lost and nothing is in two places. */
  lemma ExactlyOnePlace(st: State, id: nat)
    requires Sound(st) && st.held == None && 1 <= id < st.nextId
    ensures var queued := exists g, t :: t in WaitingOf(st.waiting, g) && t.id == id;
            var working := exists slot :: slot in st.slots && slot.task.Some? && slot.task.value.id == id;
            var settled := id in st.settled;
            && (queued || working || settled) && !(queued && working) && !(queued && settled) && !(working && settled)
  {
    assert id in st.place;
  }

  /** Nor in two queues, or twice in one. */
  lemma OnlyOneQueue(st: State, g: Group, t: Task, h: Group, u: Task)
    requires Sound(st) && t in WaitingOf(st.waiting, g) && u in WaitingOf(st.waiting, h) && t.id == u.id
    ensures g == h && t == u
  {
    var a :| 0 <= a < |WaitingOf(st.waiting, g)| && WaitingOf(st.waiting, g)[a] == t;
    var b :| 0 <= b < |WaitingOf(st.waiting, h)| && WaitingOf(st.waiting, h)[b] == u;
    assert Distinct(WaitingOf(st.waiting, g));
  }

  /** Nor with two workers. */
  lemma OnlyOneWorker(st: State, i: nat, j: nat)
    requires Sound(st) && i < j < |st.slots| && st.slots[i].task.Some? && st.slots[j].task.Some?
    ensures st.slots[i].task.value.id != st.slots[j].task.value.id
  {
    assert st.slots[i] in st.slots && st.slots[j] in st.slots && st.slots[i].id != st.slots[j].id;
  }

  // ---------------------------------------------------------------------
  // Steps
  // ---------------------------------------------------------------------

  /** A new task at the back of its group's queue, the group in turn if it was not. */
  ghost function Enqueued(st: State, key: string, g: Group): State {
    var t := Task(st.nextId, key, g);
    st.(order := if WaitingOf(st.waiting, g) == [] then st.order + [g] else st.order,
        waiting := st.waiting[g := WaitingOf(st.waiting, g) + [t]],
        nextId := st.nextId + 1,
        place := st.place[st.nextId := Waiting(g)],
        submitted := st.submitted[st.nextId := t])
  }

  function Without<T>(s: seq<T>, i: nat): seq<T>
    requires i < |s|
  {
    s[..i] + s[i + 1..]
  }

  /** The first task of the group at `i` in turn taken off its queue; the group goes to the back while it has more. */
  ghost function Taken(st: State, i: nat): State
    requires i < |st.order| && WaitingOf(st.waiting, st.order[i]) != []
  {
    var g := st.order[i];
    var (t, rest) := (WaitingOf(st.waiting, g)[0], WaitingOf(st.waiting, g)[1..]);
    st.(order := Without(st.order, i) + (if rest == [] then [] else [g]),
        waiting := st.waiting[g := rest], held := Some(t), place := st.place[t.id := InHand])
  }

  /** The first task of the group first in turn taken off, the group keeping its turn. */
  ghost function TakenInPlace(st: State): State
    requires st.order != [] && WaitingOf(st.waiting, st.order[0]) != []
  {
    var g := st.order[0];
    var (t, rest) := (WaitingOf(st.waiting, g)[0], WaitingOf(st.waiting, g)[1..]);
    st.(order := if rest == [] then st.order[1..] else st.order,
        waiting := st.waiting[g := rest], held := Some(t), place := st.place[t.id := InHand])
  }

  /** The task in hand settled. */
  ghost function Finished(st: State, o: Outcome): State
    requires st.held.Some?
  {
    st.(settled := st.settled[st.held.value.id := o], held := None, place := st.place[st.held.value.id := Settled])
  }

  /** The task in hand given to an idle worker. */
  ghost function Given(st: State, i: nat): State
    requires i < |st.slots| && st.held.Some?
  {
    var t := st.held.value;
    st.(slots := st.slots[i := st.slots[i].(task := Some(t))],
        running := st.running[t.group := RunningOf(st.running, t.group) + 1],
        held := None, place := st.place[t.id := Working(st.slots[i].id)])
  }

  /** A worker's task taken off it. */
  ghost function Released(st: State, i: nat): State
    requires i < |st.slots| && st.slots[i].task.Some? && RunningOf(st.running, st.slots[i].task.value.group) > 0
  {
    var t := st.slots[i].task.value;
    st.(slots := st.slots[i := st.slots[i].(task := None)],
        running := st.running[t.group := RunningOf(st.running, t.group) - 1],
        held := Some(t), place := st.place[t.id := InHand])
  }

  ghost function Removed(st: State, i: nat): State
    requires i < |st.slots|
  {
    st.(slots := Without(st.slots, i))
  }

  ghost function Started(st: State): State {
    st.(slots := st.slots + [Slot(st.nextSlot, false, None)], nextSlot := st.nextSlot + 1)
  }

  ghost function MadeReady(st: State, i: nat): State
    requires i < |st.slots|
  {
    st.(slots := st.slots[i := st.slots[i].(ready := true)])
  }

  // ---------------------------------------------------------------------
  // Every step keeps it
  // ---------------------------------------------------------------------

  lemma {:induction false} EnqueueKeeps(st: State, key: string, g: Group)
    requires Sound(st)
    ensures Sound(Enqueued(st, key, g))
  {
    var st' := Enqueued(st, key, g);
    assert forall h :: h != g ==> WaitingOf(st'.waiting, h) == WaitingOf(st.waiting, h);
    assert WaitingOf(st'.waiting, g) == WaitingOf(st.waiting, g) + [Task(st.nextId, key, g)];
    EnqueuedPlaced(st, key, g);
    EnqueuedNowhereElse(st, key, g);
    EnqueuedFaithful(st, key, g);
  }

  lemma {:induction false} EnqueuedFaithful(st: State, key: string, g: Group)
    requires st.nextId >= 1 && Faithful(st)
    ensures Faithful(Enqueued(st, key, g))
  {
    var st' := Enqueued(st, key, g);
    forall t | Holds(st', t) ensures t.id in st'.submitted && st'.submitted[t.id] == t {
      if t != Task(st.nextId, key, g) { assert Holds(st, t); }
    }
  }

  lemma {:induction false} EnqueuedPlaced(st: State, key: string, g: Group)
    requires Sound(st)
    ensures Placed(Enqueued(st, key, g))
  {
    var st' := Enqueued(st, key, g);
    var t := Task(st.nextId, key, g);
    assert t in WaitingOf(st'.waiting, g);
    forall id | id in st'.place && st'.place[id].Waiting?
      ensures exists u :: u in WaitingOf(st'.waiting, st'.place[id].group) && u.id == id
    {
      if id != t.id {
        var u :| u in WaitingOf(st.waiting, st.place[id].group) && u.id == id;
        assert u in WaitingOf(st'.waiting, st.place[id].group);
      }
    }
  }

  lemma {:induction false} EnqueuedNowhereElse(st: State, key: string, g: Group)
    requires st.nextId >= 1 && NowhereElse(st) && forall id :: id in st.place <==> 1 <= id < st.nextId
    ensures NowhereElse(Enqueued(st, key, g))
  {
    var st' := Enqueued(st, key, g);
    var t := Task(st.nextId, key, g);
    forall h, u | u in WaitingOf(st'.waiting, h)
      ensures u.group == h && u.id in st'.place && st'.place[u.id] == Waiting(h)
    {
      if u !in WaitingOf(st.waiting, h) { assert h == g && u == t; }
    }
    forall h ensures Distinct(WaitingOf(st'.waiting, h)) {
      assert Distinct(WaitingOf(st.waiting, h));
      assert forall u :: u in WaitingOf(st.waiting, h) ==> u.id < t.id;
    }
  }

  /** `st'` is `st` with the first task of `g` off its queue and in hand, the turn order aside. */
  ghost predicate Popped(st: State, st': State, g: Group) {
    && WaitingOf(st.waiting, g) != []
    && var (t, rest) := (WaitingOf(st.waiting, g)[0], WaitingOf(st.waiting, g)[1..]);
       st' == st.(order := st'.order, waiting := st.waiting[g := rest], held := Some(t),
                  place := st.place[t.id := InHand])
  }

  lemma {:induction false} PopQueues(st: State, st': State, g: Group)
    requires NowhereElse(st) && Popped(st, st', g)
    ensures forall h :: WaitingOf(st'.waiting, h) == if h == g then WaitingOf(st.waiting, g)[1..]
              else WaitingOf(st.waiting, h)
    ensures forall h, u :: u in WaitingOf(st'.waiting, h) ==> u in WaitingOf(st.waiting, h) && u.id != st'.held.value.id
    ensures forall h, u :: u in WaitingOf(st.waiting, h) && u.id != st'.held.value.id ==> u in WaitingOf(st'.waiting, h)
  {
    var queue := WaitingOf(st.waiting, g);
    var (t, rest) := (queue[0], queue[1..]);
    assert queue == [t] + rest;
    assert Distinct(queue);
    forall h, u | u in WaitingOf(st'.waiting, h) ensures u in WaitingOf(st.waiting, h) && u.id != t.id {
      if h == g {
        var k :| 0 <= k < |rest| && rest[k] == u;
        assert queue[k + 1] == u && queue[0].id != queue[k + 1].id;
      } else {
        assert t in queue;
      }
    }
  }

  lemma {:induction false} PopNowhereElse(st: State, st': State, g: Group)
    requires NowhereElse(st) && st.held == None && Popped(st, st', g)
    ensures NowhereElse(st')
  {
    PopQueues(st, st', g);
    PopDistinct(st, st', g);
    var t := WaitingOf(st.waiting, g)[0];
    assert t in WaitingOf(st.waiting, g) && st.place[t.id] == Waiting(g);
    assert forall id :: id in st.place && id != t.id ==> id in st'.place && st'.place[id] == st.place[id];
  }

  lemma {:induction false} PopDistinct(st: State, st': State, g: Group)
    requires (forall h :: Distinct(WaitingOf(st.waiting, h))) && Popped(st, st', g)
    ensures forall h :: Distinct(WaitingOf(st'.waiting, h))
  {
    forall h ensures Distinct(WaitingOf(st'.waiting, h)) {
      assert Distinct(WaitingOf(st.waiting, h));
    }
  }

  lemma {:induction false} PopPlaced(st: State, st': State, g: Group)
    requires Placed(st) && NowhereElse(st) && st.held == None && Popped(st, st', g)
    ensures Placed(st')
  {
    PopQueues(st, st', g);
    var t := WaitingOf(st.waiting, g)[0];
    assert t in WaitingOf(st.waiting, g);
    forall id | id in st'.place && st'.place[id].Waiting?
      ensures exists u :: u in WaitingOf(st'.waiting, st'.place[id].group) && u.id == id
    {
      var u :| u in WaitingOf(st.waiting, st.place[id].group) && u.id == id;
      assert u in WaitingOf(st'.waiting, st.place[id].group);
    }
  }

  /** Popping a queue leaves every other task where it was. */
  lemma PopKeepsPlaces(st: State, st': State, g: Group)
    requires Sound(st) && st.held == None && Popped(st, st', g)
    ensures Placed(st') && NowhereElse(st') && Counted(st') && Faithful(st')
    ensures forall h :: WaitingOf(st'.waiting, h) == if h == g then WaitingOf(st.waiting, g)[1..]
              else WaitingOf(st.waiting, h)
  {
    PopQueues(st, st', g);
    PopNowhereElse(st, st', g);
    PopPlaced(st, st', g);
    PopFaithful(st, st', g);
  }

  lemma {:induction false} PopFaithful(st: State, st': State, g: Group)
    requires NowhereElse(st) && Faithful(st) && Popped(st, st', g)
    ensures Faithful(st')
  {
    PopQueues(st, st', g);
    var first := WaitingOf(st.waiting, g)[0];
    assert first in WaitingOf(st.waiting, g);
    forall t | Holds(st', t) ensures Holds(st, t) {
    }
    FaithfulStays(st, st');
  }

  lemma {:induction false} TakeKeeps(st: State, i: nat)
    requires Sound(st) && st.held == None && i < |st.order|
    ensures WaitingOf(st.waiting, st.order[i]) != [] && Sound(Taken(st, i))
  {
    var g := st.order[i];
    assert g in st.order;
    var st' := Taken(st, i);
    PopKeepsPlaces(st, st', g);
    TurnsWithout(st.order, i);
    forall h ensures h in st'.order <==> WaitingOf(st'.waiting, h) != [] {
      assert h in st.order <==> WaitingOf(st.waiting, h) != [];
    }
  }

  lemma TurnsWithout(order: seq<Group>, i: nat)
    requires i < |order| && forall a, b :: 0 <= a < b < |order| ==> order[a] != order[b]
    ensures var rest := Without(order, i);
            && (forall a, b :: 0 <= a < b < |rest| ==> rest[a] != rest[b])
            && (forall h :: h in rest <==> h in order && h != order[i])
  {
    var rest := Without(order, i);
    forall h | h in order && h != order[i] ensures h in rest {
      var k :| 0 <= k < |order| && order[k] == h;
      assert rest[if k < i then k else k - 1] == h;
    }
  }

  lemma {:induction false} TakeInPlaceKeeps(st: State)
    requires Sound(st) && st.held == None && st.order != []
    ensures WaitingOf(st.waiting, st.order[0]) != [] && Sound(TakenInPlace(st))
  {
    var g := st.order[0];
    assert g in st.order;
    var st' := TakenInPlace(st);
    PopKeepsPlaces(st, st', g);
    TurnsWithout(st.order, 0);
    assert Without(st.order, 0) == st.order[1..];
    forall h ensures h in st'.order <==> WaitingOf(st'.waiting, h) != [] {
      assert h in st.order <==> WaitingOf(st.waiting, h) != [];
    }
  }

  lemma {:induction false} FinishKeeps(st: State, o: Outcome)
    requires Sound(st) && st.held.Some?
    ensures st.held.value.id !in st.settled && Sound(Finished(st, o))
  {
    FinishedPlaced(st, o);
    FinishedNowhereElse(st, o);
    FaithfulStays(st, Finished(st, o));
  }

  lemma {:induction false} FinishedPlaced(st: State, o: Outcome)
    requires Placed(st) && NowhereElse(st) && st.held.Some?
    ensures Placed(Finished(st, o))
  {
    var st' := Finished(st, o);
    forall id | id in st'.place && st'.place[id].Waiting?
      ensures exists u :: u in WaitingOf(st'.waiting, st'.place[id].group) && u.id == id
    {
      assert st'.place[id] == st.place[id];
    }
    forall id | id in st'.place && st'.place[id].Working?
      ensures exists slot :: slot in st'.slots && slot.id == st'.place[id].slot && slot.task.Some?
                && slot.task.value.id == id
    {
      assert st'.place[id] == st.place[id];
    }
  }

  lemma {:induction false} FinishedNowhereElse(st: State, o: Outcome)
    requires NowhereElse(st) && st.held.Some?
    ensures NowhereElse(Finished(st, o))
  {
  }

  // ---------------------------------------------------------------------
  // Workers
  // ---------------------------------------------------------------------

  function Runs(slot: Slot, g: Group): nat {
    if slot.task.Some? && slot.task.value.group == g then 1 else 0
  }

  lemma {:induction false} BusyWithout(slots: seq<Slot>, i: nat, g: Group)
    requires i < |slots|
    ensures Busy(slots, g) == Busy(Without(slots, i), g) + Runs(slots[i], g)
    decreases slots
  {
    if i == 0 {
      assert Without(slots, 0) == slots[1..];
    } else {
      BusyWithout(slots[1..], i - 1, g);
      assert Without(slots, i) == [slots[0]] + Without(slots[1..], i - 1);
      assert ([slots[0]] + Without(slots[1..], i - 1))[1..] == Without(slots[1..], i - 1);
    }
  }

  lemma BusyReplaced(slots: seq<Slot>, i: nat, slot: Slot, g: Group)
    requires i < |slots|
    ensures Busy(slots[i := slot], g) + Runs(slots[i], g) == Busy(slots, g) + Runs(slot, g)
  {
    BusyWithout(slots, i, g);
    BusyWithout(slots[i := slot], i, g);
    assert Without(slots[i := slot], i) == Without(slots, i);
  }

  lemma BusyAppended(slots: seq<Slot>, slot: Slot, g: Group)
    ensures Busy(slots + [slot], g) == Busy(slots, g) + Runs(slot, g)
  {
    BusyWithout(slots + [slot], |slots|, g);
    assert Without(slots + [slot], |slots|) == slots;
  }

  /** One worker of the pool replaced by itself, with another task or none. */
  lemma {:induction false} SlotsKeep(st: State, st': State, i: nat)
    requires Sound(st) && i < |st.slots|
    requires |st'.slots| == |st.slots| && st'.slots == st.slots[i := st'.slots[i]] && st'.slots[i].id == st.slots[i].id
    requires st'.nextSlot == st.nextSlot && (st'.slots[i].task.Some? ==> st'.slots[i].ready)
    requires forall g ::
               RunningOf(st'.running, g) == RunningOf(st.running, g) + Runs(st'.slots[i], g) - Runs(st.slots[i], g)
    ensures Counted(st')
  {
    forall g ensures RunningOf(st'.running, g) == Busy(st'.slots, g) {
      BusyReplaced(st.slots, i, st'.slots[i], g);
    }
  }

  lemma {:induction false} GiveKeeps(st: State, i: nat)
    requires Sound(st) && st.held.Some? && i < |st.slots| && st.slots[i].ready && st.slots[i].task.None?
    ensures Sound(Given(st, i))
  {
    SlotsKeep(st, Given(st, i), i);
    GivenPlaced(st, i);
    GivenNowhereElse(st, i);
    SlotFaithful(st, Given(st, i), i);
  }

  /** One worker of the pool given another task, or none: nothing is held that was not. */
  lemma {:induction false} SlotFaithful(st: State, st': State, i: nat)
    requires Faithful(st) && i < |st.slots| == |st'.slots| && st'.slots == st.slots[i := st'.slots[i]]
    requires st'.submitted == st.submitted && st'.nextId == st.nextId && st'.waiting == st.waiting
    requires forall t :: st'.held == Some(t) || st'.slots[i].task == Some(t) ==>
               st.held == Some(t) || st.slots[i].task == Some(t)
    ensures Faithful(st')
  {
    forall t | Holds(st', t) ensures Holds(st, t) {
      if HasWorker(st'.slots, t) {
        var k :| 0 <= k < |st'.slots| && st'.slots[k].task == Some(t);
        assert k != i ==> st.slots[k].task == Some(t);
      }
    }
    FaithfulStays(st, st');
  }

  lemma {:induction false} GivenPlaced(st: State, i: nat)
    requires Sound(st) && st.held.Some? && i < |st.slots| && st.slots[i].ready && st.slots[i].task.None?
    ensures Placed(Given(st, i))
  {
    var st' := Given(st, i);
    OtherSlots(st, st', i);
    assert st'.slots[i] in st'.slots;
    forall id | id in st'.place && st'.place[id].Working?
      ensures exists slot :: slot in st'.slots && slot.id == st'.place[id].slot && slot.task.Some?
                && slot.task.value.id == id
    {
      if id != st.held.value.id {
        var slot :| slot in st.slots && slot.id == st.place[id].slot && slot.task.Some? && slot.task.value.id == id;
        assert slot in st'.slots;
      }
    }
    forall id | id in st'.place && st'.place[id].Waiting?
      ensures exists u :: u in WaitingOf(st'.waiting, st'.place[id].group) && u.id == id
    {
      assert st.place[id] == st'.place[id];
    }
  }

  lemma {:induction false} GivenNowhereElse(st: State, i: nat)
    requires NowhereElse(st) && st.held.Some? && i < |st.slots| && st.slots[i].ready && st.slots[i].task.None?
    ensures NowhereElse(Given(st, i))
  {
    var st' := Given(st, i);
    OtherSlots(st, st', i);
    assert forall g, u :: u in WaitingOf(st.waiting, g) ==> u.id != st.held.value.id;
  }

  /** Every worker but the one replaced is there as before. */
  lemma OtherSlots(st: State, st': State, i: nat)
    requires i < |st.slots| == |st'.slots| && st'.slots == st.slots[i := st'.slots[i]]
    ensures forall slot :: slot in st.slots && slot != st.slots[i] ==> slot in st'.slots
    ensures forall slot :: slot in st'.slots ==> slot == st'.slots[i] || slot in st.slots
  {
    forall slot | slot in st.slots && slot != st.slots[i] ensures slot in st'.slots {
      var k :| 0 <= k < |st.slots| && st.slots[k] == slot;
      assert st'.slots[k] == slot;
    }
  }

  lemma {:induction false} ReleaseKeeps(st: State, i: nat)
    requires Sound(st) && st.held == None && i < |st.slots| && st.slots[i].task.Some?
    ensures RunningOf(st.running, st.slots[i].task.value.group) > 0 && Sound(Released(st, i))
  {
    var t := st.slots[i].task.value;
    BusyWithout(st.slots, i, t.group);
    var st' := Released(st, i);
    SlotsKeep(st, st', i);
    ReleasedNowhereElse(st, i);
    ReleasedPlaced(st, i);
    SlotFaithful(st, st', i);
  }

  lemma {:induction false} ReleasedNowhereElse(st: State, i: nat)
    requires NowhereElse(st) && Counted(st) && st.held == None && i < |st.slots| && st.slots[i].task.Some?
    requires RunningOf(st.running, st.slots[i].task.value.group) > 0
    ensures NowhereElse(Released(st, i))
  {
    var st' := Released(st, i);
    var t := st.slots[i].task.value;
    assert st.slots[i] in st.slots;
    forall slot | slot in st'.slots && slot.task.Some?
      ensures slot.task.value.id in st'.place && st'.place[slot.task.value.id] == Working(slot.id)
    {
      var k :| 0 <= k < |st'.slots| && st'.slots[k] == slot;
      assert k != i && st.slots[k] == slot && slot.id != st.slots[i].id;
      assert slot.task.value.id != t.id;
    }
    assert forall g, u :: u in WaitingOf(st.waiting, g) ==> u.id != t.id;
  }

  lemma {:induction false} ReleasedPlaced(st: State, i: nat)
    requires Sound(st) && st.held == None && i < |st.slots| && st.slots[i].task.Some?
    requires RunningOf(st.running, st.slots[i].task.value.group) > 0
    ensures Placed(Released(st, i))
  {
    var st' := Released(st, i);
    OtherSlots(st, st', i);
    assert st.slots[i] in st.slots;
    forall id | id in st'.place && st'.place[id].Working?
      ensures exists slot :: slot in st'.slots && slot.id == st'.place[id].slot && slot.task.Some?
                && slot.task.value.id == id
    {
      var slot :| slot in st.slots && slot.id == st.place[id].slot && slot.task.Some? && slot.task.value.id == id;
      assert slot in st'.slots;
    }
    forall id | id in st'.place && st'.place[id].Waiting?
      ensures exists u :: u in WaitingOf(st'.waiting, st'.place[id].group) && u.id == id
    {
      assert st.place[id] == st'.place[id];
    }
  }

  lemma {:induction false} RemoveKeeps(st: State, i: nat)
    requires Sound(st) && i < |st.slots| && st.slots[i].task.None?
    ensures Sound(Removed(st, i))
  {
    var st' := Removed(st, i);
    SlotsWithout(st.slots, i);
    CountedWithout(st, i);
    SlotsPlaced(st, st');
    FewerFaithful(st, st');
  }

  lemma SlotsWithout(slots: seq<Slot>, i: nat)
    requires i < |slots|
    ensures forall slot :: slot in Without(slots, i) ==> slot in slots
    ensures forall slot :: slot in slots && slot != slots[i] ==> slot in Without(slots, i)
  {
    forall slot | slot in slots && slot != slots[i] ensures slot in Without(slots, i) {
      var k :| 0 <= k < |slots| && slots[k] == slot;
      assert Without(slots, i)[if k < i then k else k - 1] == slot;
    }
  }

  lemma CountedWithout(st: State, i: nat)
    requires Counted(st) && i < |st.slots| && st.slots[i].task.None?
    ensures Counted(Removed(st, i))
  {
    forall g ensures RunningOf(st.running, g) == Busy(Removed(st, i).slots, g) {
      BusyWithout(st.slots, i, g);
    }
  }

  /** Workers with no task come and go without moving any task. */
  lemma {:induction false} SlotsPlaced(st: State, st': State)
    requires Placed(st) && NowhereElse(st) && st' == st.(slots := st'.slots, nextSlot := st'.nextSlot)
    requires forall slot :: slot in st.slots && slot.task.Some? ==> slot in st'.slots
    requires forall slot :: slot in st'.slots && slot.task.Some? ==> slot in st.slots
    ensures Placed(st') && NowhereElse(st')
  {
    forall id | id in st'.place && st'.place[id].Working?
      ensures exists slot :: slot in st'.slots && slot.id == st'.place[id].slot && slot.task.Some?
                && slot.task.value.id == id
    {
      var slot :| slot in st.slots && slot.id == st.place[id].slot && slot.task.Some? && slot.task.value.id == id;
      assert slot in st'.slots;
    }
  }

  lemma FewerFaithful(st: State, st': State)
    requires Faithful(st) && st' == st.(slots := st'.slots, nextSlot := st'.nextSlot)
    requires forall slot :: slot in st'.slots && slot.task.Some? ==> slot in st.slots
    ensures Faithful(st')
  {
    forall t | Holds(st', t) ensures Holds(st, t) {
      if k :| 0 <= k < |st'.slots| && st'.slots[k].task == Some(t) {
        assert st'.slots[k] in st.slots;
      }
    }
    FaithfulStays(st, st');
  }

  lemma {:induction false} StartKeeps(st: State)
    requires Sound(st)
    ensures Sound(Started(st))
  {
    var st' := Started(st);
    forall g ensures RunningOf(st'.running, g) == Busy(st'.slots, g) {
      BusyAppended(st.slots, Slot(st.nextSlot, false, None), g);
    }
    SlotsPlaced(st, st');
    FewerFaithful(st, st');
  }

  lemma {:induction false} ReadyKeeps(st: State, i: nat)
    requires Sound(st) && i < |st.slots|
    ensures Sound(MadeReady(st, i))
  {
    var st' := MadeReady(st, i);
    SlotsKeep(st, st', i);
    ReadyPlaced(st, i);
    SlotFaithful(st, st', i);
  }

  lemma {:induction false} ReadyPlaced(st: State, i: nat)
    requires Placed(st) && NowhereElse(st) && i < |st.slots|
    ensures Placed(MadeReady(st, i)) && NowhereElse(MadeReady(st, i))
  {
    var st' := MadeReady(st, i);
    OtherSlots(st, st', i);
    assert st'.slots[i] in st'.slots && st.slots[i] in st.slots;
    forall id | id in st'.place && st'.place[id].Working?
      ensures exists slot :: slot in st'.slots && slot.id == st'.place[id].slot && slot.task.Some?
                && slot.task.value.id == id
    {
      var slot :| slot in st.slots && slot.id == st.place[id].slot && slot.task.Some? && slot.task.value.id == id;
      assert (if slot == st.slots[i] then st'.slots[i] else slot) in st'.slots;
    }
  }
}
