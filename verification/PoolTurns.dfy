/**
 * The turns of the expansion pool are fair (`take` and `submit` in
 * src/ical-worker-pool.ts): a request with nothing running is served within as
 * many turns as it has requests before it, however many more arrive.
 */
module PoolTurns {
  import opened PoolState

  /** `best` is the first group in turn among those with the fewest tasks running. */
  ghost predicate Fewest(order: seq<Group>, running: map<Group, nat>, best: int) {
    && 0 <= best < |order|
    && (forall i :: 0 <= i < |order| ==> RunningOf(running, order[best]) <= RunningOf(running, order[i]))
    && (forall i :: 0 <= i < best ==> RunningOf(running, order[best]) < RunningOf(running, order[i]))
  }

  /**
   * What happens to the turn order: a group served, at its place in it; groups
   * arriving at the back; or the whole queue failing.
   */
  datatype Turn = Serve(place: nat, group: Group) | Arrive(groups: seq<Group>) | Fail

  datatype Turns = Turns(order: seq<Group>, running: map<Group, nat>)

  /** What is running may change as it likes between turns. */
  ghost predicate Step(t: Turns, turn: Turn, t': Turns) {
    match turn
    case Serve(best, group) =>
      && Fewest(t.order, t.running, best) && t.order[best] == group
      && (t'.order == Without(t.order, best) || t'.order == Without(t.order, best) + [t.order[best]])
    case Arrive(groups) => t'.order == t.order + groups
    case Fail => t'.order == []
  }

  /** The turns so far: each with what was running then, and the order it left. */
  datatype Log = NoTurns | After(earlier: Log, running: map<Group, nat>, turn: Turn, order: seq<Group>)

  /** The turn order now; at first nobody waits. */
  ghost function OrderOf(log: Log): seq<Group> {
    if log.After? then log.order else []
  }

  /** Every turn was one. */
  ghost predicate Run(log: Log) {
    log.After? ==>
      Run(log.earlier) && Step(Turns(OrderOf(log.earlier), log.running), log.turn, Turns(log.order, log.running))
  }

  type Record = log: Log | Run(log) ghost witness NoTurns

  /** `log` goes on from `from`. */
  ghost predicate Extends(from: Log, log: Log) {
    log == from || (log.After? && Extends(from, log.earlier))
  }

  lemma {:induction false} ExtendsOn(a: Log, b: Log, c: Log)
    requires Extends(a, b) && Extends(b, c)
    ensures Extends(a, c)
  {
    if c != b { ExtendsOn(a, b, c.earlier); }
  }

  /** How many of the turns since `from` serve a group. */
  ghost function Served(from: Log, log: Log): nat
    requires Extends(from, log)
  {
    if log == from then 0 else Served(from, log.earlier) + (if log.turn.Serve? then 1 else 0)
  }

  /** `g` waits through the turns since `from` with nothing running, and the queue does not fail. */
  ghost predicate KeepsWaiting(from: Log, log: Log, g: Group)
    requires Extends(from, log)
  {
    log != from ==>
      && KeepsWaiting(from, log.earlier, g)
      && PassesOver(Turns(OrderOf(log.earlier), log.running), log.turn, g)
  }

  ghost predicate PassesOver(t: Turns, turn: Turn, g: Group) {
    RunningOf(t.running, g) == 0 && !turn.Fail? && (turn.Serve? ==> turn.group != g)
  }

  /** A turn that passes a waiting group over brings it one place forward, and no other turn moves it back. */
  lemma PassedOver(t: Turns, turn: Turn, t': Turns, g: Group, i: nat)
    requires Step(t, turn, t') && i < |t.order| && t.order[i] == g && PassesOver(t, turn, g)
    ensures if turn.Serve? then 0 < i <= |t'.order| && t'.order[i - 1] == g else i < |t'.order| && t'.order[i] == g
  {
    if turn.Serve? {
      assert turn.place < i;
      assert Without(t.order, turn.place)[i - 1] == g;
    }
  }

  /** So it is served within its place in the order, plus one, of turns. */
  lemma {:induction false} ServedInTurn(from: Log, log: Log, g: Group, i: nat)
    requires Run(log) && Extends(from, log) && KeepsWaiting(from, log, g) && i < |OrderOf(from)|
    requires OrderOf(from)[i] == g
    ensures Served(from, log) <= i
    ensures var at := i - Served(from, log); at < |OrderOf(log)| && OrderOf(log)[at] == g
    decreases log
  {
    if log != from {
      ServedInTurn(from, log.earlier, g, i);
      var (before, after) := (Turns(OrderOf(log.earlier), log.running), Turns(log.order, log.running));
      PassedOver(before, log.turn, after, g, i - Served(from, log.earlier));
    }
  }

  /** The pool's own steps are such turns. */
  lemma PoolTakesTurns(st: State, best: nat)
    requires InTurn(st) && Fewest(st.order, st.running, best)
    ensures WaitingOf(st.waiting, st.order[best]) != []
    ensures var st' := Taken(st, best);
              Step(Turns(st.order, st.running), Serve(best, st.order[best]), Turns(st'.order, st'.running))
  {
    assert st.order[best] in st.order;
    assert Without(st.order, best) + [] == Without(st.order, best);
  }

  /** The groups one more task of `g` brings into the turn order. */
  ghost function Arriving(st: State, g: Group): seq<Group> {
    if WaitingOf(st.waiting, g) == [] then [g] else []
  }

  lemma PoolArrivals(st: State, key: string, g: Group)
    ensures var st' := Enqueued(st, key, g);
            Step(Turns(st.order, st.running), Arrive(Arriving(st, g)), Turns(st'.order, st'.running))
  {
    assert st.order + [] == st.order;
  }
}
