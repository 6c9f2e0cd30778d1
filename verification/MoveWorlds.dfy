/**
 * What a move does to the event, whatever the server answers and whatever it
 * did before it answered (src/caldav-move.ts). A 2xx was carried out, a
 * definite refusal was not; anything else may have been, then or later. Other
 * clients act in between.
 */
module MoveWorlds {
  import opened Options
  import opened DavEtags
  import opened Move

  /** A stored object. */
  datatype Object = Object(uid: string, text: string, etag: Option<string>)

  /** The two calendars, by URL. */
  datatype World = World(source: map<string, Object>, target: map<string, Object>)

  /** What is being moved: the object's URL, the one it goes to, its UID, the text read and what guards it. */
  datatype Job = Job(from: string, to: string, uid: string, data: string, ifMatch: Option<string>)

  predicate InSource(w: World, job: Job) {
    job.from in w.source && w.source[job.from].uid == job.uid
  }

  predicate InTarget(w: World, job: Job) {
    job.to in w.target && w.target[job.to].uid == job.uid
  }

  /** The event is held at its URL or where it was to go. */
  predicate Held(w: World, job: Job) {
    InSource(w, job) || InTarget(w, job)
  }

  /** Other clients add, edit and delete what they like, but do not delete this event. */
  ghost predicate OthersKeepIt(w: World, w': World, job: Job) {
    (InSource(w, job) ==> InSource(w', job)) && (InTarget(w, job) ==> InTarget(w', job))
  }

  /** A request carried out. Nothing at the destination is ever replaced: `Overwrite: F`, `If-None-Match: *`. */
  ghost predicate Applied(r: Request, w: World, w': World, job: Job) {
    match r
    case MoveIt(_) =>
      && job.from in w.source && job.to !in w.target
      && w'.source == w.source - {job.from}
      && job.to in w'.target && w'.target == w.target[job.to := w'.target[job.to]]
      && w'.target[job.to].uid == w.source[job.from].uid
    case PutCopy =>
      && job.to !in w.target && w'.source == w.source
      && job.to in w'.target && w'.target == w.target[job.to := w'.target[job.to]]
      && w'.target[job.to].uid == job.uid
    case DeleteSource(_) => job.from in w.source && w' == w.(source := w.source - {job.from})
    case DeleteCopy(_) => job.to in w.target && w' == w.(target := w.target - {job.to})
    case PutSource(_) => w'.target == w.target && job.from in w'.source
      && w'.source == w.source[job.from := w'.source[job.from]]
    case GetSource => w' == w
    case GetCopy => w' == w
  }

  /** What an answer says of the moment it was given. */
  ghost predicate Reports(r: Request, a: Answer, w: World, job: Job) {
    && (r == GetCopy ==>
          (Absent(a) ==> job.to !in w.target)
            && (Ok(a) ==> job.to in w.target && w.target[job.to].text == a.text && w.target[job.to].etag == a.etag))
    && (r == GetSource ==>
          && (Absent(a) ==> job.from !in w.source)
          && (Ok(a) ==>
                job.from in w.source && w.source[job.from].text == a.text && w.source[job.from].etag == a.etag))
    && (r.DeleteCopy? && Absent(a) ==> job.to !in w.target)
    && (r.DeleteSource? && Absent(a) ==> job.from !in w.source)
  }

  /** The server says for certain that it did nothing. */
  predicate NotDone(r: Request, a: Answer) {
    Certain(a) || (r.MoveIt? && MoveRefused(a))
  }

  /** One request and its answer: done if it says so, not done if it says so, otherwise either. */
  ghost predicate Exchanged(e: Exchange, w: World, w': World, job: Job) {
    match e
    case Sent(r, a) =>
      && Reports(r, a, w, job)
      && (if Ok(a) then Applied(r, w, w', job) else if NotDone(r, a) then w' == w
          else w' == w || Applied(r, w, w', job))
      && (Ok(a) && r == PutCopy && a.etag.Some? ==> w'.target[job.to].etag == a.etag)
    case Searched(target, found) =>
      var calendar := if target then w.target else w.source;
      && w' == w
      && (found.Nowhere? ==> forall url :: url in calendar ==> calendar[url].uid != job.uid)
      && (found.Found? ==> found.url in calendar && calendar[found.url].uid == job.uid)
  }

  /**
   * What happens next: another client acts, a request of this run answered
   * unclearly before takes effect after all, or the next exchange happens.
   */
  datatype Step = OthersAct | Lands(i: nat) | Next

  /** How many exchanges the first `n` steps hold. */
  function Count(steps: seq<Step>, n: nat): (r: nat)
    requires n <= |steps|
    ensures r <= n
  {
    if n == 0 then 0 else Count(steps, n - 1) + (if steps[n - 1].Next? then 1 else 0)
  }

  ghost predicate Took(t: seq<Exchange>, step: Step, done: nat, w: World, w': World, job: Job) {
    match step
    case OthersAct => OthersKeepIt(w, w', job)
    case Lands(i) => i < done <= |t| && t[i].Sent? && !Ok(t[i].answer) && !NotDone(t[i].request, t[i].answer)
      && Applied(t[i].request, w, w', job)
    case Next => done < |t| && Exchanged(t[done], w, w', job)
  }

  /** The worlds a run goes through, from the moment before its first request. */
  ghost predicate History(t: seq<Exchange>, steps: seq<Step>, worlds: seq<World>, job: Job) {
    && |worlds| == |steps| + 1
    && forall n :: 0 <= n < |steps| ==> Took(t, steps[n], Count(steps, n), worlds[n], worlds[n + 1], job)
  }

  // ---------------------------------------------------------------------
  // The event is never lost
  // ---------------------------------------------------------------------

  /** Nothing sent so far can have removed the source. */
  ghost predicate SourceSafe(t: seq<Exchange>, done: nat) {
    forall i :: 0 <= i < done <= |t| && t[i].Sent? && (t[i].request.MoveIt? || t[i].request.DeleteSource?) ==>
      NotDone(t[i].request, t[i].answer)
  }

  ghost predicate NoCopyDeleted(t: seq<Exchange>, done: nat) {
    forall i :: 0 <= i < done <= |t| ==> !IsDeleteCopy(t[i])
  }

  /** The copy was put for certain. */
  ghost predicate CopyPut(t: seq<Exchange>, done: nat) {
    1 < done && Copied(t) && Ok(t[1].answer)
  }

  /** Why the event is still held after the first `done` exchanges. */
  ghost predicate StillHeld(t: seq<Exchange>, done: nat, w: World, job: Job) {
    && done <= |t|
    && (SourceSafe(t, done) ==> InSource(w, job))
    && (CopyPut(t, done) && NoCopyDeleted(t, done) ==> InTarget(w, job))
    && (NoCopyDeleted(t, done) ==> Held(w, job))
  }

  lemma CountInRange(t: seq<Exchange>, steps: seq<Step>, worlds: seq<World>, job: Job, n: nat)
    requires History(t, steps, worlds, job) && n <= |steps|
    ensures Count(steps, n) <= |t|
  {
    if n > 0 {
      CountInRange(t, steps, worlds, job, n - 1);
      assert Took(t, steps[n - 1], Count(steps, n - 1), worlds[n - 1], worlds[n], job);
    }
  }

  /** The copy deleted, the source is safe; the source not safe, the copy is there to stay. */
  lemma SafeOrCopied(t: seq<Exchange>, data: string, ifMatch: Option<string>, done: nat)
    requires Disciplined(t, data, ifMatch) && done <= |t|
    ensures SourceSafe(t, done) || NoCopyDeleted(t, done)
    ensures !SourceSafe(t, done) && done > 0 && NotDone(t[0].request, t[0].answer) ==> CopyPut(t, done)
  {
    if i :| 0 <= i < done && IsDeleteCopy(t[i]) {
      assert InItsPlace(t, i, data, ifMatch);
      forall h | 0 <= h < done && t[h].Sent? && (t[h].request.MoveIt? || t[h].request.DeleteSource?)
        ensures NotDone(t[h].request, t[h].answer)
      {
        assert InItsPlace(t, h, data, ifMatch) && InItsPlace(t, 1, data, ifMatch);
      }
    }
    if i :| 0 <= i < done && t[i].Sent? && (t[i].request.MoveIt? || t[i].request.DeleteSource?)
            && !NotDone(t[i].request, t[i].answer) {
      assert InItsPlace(t, i, data, ifMatch);
    }
  }

  lemma HeldAfterStep(t: seq<Exchange>, step: Step, done: nat, w: World, w': World, job: Job)
    requires Disciplined(t, job.data, job.ifMatch) && StillHeld(t, done, w, job) && Took(t, step, done, w, w', job)
    ensures StillHeld(t, if step.Next? then done + 1 else done, w', job)
  {
    SafeOrCopied(t, job.data, job.ifMatch, done);
    match step
    case OthersAct =>
    case Lands(i) => LandsHeld(t, i, done, w, w', job);
    case Next =>
      SafeOrCopied(t, job.data, job.ifMatch, done + 1);
      assert InItsPlace(t, done, job.data, job.ifMatch);
      NextHeld(t, done, w, w', job);
  }

  lemma LandsHeld(t: seq<Exchange>, i: nat, done: nat, w: World, w': World, job: Job)
    requires Disciplined(t, job.data, job.ifMatch) && StillHeld(t, done, w, job) && Took(t, Lands(i), done, w, w', job)
    ensures StillHeld(t, done, w', job)
  {
    assert InItsPlace(t, i, job.data, job.ifMatch);
    SafeOrCopied(t, job.data, job.ifMatch, done);
  }

  lemma NextHeld(t: seq<Exchange>, done: nat, w: World, w': World, job: Job)
    requires Disciplined(t, job.data, job.ifMatch) && StillHeld(t, done, w, job) && Took(t, Next, done, w, w', job)
    ensures StillHeld(t, done + 1, w', job)
  {
    assert InItsPlace(t, done, job.data, job.ifMatch);
    SafeOrCopied(t, job.data, job.ifMatch, done);
    SafeOrCopied(t, job.data, job.ifMatch, done + 1);
  }

  lemma {:induction false} StillHeldThroughout(t: seq<Exchange>, steps: seq<Step>, worlds: seq<World>, job: Job, n: nat)
    requires Disciplined(t, job.data, job.ifMatch) && History(t, steps, worlds, job) && InSource(worlds[0], job)
    requires n <= |steps|
    ensures StillHeld(t, Count(steps, n), worlds[n], job)
  {
    if n > 0 {
      StillHeldThroughout(t, steps, worlds, job, n - 1);
      HeldAfterStep(t, steps[n - 1], Count(steps, n - 1), worlds[n - 1], worlds[n], job);
    }
  }

  /** No run loses the event: at every step the source or the target holds it, late effects included. */
  lemma {:induction false} NeverLost(t: seq<Exchange>, steps: seq<Step>, worlds: seq<World>, job: Job, n: nat)
    requires Disciplined(t, job.data, job.ifMatch) && History(t, steps, worlds, job) && InSource(worlds[0], job)
    requires n <= |steps|
    ensures Held(worlds[n], job)
  {
    StillHeldThroughout(t, steps, worlds, job, n);
    CountInRange(t, steps, worlds, job, n);
    SafeOrCopied(t, job.data, job.ifMatch, Count(steps, n));
  }

  // ---------------------------------------------------------------------
  // What else is touched
  // ---------------------------------------------------------------------

  /** This run's own steps change the two objects it names and no others, and replace nothing in the target. */
  lemma NothingElseIsTouched(t: seq<Exchange>, step: Step, done: nat, w: World, w': World, job: Job)
    requires Disciplined(t, job.data, job.ifMatch) && !step.OthersAct? && Took(t, step, done, w, w', job)
    ensures w'.source - {job.from} == w.source - {job.from} && w'.target - {job.to} == w.target - {job.to}
    ensures job.from in w.source && job.from in w'.source ==> w'.source[job.from] == w.source[job.from]
    ensures job.to in w.target && job.to in w'.target ==> w'.target[job.to] == w.target[job.to]
    ensures job.from !in w.source ==> job.from !in w'.source
  {
    var i := if step.Next? then done else step.i;
    assert InItsPlace(t, i, job.data, job.ifMatch);
  }

  /** A server that honours `If-Match`, section 3.1 of RFC 7232. */
  ghost predicate Honoured(ifMatch: Option<string>, etag: Option<string>) {
    ifMatch.Some? ==> Matches(ifMatch.value, etag)
  }

  /**
   * What is deleted in the target is the object whose strong ETag the PUT
   * answered, or the one a read just before found with the text put.
   */
  lemma OnlyTheCopyIsDeleted(t: seq<Exchange>, i: nat, w: World, w': World, job: Job)
    requires Disciplined(t, job.data, job.ifMatch) && i < |t| && IsDeleteCopy(t[i])
    requires forall h :: 0 <= h < |t| && t[h].Sent? && t[h].answer.Answered? ==> t[h].answer.etag != Some(ANY)
    requires Applied(t[i].request, w, w', job) && Honoured(t[i].request.ifMatch, w.target[job.to].etag)
    ensures i > 1 && t[1].Sent? && t[1].request == PutCopy
    ensures var put := if Ok(t[1].answer) then StrongOrNone(t[1].answer.etag) else None;
            if put.Some? then w.target[job.to].etag == put
            else && t[i - 1].Sent? && t[i - 1].request == GetCopy && Unchanged(t[i - 1].answer, job.data)
                 && (StrongOrNone(t[i - 1].answer.etag).Some? ==> w.target[job.to].etag == t[i - 1].answer.etag)
  {
    assert InItsPlace(t, i, job.data, job.ifMatch);
  }

  /** With a strong ETag the source deleted is exactly the version that was read and copied. */
  lemma SourceDeletedIsTheOneCopied(t: seq<Exchange>, i: nat, w: World, w': World, job: Job)
    requires Disciplined(t, job.data, job.ifMatch) && i < |t| && IsDeleteSource(t[i])
    requires Applied(t[i].request, w, w', job) && Honoured(t[i].request.ifMatch, w.source[job.from].etag)
    ensures job.ifMatch.Some? && job.ifMatch != Some(ANY) ==>
              w.source[job.from].etag == job.ifMatch && !IsWeak(job.ifMatch.value)
    ensures !(job.ifMatch.Some? && job.ifMatch != Some(ANY)) ==>
              i > 2 && t[2].Sent? && t[2].request == GetSource && Unchanged(t[2].answer, job.data)
  {
    assert InItsPlace(t, i, job.data, job.ifMatch);
  }

  // ---------------------------------------------------------------------
  // What an answer says is so
  // ---------------------------------------------------------------------

  lemma {:induction false} StepOf(steps: seq<Step>, i: nat, n: nat) returns (m: nat)
    requires n <= |steps| && i < Count(steps, n)
    ensures m < n && steps[m].Next? && Count(steps, m) == i
  {
    if Count(steps, n - 1) == i { m := n - 1; } else { m := StepOf(steps, i, n - 1); }
  }

  lemma {:induction false} CountGrows(steps: seq<Step>, m: nat, n: nat)
    requires m <= n <= |steps|
    ensures Count(steps, m) <= Count(steps, n)
    decreases n
  {
    if m < n { CountGrows(steps, m, n - 1); }
  }

  /** Every request's effect is settled by its answer: none lands later. */
  ghost predicate Settled(steps: seq<Step>) {
    forall n :: 0 <= n < |steps| ==> !steps[n].Lands?
  }

  /** A whole run, all its exchanges in it. */
  ghost predicate Whole(t: seq<Exchange>, steps: seq<Step>, worlds: seq<World>, job: Job) {
    && Disciplined(t, job.data, job.ifMatch) && History(t, steps, worlds, job) && Count(steps, |steps|) == |t|
    && InSource(worlds[0], job)
  }

  /** What is at the destination stays there until this run deletes its copy. */
  lemma {:induction false} StaysInTarget(t: seq<Exchange>, steps: seq<Step>, worlds: seq<World>, job: Job, m: nat,
                                         n: nat)
    requires Disciplined(t, job.data, job.ifMatch) && History(t, steps, worlds, job) && Settled(steps)
    requires m <= n <= |steps| && InTarget(worlds[m], job) && NoCopyDeleted(t, Count(steps, n))
    requires Count(steps, n) <= |t|
    ensures InTarget(worlds[n], job)
    decreases n
  {
    if m < n {
      CountGrows(steps, n - 1, n);
      StaysInTarget(t, steps, worlds, job, m, n - 1);
      assert Took(t, steps[n - 1], Count(steps, n - 1), worlds[n - 1], worlds[n], job);
      var i := Count(steps, n - 1);
      if steps[n - 1].Next? {
        assert !IsDeleteCopy(t[i]);
        assert InItsPlace(t, i, job.data, job.ifMatch);
      }
    }
  }

  /** A MOVE this run then found not to have happened did not happen. */
  lemma {:induction false} SearchedMoveDidNothing(t: seq<Exchange>, steps: seq<Step>, worlds: seq<World>, job: Job,
                                                  n: nat)
    requires Whole(t, steps, worlds, job) && Settled(steps) && FoundOnlyIn(t, false)
    requires n < |steps| && steps[n].Next? && Count(steps, n) == 0
    ensures worlds[n + 1] == worlds[n]
  {
    assert Took(t, steps[n], 0, worlds[n], worlds[n + 1], job);
    if worlds[n + 1] != worlds[n] {
      StillHeldThroughout(t, steps, worlds, job, n);
      assert InTarget(worlds[n + 1], job);
      var m := StepOf(steps, 2, |steps|);
      if m < n { CountGrows(steps, m, n); }
      assert Took(t, steps[m], 2, worlds[m], worlds[m + 1], job);
      assert InItsPlace(t, 0, job.data, job.ifMatch);
      StaysInTarget(t, steps, worlds, job, n + 1, m);
      assert false;
    }
  }

  /** After "Nothing was moved." no step of this run had removed the source. */
  lemma {:induction false} SourceWasNotRemoved(t: seq<Exchange>, steps: seq<Step>, worlds: seq<World>, job: Job, n: nat)
    requires Whole(t, steps, worlds, job) && Settled(steps) && Truthful(t, NothingMoved)
    requires n < |steps| && steps[n].Next?
    ensures worlds[n + 1].source == worlds[n].source
  {
    var i := Count(steps, n);
    assert Took(t, steps[n], i, worlds[n], worlds[n + 1], job);
    assert InItsPlace(t, i, job.data, job.ifMatch);
    if i == 0 && !NotMoved(t[0].answer) { SearchedMoveDidNothing(t, steps, worlds, job, n); }
  }

  /** And any copy it put was gone again at some later moment. */
  lemma {:induction false} CopyWasNotLeft(t: seq<Exchange>, steps: seq<Step>, worlds: seq<World>, job: Job, n: nat)
    returns (m: nat)
    requires Whole(t, steps, worlds, job) && Settled(steps) && Truthful(t, NothingMoved)
    requires n < |steps| && steps[n].Next? && job.to !in worlds[n].target && job.to in worlds[n + 1].target
    ensures n < m <= |steps| && job.to !in worlds[m].target
  {
    var i := Count(steps, n);
    assert Took(t, steps[n], i, worlds[n], worlds[n + 1], job);
    assert InItsPlace(t, i, job.data, job.ifMatch);
    if i == 0 && !NotMoved(t[0].answer) { SearchedMoveDidNothing(t, steps, worlds, job, n); }
    assert i == 1 && t[1].request == PutCopy;
    var last := |t| - 1;
    m := StepOf(steps, last, |steps|);
    if m <= n { CountGrows(steps, m, n); }
    assert Took(t, steps[m], last, worlds[m], worlds[m + 1], job);
    if job.to in worlds[m].target { m := m + 1; }
  }

  /** "Nothing was moved." is true: at the end the event is where it was. */
  lemma {:induction false} NothingMovedIsTrue(t: seq<Exchange>, steps: seq<Step>, worlds: seq<World>, job: Job, n: nat)
    requires Whole(t, steps, worlds, job) && Settled(steps) && Truthful(t, NothingMoved) && n <= |steps|
    ensures InSource(worlds[n], job)
  {
    if n > 0 {
      NothingMovedIsTrue(t, steps, worlds, job, n - 1);
      assert Took(t, steps[n - 1], Count(steps, n - 1), worlds[n - 1], worlds[n], job);
      if steps[n - 1].Next? { SourceWasNotRemoved(t, steps, worlds, job, n - 1); }
    }
  }

  /** The target calendar holds the event, under any name. */
  ghost predicate TargetHas(w: World, job: Job) {
    exists url :: url in w.target && w.target[url].uid == job.uid
  }

  /** An answer that the event moved is true: it was seen gone from the source, and then or later in the target. */
  lemma {:induction false} MovedIsTrue(t: seq<Exchange>, steps: seq<Step>, worlds: seq<World>, job: Job)
    returns (gone: nat, there: nat)
    requires Whole(t, steps, worlds, job) && Truthful(t, Moved)
    ensures gone <= there <= |steps| && !InSource(worlds[gone], job) && TargetHas(worlds[there], job)
  {
    if Ok(t[0].answer) {
      var n := StepOf(steps, 0, |steps|);
      assert Took(t, steps[n], 0, worlds[n], worlds[n + 1], job);
      StillHeldThroughout(t, steps, worlds, job, n);
      gone, there := n + 1, n + 1;
    } else if FoundOnlyIn(t, true) {
      gone := StepOf(steps, 1, |steps|);
      there := StepOf(steps, 2, |steps|);
      if there < gone { CountGrows(steps, there, gone); }
      assert Took(t, steps[gone], 1, worlds[gone], worlds[gone + 1], job);
      assert Took(t, steps[there], 2, worlds[there], worlds[there + 1], job);
    } else {
      var last := |t| - 1;
      var n := StepOf(steps, last, |steps|);
      assert Took(t, steps[n], last, worlds[n], worlds[n + 1], job);
      CopyIsThere(t, steps, worlds, job, n);
      gone, there := n + 1, n + 1;
    }
  }

  lemma CopyIsThere(t: seq<Exchange>, steps: seq<Step>, worlds: seq<World>, job: Job, n: nat)
    requires Whole(t, steps, worlds, job) && n < |steps| && steps[n].Next? && Count(steps, n) == |t| - 1
    requires Copied(t) && Ok(t[1].answer) && IsDeleteSource(t[|t| - 1])
    ensures InTarget(worlds[n + 1], job)
  {
    StillHeldThroughout(t, steps, worlds, job, n + 1);
    assert InItsPlace(t, |t| - 1, job.data, job.ifMatch);
    forall i | 0 <= i < |t| ensures !IsDeleteCopy(t[i]) {
      assert InItsPlace(t, i, job.data, job.ifMatch);
    }
  }

  // ---------------------------------------------------------------------
  // Guarded writes
  // ---------------------------------------------------------------------

  /** A write that succeeded under the caller's strong ETag replaced exactly the version the caller named. */
  lemma WrittenOverTheVersionNamed(t: seq<Exchange>, delete: bool, caller: string, stored: Option<string>, strict: bool,
                                   g: string, url: string,
                                   w: World, w': World, job: Job)
    requires caller != ANY && stored != Some(ANY) && RequireEtag(Some(caller), stored, strict) == Guard(Some(g))
    requires Guarded(t, delete, Some(g), url, Written)
    requires Exchanged(t[0], w, w', job) && job.from in w.source && Honoured(Some(g), w.source[job.from].etag)
    ensures |t| == 1 && Applied(t[0].request, w, w', job)
    ensures w.source[job.from].etag.Some? && OpaqueTag(w.source[job.from].etag.value) == OpaqueTag(caller)
  {
    OnlyTheVersionNamed(caller, stored, strict, w.source[job.from].etag);
  }
}
