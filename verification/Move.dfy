/**
 * The move of one stored event into another calendar (src/caldav-move.ts),
 * and the guarded write it shares with every writer (`guardedWrite` in
 * src/caldav-client.ts): which requests are sent, in what order, and what is
 * answered. What they mean for the event is in MoveWorlds.
 */
module Move {
  import opened Options
  import opened DavEtags

  /** One request of a move: `from` is the source object's URL, `to` the copy's. */
  datatype Request =
    | MoveIt(ifMatch: Option<string>)
    | PutCopy
    | PutSource(ifMatch: Option<string>)
    | DeleteSource(ifMatch: Option<string>)
    | DeleteCopy(ifMatch: Option<string>)
    | GetSource
    | GetCopy

  /** What came back: nothing, or a status, what the body names, an ETag and a text. */
  datatype Answer =
    | Lost
    | Answered(status: nat, uidConflict: bool, remoteDestination: bool, etag: Option<string>, text: string)

  /** What a UID search of a calendar found. */
  datatype LookedUp = Failed | Nowhere | Found(url: string, etag: Option<string>)

  datatype Exchange = Sent(request: Request, answer: Answer) | Searched(target: bool, found: LookedUp)

  predicate Ok(a: Answer) {
    a.Answered? && 200 <= a.status < 300
  }

  predicate Absent(a: Answer) {
    a.Answered? && a.status == 404
  }

  /** `uidConflict`. */
  predicate UidConflict(a: Answer) {
    a.Answered? && (a.status == 409 || a.uidConflict)
  }

  /** `moveRefused`: the server will not do this MOVE and did nothing. */
  predicate MoveRefused(a: Answer) {
    a.Answered? && (a.status in {403, 405, 501} || (a.status == 502 && a.remoteDestination))
  }

  /**
   * The server, by what it answers: to each request and each search the next
   * thing, and nothing at all once those run out.
   */
  class Host {
    var log: seq<Exchange>
    var answers: seq<Answer>
    var finds: seq<LookedUp>

    method Fetch(r: Request) returns (a: Answer)
      modifies this
      ensures log == old(log) + [Sent(r, a)]
    {
      if answers == [] { a := Lost; } else { a := answers[0]; answers := answers[1..]; }
      log := log + [Sent(r, a)];
    }

    method LookUp(target: bool) returns (f: LookedUp)
      modifies this
      ensures log == old(log) + [Searched(target, f)]
    {
      if finds == [] { f := Failed; } else { f := finds[0]; finds := finds[1..]; }
      log := log + [Searched(target, f)];
    }
  }

  // ---------------------------------------------------------------------
  // A guarded write
  // ---------------------------------------------------------------------

  datatype WriteResult = Written | Changed | NotFound | HttpError(status: nat) | Broken

  /** Reads an answer to a write: 412 and 404 are about the event, the rest about the server. */
  function ResultOf(a: Answer): WriteResult {
    match a
    case Lost => Broken
    case Answered(status, _, _, _, _) =>
      if status == 412 then Changed else if status == 404 then NotFound
      else if 200 <= status < 300 then Written else HttpError(status)
  }

  function WriteOf(delete: bool, ifMatch: Option<string>): Request {
    if delete then DeleteSource(ifMatch) else PutSource(ifMatch)
  }

  /** The object is gone from where it was, or cannot be found. */
  function AfterSearch(f: LookedUp): WriteResult {
    if f.Failed? then Broken else NotFound
  }

  /**
   * What a guarded write sends and answers: one write; or, past a 412 to `*`,
   * a search, and a second write only where that found the event at the same
   * URL, under the ETag it found if that is strong.
   */
  ghost predicate Guarded(t: seq<Exchange>, delete: bool, ifMatch: Option<string>, url: string, result: WriteResult) {
    && 1 <= |t| <= 3 && t[0].Sent? && t[0].request == WriteOf(delete, ifMatch)
    && (var again := ifMatch == Some(ANY) && t[0].answer.Answered? && t[0].answer.status == 412;
        if !again then |t| == 1 && result == ResultOf(t[0].answer)
        else
          && |t| >= 2 && t[1].Searched? && !t[1].target
          && (if t[1].found.Found? && t[1].found.url == url then
                |t| == 3 && t[2].Sent? && t[2].request == WriteOf(delete, StrongOrNone(t[1].found.etag))
                  && result == ResultOf(t[2].answer)
              else |t| == 2 && result == AfterSearch(t[1].found)))
  }

  /** `guardedWrite` of the object at `url`. */
  method GuardedWrite(host: Host, delete: bool, ifMatch: Option<string>, url: string)
    returns (result: WriteResult, ghost t: seq<Exchange>)
    modifies host
    ensures host.log == old(host.log) + t
    ensures Guarded(t, delete, ifMatch, url, result)
    ensures forall i :: 0 <= i < |t| && t[i].Sent? ==>
              i == 0 || (i == 2 && ifMatch == Some(ANY) && t[1].found.Found? && t[1].found.url == url)
    ensures result == Written <==> t[|t| - 1].Sent? && Ok(t[|t| - 1].answer)
    ensures result == Written ==>
              forall i :: 0 <= i < |t| - 1 && t[i].Sent? ==> t[i].answer.Answered? && t[i].answer.status == 412
  {
    var a := host.Fetch(WriteOf(delete, ifMatch));
    t := [Sent(WriteOf(delete, ifMatch), a)];
    if ifMatch == Some(ANY) && a.Answered? && a.status == 412 {
      var again := host.LookUp(false);
      t := t + [Searched(false, again)];
      if !again.Found? { return AfterSearch(again), t; }
      if again.url != url { return NotFound, t; }
      a := host.Fetch(WriteOf(delete, StrongOrNone(again.etag)));
      t := t + [Sent(WriteOf(delete, StrongOrNone(again.etag)), a)];
    }
    result := ResultOf(a);
  }

  // ---------------------------------------------------------------------
  // The move
  // ---------------------------------------------------------------------

  /**
   * How a move ends: moved; a refusal that ends "Nothing was moved."; a refusal
   * that names both URLs, for a person to look; or the server's own failure.
   */
  datatype Outcome = Moved | NothingMoved | LookForYourself | ServerSaid(status: nat)

  /** Line ends as LF. */
  function Lf(text: string): string {
    if text == [] then []
    else if text[0] == '\r' then ['\n'] + Lf(if |text| > 1 && text[1] == '\n' then text[2..] else text[1..])
    else [text[0]] + Lf(text[1..])
  }

  /** Folded lines joined. */
  function Joined(text: string): string {
    if text == [] then []
    else if text[0] == '\n' && |text| > 1 && (text[1] == ' ' || text[1] == '\t') then Joined(text[2..])
    else [text[0]] + Joined(text[1..])
  }

  /** `unfoldedIcs`: two texts equal under it are one object, however each was sent. */
  function Unfolded(text: string): string {
    TrimRight(Joined(Lf(text)))
  }

  /** A read that found the text that was written. */
  predicate Unchanged(a: Answer, data: string) {
    Ok(a) && Unfolded(a.text) == Unfolded(data)
  }

  /** The one copy this connector put is gone: its DELETE was answered so, or a read found none. */
  predicate CopyGone(e: Exchange) {
    && e.Sent?
    && ((e.request.DeleteCopy? && (Ok(e.answer) || Absent(e.answer))) || (e.request == GetCopy && Absent(e.answer)))
  }

  /**
   * Every DELETE of the copy carries the strong ETag its PUT answered, or
   * follows a read that found its text, with the strong ETag of that read.
   */
  ghost predicate RemovesTheCopy(t: seq<Exchange>, i: int, data: string, copyEtag: Option<string>) {
    && 0 <= i < |t| && t[i].Sent? && t[i].request.DeleteCopy?
    && (if StrongOrNone(copyEtag).Some? then t[i].request.ifMatch == copyEtag
        else i > 0 && t[i - 1].Sent? && t[i - 1].request == GetCopy && Unchanged(t[i - 1].answer, data)
             && t[i].request.ifMatch == StrongOrNone(t[i - 1].answer.etag))
  }

  /** A PUT that was not answered 2xx ends the move: refused outright, or with the copy it may have left taken away. */
  ghost predicate EndsWithoutSource(put: Exchange, roll: seq<Exchange>, end: Outcome, data: string)
    requires put.Sent?
  {
    if put.answer.Answered? && (UidConflict(put.answer) || put.answer.status < 500)
      then roll == [] && end == NothingMoved
    else end in {NothingMoved, LookForYourself} && Removal(roll, data, None, end == NothingMoved)
  }

  /** What taking the copy away again sends, and whether it is known to be gone after. */
  ghost predicate Removal(t: seq<Exchange>, data: string, copyEtag: Option<string>, gone: bool) {
    && 1 <= |t| <= 2
    && (forall i :: 0 <= i < |t| ==> t[i].Sent? && (t[i].request == GetCopy || RemovesTheCopy(t, i, data, copyEtag)))
    && (|t| == 2 ==> t[0].request == GetCopy)
    && (gone <==> CopyGone(t[|t| - 1]))
  }

  class CalDavMove {
    const host: Host
    const from: string
    const to: string
    const data: string

    constructor (host: Host, from: string, to: string, data: string)
      ensures this.host == host && this.from == from && this.to == to && this.data == data
    {
      this.host, this.from, this.to, this.data := host, from, to, data;
    }

    /** `removeCopy`, with a request that fails outright taken as the copy left in place, as `rolledBack` takes it. */
    method RemoveCopy(copyEtag: Option<string>) returns (gone: bool, ghost t: seq<Exchange>)
      modifies host
      ensures host.log == old(host.log) + t
      ensures Removal(t, data, copyEtag, gone)
    {
      t := [];
      var guard := StrongOrNone(copyEtag);
      if guard.None? {
        var read := host.Fetch(GetCopy);
        t := t + [Sent(GetCopy, read)];
        if Absent(read) { return true, t; }
        if !Unchanged(read, data) { return false, t; }
        guard := StrongOrNone(read.etag);
      }
      var res := host.Fetch(DeleteCopy(guard));
      t := t + [Sent(DeleteCopy(guard), res)];
      gone := Ok(res) || Absent(res);
    }

    /** `rolledBack`: the refusal, once the copy is gone; the one naming both URLs where it may not be. */
    method RolledBack(copyEtag: Option<string>) returns (o: Outcome, ghost t: seq<Exchange>)
      modifies host
      ensures host.log == old(host.log) + t
      ensures o in {NothingMoved, LookForYourself} && Removal(t, data, copyEtag, o == NothingMoved)
    {
      var gone;
      gone, t := RemoveCopy(copyEtag);
      o := if gone then NothingMoved else LookForYourself;
    }

    /** `putCopy`: the ETag it answered, or how the move ends. */
    method PutTheCopy()
      returns (etag: Option<string>, end: Option<Outcome>, ghost put: Exchange, ghost roll: seq<Exchange>)
      modifies host
      ensures host.log == old(host.log) + [put] + roll
      ensures put.Sent? && put.request == PutCopy
      ensures end.None? <==> Ok(put.answer)
      ensures end.None? ==> roll == [] && etag == put.answer.etag
      ensures end.Some? ==> EndsWithoutSource(put, roll, end.value, data)
    {
      var a := host.Fetch(PutCopy);
      put, roll := Sent(PutCopy, a), [];
      if Ok(a) { return a.etag, None, put, roll; }
      if a.Answered? && (UidConflict(a) || a.status < 500) { return None, Some(NothingMoved), put, roll; }
      var o;
      o, roll := RolledBack(None);
      return None, Some(o), put, roll;
    }

    /** `sourceUnchanged`: the strong ETag of a read that found the text copied, or none where it did not. */
    method SourceUnchanged() returns (ok: bool, etag: Option<string>, ghost t: seq<Exchange>)
      modifies host
      ensures host.log == old(host.log) + t
      ensures |t| == 1 && t[0].Sent? && t[0].request == GetSource
      ensures ok <==> Unchanged(t[0].answer, data)
      ensures ok ==> etag == StrongOrNone(t[0].answer.etag)
    {
      var read := host.Fetch(GetSource);
      t := [Sent(GetSource, read)];
      ok := Unchanged(read, data);
      etag := if ok then StrongOrNone(read.etag) else None;
    }

    /** `copyThenDelete`. */
    method CopyThenDelete(ifMatch: Option<string>) returns (o: Outcome, ghost run: CopyRun)
      modifies host
      ensures host.log == old(host.log) + run.Trace()
      ensures ValidCopy(run, ifMatch, from, data, o)
    {
      var copyEtag, end;
      ghost var put, check, result, del, roll;
      copyEtag, end, put, roll := PutTheCopy();
      if end.Some? {
        o := end.value;
        run := CopyRun(put, [], [], Broken, roll);
        assert run.Trace() == [put] + roll;
        return;
      }
      o, check, result, del, roll := RemoveTheSource(ifMatch, copyEtag);
      run := CopyRun(put, check, del, result, roll);
    }

    /** What follows the copy: the source checked where nothing guards its DELETE, then deleted. */
    method RemoveTheSource(ifMatch: Option<string>, copyEtag: Option<string>)
      returns (o: Outcome, ghost check: seq<Exchange>, ghost result: WriteResult, ghost del: seq<Exchange>,
               ghost roll: seq<Exchange>)
      modifies host
      ensures host.log == old(host.log) + check + del + roll
      ensures SourceRemoved(check, del, result, roll, ifMatch, copyEtag, from, data, o)
    {
      var guard := ifMatch;
      check := [];
      if ifMatch.None? || ifMatch == Some(ANY) {
        var ok, etag;
        ok, etag, check := SourceUnchanged();
        if !ok {
          result, del := Broken, [];
          o, roll := RolledBack(copyEtag);
          return;
        }
        if etag.Some? { guard := etag; }
      }
      o, result, del, roll := DeleteTheSource(guard, copyEtag);
    }

    /** The DELETE of the source, and the copy taken away where the source is certainly still there. */
    method DeleteTheSource(guard: Option<string>, copyEtag: Option<string>)
      returns (o: Outcome, ghost result: WriteResult, ghost del: seq<Exchange>, ghost roll: seq<Exchange>)
      modifies host
      ensures host.log == old(host.log) + del + roll
      ensures Guarded(del, true, guard, from, result) && AfterDelete(result, roll, copyEtag, data, o)
    {
      var r;
      r, del := GuardedWrite(host, true, guard, from);
      result, roll := r, [];
      if r == Written {
        o := Moved;
      } else if r == Broken || (r.HttpError? && r.status >= 500) {
        o := LookForYourself;
      } else {
        o, roll := RolledBack(copyEtag);
      }
    }

    /** `whereItWent`: the event looked for in both calendars. */
    method WhereItWent() returns (o: Outcome, ghost t: seq<Exchange>)
      modifies host
      ensures host.log == old(host.log) + t
      ensures ValidSearch(t, o)
    {
      var inSource := host.LookUp(false);
      t := [Searched(false, inSource)];
      if inSource.Failed? { return LookForYourself, t; }
      var inTarget := host.LookUp(true);
      t := t + [Searched(true, inTarget)];
      if inTarget.Failed? { return LookForYourself, t; }
      if inTarget.Found? && inSource.Nowhere? { return Moved, t; }
      if inSource.Found? && inTarget.Nowhere? { return NothingMoved, t; }
      o := LookForYourself;
    }

    /** `moveObject`. */
    method MoveObject(ifMatch: Option<string>) returns (o: Outcome, ghost t: seq<Exchange>)
      modifies host
      ensures host.log == old(host.log) + t
      ensures Disciplined(t, data, ifMatch) && Truthful(t, o)
    {
      var res := host.Fetch(MoveIt(ifMatch));
      ghost var first := Sent(MoveIt(ifMatch), res);
      t := [first];
      if res.Lost? {
        ghost var search;
        o, search := WhereItWent();
        SearchIsDisciplined(first, search, data, ifMatch, o);
        return o, [first] + search;
      }
      if Ok(res) { return Moved, t; }
      if UidConflict(res) || res.status == 412 { return NothingMoved, t; }
      if MoveRefused(res) {
        ghost var run;
        o, run := CopyThenDelete(ifMatch);
        CopyIsDisciplined(first, run, ifMatch, from, data, o);
        return o, [first] + run.Trace();
      }
      if res.status >= 500 {
        ghost var search;
        o, search := WhereItWent();
        SearchIsDisciplined(first, search, data, ifMatch, o);
        return o, [first] + search;
      }
      if res.status == 404 { return NothingMoved, t; }
      o := ServerSaid(res.status);
    }
  }

  // ---------------------------------------------------------------------
  // What every run keeps to
  // ---------------------------------------------------------------------

  /** The requests of the fallback: the PUT, the check of the source, its DELETE, and what takes the copy away again. */
  datatype CopyRun = CopyRun(put: Exchange, check: seq<Exchange>, del: seq<Exchange>, result: WriteResult,
                             roll: seq<Exchange>) {
    function Trace(): seq<Exchange> {
      [put] + check + del + roll
    }
  }

  ghost predicate ValidCopy(run: CopyRun, ifMatch: Option<string>, from: string, data: string, o: Outcome) {
    && run.put.Sent? && run.put.request == PutCopy
    && (if Ok(run.put.answer)
        then SourceRemoved(run.check, run.del, run.result, run.roll, ifMatch, run.put.answer.etag, from, data, o)
        else run.check == [] && run.del == [] && EndsWithoutSource(run.put, run.roll, o, data))
  }

  ghost predicate SourceRemoved(check: seq<Exchange>, del: seq<Exchange>, result: WriteResult, roll: seq<Exchange>,
                                ifMatch: Option<string>, copyEtag: Option<string>, from: string, data: string,
                                o: Outcome)
  {
    if ifMatch.Some? && ifMatch != Some(ANY) then
      check == [] && Guarded(del, true, ifMatch, from, result) && AfterDelete(result, roll, copyEtag, data, o)
    else
      && |check| == 1 && check[0].Sent? && check[0].request == GetSource
      && (if Unchanged(check[0].answer, data) then
            var read := StrongOrNone(check[0].answer.etag);
            Guarded(del, true, if read.Some? then read else ifMatch, from, result)
              && AfterDelete(result, roll, copyEtag, data, o)
          else del == [] && o in {NothingMoved, LookForYourself} && Removal(roll, data, copyEtag, o == NothingMoved))
  }

  ghost predicate AfterDelete(result: WriteResult, roll: seq<Exchange>, copyEtag: Option<string>, data: string,
                              o: Outcome) {
    if result == Written then o == Moved && roll == []
    else if result == Broken || (result.HttpError? && result.status >= 500) then o == LookForYourself && roll == []
    else o in {NothingMoved, LookForYourself} && Removal(roll, data, copyEtag, o == NothingMoved)
  }

  ghost predicate ValidSearch(t: seq<Exchange>, o: Outcome) {
    && 1 <= |t| <= 2 && t[0].Searched? && !t[0].target && (|t| == 2 ==> t[1].Searched? && t[1].target)
    && (o == Moved <==> |t| == 2 && t[0].found.Nowhere? && t[1].found.Found?)
    && (o == NothingMoved <==> |t| == 2 && t[0].found.Found? && t[1].found.Nowhere?)
    && !o.ServerSaid?
  }

  /** The server's answer says for certain that the request was not carried out. */
  predicate Certain(a: Answer) {
    a.Answered? && !Ok(a) && (a.status < 500 || UidConflict(a))
  }

  /** So does a definite refusal of MOVE itself. */
  predicate NotMoved(a: Answer) {
    Certain(a) || MoveRefused(a)
  }

  predicate IsDeleteSource(e: Exchange) {
    e.Sent? && e.request.DeleteSource?
  }

  predicate IsDeleteCopy(e: Exchange) {
    e.Sent? && e.request.DeleteCopy?
  }

  ghost predicate Copied(t: seq<Exchange>) {
    |t| > 1 && t[1] .Sent? && t[1].request == PutCopy
  }

  /**
   * The order every move keeps: the MOVE first and once; the PUT only after it
   * was certainly refused; the source deleted only after the PUT was answered
   * 2xx; the copy deleted last, only once every DELETE of the source is
   * certain not to have been carried out, and only under its own guard.
   */
  ghost predicate Disciplined(t: seq<Exchange>, data: string, ifMatch: Option<string>) {
    && |t| >= 1 && t[0].Sent? && t[0].request.MoveIt?
    && forall i :: 0 <= i < |t| ==> InItsPlace(t, i, data, ifMatch)
  }

  ghost predicate InItsPlace(t: seq<Exchange>, i: int, data: string, ifMatch: Option<string>)
    requires 0 <= i < |t| && t[0].Sent?
  {
    t[i].Sent? ==>
      match t[i].request
      case MoveIt(g) => i == 0 && g == ifMatch
      case PutCopy => i == 1 && MoveRefused(t[0].answer)
      case DeleteSource(g) =>
        && i > 1 && Copied(t) && Ok(t[1].answer)
        && (if ifMatch.Some? && ifMatch != Some(ANY) then g == ifMatch
            else
              && i > 2 && t[2].Sent? && t[2].request == GetSource && Unchanged(t[2].answer, data)
              && (i == 3 ==> g == if StrongOrNone(t[2].answer.etag).Some? then StrongOrNone(t[2].answer.etag)
                  else ifMatch))
      case DeleteCopy(_) =>
        && i == |t| - 1 && i > 1 && Copied(t)
        && (forall h :: 0 <= h < i && IsDeleteSource(t[h]) ==> Certain(t[h].answer))
        && RemovesTheCopy(t, i, data, if Ok(t[1].answer) then t[1].answer.etag else None)
      case GetSource => i == 2 && Copied(t)
      case GetCopy => i > 1 && Copied(t)
      case PutSource(_) => false
  }

  /** The event was found in one calendar and not in the other. */
  predicate FoundOnlyIn(t: seq<Exchange>, target: bool) {
    && |t| == 3 && t[1].Searched? && t[2].Searched? && !t[1].target && t[2].target
    && (if target then t[1].found.Nowhere? && t[2].found.Found? else t[1].found.Found? && t[2].found.Nowhere?)
  }

  /** What an answer of each kind rests on. */
  ghost predicate Truthful(t: seq<Exchange>, o: Outcome)
    requires |t| >= 1 && t[0].Sent?
  {
    match o
    case Moved =>
      || Ok(t[0].answer)
      || (!NotMoved(t[0].answer) && FoundOnlyIn(t, true))
      || (Copied(t) && Ok(t[1].answer) && IsDeleteSource(t[|t| - 1]) && Ok(t[|t| - 1].answer))
    case NothingMoved =>
      && !Ok(t[0].answer)
      && (NotMoved(t[0].answer) || FoundOnlyIn(t, false))
      && (forall i :: 0 <= i < |t| && IsDeleteSource(t[i]) ==> Certain(t[i].answer))
      && (Copied(t) ==> Certain(t[1].answer) || CopyGone(t[|t| - 1]))
    case LookForYourself =>
      && !Ok(t[0].answer)
      && (if NotMoved(t[0].answer) then Copied(t) && !Certain(t[1].answer) && !CopyGone(t[|t| - 1])
          else !FoundOnlyIn(t, true) && !FoundOnlyIn(t, false))
    case ServerSaid(status) => |t| == 1 && NotMoved(t[0].answer) && t[0].answer.status == status
  }

  lemma SearchIsDisciplined(first: Exchange, search: seq<Exchange>, data: string, ifMatch: Option<string>, o: Outcome)
    requires first.Sent? && first.request == MoveIt(ifMatch) && !Ok(first.answer) && !NotMoved(first.answer)
    requires ValidSearch(search, o)
    ensures Disciplined([first] + search, data, ifMatch) && Truthful([first] + search, o)
  {
  }

  lemma Pieces(first: Exchange, run: CopyRun)
    ensures var t := [first] + run.Trace();
            var (c, d, r) := (2, 2 + |run.check|, 2 + |run.check| + |run.del|);
            && |t| == r + |run.roll| && t[0] == first && t[1] == run.put
            && (forall i :: c <= i < d ==> t[i] == run.check[i - c])
            && (forall i :: d <= i < r ==> t[i] == run.del[i - d])
            && (forall i :: r <= i < |t| ==> t[i] == run.roll[i - r])
  {
  }

  /**
   * What a guarded DELETE of the source sends keeps its place, and all of it is
   * certain not to have been carried out where the result says so.
   */
  lemma DeleteIsDisciplined(del: seq<Exchange>, guard: Option<string>, from: string, result: WriteResult)
    requires Guarded(del, true, guard, from, result)
    ensures forall i :: 0 <= i < |del| ==>
              del[i].Searched?
              || (IsDeleteSource(del[i]) && (i == 0 || guard != Some(ANY) ==> del[i].request.ifMatch == guard))
    ensures result != Written && result != Broken && !(result.HttpError? && result.status >= 500) ==>
              forall i :: 0 <= i < |del| && IsDeleteSource(del[i]) ==> Certain(del[i].answer)
    ensures result == Written ==> IsDeleteSource(del[|del| - 1]) && Ok(del[|del| - 1].answer)
  {
  }

  lemma {:induction false} CopyIsDisciplined(first: Exchange, run: CopyRun, ifMatch: Option<string>, from: string,
                                             data: string, o: Outcome)
    requires first.Sent? && first.request == MoveIt(ifMatch) && !Ok(first.answer) && MoveRefused(first.answer)
    requires ValidCopy(run, ifMatch, from, data, o)
    ensures Disciplined([first] + run.Trace(), data, ifMatch) && Truthful([first] + run.Trace(), o)
  {
    Pieces(first, run);
    var t := [first] + run.Trace();
    if !Ok(run.put.answer) {
      if run.roll != [] { RollIsDisciplined(t, 2, run.roll, data, None, ifMatch); }
    } else {
      WrittenCopyIsDisciplined(t, run, ifMatch, from, data, o);
    }
  }

  lemma {:induction false} WrittenCopyIsDisciplined(t: seq<Exchange>, run: CopyRun, ifMatch: Option<string>,
                                                    from: string, data: string, o: Outcome)
    requires |t| == 2 + |run.check| + |run.del| + |run.roll| && t[0].Sent? && t[0].request == MoveIt(ifMatch)
    requires MoveRefused(t[0].answer) && !Ok(t[0].answer)
    requires t[1] == run.put && run.put.Sent? && Ok(run.put.answer)
    requires var (c, d, r) := (2, 2 + |run.check|, 2 + |run.check| + |run.del|);
            && (forall i :: c <= i < d ==> t[i] == run.check[i - c])
            && (forall i :: d <= i < r ==> t[i] == run.del[i - d])
            && (forall i :: r <= i < |t| ==> t[i] == run.roll[i - r])
    requires ValidCopy(run, ifMatch, from, data, o)
    ensures Disciplined(t, data, ifMatch) && Truthful(t, o)
  {
    WrittenCopyIsInPlace(t, run, ifMatch, from, data, o);
    WrittenCopyIsTruthful(t, run, ifMatch, from, data, o);
  }

  lemma {:induction false} DeletesAreCertain(t: seq<Exchange>, run: CopyRun, ifMatch: Option<string>, from: string,
                                             data: string, o: Outcome)
    requires |t| == 2 + |run.check| + |run.del| + |run.roll| && t[0].Sent? && t[0].request == MoveIt(ifMatch)
    requires MoveRefused(t[0].answer) && !Ok(t[0].answer)
    requires t[1] == run.put && run.put.Sent? && Ok(run.put.answer)
    requires var (c, d, r) := (2, 2 + |run.check|, 2 + |run.check| + |run.del|);
            && (forall i :: c <= i < d ==> t[i] == run.check[i - c])
            && (forall i :: d <= i < r ==> t[i] == run.del[i - d])
            && (forall i :: r <= i < |t| ==> t[i] == run.roll[i - r])
    requires ValidCopy(run, ifMatch, from, data, o)
    ensures var (d, r) := (2 + |run.check|, 2 + |run.check| + |run.del|);
            && (forall i :: d <= i < r ==> t[i].Searched? || IsDeleteSource(t[i]))
            && (run.roll != [] ==> forall h :: 0 <= h < r && IsDeleteSource(t[h]) ==> Certain(t[h].answer))
  {
    if run.del != [] {
      var read := if run.check == [] then None else StrongOrNone(run.check[0].answer.etag);
      DeleteIsDisciplined(run.del, if read.Some? then read else ifMatch, from, run.result);
    }
  }

  lemma {:induction false} WrittenCopyIsInPlace(t: seq<Exchange>, run: CopyRun, ifMatch: Option<string>, from: string,
                                                data: string, o: Outcome)
    requires |t| == 2 + |run.check| + |run.del| + |run.roll| && t[0].Sent? && t[0].request == MoveIt(ifMatch)
    requires MoveRefused(t[0].answer) && !Ok(t[0].answer)
    requires t[1] == run.put && run.put.Sent? && Ok(run.put.answer)
    requires var (c, d, r) := (2, 2 + |run.check|, 2 + |run.check| + |run.del|);
            && (forall i :: c <= i < d ==> t[i] == run.check[i - c])
            && (forall i :: d <= i < r ==> t[i] == run.del[i - d])
            && (forall i :: r <= i < |t| ==> t[i] == run.roll[i - r])
    requires ValidCopy(run, ifMatch, from, data, o)
    ensures Disciplined(t, data, ifMatch)
  {
    var r := 2 + |run.check| + |run.del|;
    DeletesAreCertain(t, run, ifMatch, from, data, o);
    if run.del != [] {
      var read := if run.check == [] then None else StrongOrNone(run.check[0].answer.etag);
      DeleteIsDisciplined(run.del, if read.Some? then read else ifMatch, from, run.result);
    }
    if run.roll != [] { RollIsDisciplined(t, r, run.roll, data, run.put.answer.etag, ifMatch); }
  }

  lemma {:induction false} WrittenCopyIsTruthful(t: seq<Exchange>, run: CopyRun, ifMatch: Option<string>, from: string,
                                                 data: string, o: Outcome)
    requires |t| == 2 + |run.check| + |run.del| + |run.roll| && t[0].Sent? && t[0].request == MoveIt(ifMatch)
    requires MoveRefused(t[0].answer) && !Ok(t[0].answer)
    requires t[1] == run.put && run.put.Sent? && Ok(run.put.answer)
    requires var (c, d, r) := (2, 2 + |run.check|, 2 + |run.check| + |run.del|);
            && (forall i :: c <= i < d ==> t[i] == run.check[i - c])
            && (forall i :: d <= i < r ==> t[i] == run.del[i - d])
            && (forall i :: r <= i < |t| ==> t[i] == run.roll[i - r])
    requires ValidCopy(run, ifMatch, from, data, o)
    ensures Truthful(t, o)
  {
    DeletesAreCertain(t, run, ifMatch, from, data, o);
    if run.del != [] {
      var read := if run.check == [] then None else StrongOrNone(run.check[0].answer.etag);
      DeleteIsDisciplined(run.del, if read.Some? then read else ifMatch, from, run.result);
    }
  }

  lemma RollIsDisciplined(t: seq<Exchange>, r: nat, roll: seq<Exchange>, data: string, etag: Option<string>,
                          ifMatch: Option<string>)
    requires 2 <= r && |t| == r + |roll| && t[0].Sent? && Copied(t)
    requires forall i :: r <= i < |t| ==> t[i] == roll[i - r]
    requires forall h :: 0 <= h < r && IsDeleteSource(t[h]) ==> Certain(t[h].answer)
    requires etag == if Ok(t[1].answer) then t[1].answer.etag else None
    requires exists gone :: Removal(roll, data, etag, gone)
    ensures forall i :: r <= i < |t| ==> InItsPlace(t, i, data, ifMatch)
  {
    forall i | r <= i < |t| ensures InItsPlace(t, i, data, ifMatch) {
      var k := i - r;
      assert t[i] == roll[k] && (k > 0 ==> t[i - 1] == roll[k - 1]);
      assert roll[k].request == GetCopy || RemovesTheCopy(roll, k, data, etag);
    }
  }
}
