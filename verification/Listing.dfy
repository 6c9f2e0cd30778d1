/**
 * What a listing is made of, key by key (src/ical-expand.ts): the override each
 * start is replaced by, and the overrides that no start meets, which are listed
 * at their own times. All of it depends on the overrides only by which of them
 * counts for each key.
 */
module Listing {
  import opened Options
  import opened Series
  import opened Reader

  /** The override that counts for a key. */
  type Lookup = Key -> Option<Override>

  function Counted(os: seq<Override>, allDay: bool): Lookup {
    key => Current(os, allDay, key)
  }

  /** A start with no override under its own key. */
  predicate Open(c: Lookup, t: Time) {
    c(KeyOf(t, false)).None?
  }

  /** Some start before the `k`th, on its day, took the DATE override of that day. */
  ghost predicate Taken(c: Lookup, walk: seq<Time>, k: nat)
    requires k < |walk|
  {
    exists j :: 0 <= j < k && DayOf(walk[j]) == DayOf(walk[k]) && Open(c, walk[j])
  }

  /** What the `k`th start is replaced by. */
  ghost function Replaced(c: Lookup, allDay: bool, walk: seq<Time>, k: nat): Option<Override>
    requires k < |walk|
  {
    var own := c(KeyOf(walk[k], allDay));
    if own.Some? || allDay then own
    else if Taken(c, walk, k) then None
    else c(OnDay(DayOf(walk[k])))
  }

  /** A start that is replaced by what counts for `key`, or would be if no other of its day were before it. */
  predicate Wants(c: Lookup, allDay: bool, t: Time, key: Key) {
    KeyOf(t, allDay) == key || (!allDay && OnDay(DayOf(t)) == key && Open(c, t))
  }

  ghost predicate Wanted(c: Lookup, allDay: bool, walk: seq<Time>, key: Key) {
    exists k :: 0 <= k < |walk| && Wants(c, allDay, walk[k], key)
  }

  /** The override that counts for `key` where no start meets it: it is listed at its own time. */
  ghost function Alone(c: Lookup, allDay: bool, walk: seq<Time>, key: Key): Option<Override> {
    if Wanted(c, allDay, walk, key) then None else c(key)
  }

  /** That of a series. */
  ghost function OnItsOwn(m: Master, os: seq<Override>, walk: seq<Time>, key: Key): Option<Override> {
    Alone(Counted(os, m.start.isDate), m.start.isDate, walk, key)
  }

  lemma ReplacedIs(os: seq<Override>, allDay: bool, walk: seq<Time>, k: nat)
    requires k < |walk|
    ensures var i := MatchOf(os, allDay, walk, k);
            Replaced(Counted(os, allDay), allDay, walk, k) == if i.Some? then Some(os[i.value]) else None
    ensures !allDay ==> (Taken(Counted(os, false), walk, k) <==> DateTaken(os, false, walk, k))
  {
    if !allDay {
      assert forall t :: Open(Counted(os, false), t) <==> OpenToDate(os, false, t);
    }
  }

  lemma EntryIs(m: Master, os: seq<Override>, walk: seq<Time>, k: nat)
    requires k < |walk|
    ensures var o := Replaced(Counted(os, m.start.isDate), m.start.isDate, walk, k);
            EntryAt(m, os, walk, k) ==
            if o.Some? then EntryOf(o.value) else UnmatchedEntry(m, os, m.start.isDate, walk[k])
  {
    ReplacedIs(os, m.start.isDate, walk, k);
  }

  /** An override that counts is met by some start exactly where one wants it. */
  lemma MetIff(os: seq<Override>, allDay: bool, walk: seq<Time>, i: nat)
    requires OneForm(walk, allDay) && Counts(os, allDay, i)
    ensures MetBy(os, allDay, walk, |walk|, i) <==>
            Wanted(Counted(os, allDay), allDay, walk, KeyOf(os[i].rid, allDay))
  {
    var (c, key) := (Counted(os, allDay), KeyOf(os[i].rid, allDay));
    CurrentIs(os, allDay, key, i);
    if k :| 0 <= k < |walk| && MatchOf(os, allDay, walk, k) == Some(i) {
      assert Wants(c, allDay, walk[k], key);
    }
    if k :| 0 <= k < |walk| && Wants(c, allDay, walk[k], key) {
      if KeyOf(walk[k], allDay) == key {
        assert MatchOf(os, allDay, walk, k) == Some(i);
      } else if DateTaken(os, false, walk, k) {
        DateMetIff(os, false, walk, k, i);
      } else {
        assert MatchOf(os, allDay, walk, k) == Some(i);
      }
    }
  }

  /** So the items of a listing that are no start are those on their own. */
  lemma OnItsOwnIff(m: Master, os: seq<Override>, walk: seq<Time>, i: nat)
    requires OneForm(walk, m.start.isDate) && i < |os|
    ensures IsItem(m, os, walk, Changed(i)) && !MetBy(os, m.start.isDate, walk, |walk|, i) <==>
            OnItsOwn(m, os, walk, KeyOf(os[i].rid, m.start.isDate)) == Some(os[i])
            && CurrentIndex(os, m.start.isDate, KeyOf(os[i].rid, m.start.isDate)) == Some(i)
  {
    var (allDay, key) := (m.start.isDate, KeyOf(os[i].rid, m.start.isDate));
    if Counts(os, allDay, i) {
      CurrentIs(os, allDay, key, i);
      MetIff(os, allDay, walk, i);
    }
  }

  // ---------------------------------------------------------------------
  // One key newly named
  // ---------------------------------------------------------------------

  /**
   * From `c` to `d` the key `w` is named, whether or not it was; `k` still is
   * if it was, perhaps for another override; and nothing else changes.
   */
  ghost predicate Turned(c: Lookup, d: Lookup, k: Key, w: Key) {
    && (forall x :: x != k && x != w ==> d(x) == c(x))
    && d(w).Some? && (k != w ==> (d(k).Some? <==> c(k).Some?))
  }

  /** The start `h` took its day's DATE override. */
  ghost predicate Took(c: Lookup, walk: seq<Time>, h: nat)
    requires h < |walk|
  {
    Open(c, walk[h]) && !Taken(c, walk, h) && c(OnDay(DayOf(walk[h]))).Some?
  }

  /** `j` is the next start of that day to take it. */
  ghost predicate Heir(c: Lookup, walk: seq<Time>, h: nat, j: nat)
    requires h < |walk| && j < |walk|
  {
    && h < j && DayOf(walk[j]) == DayOf(walk[h]) && Open(c, walk[j])
    && forall t :: h < t < j && DayOf(walk[t]) == DayOf(walk[h]) ==> !Open(c, walk[t])
  }

  /** The only start whose key is `w` is `h`, or there is none. */
  ghost predicate OnlyStart(walk: seq<Time>, allDay: bool, w: Key, h: nat) {
    && (h < |walk| ==> KeyOf(walk[h], allDay) == w)
    && forall t :: 0 <= t < |walk| && t != h ==> KeyOf(walk[t], allDay) != w
  }

  lemma TurnedOpen(c: Lookup, d: Lookup, walk: seq<Time>, k: Key, w: Key, h: nat)
    requires Turned(c, d, k, w) && OneForm(walk, false) && OnlyStart(walk, false, w, h)
    ensures forall t :: 0 <= t < |walk| && t != h ==> (Open(d, walk[t]) <==> Open(c, walk[t]))
    ensures h < |walk| ==> !Open(d, walk[h])
  {
  }

  /** Every other start is replaced as it was, but for the heir of the DATE override `h` took before. */
  lemma TurnedElsewhere(c: Lookup, d: Lookup, walk: seq<Time>, k: Key, w: Key, h: nat, j: nat)
    requires Turned(c, d, k, w) && w.AtInstant? && OneForm(walk, false) && OnlyStart(walk, false, w, h)
    requires j < |walk| && j != h && (k != w ==> Replaced(c, false, walk, j).None? || !Wants(c, false, walk[j], k))
    requires k != w && h < |walk| ==> k != OnDay(DayOf(walk[h])) || !Took(c, walk, h)
    ensures Replaced(d, false, walk, j) ==
            if h < |walk| && Took(c, walk, h) && Heir(c, walk, h, j) then c(OnDay(DayOf(walk[h])))
            else Replaced(c, false, walk, j)
  {
    TurnedOpen(c, d, walk, k, w, h);
    if Open(c, walk[j]) {
      TurnedTaken(c, d, walk, k, w, h, j);
    }
  }

  lemma TurnedTaken(c: Lookup, d: Lookup, walk: seq<Time>, k: Key, w: Key, h: nat, j: nat)
    requires Turned(c, d, k, w) && w.AtInstant? && OneForm(walk, false) && OnlyStart(walk, false, w, h)
    requires j < |walk| && j != h && Open(c, walk[j])
    ensures Taken(c, walk, j) && !Taken(d, walk, j) <==>
            h < |walk| && Open(c, walk[h]) && !Taken(c, walk, h) && Heir(c, walk, h, j)
    ensures Taken(d, walk, j) ==> Taken(c, walk, j)
  {
    TurnedOpen(c, d, walk, k, w, h);
    if Taken(c, walk, j) && !Taken(d, walk, j) {
      var t :| 0 <= t < j && DayOf(walk[t]) == DayOf(walk[j]) && Open(c, walk[t]);
      assert t == h;
    }
  }

  /** And every other override on its own is, but that one where there is no heir. */
  lemma TurnedAlone(c: Lookup, d: Lookup, walk: seq<Time>, k: Key, w: Key, h: nat, x: Key)
    requires Turned(c, d, k, w) && w.AtInstant? && OneForm(walk, false) && OnlyStart(walk, false, w, h)
    requires x != w && (x != k || k == w)
    ensures Alone(d, false, walk, x) == if Freed(c, walk, h, x) then c(x) else Alone(c, false, walk, x)
  {
    TurnedOpen(c, d, walk, k, w, h);
    assert forall t :: 0 <= t < |walk| && t != h ==> (Wants(d, false, walk[t], x) <==> Wants(c, false, walk[t], x));
    if Freed(c, walk, h, x) {
      forall t | 0 <= t < |walk| ensures !Wants(d, false, walk[t], x) {
        if Wants(d, false, walk[t], x) { NoOtherTaker(c, walk, h, t); }
      }
    } else if h < |walk| && Wants(c, false, walk[h], x) && Wanted(c, false, walk, x) && !Wanted(d, false, walk, x) {
      if t :| 0 <= t < h && DayOf(walk[t]) == DayOf(walk[h]) && Open(c, walk[t]) {
        assert Wants(d, false, walk[t], x);
      }
      if t :| 0 <= t < |walk| && Heir(c, walk, h, t) {
        assert Wants(d, false, walk[t], x);
      }
    } else if Wanted(c, false, walk, x) {
      var t :| 0 <= t < |walk| && Wants(c, false, walk[t], x);
      if t != h { assert Wants(d, false, walk[t], x); }
    }
  }

  /** The DATE override under `x`, which `h` took, and which no start of the day takes after it. */
  ghost predicate Freed(c: Lookup, walk: seq<Time>, h: nat, x: Key) {
    && h < |walk| && x == OnDay(DayOf(walk[h])) && Took(c, walk, h)
    && forall j :: 0 <= j < |walk| ==> !Heir(c, walk, h, j)
  }

  lemma {:induction false} NoOtherTaker(c: Lookup, walk: seq<Time>, h: nat, t: nat)
    requires h < |walk| && t < |walk| && t != h && Took(c, walk, h)
    requires DayOf(walk[t]) == DayOf(walk[h]) && Open(c, walk[t])
    ensures exists j :: 0 <= j < |walk| && Heir(c, walk, h, j)
    decreases t
  {
    assert t > h;
    if !Heir(c, walk, h, t) {
      var s :| h < s < t && DayOf(walk[s]) == DayOf(walk[h]) && Open(c, walk[s]);
      NoOtherTaker(c, walk, h, s);
    }
  }

  // ---------------------------------------------------------------------
  // One start fewer
  // ---------------------------------------------------------------------

  function Without(walk: seq<Time>, k: nat): seq<Time>
    requires k < |walk|
  {
    walk[..k] + walk[k + 1..]
  }

  /** Where the `j`th start is then. */
  function After(k: nat, j: nat): nat
    requires j != k
  {
    if j < k then j else j - 1
  }

  lemma WithoutAt(walk: seq<Time>, k: nat, j: nat)
    requires k < |walk| && j < |walk| && j != k
    ensures Without(walk, k)[After(k, j)] == walk[j]
  {
  }

  /** The DATE override of another start's day is taken alike without a start that is not open. */
  lemma TakenWithout(c: Lookup, d: Lookup, walk: seq<Time>, k: nat, j: nat)
    requires k < |walk| && j < |walk| && j != k
    requires forall h :: 0 <= h < |walk| && h != k ==> Open(d, walk[h]) == Open(c, walk[h])
    requires DayOf(walk[k]) == DayOf(walk[j]) ==> !Open(c, walk[k])
    ensures Taken(d, Without(walk, k), After(k, j)) <==> Taken(c, walk, j)
  {
    var (walk', j') := (Without(walk, k), After(k, j));
    WithoutAt(walk, k, j);
    if h :| 0 <= h < j && DayOf(walk[h]) == DayOf(walk[j]) && Open(c, walk[h]) {
      WithoutAt(walk, k, h);
      assert After(k, h) < j' && Open(d, walk'[After(k, h)]);
    }
    if h :| 0 <= h < j' && DayOf(walk'[h]) == DayOf(walk'[j']) && Open(d, walk'[h]) {
      WithoutAt(walk, k, if h < k then h else h + 1);
    }
  }

  /**
   * A start gone, and with it the overrides of the key it was addressed by:
   * every other start is replaced as it was, but one that such an override had
   * replaced is by none.
   */
  lemma RemovedElsewhere(c: Lookup, d: Lookup, allDay: bool, walk: seq<Time>, k: nat, key: Key, j: nat)
    requires k < |walk| && j < |walk| && j != k && OneForm(walk, allDay)
    requires forall t :: 0 <= t < |walk| && t != k ==> KeyOf(walk[t], allDay) != KeyOf(walk[k], allDay)
    requires forall x :: x != key ==> d(x) == c(x)
    requires d(key).None? && AddressedUnder(c, allDay, walk[k], key)
    ensures Replaced(d, allDay, Without(walk, k), After(k, j)) ==
            if KeyOf(walk[j], allDay) != key && Wants(c, allDay, walk[j], key) then None
              else Replaced(c, allDay, walk, j)
  {
    WithoutAt(walk, k, j);
    if !allDay && (DayOf(walk[k]) != DayOf(walk[j]) || !Open(c, walk[k])) {
      TakenWithout(c, d, walk, k, j);
    }
  }

  /** The key a start is addressed by: its own, or its day's where only that is named. */
  predicate AddressedUnder(c: Lookup, allDay: bool, t: Time, key: Key) {
    key == if !allDay && Open(c, t) && c(OnDay(DayOf(t))).Some? then OnDay(DayOf(t)) else KeyOf(t, allDay)
  }

  /** And what is on its own is what was. */
  lemma RemovedAlone(c: Lookup, d: Lookup, allDay: bool, walk: seq<Time>, k: nat, key: Key, x: Key)
    requires k < |walk| && OneForm(walk, allDay)
    requires forall t :: 0 <= t < |walk| && t != k ==> KeyOf(walk[t], allDay) != KeyOf(walk[k], allDay)
    requires forall y :: y != key ==> d(y) == c(y)
    requires d(key).None? && AddressedUnder(c, allDay, walk[k], key)
    ensures Alone(d, allDay, Without(walk, k), x) == Alone(c, allDay, walk, x)
  {
    var walk' := Without(walk, k);
    assert forall t :: 0 <= t < |walk| && t != k ==> (Wants(d, allDay, walk[t], x) <==> Wants(c, allDay, walk[t], x));
    if t :| 0 <= t < |walk| && t != k && Wants(c, allDay, walk[t], x) {
      WithoutAt(walk, k, t);
      assert Wants(d, allDay, walk'[After(k, t)], x);
    } else {
      forall n | 0 <= n < |walk'| ensures !Wants(d, allDay, walk'[n], x) {
        WithoutAt(walk, k, if n < k then n else n + 1);
      }
    }
  }

  /** A start gone and no override: another may come into a DATE override it took. */
  lemma DroppedElsewhere(c: Lookup, allDay: bool, walk: seq<Time>, h: nat, j: nat)
    requires h < |walk| && j < |walk| && j != h
    ensures Replaced(c, allDay, Without(walk, h), After(h, j)) ==
            if !allDay && Took(c, walk, h) && Heir(c, walk, h, j) then c(OnDay(DayOf(walk[h])))
            else Replaced(c, allDay, walk, j)
  {
    WithoutAt(walk, h, j);
    if !allDay { DroppedTaken(c, walk, h, j); }
  }

  lemma DroppedTaken(c: Lookup, walk: seq<Time>, h: nat, j: nat)
    requires h < |walk| && j < |walk| && j != h
    ensures Taken(c, Without(walk, h), After(h, j)) ==> Taken(c, walk, j)
    ensures Open(c, walk[j]) ==>
              (Taken(c, walk, j) && !Taken(c, Without(walk, h), After(h, j)) <==>
               Open(c, walk[h]) && !Taken(c, walk, h) && Heir(c, walk, h, j))
  {
    var (walk', j') := (Without(walk, h), After(h, j));
    WithoutAt(walk, h, j);
    if t :| 0 <= t < j' && DayOf(walk'[t]) == DayOf(walk'[j']) && Open(c, walk'[t]) {
      WithoutAt(walk, h, if t < h then t else t + 1);
    }
    forall t | 0 <= t < j && t != h && DayOf(walk[t]) == DayOf(walk[j]) && Open(c, walk[t])
      ensures Taken(c, walk', j')
    {
      WithoutAt(walk, h, t);
      assert Open(c, walk'[After(h, t)]);
    }
  }

  /** Its own override is then listed on its own, and a DATE one with no heir. */
  lemma DroppedAlone(c: Lookup, allDay: bool, walk: seq<Time>, h: nat, x: Key)
    requires h < |walk| && OneForm(walk, allDay) && OnlyStart(walk, allDay, KeyOf(walk[h], allDay), h)
    ensures Alone(c, allDay, Without(walk, h), x) ==
            if x == KeyOf(walk[h], allDay) || (!allDay && Freed(c, walk, h, x)) then c(x)
            else Alone(c, allDay, walk, x)
  {
    var walk' := Without(walk, h);
    assert Wanted(c, allDay, walk', x) <==> exists t :: 0 <= t < |walk| && t != h && Wants(c, allDay, walk[t], x) by {
      if n :| 0 <= n < |walk'| && Wants(c, allDay, walk'[n], x) {
        WithoutAt(walk, h, if n < h then n else n + 1);
      }
      if t :| 0 <= t < |walk| && t != h && Wants(c, allDay, walk[t], x) {
        WithoutAt(walk, h, t);
        assert Wants(c, allDay, walk'[After(h, t)], x);
      }
    }
    if x != KeyOf(walk[h], allDay) && c(x).Some? { OthersWant(c, allDay, walk, h, x); }
  }

  /** Whether any start but `h` wants a key that is not its own. */
  lemma OthersWant(c: Lookup, allDay: bool, walk: seq<Time>, h: nat, x: Key)
    requires h < |walk| && OneForm(walk, allDay) && x != KeyOf(walk[h], allDay) && c(x).Some?
    ensures (exists t :: 0 <= t < |walk| && t != h && Wants(c, allDay, walk[t], x)) <==>
            Wanted(c, allDay, walk, x) && !(!allDay && Freed(c, walk, h, x))
  {
    if !allDay && Freed(c, walk, h, x) {
      forall t | 0 <= t < |walk| && t != h ensures !Wants(c, false, walk[t], x) {
        if Wants(c, false, walk[t], x) { NoOtherTaker(c, walk, h, t); }
      }
    } else if k :| 0 <= k < |walk| && Wants(c, allDay, walk[k], x) {
      if k == h {
        if t :| 0 <= t < h && DayOf(walk[t]) == DayOf(walk[h]) && Open(c, walk[t]) {
          assert Wants(c, allDay, walk[t], x);
        } else {
          var t :| 0 <= t < |walk| && Heir(c, walk, h, t);
          assert Wants(c, allDay, walk[t], x);
        }
      }
    }
  }

  // ---------------------------------------------------------------------
  // A key no start wants
  // ---------------------------------------------------------------------

  /** What counts for such a key changes nothing but what is listed on its own under it. */
  lemma UnwantedElsewhere(c: Lookup, d: Lookup, allDay: bool, walk: seq<Time>, key: Key)
    requires (forall x :: x != key ==> d(x) == c(x)) && !Wanted(c, allDay, walk, key)
    ensures forall j :: 0 <= j < |walk| ==> Replaced(d, allDay, walk, j) == Replaced(c, allDay, walk, j)
    ensures forall x :: Alone(d, allDay, walk, x) == if x == key then d(x) else Alone(c, allDay, walk, x)
  {
    assert forall t :: 0 <= t < |walk| ==> !Wants(c, allDay, walk[t], key);
    assert forall t :: 0 <= t < |walk| && !allDay && KeyOf(walk[t], false) != key ==>
      (Open(d, walk[t]) <==> Open(c, walk[t]));
    forall j | 0 <= j < |walk| ensures Replaced(d, allDay, walk, j) == Replaced(c, allDay, walk, j) {
      UnwantedAt(c, d, allDay, walk, key, j);
    }
    forall x, t | 0 <= t < |walk| ensures Wants(d, allDay, walk[t], x) <==> Wants(c, allDay, walk[t], x) {
      assert KeyOf(walk[t], allDay) != key;
    }
  }

  lemma UnwantedAt(c: Lookup, d: Lookup, allDay: bool, walk: seq<Time>, key: Key, j: nat)
    requires (forall x :: x != key ==> d(x) == c(x)) && j < |walk|
    requires forall t :: 0 <= t < |walk| ==> !Wants(c, allDay, walk[t], key)
    ensures Replaced(d, allDay, walk, j) == Replaced(c, allDay, walk, j)
  {
    forall t | 0 <= t < |walk| && !allDay ensures Open(d, walk[t]) <==> Open(c, walk[t]) {
      assert !Wants(c, allDay, walk[t], key);
    }
    assert !Wants(c, allDay, walk[j], key);
    assert !allDay ==> (Taken(d, walk, j) <==> Taken(c, walk, j));
  }
}
