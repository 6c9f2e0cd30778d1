/**
 * What the guards of a CalDAV write are made of (src/caldav-etag.ts): how an
 * ETag is compared, and the If-Match a write sends.
 */
module DavEtags {
  import opened Options

  /** A header value as it stands; `If-Match: *` is the value `*`. */
  const ANY: string := "*"

  predicate IsBlank(c: char) {
    c == ' ' || c == '\t' || c == '\n' || c == '\r'
  }

  function TrimLeft(s: string): string {
    if s != [] && IsBlank(s[0]) then TrimLeft(s[1..]) else s
  }

  function TrimRight(s: string): string {
    if s != [] && IsBlank(s[|s| - 1]) then TrimRight(s[..|s| - 1]) else s
  }

  function Trim(s: string): string {
    TrimRight(TrimLeft(s))
  }

  predicate MarkedWeak(s: string) {
    |s| >= 2 && (s[0] == 'W' || s[0] == 'w') && s[1] == '/'
  }

  function Unquoted(s: string): string {
    if |s| >= 2 && s[0] == '"' && s[|s| - 1] == '"' then s[1..|s| - 1] else s
  }

  /** `opaqueTag`. */
  function OpaqueTag(etag: string): string {
    var t := Trim(etag);
    Unquoted(if MarkedWeak(t) then t[2..] else t)
  }

  predicate IsWeak(etag: string) {
    MarkedWeak(Trim(etag))
  }

  function StrongOrNone(etag: Option<string>): (r: Option<string>)
    ensures r.Some? ==> r == etag && !IsWeak(r.value)
    ensures r.None? ==> etag.None? || IsWeak(etag.value)
  {
    if etag.Some? && !IsWeak(etag.value) then etag else None
  }

  /** A tag as a server makes one: nothing to trim, no mark of its own. */
  predicate Bare(tag: string) {
    tag != [] && !MarkedWeak(tag) && forall i :: 0 <= i < |tag| ==> !IsBlank(tag[i]) && tag[i] != '"'
  }

  /** A text with no blank at either end is trimmed already. */
  lemma Trimmed(s: string)
    requires s == [] || (!IsBlank(s[0]) && !IsBlank(s[|s| - 1]))
    ensures Trim(s) == s
  {
  }

  lemma OpaqueOfTrimmed(s: string, weak: bool, bare: string)
    requires (s == [] || (!IsBlank(s[0]) && !IsBlank(s[|s| - 1]))) && weak == MarkedWeak(s)
    requires bare == Unquoted(if weak then s[2..] else s)
    ensures OpaqueTag(s) == bare && IsWeak(s) == weak
  {
    Trimmed(s);
  }

  lemma QuotedIsUnquoted(tag: string)
    ensures var quoted := "\"" + tag + "\""; Unquoted(quoted) == tag && !MarkedWeak(quoted)
    ensures var quoted := "\"" + tag + "\""; quoted[0] == '"' && quoted[|quoted| - 1] == '"'
  {
    var quoted := "\"" + tag + "\"";
    assert quoted[1..|quoted| - 1] == tag;
  }

  /** A tag, that tag quoted, and its weak form are one tag. */
  lemma SpellingsAgree(tag: string)
    requires Bare(tag)
    ensures OpaqueTag(tag) == tag
    ensures OpaqueTag("\"" + tag + "\"") == tag && !IsWeak("\"" + tag + "\"")
    ensures OpaqueTag("W/\"" + tag + "\"") == tag && IsWeak("W/\"" + tag + "\"")
  {
    var (quoted, weak) := ("\"" + tag + "\"", "W/\"" + tag + "\"");
    QuotedIsUnquoted(tag);
    assert weak[2..] == quoted && weak[|weak| - 1] == quoted[|quoted| - 1];
    OpaqueOfTrimmed(tag, false, tag);
    OpaqueOfTrimmed(quoted, false, tag);
    OpaqueOfTrimmed(weak, true, tag);
  }

  // ---------------------------------------------------------------------
  // The guard of a write
  // ---------------------------------------------------------------------

  datatype GuardResult = Guard(ifMatch: Option<string>) | PassTheEtag | ChangedSinceRead

  /** `requireEtag`: `caller` is the ETag the caller gave, `stored` the one the lookup just read. */
  function RequireEtag(caller: Option<string>, stored: Option<string>, strict: bool): GuardResult {
    if caller.None? then
      if stored.None? then Guard(Some(ANY)) else PassTheEtag
    else if stored.None? then Guard(caller)
    else
      var same := OpaqueTag(caller.value) == OpaqueTag(stored.value);
      if !same && (strict || IsWeak(stored.value)) then ChangedSinceRead
      else if IsWeak(stored.value) then Guard(None)
      else if same then Guard(stored) else Guard(caller)
  }

  /** Strong comparison, section 3.1 of RFC 7232: what `If-Match` lets through of an object with the ETag `etag`. */
  predicate Matches(ifMatch: string, etag: Option<string>) {
    ifMatch == ANY || (etag == Some(ifMatch) && !IsWeak(ifMatch))
  }

  /** The write goes out, and a server that honours its guard makes it where the object's ETag is `now`. */
  predicate LetsThrough(g: GuardResult, now: Option<string>) {
    g.Guard? && (g.ifMatch.None? || Matches(g.ifMatch.value, now))
  }

  /** The version with the ETag `now` is the one the caller named, however it was spelt. */
  predicate Named(caller: Option<string>, now: Option<string>) {
    caller.Some? && now.Some? && OpaqueTag(now.value) == OpaqueTag(caller.value)
  }

  /** What a write goes out without a version for. */
  predicate Unversioned(caller: Option<string>, stored: Option<string>, strict: bool) {
    match stored
    case None => caller.None? || caller == Some(ANY)
    case Some(etag) =>
      if Named(caller, stored) then IsWeak(etag) || etag == ANY
      else caller == Some(ANY) && !strict && !IsWeak(etag)
  }

  /**
   * Only the version the caller named is written over, and it is where it is
   * what the lookup read; except past a stored ETag that is weak or missing,
   * and where the caller gives `*` for a version: past a strong ETag too that
   * is sent as it is, and every version matches it.
   */
  lemma OnlyTheVersionNamedIff(caller: Option<string>, stored: Option<string>, strict: bool)
    ensures var g := RequireEtag(caller, stored, strict);
            (forall now :: LetsThrough(g, now) ==> Named(caller, now)) <==> !Unversioned(caller, stored, strict)
    ensures Named(caller, stored) ==> LetsThrough(RequireEtag(caller, stored, strict), stored)
    ensures caller.None? && stored.Some? ==> forall now :: !LetsThrough(RequireEtag(caller, stored, strict), now)
    ensures strict && stored.Some? && !Named(caller, stored) ==>
              forall now :: !LetsThrough(RequireEtag(caller, stored, strict), now)
  {
    var g := RequireEtag(caller, stored, strict);
    assert LetsThrough(g, None) ==> g.ifMatch.None? || g.ifMatch == Some(ANY);
  }

  /** A caller who gives `*` for a version writes over whatever is there: `def`, say, past a stored `abc`. */
  lemma StarIsAnyVersion()
    ensures LetsThrough(RequireEtag(Some(ANY), Some("abc"), false), Some("def")) && !Named(Some(ANY), Some("def"))
    ensures forall now :: LetsThrough(RequireEtag(Some(ANY), Some("abc"), false), now)
  {
    BareTags("abc", "def");
    Trimmed(ANY);
  }

  lemma BareTags(a: string, b: string)
    requires a == "abc" && b == "def"
    ensures OpaqueTag(a) == a && OpaqueTag(b) == b && a != ANY && b != ANY
  {
    SpellingsAgree(a);
    SpellingsAgree(b);
  }

  /** A guard made of a version, the caller's or the one stored, lets only the version named through. */
  lemma OnlyTheVersionNamed(caller: string, stored: Option<string>, strict: bool, now: Option<string>)
    requires caller != ANY && stored != Some(ANY)
    requires var g := RequireEtag(Some(caller), stored, strict);
             g.Guard? && g.ifMatch.Some? && Matches(g.ifMatch.value, now)
    ensures now.Some? && OpaqueTag(now.value) == OpaqueTag(caller)
  {
  }
}
