/** internal/attestor/cloudflare_workers.go: the per-URL JWKS cache, fetched outside the lock. */
module CloudflareCache {
  import opened Prelude
  import opened Runs

  const CACHE_TTL: int := 5 * MINUTE

  /** A JSON Web Key Set, by its parsed keys. */
  type KeySet = seq<string>

  datatype CachedJwks = CachedJwks(keys: KeySet, fetchedAt: int)

  datatype Team = Team(name: string, certsUrl: string)

  predicate StillFresh(c: CachedJwks, now: int) { now - c.fetchedAt < CACHE_TTL }

  function Store(cache: map<string, CachedJwks>, url: string, keys: KeySet, now: int): map<string, CachedJwks>
  {
    cache[url := CachedJwks(keys, now)]
  }

  function IssuerOf(t: Team): string { "https://" + t.name + ".cloudflareaccess.com" }

  lemma IssuerDeterminesName(t: Team, u: Team)
    ensures IssuerOf(t) == IssuerOf(u) <==> t.name == u.name
  {
    var prefix, suffix := "https://", ".cloudflareaccess.com";
    if IssuerOf(t) == IssuerOf(u) {
      assert |t.name| == |u.name|;
      assert t.name == IssuerOf(t)[|prefix|..|IssuerOf(t)| - |suffix|];
      assert u.name == IssuerOf(u)[|prefix|..|IssuerOf(u)| - |suffix|];
    }
  }

  class CloudflareWorkersAttestor {
    const teams: seq<Team>
    var keyCache: map<string, CachedJwks>

    constructor (teams: seq<Team>)
      ensures this.teams == teams && keyCache == map[]
    {
      this.teams := teams;
      keyCache := map[];
    }

    /** The first configured team whose Access issuer this is. */
    method MatchTeam(issuer: string) returns (team: Option<Team>)
      ensures team.None? ==> forall t <- teams :: issuer != "https://" + t.name + ".cloudflareaccess.com"
      ensures team.Some? ==> issuer == "https://" + team.value.name + ".cloudflareaccess.com"
      ensures team.Some? ==> exists i :: 0 <= i < |teams| && teams[i] == team.value
                                      && forall j :: 0 <= j < i ==> teams[j].name != team.value.name
    {
      for i := 0 to |teams|
        invariant forall j :: 0 <= j < i ==> IssuerOf(teams[j]) != issuer
      {
        if issuer == IssuerOf(teams[i]) {
          forall j | 0 <= j < i ensures teams[j].name != teams[i].name {
            IssuerDeterminesName(teams[j], teams[i]);
          }
          return Some(teams[i]);
        }
      }
      return None;
    }

    /** One undisturbed call: the clock reads `checkedAt` after the lookup and `storedAt` at the store;
        `response` is None when the request fails, has a bad status or does not parse. */
    method FetchJwks(url: string, checkedAt: int, response: Option<KeySet>, storedAt: int)
      returns (keys: Option<KeySet>)
      modifies this
      ensures url in old(keyCache) && checkedAt - old(keyCache)[url].fetchedAt < 5 * MINUTE ==>
                keys == Some(old(keyCache)[url].keys) && keyCache == old(keyCache)
      ensures !(url in old(keyCache) && checkedAt - old(keyCache)[url].fetchedAt < 5 * MINUTE) ==>
                && keys == response
                && keyCache == if response.Some? then old(keyCache)[url := CachedJwks(response.value, storedAt)]
                               else old(keyCache)
    {
      if url in keyCache {
        var cached := keyCache[url];
        if checkedAt - cached.fetchedAt < CACHE_TTL {
          return Some(cached.keys);
        }
      }
      if response.None? {
        return None;
      }
      keyCache := keyCache[url := CachedJwks(response.value, storedAt)];
      return response;
    }
  }

  // ---- All interleavings -----------------------------------------------------------------------

  /** A caller of fetchJWKS, between its atomic steps. */
  datatype Caller =
    | LookedUp(url: string, cached: Option<CachedJwks>)
    | Requested(url: string, sentAt: int)
    | Answered(url: string, sentAt: int, keys: KeySet)

  /** An event at which a certs URL served a key set, or at which a caller was given one for a URL. */
  datatype Event = Event(url: string, keys: KeySet, at: int)

  /** The cache, the callers in flight, and the history of what URLs served and callers received. */
  datatype World = World(
    now: int,
    cache: map<string, CachedJwks>,
    callers: map<nat, Caller>,
    served: set<Event>,
    returned: seq<Event>)

  datatype Action =
    | Tick(dt: nat)
    | Lookup(caller: nat, url: string)
    | UseCached(caller: nat)
    | Send(caller: nat)
    | Serve(caller: nat, keys: KeySet)
    | Keep(caller: nat)
    | GiveUp(caller: nat)

  ghost predicate CacheHit(w: World, c: Caller)
  {
    c.LookedUp? && c.cached.Some? && StillFresh(c.cached.value, w.now)
  }

  ghost predicate Enabled(w: World, a: Action)
  {
    match a
    case Tick(_) => true
    case Lookup(i, _) => i !in w.callers
    case UseCached(i) => i in w.callers && CacheHit(w, w.callers[i])
    case Send(i) => i in w.callers && w.callers[i].LookedUp? && !CacheHit(w, w.callers[i])
    case Serve(i, _) => i in w.callers && w.callers[i].Requested?
    case Keep(i) => i in w.callers && w.callers[i].Answered?
    case GiveUp(i) => i in w.callers && (w.callers[i].Requested? || w.callers[i].Answered?)
  }

  ghost function Next(w: World, a: Action): World
  {
    if !Enabled(w, a) then w else
    match a
    case Tick(dt) => w.(now := w.now + dt)
    case Lookup(i, url) =>
      w.(callers := w.callers[i := LookedUp(url, if url in w.cache then Some(w.cache[url]) else None)])
    case UseCached(i) =>
      var c := w.callers[i];
      w.(callers := w.callers - {i}, returned := w.returned + [Event(c.url, c.cached.value.keys, w.now)])
    case Send(i) =>
      w.(callers := w.callers[i := Requested(w.callers[i].url, w.now)])
    case Serve(i, keys) =>
      var c := w.callers[i];
      w.(callers := w.callers[i := Answered(c.url, c.sentAt, keys)], served := w.served + {Event(c.url, keys, w.now)})
    case Keep(i) =>
      var c := w.callers[i];
      w.(cache := Store(w.cache, c.url, c.keys, w.now), callers := w.callers - {i},
         returned := w.returned + [Event(c.url, c.keys, w.now)])
    case GiveUp(i) => w.(callers := w.callers - {i})
  }

  /** Every request's result is stored, or the request given up, within D of being sent. */
  ghost predicate Prompt(D: nat, w: World)
  {
    forall i <- w.callers :: !w.callers[i].LookedUp? ==> w.now <= w.callers[i].sentAt + D
  }

  ghost function PromptStep(D: nat): (World, Action) -> bool
  {
    (w, a) => Enabled(w, a) && Prompt(D, Next(w, a))
  }

  /** The URL itself served exactly these keys, at most `age` before `at` and not after it. */
  ghost predicate ServedWithin(served: set<Event>, url: string, keys: KeySet, at: int, age: int)
  {
    exists e <- served :: e.url == url && e.keys == keys && at - age <= e.at <= at
  }

  ghost predicate CachedFrom(D: nat, w: World, url: string, c: CachedJwks)
  {
    c.fetchedAt <= w.now && ServedWithin(w.served, url, c.keys, c.fetchedAt, D)
  }

  ghost predicate ReturnedInTime(w: World, r: Event, age: int)
  {
    ServedWithin(w.served, r.url, r.keys, r.at, age)
  }

  /** Where every key set in the cache, in a caller's hands or already returned comes from. */
  ghost predicate Provenance(D: nat, w: World)
  {
    && Prompt(D, w)
    && (forall url <- w.cache :: CachedFrom(D, w, url, w.cache[url]))
    && (forall i <- w.callers ::
          match w.callers[i]
          case LookedUp(url, cached) => cached.Some? ==> CachedFrom(D, w, url, cached.value)
          case Requested(_, sentAt) => sentAt <= w.now
          case Answered(url, sentAt, keys) => ServedWithin(w.served, url, keys, w.now, w.now - sentAt))
    && (forall r <- w.returned :: ReturnedInTime(w, r, CACHE_TTL + D - 1))
  }

  ghost function ProvenanceFor(D: nat): World -> bool { w => Provenance(D, w) }

  lemma ProvenanceKept(D: nat, w: World, a: Action)
    requires Provenance(D, w) && PromptStep(D)(w, a)
    ensures Provenance(D, Next(w, a))
  {
  }

  ghost predicate Starts(w: World)
  {
    w.cache == map[] && w.callers == map[] && w.returned == []
  }

  /** Every key set any legal run returns was served by its URL at most `age` nanoseconds before. */
  ghost predicate NeverOlderThan(D: nat, age: int)
  {
    forall w, acts :: Starts(w) && Legal(PromptStep(D), Next, w, acts) ==>
      forall r <- After(Next, w, acts).returned :: ReturnedInTime(After(Next, w, acts), r, age)
  }

  /** Under every interleaving of callers, slow answers, overwrites and failures, each key set
      returned for a URL was served by that same URL less than 5 min + D before. */
  lemma BoundedStaleness(D: nat, w: World, acts: seq<Action>)
    requires Starts(w) && Legal(PromptStep(D), Next, w, acts)
    ensures forall r <- After(Next, w, acts).returned :: ReturnedInTime(After(Next, w, acts), r, CACHE_TTL + D - 1)
  {
    forall v, a | ProvenanceFor(D)(v) && PromptStep(D)(v, a) ensures ProvenanceFor(D)(Next(v, a)) {
      ProvenanceKept(D, v, a);
    }
    assert Provenance(D, w);
    Invariance(PromptStep(D), Next, ProvenanceFor(D), w, acts);
    assert Provenance(D, After(Next, w, acts));
  }

  const EMPTY := World(0, map[], map[], {}, [])

  /** A caller that finds nothing fresh cached asks at once and is answered at once. */
  lemma Ask(D: nat, w: World, i: nat, url: string, keys: KeySet) returns (acts: seq<Action>)
    requires Prompt(D, w) && i !in w.callers
    requires !(url in w.cache && StillFresh(w.cache[url], w.now))
    ensures Legal(PromptStep(D), Next, w, acts)
    ensures After(Next, w, acts) == w.(callers := w.callers[i := Answered(url, w.now, keys)],
                                       served := w.served + {Event(url, keys, w.now)})
  {
    var step := PromptStep(D);
    var cached := if url in w.cache then Some(w.cache[url]) else None;
    var w1 := w.(callers := w.callers[i := LookedUp(url, cached)]);
    var w2 := w.(callers := w.callers[i := Requested(url, w.now)]);
    var w3 := w.(callers := w.callers[i := Answered(url, w.now, keys)], served := w.served + {Event(url, keys, w.now)});
    assert Next(w, Lookup(i, url)) == w1 && Next(w1, Send(i)) == w2 && Next(w2, Serve(i, keys)) == w3;
    Cons(step, Next, w2, Serve(i, keys), []);
    Cons(step, Next, w1, Send(i), [Serve(i, keys)]);
    Cons(step, Next, w, Lookup(i, url), [Send(i), Serve(i, keys)]);
    acts := [Lookup(i, url)] + [Send(i), Serve(i, keys)];
  }

  /** Two actions in a row. */
  lemma Two(D: nat, w: World, a: Action, b: Action)
    requires PromptStep(D)(w, a) && PromptStep(D)(Next(w, a), b)
    ensures Legal(PromptStep(D), Next, w, [a, b]) && After(Next, w, [a, b]) == Next(Next(w, a), b)
  {
    Cons(PromptStep(D), Next, Next(w, a), b, []);
    Cons(PromptStep(D), Next, w, a, [b]);
    assert [a] + [b] == [a, b];
  }

  /** A call that nobody disturbs is one of the runs, and leaves the cache that FetchJwks leaves: with
      nothing fresh cached, the answer is stored when it has come ... */
  lemma UndisturbedFetch(D: nat, w: World, i: nat, url: string, keys: KeySet, wait: nat) returns (acts: seq<Action>)
    requires w.callers == map[] && wait <= D
    requires !(url in w.cache && w.now - w.cache[url].fetchedAt < 5 * MINUTE)
    ensures Legal(PromptStep(D), Next, w, acts)
    ensures After(Next, w, acts) == w.(now := w.now + wait,
                                       cache := w.cache[url := CachedJwks(keys, w.now + wait)],
                                       served := w.served + {Event(url, keys, w.now)},
                                       returned := w.returned + [Event(url, keys, w.now + wait)])
  {
    var ask := Ask(D, w, i, url, keys);
    var asked := w.(callers := map[i := Answered(url, w.now, keys)], served := w.served + {Event(url, keys, w.now)});
    assert After(Next, w, ask) == asked;
    Two(D, asked, Tick(wait), Keep(i));
    Append(PromptStep(D), Next, w, ask, [Tick(wait), Keep(i)]);
    acts := ask + [Tick(wait), Keep(i)];
  }

  /** ... and with a fresh entry cached, that is returned and nothing is asked or stored. */
  lemma UndisturbedHit(D: nat, w: World, i: nat, url: string)
    requires w.callers == map[] && url in w.cache && w.now - w.cache[url].fetchedAt < 5 * MINUTE
    ensures Legal(PromptStep(D), Next, w, [Lookup(i, url), UseCached(i)])
    ensures After(Next, w, [Lookup(i, url), UseCached(i)])
         == w.(returned := w.returned + [Event(url, w.cache[url].keys, w.now)])
  {
    var found := w.(callers := map[i := LookedUp(url, Some(w.cache[url]))]);
    assert Next(w, Lookup(i, url)) == found;
    assert Next(found, UseCached(i)).callers == map[];
    Two(D, w, Lookup(i, url), UseCached(i));
  }

  ghost predicate KeepsFor(w: World, a: Action, url: string)
  {
    a.Keep? && a.caller in w.callers && w.callers[a.caller].Answered? && w.callers[a.caller].url == url
  }

  /** No step of the run stores anything for this URL. */
  ghost predicate NothingStoredFor(w: World, acts: seq<Action>, url: string)
    decreases |acts|
  {
    acts == [] || (!KeepsFor(w, acts[0], url) && NothingStoredFor(Next(w, acts[0]), acts[1..], url))
  }

  lemma {:induction false} EntryStays(w: World, acts: seq<Action>, url: string)
    requires url in w.cache && NothingStoredFor(w, acts, url)
    ensures url in After(Next, w, acts).cache && After(Next, w, acts).cache[url] == w.cache[url]
    decreases |acts|
  {
    if acts == [] {
    } else {
      EntryStays(Next(w, acts[0]), acts[1..], url);
    }
  }

  /** What a caller stores for a URL serves every later caller of that URL for five minutes and no longer,
      whatever is stored for other URLs, until something is stored for it again: then a caller takes it,
      and afterwards one has to ask. */
  lemma StoredServesFiveMinutes(w: World, i: nat, acts: seq<Action>, j: nat)
    requires i in w.callers && w.callers[i].Answered?
    requires NothingStoredFor(Next(w, Keep(i)), acts, w.callers[i].url)
    requires j !in After(Next, Next(w, Keep(i)), acts).callers
    ensures
      var c := w.callers[i];
      var v := After(Next, Next(w, Keep(i)), acts);
      var u := Next(v, Lookup(j, c.url));
      && Enabled(v, Lookup(j, c.url))
      && (Enabled(u, UseCached(j)) <==> v.now - w.now < 5 * MINUTE)
      && (Enabled(u, Send(j)) <==> v.now - w.now >= 5 * MINUTE)
      && (v.now - w.now < 5 * MINUTE ==>
            Next(u, UseCached(j)).returned == v.returned + [Event(c.url, c.keys, v.now)])
  {
    EntryStays(Next(w, Keep(i)), acts, w.callers[i].url);
  }

  /** Keys served at 0 and stored at D, with nobody in flight. */
  ghost function StoredLate(D: nat): World
  {
    World(D, map["u" := CachedJwks([], D)], map[], {Event("u", [], 0)}, [Event("u", [], D)])
  }

  lemma ReturnJustBeforeExpiry(D: nat) returns (acts: seq<Action>)
    ensures Legal(PromptStep(D), Next, StoredLate(D), acts)
    ensures After(Next, StoredLate(D), acts).served == StoredLate(D).served
    ensures Event("u", [], CACHE_TTL + D - 1) in After(Next, StoredLate(D), acts).returned
  {
    var w := StoredLate(D);
    var later := w.(now := CACHE_TTL + D - 1);
    var found := later.(callers := map[1 := LookedUp("u", Some(CachedJwks([], D)))]);
    assert Next(w, Tick(CACHE_TTL - 1)) == later && Next(later, Lookup(1, "u")) == found;
    Two(D, later, Lookup(1, "u"), UseCached(1));
    Cons(PromptStep(D), Next, w, Tick(CACHE_TTL - 1), [Lookup(1, "u"), UseCached(1)]);
    acts := [Tick(CACHE_TTL - 1)] + [Lookup(1, "u"), UseCached(1)];
    assert Next(found, UseCached(1)).returned[1] == Event("u", [], CACHE_TTL + D - 1);
  }

  /** A run that returns keys exactly as old as the bound allows. */
  lemma OldestReturn(D: nat) returns (acts: seq<Action>)
    ensures Legal(PromptStep(D), Next, EMPTY, acts)
    ensures var v := After(Next, EMPTY, acts);
      && v.served == {Event("u", [], 0)}
      && Event("u", [], CACHE_TTL + D - 1) in v.returned
  {
    var first := UndisturbedFetch(D, EMPTY, 0, "u", [], D);
    assert After(Next, EMPTY, first) == StoredLate(D);
    var second := ReturnJustBeforeExpiry(D);
    Append(PromptStep(D), Next, EMPTY, first, second);
    acts := first + second;
  }

  /** The staleness bound is exact: 5 min + D less a nanosecond, and no smaller age, holds of all runs. */
  lemma StalenessExactly(D: nat, age: int)
    ensures NeverOlderThan(D, age) <==> age >= 5 * MINUTE + D - 1
  {
    if age >= CACHE_TTL + D - 1 {
      forall w, acts | Starts(w) && Legal(PromptStep(D), Next, w, acts)
        ensures forall r <- After(Next, w, acts).returned :: ReturnedInTime(After(Next, w, acts), r, age)
      {
        BoundedStaleness(D, w, acts);
      }
    } else {
      var acts := OldestReturn(D);
      var r := Event("u", [], CACHE_TTL + D - 1);
      assert r in After(Next, EMPTY, acts).returned && !ReturnedInTime(After(Next, EMPTY, acts), r, age);
    }
  }

  /** Two callers hold answers of one URL, the second one newer. */
  ghost function TwoAnswers(older: KeySet, newer: KeySet): World
  {
    World(1, map[], map[0 := Answered("u", 0, older), 1 := Answered("u", 1, newer)],
          {Event("u", older, 0), Event("u", newer, 1)}, [])
  }

  lemma ReachTwoAnswers(D: nat, older: KeySet, newer: KeySet) returns (acts: seq<Action>)
    requires D >= 1
    ensures Legal(PromptStep(D), Next, EMPTY, acts) && After(Next, EMPTY, acts) == TwoAnswers(older, newer)
  {
    var step := PromptStep(D);
    var asked := World(0, map[], map[0 := Answered("u", 0, older)], {Event("u", older, 0)}, []);
    var first := Ask(D, EMPTY, 0, "u", older);
    assert After(Next, EMPTY, first) == asked;
    var second := Ask(D, asked.(now := 1), 1, "u", newer);
    Cons(step, Next, asked, Tick(1), second);
    Append(step, Next, EMPTY, first, [Tick(1)] + second);
    acts := first + ([Tick(1)] + second);
  }

  /** The last writer wins even when its answer is older: a run whose cache ends with keys that the
      URL had already replaced when another caller stored the newer ones. */
  lemma OlderAnswerMayOverwrite(D: nat, older: KeySet, newer: KeySet) returns (acts: seq<Action>)
    requires D >= 1
    ensures Legal(PromptStep(D), Next, EMPTY, acts)
    ensures var v := After(Next, EMPTY, acts);
      && v.served == {Event("u", older, 0), Event("u", newer, 1)}
      && v.returned == [Event("u", newer, 1), Event("u", older, 1)]
      && v.cache == map["u" := CachedJwks(older, 1)]
  {
    var both := TwoAnswers(older, newer);
    var first := ReachTwoAnswers(D, older, newer);
    Two(D, both, Keep(1), Keep(0));
    Append(PromptStep(D), Next, EMPTY, first, [Keep(1), Keep(0)]);
    acts := first + [Keep(1), Keep(0)];
  }
}
