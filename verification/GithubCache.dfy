/** internal/attestor/github_oidc.go: the JWKS cache whose mutex is held across the fetch. */
module GithubCache {
  import opened Prelude
  import opened Runs
  import opened Glob

  const CACHE_DURATION: int := 1 * HOUR

  /** A JSON Web Key Set, by its parsed keys, and the instant its fetch completed. */
  type KeySet = seq<string>

  datatype Fetched = Fetched(keys: KeySet, at: int)

  predicate StillFresh(cached: Option<Fetched>, now: int)
  {
    cached.Some? && now - cached.value.at < CACHE_DURATION
  }

  datatype RepositoryVerdict = Allowed | InvalidPattern(pattern: string) | NotAllowed

  class GitHubOIDCAttestor {
    const allowedRepositories: seq<string>
    var cachedJwks: Option<KeySet>
    var jwksFetched: int

    function Cached(): Option<Fetched>
      reads this
    {
      if cachedJwks.None? then None else Some(Fetched(cachedJwks.value, jwksFetched))
    }

    constructor (allowedRepositories: seq<string>)
      ensures this.allowedRepositories == allowedRepositories && Cached() == None
    {
      this.allowedRepositories := allowedRepositories;
      cachedJwks, jwksFetched := None, 0;
    }

    /** Allowed if some pattern matches and none before it is malformed: that hides later ones. */
    method ValidateRepository(repo: string) returns (verdict: RepositoryVerdict)
      ensures verdict == Allowed <==>
                allowedRepositories == []
                || exists i :: 0 <= i < |allowedRepositories| && PathMatch(allowedRepositories[i], repo) == Matched
                               && forall j :: 0 <= j < i ==> PathMatch(allowedRepositories[j], repo) != BadPattern
      ensures verdict == NotAllowed <==>
                allowedRepositories != [] && forall p <- allowedRepositories :: PathMatch(p, repo) == NotMatched
      ensures verdict.InvalidPattern? ==>
                exists i :: 0 <= i < |allowedRepositories| && allowedRepositories[i] == verdict.pattern
                         && PathMatch(verdict.pattern, repo) == BadPattern
                         && forall j :: 0 <= j < i ==> PathMatch(allowedRepositories[j], repo) == NotMatched
    {
      if |allowedRepositories| == 0 {
        return Allowed;
      }
      for i := 0 to |allowedRepositories|
        invariant forall j :: 0 <= j < i ==> PathMatch(allowedRepositories[j], repo) == NotMatched
      {
        var matched := PathMatch(allowedRepositories[i], repo);
        if matched == BadPattern {
          return InvalidPattern(allowedRepositories[i]);
        }
        if matched == Matched {
          return Allowed;
        }
      }
      return NotAllowed;
    }

    /** One call, which the mutex makes a single critical section: the clock reads `checkedAt` at the
        freshness test and `doneAt` after the response, which is None when the fetch fails. */
    method FetchJwks(checkedAt: int, response: Option<KeySet>, doneAt: int) returns (keys: Option<KeySet>)
      modifies this
      ensures old(cachedJwks).Some? && checkedAt - old(jwksFetched) < HOUR ==>
                keys == old(cachedJwks) && Cached() == old(Cached())
      ensures !(old(cachedJwks).Some? && checkedAt - old(jwksFetched) < HOUR) ==>
                keys == response
                && Cached() == if response.Some? then Some(Fetched(response.value, doneAt)) else old(Cached())
      ensures Cached() == if cachedJwks.None? then None else Some(Fetched(cachedJwks.value, jwksFetched))
    {
      if cachedJwks.Some? && checkedAt - jwksFetched < CACHE_DURATION {
        return cachedJwks;
      }
      if response.None? {
        return None;
      }
      cachedJwks := response;
      jwksFetched := doneAt;
      return response;
    }
  }

  // ---- All interleavings -----------------------------------------------------------------------

  /** A caller of fetchJWKS: waiting for the mutex, or inside it before or after sending a request. */
  datatype Caller = Blocked | Holding | Fetching(sentAt: int)

  /** What a caller was given, and when. */
  datatype Given = Given(keys: KeySet, at: int)

  datatype World = World(
    now: int,
    cached: Option<Fetched>,
    holder: Option<nat>,
    callers: map<nat, Caller>,
    fetches: seq<Fetched>,
    given: seq<Given>)

  datatype Action =
    | Tick(dt: nat)
    | Arrive(caller: nat)
    | Acquire(caller: nat)
    | Hit(caller: nat)
    | Send(caller: nat)
    | Succeed(caller: nat, keys: KeySet)
    | Fail(caller: nat)

  ghost predicate Enabled(w: World, a: Action)
  {
    match a
    case Tick(_) => true
    case Arrive(i) => i !in w.callers
    case Acquire(i) => i in w.callers && w.callers[i].Blocked? && w.holder.None?
    case Hit(i) => i in w.callers && w.callers[i].Holding? && StillFresh(w.cached, w.now)
    case Send(i) => i in w.callers && w.callers[i].Holding? && !StillFresh(w.cached, w.now)
    case Succeed(i, _) => i in w.callers && w.callers[i].Fetching?
    case Fail(i) => i in w.callers && w.callers[i].Fetching?
  }

  /** A caller leaves fetchJWKS and its deferred unlock runs. */
  ghost function Leave(w: World, i: nat): World
  {
    w.(holder := None, callers := w.callers - {i})
  }

  ghost function Next(w: World, a: Action): World
  {
    if !Enabled(w, a) then w else
    match a
    case Tick(dt) => w.(now := w.now + dt)
    case Arrive(i) => w.(callers := w.callers[i := Blocked])
    case Acquire(i) => w.(holder := Some(i), callers := w.callers[i := Holding])
    case Hit(i) => Leave(w, i).(given := w.given + [Given(w.cached.value.keys, w.now)])
    case Send(i) => w.(callers := w.callers[i := Fetching(w.now)])
    case Succeed(i, keys) =>
      Leave(w, i).(cached := Some(Fetched(keys, w.now)),
                   fetches := w.fetches + [Fetched(keys, w.now)],
                   given := w.given + [Given(keys, w.now)])
    case Fail(i) => Leave(w, i)
  }

  ghost predicate Starts(w: World)
  {
    w.cached.None? && w.holder.None? && w.callers == map[] && w.fetches == [] && w.given == []
  }

  ghost predicate HourApart(fetches: seq<Fetched>)
  {
    forall k :: 0 < k < |fetches| ==> fetches[k].at - fetches[k - 1].at >= HOUR
  }

  /** The keys come from a fetch that completed less than an hour before `g`. */
  ghost predicate Recent(fetches: seq<Fetched>, g: Given)
  {
    exists f <- fetches :: f.keys == g.keys && g.at - HOUR < f.at <= g.at
  }

  ghost predicate SingleFlight(w: World)
  {
    && (forall i <- w.callers :: !w.callers[i].Blocked? <==> w.holder == Some(i))
    && (w.holder.Some? ==> w.holder.value in w.callers)
    && (w.cached == if w.fetches == [] then None else Some(w.fetches[|w.fetches| - 1]))
    && (w.cached.Some? ==> w.cached.value.at <= w.now)
    && (forall i <- w.callers :: w.callers[i].Fetching? && w.cached.Some? ==>
          w.cached.value.at + CACHE_DURATION <= w.callers[i].sentAt)
    && (forall i <- w.callers :: w.callers[i].Fetching? ==> w.callers[i].sentAt <= w.now)
    && HourApart(w.fetches)
    && (forall g <- w.given :: Recent(w.fetches, g))
  }

  lemma SucceedKeepsSingleFlight(w: World, i: nat, keys: KeySet)
    requires SingleFlight(w) && Enabled(w, Succeed(i, keys))
    ensures SingleFlight(Next(w, Succeed(i, keys)))
  {
  }

  lemma SingleFlightKept(w: World, a: Action)
    requires SingleFlight(w) && Enabled(w, a)
    ensures SingleFlight(Next(w, a))
  {
    if a.Succeed? {
      SucceedKeepsSingleFlight(w, a.caller, a.keys);
    }
  }

  /** Over every interleaving: at most one request is outstanding, completed fetches are at least an
      hour apart, and keys fetched an hour ago or more are never given out. */
  lemma SingleFlightAlways(w: World, acts: seq<Action>)
    requires Starts(w) && Legal(Enabled, Next, w, acts)
    ensures var v := After(Next, w, acts);
      && (forall i <- v.callers, j <- v.callers :: v.callers[i].Fetching? && v.callers[j].Fetching? ==> i == j)
      && HourApart(v.fetches)
      && (forall g <- v.given :: Recent(v.fetches, g))
  {
    forall v, a | SingleFlight(v) && Enabled(v, a) ensures SingleFlight(Next(v, a)) {
      SingleFlightKept(v, a);
    }
    Invariance(Enabled, Next, SingleFlight, w, acts);
  }

  /** The completed fetches in a closed window of time. */
  function FetchesIn(fetches: seq<Fetched>, from: int, to: int): nat
  {
    if fetches == [] then 0
    else
      var last := |fetches| - 1;
      FetchesIn(fetches[..last], from, to) + if from <= fetches[last].at <= to then 1 else 0
  }

  lemma {:induction false} SpacingBoundsCount(fetches: seq<Fetched>, from: int, to: int)
    requires HourApart(fetches)
    ensures FetchesIn(fetches, from, to) > 0 ==>
              (FetchesIn(fetches, from, to) - 1) * HOUR <= Min(fetches[|fetches| - 1].at, to) - from
    decreases |fetches|
  {
    if fetches == [] {
    } else {
      SpacingBoundsCount(fetches[..|fetches| - 1], from, to);
    }
  }

  /** The fetch rate: a window of length T sees at most floor(T / 1 h) + 1 completed fetches, however
      many callers there are and however often fetches fail. */
  lemma FetchRateBound(w: World, acts: seq<Action>, from: int, to: int)
    requires Starts(w) && Legal(Enabled, Next, w, acts) && from <= to
    ensures FetchesIn(After(Next, w, acts).fetches, from, to) <= (to - from) / HOUR + 1
  {
    SingleFlightAlways(w, acts);
    SpacingBoundsCount(After(Next, w, acts).fetches, from, to);
  }

  ghost predicate Quiet(w: World)
  {
    w.callers == map[] && w.holder.None? && !StillFresh(w.cached, w.now)
  }

  ghost function AfterFetch(w: World, keys: KeySet, wait: nat): World
  {
    var done := w.now + wait;
    w.(now := done, cached := Some(Fetched(keys, done)),
       fetches := w.fetches + [Fetched(keys, done)], given := w.given + [Given(keys, done)])
  }

  /** A call that nobody disturbs is one of the runs, and leaves the cache that FetchJwks leaves. */
  lemma UndisturbedFetch(w: World, i: nat, keys: KeySet, wait: nat) returns (acts: seq<Action>)
    requires Quiet(w)
    ensures Legal(Enabled, Next, w, acts) && After(Next, w, acts) == AfterFetch(w, keys, wait)
  {
    var v1 := w.(callers := map[i := Blocked]);
    var v2 := w.(callers := map[i := Holding], holder := Some(i));
    var v3 := v2.(callers := map[i := Fetching(w.now)]);
    var v4 := v3.(now := w.now + wait);
    assert Next(w, Arrive(i)) == v1 && Next(v1, Acquire(i)) == v2 && Next(v2, Send(i)) == v3;
    assert Next(v4, Succeed(i, keys)) == AfterFetch(w, keys, wait);
    var r4 := [Succeed(i, keys)];
    var r3 := [Tick(wait)] + r4;
    var r2 := [Send(i)] + r3;
    var r1 := [Acquire(i)] + r2;
    Cons(Enabled, Next, v4, Succeed(i, keys), []);
    Cons(Enabled, Next, v3, Tick(wait), r4);
    Cons(Enabled, Next, v2, Send(i), r3);
    Cons(Enabled, Next, v1, Acquire(i), r2);
    Cons(Enabled, Next, w, Arrive(i), r1);
    acts := [Arrive(i)] + r1;
  }

  /** In every reachable state a caller inside the mutex takes what the last fetch brought if that is less
      than an hour old, and has to fetch otherwise. */
  lemma RefetchedAfterAnHour(w: World, acts: seq<Action>, i: nat)
    requires Starts(w) && Legal(Enabled, Next, w, acts)
    requires i in After(Next, w, acts).callers && After(Next, w, acts).callers[i].Holding?
    ensures
      var v := After(Next, w, acts);
      var young := v.fetches != [] && v.now - v.fetches[|v.fetches| - 1].at < HOUR;
      && (Enabled(v, Hit(i)) <==> young) && (Enabled(v, Send(i)) <==> !young)
      && (young ==> Next(v, Hit(i)).given == v.given + [Given(v.fetches[|v.fetches| - 1].keys, v.now)])
  {
    forall v, a | SingleFlight(v) && Enabled(v, a) ensures SingleFlight(Next(v, a)) {
      SingleFlightKept(v, a);
    }
    Invariance(Enabled, Next, SingleFlight, w, acts);
  }

  lemma HourlyFetch(w: World) returns (acts: seq<Action>)
    requires Quiet(w)
    ensures Legal(Enabled, Next, w, acts)
    ensures After(Next, w, acts) == AfterFetch(w, [], 0).(now := w.now + CACHE_DURATION)
  {
    var fetch := UndisturbedFetch(w, 0, [], 0);
    Cons(Enabled, Next, AfterFetch(w, [], 0), Tick(CACHE_DURATION), []);
    Append(Enabled, Next, w, fetch, [Tick(CACHE_DURATION)]);
    acts := fetch + [Tick(CACHE_DURATION)];
  }

  /** The bound is attained: n fetches, one an hour, fit in a window of (n - 1) hours. */
  lemma {:induction false} FetchRateAttained(w: World, n: nat) returns (acts: seq<Action>)
    requires Quiet(w)
    ensures Legal(Enabled, Next, w, acts) && Quiet(After(Next, w, acts))
    ensures After(Next, w, acts).now == w.now + n * HOUR
    ensures FetchesIn(After(Next, w, acts).fetches, w.now, w.now + (n - 1) * HOUR) >= n
    decreases n
  {
    if n == 0 {
      acts := [];
    } else {
      var before := FetchRateAttained(w, n - 1);
      var v := After(Next, w, before);
      var more := HourlyFetch(v);
      Append(Enabled, Next, w, before, more);
      acts := before + more;
      WiderWindow(v.fetches, w.now, w.now + (n - 2) * HOUR, w.now + (n - 1) * HOUR);
      CountLast(v.fetches, Fetched([], v.now), w.now, w.now + (n - 1) * HOUR);
    }
  }

  lemma CountLast(fetches: seq<Fetched>, last: Fetched, from: int, to: int)
    ensures FetchesIn(fetches + [last], from, to)
         == FetchesIn(fetches, from, to) + if from <= last.at <= to then 1 else 0
  {
  }

  lemma {:induction false} WiderWindow(fetches: seq<Fetched>, from: int, to: int, later: int)
    requires to <= later
    ensures FetchesIn(fetches, from, to) <= FetchesIn(fetches, from, later)
    decreases |fetches|
  {
    if fetches == [] {
    } else {
      WiderWindow(fetches[..|fetches| - 1], from, to, later);
    }
  }
}
