/** The server's lifetimes meet the client's refresh loop: what an issued TTL has to be for a source to
    stay live. */
module EndToEnd {
  import opened Prelude
  import opened Runs
  import opened Matcher
  import opened Pki
  import opened Ttl
  import opened SelfSignedCA
  import opened Attest
  import opened CredentialRuns
  import CaRuns
  import Source = CredentialSource

  /** A server process, up since some instant, answering one source's requests for one entry; the delays
      between them and how many refreshes may fail in a row. */
  datatype Setup = Setup(
    ca: Instance, since: int, parsers: Parsers, request: Request, entry: Entry,
    lag: nat, latency: nat, failures: nat)

  predicate Serves(u: Setup)
  {
    MaySign(u.ca, u.parsers.spiffeId, u.entry.spiffeId) && u.request.svidType == "x509"
  }

  /** An SVID at hand at this instant is what the server issued at most `latency` before. */
  ghost predicate FromServer(u: Setup, svid: Source.Svid, at: int)
    requires Serves(u)
  {
    svid.certificates != [] && exists issuedAt, key :: IssuedThen(u, svid, at, issuedAt, key)
  }

  ghost predicate IssuedThen(u: Setup, svid: Source.Svid, at: int, issuedAt: int, key: Key)
    requires Serves(u) && svid.certificates != []
  {
    var resp := SvidFor(u.ca, u.parsers, u.request, u.entry, key, issuedAt);
    && u.since <= issuedAt && at - u.latency <= issuedAt <= at
    && svid.id == resp.spiffeId && svid.certificates[0].notAfter == resp.certChain[0].notAfter
  }

  /** The lifetime that the server gives, in nanoseconds. */
  function Given(u: Setup): int { ComputeTtl(u.ca.limits, TtlOf(u.entry), 0, None) * SECOND }

  lemma GivenIsIssued(u: Setup, key: Key, issuedAt: int)
    requires Serves(u)
    ensures var resp := SvidFor(u.ca, u.parsers, u.request, u.entry, key, issuedAt);
      resp.expiresAt == issuedAt + Given(u) && resp.certChain[0].notAfter == FloorSecond(issuedAt + Given(u))
    ensures Positive(u.ca.limits) && u.entry.ttl <= MAX_SECONDS ==>
              Given(u) == PromisedSeconds(u.ca.limits, u.entry) * SECOND
  {
    TruncatedSecondsFit(Effective(u.ca.limits, TtlOf(u.entry), 0, None));
    if Positive(u.ca.limits) && u.entry.ttl <= MAX_SECONDS {
      IssuedLifetime(u.ca, u.parsers, u.request, u.entry, key, issuedAt);
    }
  }

  /** What every SVID that comes from the server has left at least: the given lifetime less the latency
      and the second that certificates round away. */
  function LeastLeft(u: Setup): Timing
  {
    Timing(u.lag, u.latency, u.failures, Given(u) - u.latency - (SECOND - 1))
  }

  /** The runs of a source that this server keeps supplied in time. */
  ghost predicate SuppliedStep(u: Setup, w: World, a: Action)
    requires Serves(u)
  {
    && Enabled(w, a)
    && (!w.fields.cancelled ==>
          && OnTime(LeastLeft(u), Next(w, a))
          && (a == Fail ==> w.failed < u.failures)
          && (a.Finish? ==> FromServer(u, a.got.svid, w.now)))
  }

  ghost function Supplied(u: Setup): (World, Action) -> bool
    requires Serves(u)
  {
    (w, a) => SuppliedStep(u, w, a)
  }

  ghost predicate StartsSupplied(u: Setup, w: World)
    requires Serves(u)
  {
    && Source.LoopContinues(w.fields) && !w.fields.cancelled && w.fields.bundle.Some?
    && w.loop == Reading(w.now) && w.failed == 0
    && FromServer(u, w.fields.svid.value, w.now)
  }

  ghost predicate KeptLive(u: Setup)
    requires Serves(u)
  {
    forall w, acts ::
      StartsSupplied(u, w) && Legal(Supplied(u), Next, w, acts) && !After(Next, w, acts).fields.cancelled
      ==> ServesLiveSvid(After(Next, w, acts))
  }

  lemma WhatIsLeft(u: Setup, svid: Source.Svid, at: int)
    requires Serves(u) && FromServer(u, svid, at)
    ensures svid.certificates[0].notAfter - at >= LeastLeft(u).life
  {
    var issuedAt, key :| IssuedThen(u, svid, at, issuedAt, key);
    GivenIsIssued(u, key, issuedAt);
    FloorIsWholeSecond(issuedAt + Given(u));
  }

  /** The least left is attained: issued a nanosecond before a full second, in hand a latency later. */
  lemma LeastLeftAttained(u: Setup) returns (w: World)
    requires Serves(u)
    ensures StartsSupplied(u, w) && Starts(LeastLeft(u), w)
    ensures Source.Expiry(w.fields) - w.now == LeastLeft(u).life
  {
    var issuedAt := FloorSecond(u.since) + SECOND - 1;
    var end := FloorSecond(u.since) + Given(u);
    var svid := Source.Svid(u.entry.spiffeId, [Source.Cert(end, "")], "");
    var now := issuedAt + u.latency;
    w := World(now, Source.Fields(Some(svid), Some(Source.Bundle("", [])), false, false), Reading(now), 0);
    GivenIsIssued(u, 0, issuedAt);
    FloorIsWholeSecond(u.since);
    assert FloorSecond(issuedAt + Given(u)) == end;
    assert IssuedThen(u, svid, now, issuedAt, 0);
  }

  /** A source that this server supplies, every SVID in hand within the latency of its issuance, never
      serves an expired one if and only if the lifetime given, which without overflow is the promised
      one, has in it the latency, the second that certificates round away, and the life that so many
      failures in a row need. */
  lemma IssuedLifetimeKeepsSourceLive(u: Setup)
    requires Serves(u)
    ensures var c := 3 * u.lag + 2 * u.latency;
      KeptLive(u) <==> Given(u) >= u.latency + SECOND + Pow2(u.failures) * (Max(c, 1) + c) - c
    ensures u.failures == 0 ==>
              (KeptLive(u) <==> Given(u) >= SECOND + 3 * (u.lag + u.latency) && Given(u) > SECOND + u.latency)
    ensures Positive(u.ca.limits) && u.entry.ttl <= MAX_SECONDS ==>
              Given(u) == PromisedSeconds(u.ca.limits, u.entry) * SECOND
  {
    KeptLiveExactly(u);
    LifeNeededIs(3 * u.lag + 2 * u.latency, u.failures);
    GivenIsIssued(u, 0, 0);
  }

  lemma KeptLiveExactly(u: Setup)
    requires Serves(u)
    ensures KeptLive(u) <==> EnoughLife(LeastLeft(u))
  {
    var t := LeastLeft(u);
    if EnoughLife(t) {
      forall w, acts |
        StartsSupplied(u, w) && Legal(Supplied(u), Next, w, acts) && !After(Next, w, acts).fields.cancelled
        ensures ServesLiveSvid(After(Next, w, acts))
      {
        SuppliedRunsAreTimely(u, w, acts);
        EnoughLifeSuffices(t, w, acts);
      }
    } else {
      var w := LeastLeftAttained(u);
      var acts := SlowestRun(t, w);
      Transfer(Timely(t), Supplied(u), Next, w, acts);
    }
  }

  lemma SuppliedRunsAreTimely(u: Setup, w: World, acts: seq<Action>)
    requires Serves(u) && StartsSupplied(u, w) && Legal(Supplied(u), Next, w, acts)
    ensures Starts(LeastLeft(u), w) && Legal(Timely(LeastLeft(u)), Next, w, acts)
  {
    WhatIsLeft(u, w.fields.svid.value, w.now);
    forall v, a | Supplied(u)(v, a) ensures Timely(LeastLeft(u))(v, a) {
      if a.Finish? && !v.fields.cancelled {
        WhatIsLeft(u, a.got.svid, v.now);
      }
    }
    Transfer(Supplied(u), Timely(LeastLeft(u)), Next, w, acts);
  }

  // ---- Live at the source and valid at the CA ---------------------------------------------------

  /** Until the context is cancelled, what is held came from the server. */
  ghost predicate HeldFromServer(u: Setup, w: World)
    requires Serves(u)
  {
    !w.fields.cancelled ==>
      Source.LoopContinues(w.fields) && exists at :: at <= w.now && FromServer(u, w.fields.svid.value, at)
  }

  lemma SuppliedRunsHoldFromServer(u: Setup, w: World, acts: seq<Action>)
    requires Serves(u) && StartsSupplied(u, w) && Legal(Supplied(u), Next, w, acts)
    ensures HeldFromServer(u, After(Next, w, acts))
  {
    var inv := (v: World) => HeldFromServer(u, v);
    assert inv(w);
    forall v, a | inv(v) && Supplied(u)(v, a) ensures inv(Next(v, a)) {
      assert !Next(v, a).fields.cancelled ==> !v.fields.cancelled;
    }
    Invariance(Supplied(u), Next, inv, w, acts);
  }

  /** The world of the process: it stands for what this CA has signed when it comes up to serve. */
  ghost predicate IsProcessOf(u: Setup, ca: CaRuns.World)
  {
    CaRuns.SoundAndOrdered(ca) && ca.current == Some(u.ca) && ca.parse == u.parsers.spiffeId && ca.now <= u.since
  }

  ghost predicate ValidatesAtCa(u: Setup, key: Key, issuedAt: int, now: int)
    requires Serves(u)
  {
    var chain := SvidFor(u.ca, u.parsers, u.request, u.entry, key, issuedAt).certChain;
    ValidateX509(u.ca, u.parsers.spiffeId, chain, now) == Some(u.entry.spiffeId)
  }

  lemma IssuedChainEnds(u: Setup, ca: CaRuns.World, key: Key, issuedAt: int, now: int)
    requires Serves(u) && IsProcessOf(u, ca) && u.since <= issuedAt <= now
    ensures ValidatesAtCa(u, key, issuedAt, now)
       <==> (now <= SvidFor(u.ca, u.parsers, u.request, u.entry, key, issuedAt).certChain[0].notAfter
             && now <= Min(u.ca.intermediateCert.notAfter, u.ca.rootCert.notAfter))
  {
    var before := ca.(now := issuedAt);
    var a := CaRuns.IssueX509(u.entry.spiffeId, key, TtlOf(u.entry));
    CaRuns.InvariantKept(before, a);
    var s := SignX509(u.ca, u.parsers.spiffeId, u.entry.spiffeId, key, TtlOf(u.entry), issuedAt).value;
    CaRuns.IssuedChainValidatesExactly(CaRuns.Next(before, a), s, now);
    FloorMonotone(ca.now, ca.now);
    FloorMonotone(issuedAt, issuedAt);
  }

  /** At every point of every supplied run, the chain in hand, whenever and for whatever key it was issued,
      also validates at the CA exactly until the process's intermediate or its root ends: the source
      keeps its leaf fresh, if the lifetime given allows, but nothing refreshes those two. */
  lemma HeldChainValidatesExactly(u: Setup, ca: CaRuns.World, w: World, acts: seq<Action>)
    requires Serves(u) && IsProcessOf(u, ca) && StartsSupplied(u, w) && Legal(Supplied(u), Next, w, acts)
    requires !After(Next, w, acts).fields.cancelled
    ensures var v := After(Next, w, acts);
      Source.HoldsLeaf(v.fields) && exists at :: at <= v.now && FromServer(u, v.fields.svid.value, at)
    ensures var v := After(Next, w, acts);
      forall at, issuedAt, key :: at <= v.now && IssuedThen(u, v.fields.svid.value, at, issuedAt, key) ==>
        (ValidatesAtCa(u, key, issuedAt, v.now)
         <==> ((KeptLive(u) || v.now <= Source.Expiry(v.fields))
               && v.now <= Min(u.ca.intermediateCert.notAfter, u.ca.rootCert.notAfter)))
  {
    SuppliedRunsHoldFromServer(u, w, acts);
    var v := After(Next, w, acts);
    assert KeptLive(u) ==> ServesLiveSvid(v);
    forall at, issuedAt, key | at <= v.now && IssuedThen(u, v.fields.svid.value, at, issuedAt, key)
      ensures ValidatesAtCa(u, key, issuedAt, v.now)
         <==> ((KeptLive(u) || v.now <= Source.Expiry(v.fields))
               && v.now <= Min(u.ca.intermediateCert.notAfter, u.ca.rootCert.notAfter))
    {
      IssuedChainEnds(u, ca, key, issuedAt, v.now);
    }
  }
}
