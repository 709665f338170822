/** internal/ca/self_signed.go over the life of a deployment: starts and restarts, failed saves, lost
    root files, issuance and the clock, with symbolic signatures. */
module CaRuns {
  import opened Prelude
  import opened Runs
  import opened Pki
  import opened Ttl
  import opened SelfSignedCA

  /** `roots`, `intermediates`, `issued` and `tokens` record everything the CA's keys ever signed,
      and `caKeys` every key it ever drew. */
  datatype World = World(
    parse: IdParser,
    now: int,
    files: Files,
    current: Option<Instance>,
    caKeys: set<Key>,
    roots: set<Cert>,
    intermediates: set<Cert>,
    issued: set<X509Svid>,
    tokens: set<JwtSvid>)

  datatype Action =
    | Tick(dt: nat)
    | Restart(s: Start)
    | IssueX509(spiffeId: string, workloadKey: Key, ttl: Int64)
    | IssueJwt(spiffeId: string, audience: seq<string>, ttl: Int64)
    | RemoveFiles(keyFile: bool, certFile: bool)   // the operator deletes root files

  /** Random keys never repeat. */
  ghost predicate KeysAreNew(w: World, k: NewKeys)
  {
    && k.root !in w.caKeys && k.intermediate !in w.caKeys && k.jwt !in w.caKeys
    && k.root != k.intermediate && k.root != k.jwt && k.intermediate != k.jwt
  }

  ghost predicate Enabled(w: World, a: Action)
  {
    match a
    case Tick(_) => true
    case Restart(s) => KeysAreNew(w, s.keys)
    case IssueX509(_, _, _) => w.current.Some?
    case IssueJwt(_, _, _) => w.current.Some?
    case RemoveFiles(_, _) => true
  }

  function AsSet<T>(o: Option<T>): set<T> { if o.Some? then {o.value} else {} }

  ghost function Next(w: World, a: Action): World
  {
    match a
    case Tick(dt) => w.(now := w.now + dt)
    case Restart(s) =>
      var b := Boot(w.files, s, w.now);
      var root := if DurationsParse(s.cfg) && !BothExist(w.files) then {RootCert(s.keys.root, w.now)} else {};
      var intermediate := if b.instance.Some? then {b.instance.value.intermediateCert} else {};
      w.(files := b.files, current := b.instance,
         caKeys := w.caKeys + {s.keys.root, s.keys.intermediate, s.keys.jwt},
         roots := w.roots + root,
         intermediates := w.intermediates + intermediate)
    case IssueX509(id, key, ttl) =>
      if w.current.None? then w
      else w.(issued := w.issued + AsSet(SignX509(w.current.value, w.parse, id, key, ttl, w.now)))
    case IssueJwt(id, audience, ttl) =>
      if w.current.None? then w
      else w.(tokens := w.tokens + AsSet(SignJwt(w.current.value, w.parse, id, audience, ttl, w.now)))
    case RemoveFiles(key, cert) =>
      w.(files := Files(if key then Missing else w.files.key, if cert then Missing else w.files.cert))
  }

  // ---- What holds in every reachable world -----------------------------------------------------

  ghost predicate IsRoot(c: Cert)
  {
    && c.subject == c.issuer == ROOT_NAME && c.signer == c.publicKey
    && c.isCA && c.canSignCerts && c.maxPathLen.None?
  }

  ghost predicate IsIntermediate(c: Cert)
  {
    && c.subject == INTERMEDIATE_NAME && c.issuer == ROOT_NAME
    && c.isCA && c.canSignCerts && c.maxPathLen == Some(0)
  }

  ghost predicate IsIssued(w: World, s: X509Svid)
  {
    && s.intermediate in w.intermediates
    && s.leaf.signer == s.intermediate.publicKey && s.leaf.issuer == INTERMEDIATE_NAME
    && !s.leaf.isCA && !s.leaf.canSignCerts
    && s.leaf.uri == Some(s.spiffeId) && w.parse(s.spiffeId).Some?
  }

  ghost predicate InstanceSound(w: World, i: Instance)
  {
    && i.rootCert in w.roots && i.rootCert.publicKey == i.rootKey
    && i.intermediateCert in w.intermediates
    && i.intermediateCert.publicKey == i.intermediateKey && i.intermediateCert.signer == i.rootKey
    && i.jwtKey in w.caKeys
  }

  ghost predicate DistinctKeys(certs: set<Cert>)
  {
    forall c <- certs, d <- certs :: c.publicKey == d.publicKey ==> c == d
  }

  ghost predicate CaInvariant(w: World)
  {
    && (forall c <- w.roots :: IsRoot(c) && c.publicKey in w.caKeys)
    && (forall c <- w.intermediates :: IsIntermediate(c) && c.publicKey in w.caKeys && c.signer in w.caKeys)
    && DistinctKeys(w.roots + w.intermediates)
    && (forall s <- w.issued :: IsIssued(w, s))
    && (w.files.cert.Holding? ==> w.files.cert.value in w.roots)
    && (w.current.Some? ==> InstanceSound(w, w.current.value))
    && (forall t <- w.tokens :: t.signer in w.caKeys)
  }

  lemma RestartKeepsInvariant(w: World, s: Start)
    requires CaInvariant(w) && Enabled(w, Restart(s))
    ensures CaInvariant(Next(w, Restart(s)))
  {
  }

  lemma InvariantKept(w: World, a: Action)
    requires CaInvariant(w) && Enabled(w, a)
    ensures CaInvariant(Next(w, a))
  {
    match a
    case Restart(s) => RestartKeepsInvariant(w, s);
    case IssueX509(id, key, ttl) =>
      var v := Next(w, a);
      forall s <- v.issued ensures IsIssued(v, s) {
        if s in w.issued { assert IsIssued(w, s); }
      }
    case _ =>
  }

  ghost predicate Untouched(w: World)
  {
    && w.files == Files(Missing, Missing) && w.current.None?
    && w.caKeys == {} && w.roots == {} && w.intermediates == {} && w.issued == {} && w.tokens == {}
  }

  lemma ReachableWorldsSound(w: World, acts: seq<Action>)
    requires Untouched(w) && Legal(Enabled, Next, w, acts)
    ensures CaInvariant(After(Next, w, acts))
  {
    forall v, a | CaInvariant(v) && Enabled(v, a) ensures CaInvariant(Next(v, a)) {
      InvariantKept(v, a);
    }
    Invariance(Enabled, Next, CaInvariant, w, acts);
  }

  // ---- Who validates ---------------------------------------------------------------------------

  /** Nobody else holds the CA's keys: a certificate that one of them signed is on its record. Any
      other certificate may be made up. */
  ghost predicate Authentic(w: World, c: Cert)
  {
    && ((exists r <- w.roots :: c.signer == r.publicKey) ==> c in w.roots || c in w.intermediates)
    && ((exists i <- w.intermediates :: c.signer == i.publicKey) ==> exists s <- w.issued :: s.leaf == c)
  }

  /** What one of the CA's own certificates signed: a root signs CA certificates on the record, an
      intermediate signs issued leaves. */
  lemma SignedByOurs(w: World, c: Cert, parent: Cert)
    requires CaInvariant(w) && Authentic(w, c) && parent in w.roots + w.intermediates
    requires c.signer == parent.publicKey
    ensures c.isCA ==> parent in w.roots && c in w.roots + w.intermediates
    ensures !c.isCA ==> parent in w.intermediates && exists s <- w.issued :: s.leaf == c && s.intermediate == parent
  {
  }

  /** Going down a valid path from the root, above the leaf one meets only the CA's certificates. */
  lemma {:induction false} PathIsOurs(w: World, path: seq<Cert>, root: Cert, now: int, k: nat)
    requires CaInvariant(w) && root in w.roots && ValidPath(path, root, now)
    requires forall i :: 0 <= i < |path| ==> Authentic(w, path[i])
    requires 1 <= k < |path|
    ensures path[k] in w.roots + w.intermediates && path[k].signer == root.publicKey
    decreases |path| - k
  {
    assert SignedBy(path[k - 1], path[k]);
    if k == |path| - 1 {
      SignedByOurs(w, path[k], root);
    } else {
      PathIsOurs(w, path, root, now, k + 1);
      assert SignedBy(path[k], path[k + 1]);
      SignedByOurs(w, path[k], path[k + 1]);
      assert IsRoot(path[k + 1]);
    }
  }

  /** Nothing that was not issued under the current root validates: whatever chain anybody presents,
      the leaf is one that this CA issued, for the returned ID, under this root, and is in its time. */
  lemma OnlyIssuedChainsValidate(w: World, certs: seq<Cert>, id: string, at: int) returns (s: X509Svid)
    requires CaInvariant(w) && w.current.Some?
    requires forall c <- certs :: Authentic(w, c)
    requires ValidateX509(w.current.value, w.parse, certs, at) == Some(id)
    ensures s in w.issued && s.leaf == certs[0] && s.spiffeId == id
    ensures w.parse(id).Some? && w.parse(id).value.trustDomain == w.current.value.trustDomain
    ensures s.intermediate.signer == w.current.value.rootKey
    ensures TimeValid(s.leaf, at)
  {
    var root := w.current.value.rootCert;
    var path: seq<Cert> :| LeadsTo(path, certs, root, at);
    forall i | 0 <= i < |path| ensures Authentic(w, path[i]) {
      assert path[i] in certs;
    }
    var parent := root;
    if |path| > 1 {
      PathIsOurs(w, path, root, at, 1);
      parent := path[1];
    }
    assert SignedBy(path[0], parent) && IsRoot(root);
    SignedByOurs(w, path[0], parent);
    s :| s in w.issued && s.leaf == path[0] && s.intermediate == parent;
    assert IsIssued(w, s);
  }

  /** Every issued chain validates at the current process to exactly the ID it was issued for, if and
      only if it was issued under the root now in use, for the process's trust domain, and the three
      validity periods hold. */
  lemma IssuedChainValidatesExactly(w: World, s: X509Svid, at: int)
    requires CaInvariant(w) && w.current.Some? && s in w.issued
    ensures w.parse(s.spiffeId).Some?
    ensures
      var root := w.current.value.rootCert;
      ValidateX509(w.current.value, w.parse, [s.leaf, s.intermediate], at)
      == if w.parse(s.spiffeId).value.trustDomain == w.current.value.trustDomain
            && s.intermediate.signer == root.publicKey
            && s.leaf.notBefore <= at <= s.leaf.notAfter
            && s.intermediate.notBefore <= at <= s.intermediate.notAfter
            && root.notBefore <= at <= root.notAfter
         then Some(s.spiffeId) else None
  {
    var root := w.current.value.rootCert;
    var certs := [s.leaf, s.intermediate];
    assert IsIssued(w, s) && IsIntermediate(s.intermediate);
    if s.intermediate.signer == root.publicKey && TimeValid(s.leaf, at) && TimeValid(s.intermediate, at)
       && TimeValid(root, at) {
      assert certs[1..] == [s.intermediate];
      assert ValidPath(certs, root, at);
      assert LeadsTo(certs, certs, root, at);
    } else if path: seq<Cert> :| LeadsTo(path, certs, root, at) {
      assert certs[1..] == [s.intermediate];
      PathThroughOneIntermediate(w, path, s, root, at);
    }
  }

  lemma PathThroughOneIntermediate(w: World, path: seq<Cert>, s: X509Svid, root: Cert, at: int)
    requires CaInvariant(w) && s in w.issued && root in w.roots && ValidPath(path, root, at)
    requires path[0] == s.leaf && forall i :: 1 <= i < |path| ==> path[i] == s.intermediate
    ensures TimeValid(s.leaf, at) && TimeValid(s.intermediate, at) && TimeValid(root, at)
    ensures s.intermediate.signer == root.publicKey
  {
  }

  // ---- Restarts --------------------------------------------------------------------------------

  ghost predicate KeepsFiles(acts: seq<Action>) { forall a <- acts :: !a.RemoveFiles? }

  ghost predicate OnDisk(w: World, rootKey: Key, rootCert: Cert)
  {
    w.files == Files(Holding(rootKey), Holding(rootCert))
  }

  /** As long as nobody removes the root files, every restart that comes up comes up with that root. */
  lemma {:induction false} RootPersists(w: World, rootKey: Key, rootCert: Cert, acts: seq<Action>)
    requires OnDisk(w, rootKey, rootCert) && Legal(Enabled, Next, w, acts) && KeepsFiles(acts)
    requires w.current.Some? ==> w.current.value.rootKey == rootKey && w.current.value.rootCert == rootCert
    ensures var v := After(Next, w, acts);
      && OnDisk(v, rootKey, rootCert) && w.issued <= v.issued && w.tokens <= v.tokens && v.parse == w.parse
      && (v.current.Some? ==> v.current.value.rootKey == rootKey && v.current.value.rootCert == rootCert)
    decreases |acts|
  {
    if acts == [] {
    } else {
      RootPersists(Next(w, acts[0]), rootKey, rootCert, acts[1..]);
    }
  }

  /** Identity survives restarts: over any run from a reachable world that keeps both root files, a
      chain issued under the root in use validates, at whatever process is up at the end, to exactly
      its own ID if and only if the process is for its trust domain and its times hold. */
  lemma IdentitySurvivesRestarts(w: World, acts: seq<Action>, s: X509Svid)
    requires CaInvariant(w) && w.current.Some? && OnDisk(w, w.current.value.rootKey, w.current.value.rootCert)
    requires s in w.issued && s.intermediate.signer == w.current.value.rootKey
    requires Legal(Enabled, Next, w, acts) && KeepsFiles(acts)
    ensures w.parse(s.spiffeId).Some?
    ensures var v := After(Next, w, acts);
      v.current.Some? ==>
        ValidateX509(v.current.value, v.parse, [s.leaf, s.intermediate], v.now)
        == if w.parse(s.spiffeId).value.trustDomain == v.current.value.trustDomain
              && TimeValid(s.leaf, v.now) && TimeValid(s.intermediate, v.now)
              && TimeValid(w.current.value.rootCert, v.now)
           then Some(s.spiffeId) else None
  {
    var i := w.current.value;
    forall v, a | CaInvariant(v) && Enabled(v, a) ensures CaInvariant(Next(v, a)) {
      InvariantKept(v, a);
    }
    Invariance(Enabled, Next, CaInvariant, w, acts);
    RootPersists(w, i.rootKey, i.rootCert, acts);
    var v := After(Next, w, acts);
    assert IsIssued(w, s);
    if v.current.Some? {
      IssuedChainValidatesExactly(v, s, v.now);
    }
  }

  /** A start that comes up leaves both files holding the root it runs with: the one that was there if
      both files were, else a new one good for ten years of 365 days. */
  lemma StartPutsRootOnDisk(files: Files, s: Start, now: int)
    ensures var b := Boot(files, s, now);
      b.instance.Some? ==>
        && b.files == Files(Holding(b.instance.value.rootKey), Holding(b.instance.value.rootCert))
        && (if BothExist(files) then b.files == files
            else b.instance.value.rootKey == s.keys.root
                 && b.instance.value.rootCert.notBefore == FloorSecond(now)
                 && b.instance.value.rootCert.notAfter == FloorSecond(now + 3650 * 24 * HOUR))
  {
  }

  /** Did a restart in this run come up? */
  ghost predicate CameUpAgain(w: World, acts: seq<Action>)
    decreases |acts|
  {
    acts != [] && ((acts[0].Restart? && Next(w, acts[0]).current.Some?) || CameUpAgain(Next(w, acts[0]), acts[1..]))
  }

  ghost predicate JwtKeyUnused(w: World, key: Key)
  {
    key in w.caKeys && (w.current.Some? ==> w.current.value.jwtKey != key)
  }

  lemma {:induction false} OldJwtKeyStaysOld(w: World, acts: seq<Action>, key: Key)
    requires key in w.caKeys && Legal(Enabled, Next, w, acts)
    requires JwtKeyUnused(w, key) || CameUpAgain(w, acts)
    ensures JwtKeyUnused(After(Next, w, acts), key)
    decreases |acts|
  {
    if acts == [] {
    } else {
      OldJwtKeyStaysOld(Next(w, acts[0]), acts[1..], key);
    }
  }

  lemma {:induction false} SameProcessUnlessRestarted(w: World, acts: seq<Action>)
    requires !CameUpAgain(w, acts)
    ensures After(Next, w, acts).current.Some? ==> After(Next, w, acts).current == w.current
    decreases |acts|
  {
    if acts == [] {
    } else {
      SameProcessUnlessRestarted(Next(w, acts[0]), acts[1..]);
    }
  }

  /** A JWT-SVID round-trips at the process that signed it: it validates to its ID for its audiences
      and within its times, give or take the leeway, and for nothing else. */
  lemma JwtRoundTrip(
    i: Instance, parse: IdParser, spiffeId: string, audience: seq<string>, ttl: Int64, now: int,
    expected: string, at: int)
    requires MaySign(i, parse, spiffeId) && audience != []
    ensures ValidateJwt(i, parse, SignJwt(i, parse, spiffeId, audience, ttl, now).value, expected, at)
         == if expected in audience
               && FloorSecond(now) - MINUTE <= at <= FloorSecond(EndOf(i, ttl, now)) + MINUTE
            then Some(spiffeId) else None
  {
  }

  /** No token validates but those this very process signed: whatever token is presented, if it validates
      it is on the record, for an ID of the process's trust domain and the audience asked for, and in
      its time give or take a minute. Nobody else holds the process's JWT key. */
  lemma OnlyIssuedTokensValidate(w: World, t: JwtSvid, audience: string, id: string, at: int)
    requires CaInvariant(w) && w.current.Some?
    requires t.signer == w.current.value.jwtKey ==> t in w.tokens
    requires ValidateJwt(w.current.value, w.parse, t, audience, at) == Some(id)
    ensures t in w.tokens && id == t.sub && audience in t.aud && t.iat - MINUTE <= at <= t.exp + MINUTE
    ensures w.parse(id).Some? && w.parse(id).value.trustDomain == w.current.value.trustDomain
  {
  }

  /** A JWT-SVID lives and dies with its process: after any run, a token the current process signed
      validates for an audience if and only if no restart has come up since and its own terms hold.
      Keeping the root files does not help it. */
  lemma JwtDiesWithItsProcess(w: World, acts: seq<Action>, t: JwtSvid, audience: string)
    requires CaInvariant(w) && w.current.Some? && Legal(Enabled, Next, w, acts)
    requires t in w.tokens && t.signer == w.current.value.jwtKey
    requires w.parse(t.sub).Some? && w.parse(t.sub).value.trustDomain == w.current.value.trustDomain
    ensures var v := After(Next, w, acts);
      v.current.Some? ==>
        (ValidateJwt(v.current.value, w.parse, t, audience, v.now) == Some(t.sub)
         <==> !CameUpAgain(w, acts) && audience in t.aud
              && t.iat - MINUTE <= v.now <= t.exp + MINUTE)
  {
    if CameUpAgain(w, acts) {
      OldJwtKeyStaysOld(w, acts, t.signer);
    } else {
      SameProcessUnlessRestarted(w, acts);
    }
  }

  // ---- Failed starts ---------------------------------------------------------------------------

  /** A start comes up exactly when its settings parse, the files it finds allow it and, if it has to
      make a root, both saves work. */
  lemma StartComesUpExactly(files: Files, s: Start, now: int)
    ensures Boot(files, s, now).instance.Some?
       <==> (DurationsParse(s.cfg) && Recoverable(files)
             && (BothExist(files) || (s.saveKey == Saved && s.saveCert == Saved)))
  {
  }

  /** This start leaves files behind with which no start can come up: it has to make a root and tears
      the key beside an old certificate, or saves the key and then tears the certificate or leaves
      the old one of another key in place. */
  predicate Interrupted(files: Files, s: Start)
  {
    && DurationsParse(s.cfg) && !BothExist(files)
    && match s.saveKey
       case Untouched => false
       case Torn => files.cert != Missing
       case Saved =>
         match s.saveCert
         case Saved => false
         case Torn => true
         case Untouched =>
           files.cert != Missing && !(files.cert.Holding? && files.cert.value.publicKey == s.keys.root)
  }

  lemma StartLeavesRecoverable(files: Files, s: Start, now: int)
    ensures Recoverable(Boot(files, s, now).files) <==> Recoverable(files) && !Interrupted(files, s)
  {
  }

  lemma {:induction false} UnrecoverableStaysDown(w: World, acts: seq<Action>)
    requires !Recoverable(w.files) && Legal(Enabled, Next, w, acts) && KeepsFiles(acts)
    ensures After(Next, w, acts).files == w.files && !CameUpAgain(w, acts)
    decreases |acts|
  {
    if acts == [] {
    } else {
      UnrecoverableStaysDown(Next(w, acts[0]), acts[1..]);
    }
  }

  lemma {:induction false} KeyAbove(keys: set<Key>) returns (k: Key)
    ensures forall x <- keys :: x < k
    decreases keys
  {
    if keys == {} {
      k := 0;
    } else {
      var x :| x in keys;
      var rest := KeyAbove(keys - {x});
      k := Max(rest, x + 1);
      assert forall y <- keys :: y == x || y in keys - {x};
    }
  }

  /** Without anybody removing files, some continuation has a start that comes up. */
  ghost predicate CanComeUp(w: World)
  {
    exists acts :: Legal(Enabled, Next, w, acts) && KeepsFiles(acts) && CameUpAgain(w, acts)
  }

  /** Whether the CA can come up again is decided by its files alone. */
  lemma CanComeUpExactly(w: World)
    ensures CanComeUp(w) <==> Recoverable(w.files)
  {
    if Recoverable(w.files) {
      var k := KeyAbove(w.caKeys);
      var s := Start(Config("", Some(0), Some(0), Some(0)), NewKeys(k, k + 1, k + 2), Saved, Saved);
      var acts := [Restart(s)];
      StartComesUpExactly(w.files, s, w.now);
      Cons(Enabled, Next, w, Restart(s), []);
      assert acts == [Restart(s)] + [] && KeepsFiles(acts);
      assert CameUpAgain(w, acts);
    }
    if acts :| Legal(Enabled, Next, w, acts) && KeepsFiles(acts) && CameUpAgain(w, acts) {
      if !Recoverable(w.files) {
        UnrecoverableStaysDown(w, acts);
        assert false;
      }
    }
  }

  /** A start that fails can be repeated, unless it was interrupted in saving a new root: then no run
      that leaves the files alone ever comes up again. */
  lemma InterruptedSaveIsPermanent(w: World, s: Start)
    requires CanComeUp(w)
    ensures CanComeUp(Next(w, Restart(s))) <==> !Interrupted(w.files, s)
  {
    CanComeUpExactly(w);
    StartLeavesRecoverable(w.files, s, w.now);
    CanComeUpExactly(Next(w, Restart(s)));
  }

  // ---- Validity periods ------------------------------------------------------------------------

  /** Certificates begin no earlier than the ones that sign them, and never in the future. */
  ghost predicate BeginInOrder(w: World)
  {
    && (forall c <- w.roots + w.intermediates :: c.notBefore <= FloorSecond(w.now))
    && (forall i <- w.intermediates, r <- w.roots :: i.signer == r.publicKey ==> r.notBefore <= i.notBefore)
    && (forall s <- w.issued :: s.intermediate.notBefore <= s.leaf.notBefore)
  }

  ghost predicate SoundAndOrdered(w: World) { CaInvariant(w) && BeginInOrder(w) }

  lemma OrderKept(w: World, a: Action)
    requires SoundAndOrdered(w) && Enabled(w, a)
    ensures SoundAndOrdered(Next(w, a))
  {
    InvariantKept(w, a);
    match a
    case Tick(dt) => FloorMonotone(w.now, w.now + dt);
    case Restart(s) => RestartKeepsOrder(w, s);
    case _ =>
  }

  lemma RestartKeepsOrder(w: World, s: Start)
    requires SoundAndOrdered(w) && Enabled(w, Restart(s))
    ensures BeginInOrder(Next(w, Restart(s)))
  {
    var v := Next(w, Restart(s));
    forall i <- v.intermediates, r <- v.roots | i.signer == r.publicKey ensures r.notBefore <= i.notBefore {
      assert i in w.intermediates ==> r in w.roots;
    }
  }

  lemma ReachableWorldsOrdered(w: World, acts: seq<Action>)
    requires Untouched(w) && Legal(Enabled, Next, w, acts)
    ensures SoundAndOrdered(After(Next, w, acts))
  {
    forall v, a | SoundAndOrdered(v) && Enabled(v, a) ensures SoundAndOrdered(Next(v, a)) {
      OrderKept(v, a);
    }
    Invariance(Enabled, Next, SoundAndOrdered, w, acts);
  }

  ghost predicate GoodForLife(i: Instance, parse: IdParser, s: X509Svid)
  {
    forall t :: TimeValid(s.leaf, t) ==> ValidateX509(i, parse, [s.leaf, s.intermediate], t) == Some(s.spiffeId)
  }

  /** In every reachable world, a chain issued under the root in use is valid for the leaf's whole life
      if and only if the leaf ends no later than its intermediate and the root (or has no life at all). */
  lemma GoodForLifeExactly(w: World, s: X509Svid)
    requires SoundAndOrdered(w) && w.current.Some? && s in w.issued
    requires s.intermediate.signer == w.current.value.rootKey
    requires w.parse(s.spiffeId).value.trustDomain == w.current.value.trustDomain
    ensures GoodForLife(w.current.value, w.parse, s)
       <==> (s.leaf.notAfter < s.leaf.notBefore
             || s.leaf.notAfter <= Min(s.intermediate.notAfter, w.current.value.rootCert.notAfter))
  {
    var i := w.current.value;
    forall t | TimeValid(s.leaf, t)
      ensures ValidateX509(i, w.parse, [s.leaf, s.intermediate], t) == Some(s.spiffeId)
         <==> t <= Min(s.intermediate.notAfter, i.rootCert.notAfter)
    {
      IssuedChainValidatesExactly(w, s, t);
    }
    if s.leaf.notBefore <= s.leaf.notAfter {
      assert TimeValid(s.leaf, s.leaf.notAfter);
    }
  }

  ghost predicate NoRestart(acts: seq<Action>) { forall a <- acts :: !a.Restart? }

  lemma {:induction false} SameProcessThroughout(w: World, acts: seq<Action>)
    requires NoRestart(acts) && Legal(Enabled, Next, w, acts)
    ensures After(Next, w, acts).current == w.current
    ensures After(Next, w, acts).now >= w.now && After(Next, w, acts).parse == w.parse
    decreases |acts|
  {
    if acts == [] {
    } else {
      SameProcessThroughout(Next(w, acts[0]), acts[1..]);
    }
  }

  /** At any point of a process's run, what it issues next lies within its intermediate if and only if
      it ends, in whole seconds, no later than signing TTL after the process started. */
  lemma NestsExactly(w: World, st: Start, acts: seq<Action>, spiffeId: string, key: Key, ttl: Int64)
    requires Next(w, Restart(st)).current.Some?
    requires NoRestart(acts) && Legal(Enabled, Next, Next(w, Restart(st)), acts)
    ensures var v := After(Next, Next(w, Restart(st)), acts);
      v.current.Some?
      && (SignX509(v.current.value, v.parse, spiffeId, key, ttl, v.now).Some? ==>
            var s := SignX509(v.current.value, v.parse, spiffeId, key, ttl, v.now).value;
            && s.intermediate.notBefore == FloorSecond(w.now) <= s.leaf.notBefore
            && (s.leaf.notAfter <= s.intermediate.notAfter
                <==> FloorSecond(s.expiresAt) <= FloorSecond(w.now + st.cfg.signingTtl.value)))
  {
    SameProcessThroughout(Next(w, Restart(st)), acts);
    FloorMonotone(w.now, After(Next, Next(w, Restart(st)), acts).now);
  }

  /** The settings of a start decide what its process issues until the next restart: only IDs of the
      configured trust domain with a path, and with positive settings for the TTL asked for in seconds,
      or else the configured default, and never more than the configured maximum. */
  lemma SettingsDecideLifetime(
    w: World, st: Start, acts: seq<Action>, spiffeId: string, key: Key, audience: seq<string>, ttl: Int64)
    requires Next(w, Restart(st)).current.Some?
    requires NoRestart(acts) && Legal(Enabled, Next, Next(w, Restart(st)), acts)
    requires st.cfg.defaultTtl.value > 0 && st.cfg.maxTtl.value > 0 && ttl <= MAX_SECONDS
    ensures var v := After(Next, Next(w, Restart(st)), acts);
      && v.current.Some? && v.current.value.trustDomain == st.cfg.trustDomain
      && var svid := SignX509(v.current.value, v.parse, spiffeId, key, ttl, v.now);
         var token := SignJwt(v.current.value, v.parse, spiffeId, audience, ttl, v.now);
         var signs := v.parse(spiffeId).Some? && v.parse(spiffeId).value.trustDomain == st.cfg.trustDomain
                      && v.parse(spiffeId).value.path != "";
         var end := v.now + Min(if ttl > 0 then ttl else st.cfg.defaultTtl.value / SECOND,
                                st.cfg.maxTtl.value / SECOND) * SECOND;
         && (svid.Some? <==> signs) && (token.Some? <==> signs && audience != [])
         && (svid.Some? ==> svid.value.expiresAt == end && svid.value.leaf.notAfter == FloorSecond(end))
         && (token.Some? ==> token.value.expiresAt == end && token.value.exp == FloorSecond(end))
  {
    SameProcessThroughout(Next(w, Restart(st)), acts);
    var v := After(Next, Next(w, Restart(st)), acts);
    var l := v.current.value.limits;
    LifetimeIsLeastBound(l, ttl, 0, None);
    WrapIsIdentity(ComputeTtl(l, ttl, 0, None) * SECOND);
    var least := Effective(l, ttl, 0, None);
    assert l == Limits(st.cfg.defaultTtl.value, st.cfg.maxTtl.value);
    assert (if ttl > 0 then ttl * SECOND else l.defaultTtl) in Bounds(l, ttl, 0, None);
    assert l.maxTtl in Bounds(l, ttl, 0, None);
    assert least == Min(if ttl > 0 then ttl * SECOND else l.defaultTtl, l.maxTtl);
  }

  /** Validity nesting over a process's run: with positive TTL settings and a default no larger than
      the maximum, every leaf issued up to signing TTL less maximum TTL after the start lies within
      its intermediate, whatever TTL is asked for (even one whose nanoseconds overflow). */
  lemma LeavesNestInIntermediate(w: World, st: Start, acts: seq<Action>, spiffeId: string, key: Key, ttl: Int64)
    requires Next(w, Restart(st)).current.Some?
    requires NoRestart(acts) && Legal(Enabled, Next, Next(w, Restart(st)), acts)
    requires Positive(Limits(st.cfg.defaultTtl.value, st.cfg.maxTtl.value))
    requires st.cfg.defaultTtl.value <= st.cfg.maxTtl.value
    requires After(Next, Next(w, Restart(st)), acts).now <= w.now + st.cfg.signingTtl.value - st.cfg.maxTtl.value
    ensures var v := After(Next, Next(w, Restart(st)), acts);
      v.current.Some?
      && (SignX509(v.current.value, v.parse, spiffeId, key, ttl, v.now).Some? ==>
            var s := SignX509(v.current.value, v.parse, spiffeId, key, ttl, v.now).value;
            s.intermediate.notBefore <= s.leaf.notBefore <= s.leaf.notAfter <= s.intermediate.notAfter)
  {
    SameProcessThroughout(Next(w, Restart(st)), acts);
    NestsExactly(w, st, acts, spiffeId, key, ttl);
    var v := After(Next, Next(w, Restart(st)), acts);
    var i := v.current.value;
    LifetimeInRange(i.limits, ttl, 0, None);
    WrapIsIdentity(ComputeTtl(i.limits, ttl, 0, None) * SECOND);
    FloorMonotone(v.now, EndOf(i, ttl, v.now));
    FloorMonotone(EndOf(i, ttl, v.now), w.now + st.cfg.signingTtl.value);
  }

  /** The intermediate is never renewed while a process runs: once it has ended, everything the
      process goes on to issue is dead on arrival. */
  lemma ExpiredIntermediateIssuesNothingValid(
    w: World, spiffeId: string, key: Key, ttl: Int64, at: int)
    requires CaInvariant(w) && w.current.Some? && w.current.value.intermediateCert.notAfter < w.now <= at
    requires SignX509(w.current.value, w.parse, spiffeId, key, ttl, w.now).Some?
    ensures var s := SignX509(w.current.value, w.parse, spiffeId, key, ttl, w.now).value;
      ValidateX509(w.current.value, w.parse, [s.leaf, s.intermediate], at) == None
  {
  }
}
