/** internal/server/attest.go: POST /v1/attest, from the request to the SVID, over the registry, a
    store and the CA. */
module Attest {
  import opened Prelude
  import opened Matcher
  import opened Stores
  import opened Pki
  import opened Ttl
  import opened SelfSignedCA
  import CaRuns

  datatype Request = Request(evidenceType: string, evidence: string, svidType: string, audience: seq<string>)

  /** The claims, and when the platform's own token ends; None is Go's zero time. */
  datatype Attestation = Attestation(claims: Claims, expiresAt: Option<int>)

  /** What an attestor accepts and makes of a piece of evidence; None where it rejects it. */
  datatype Attestor = Attestor(canAttest: string -> bool, attest: string -> Option<Attestation>)

  datatype Response =
    | Rejected(status: nat, code: string)
    | X509Response(spiffeId: string, certChain: seq<Cert>, workloadKey: Key, expiresAt: int)
    | JwtResponse(spiffeId: string, token: JwtSvid, expiresAt: int)

  const DEFAULT_TTL: Int64 := 3600

  /** The parsers a request passes: SPIFFE IDs and base64. */
  datatype Parsers = Parsers(spiffeId: IdParser, base64: string -> Option<string>)

  // ---- Registry --------------------------------------------------------------------------------

  /** The k-th attestor is the first to accept the evidence type. */
  ghost predicate Routes(attestors: seq<Attestor>, evidenceType: string, k: nat)
  {
    && k < |attestors| && attestors[k].canAttest(evidenceType)
    && forall j :: 0 <= j < k ==> !attestors[j].canAttest(evidenceType)
  }

  /** What the registry attests, None when nobody accepts the type or the attestor refuses. */
  ghost function Attested(attestors: seq<Attestor>, evidenceType: string, evidence: string): Option<Attestation>
  {
    if k: nat :| Routes(attestors, evidenceType, k) then attestors[k].attest(evidence) else None
  }

  method RegistryAttest(attestors: seq<Attestor>, evidenceType: string, evidence: string)
    returns (result: Option<Attestation>)
    ensures result == Attested(attestors, evidenceType, evidence)
  {
    for i := 0 to |attestors|
      invariant forall j :: 0 <= j < i ==> !attestors[j].canAttest(evidenceType)
    {
      if attestors[i].canAttest(evidenceType) {
        assert Routes(attestors, evidenceType, i);
        return attestors[i].attest(evidence);
      }
    }
    return None;
  }

  // ---- Stores ----------------------------------------------------------------------------------

  datatype Backend = Json(json: JSONStore) | Sql(sql: SqlStore)

  /** What a backend holds: entries in memory, or rows in a database that works or does not. */
  datatype Holdings = Entries(entries: Table) | RowsOn(codec: Codec, rows: Rows, dbOk: bool)

  function Cells(b: Backend): set<object>
  {
    match b
    case Json(s) => {s, s.disk}
    case Sql(s) => {s}
  }

  ghost function Held(b: Backend, dbOk: bool): Holdings
    reads Cells(b)
  {
    match b
    case Json(s) => Entries(InMemory(s.entries))
    case Sql(s) => RowsOn(s.codec, s.rows, dbOk)
  }

  /** What a backend may answer: JSON, the scan of its entries in some order; SQL, the winner among
      the attestor's rows, or nothing when the database or a row of theirs fails. */
  ghost predicate MayChoose(h: Holdings, attestor: string, claims: Claims, chosen: Option<Entry>)
  {
    match h
    case Entries(t) => ScannedFrom(chosen, t.Values, attestor, claims)
    case RowsOn(c, rows, dbOk) =>
      chosen == if dbOk && RowsDecode(c, rows, attestor) then Winner(Decoded(c, rows, attestor), attestor, claims)
                else None
  }

  method StoreMatch(b: Backend, attestor: string, claims: Claims, dbOk: bool) returns (reply: MatchReply)
    ensures MayChoose(Held(b, dbOk), attestor, claims, Selected(reply))
  {
    match b {
      case Json(s) => reply := s.Match(attestor, claims);
      case Sql(s) => reply := s.Match(attestor, claims, dbOk);
    }
  }

  /** These holdings stand for this table: JSON has it in memory keyed by ID, SQL in readable rows of a
      database that works. Stores written only through their own operations are so. */
  ghost predicate StandsFor(h: Holdings, t: Table)
  {
    && Keyed(t)
    && match h
       case Entries(entries) => entries == t
       case RowsOn(c, rows, dbOk) => dbOk && Readable(c, rows) && TableOf(c, rows) == t
  }

  /** Whichever backend stands for a table, and in whatever order it walks it, its answer is the
      table's winner. */
  lemma BackendChoosesWinner(h: Holdings, t: Table, attestor: string, claims: Claims, chosen: Option<Entry>)
    requires StandsFor(h, t) && MayChoose(h, attestor, claims, chosen)
    ensures chosen == Winner(t.Values, attestor, claims)
  {
    KeyedTablesHaveDistinctIds(t);
    match h
    case Entries(_) => ScanOfPoolFindsWinner(chosen, t.Values, attestor, claims);
    case RowsOn(c, rows, _) => PrefilteredRowsSelectAlike(c, rows, attestor, claims);
  }

  // ---- The decision ----------------------------------------------------------------------------

  predicate WellFormed(r: Request)
  {
    && r.evidenceType != "" && r.evidence != "" && r.svidType != ""
    && (r.svidType == "x509" || r.svidType == "jwt")
    && (r.svidType == "jwt" ==> r.audience != [])
  }

  predicate WellFormedRequest(request: Option<Request>) { request.Some? && WellFormed(request.value) }

  /** The evidence decodes and the first accepting attestor makes these claims of it. */
  ghost predicate Proves(p: Parsers, attestors: seq<Attestor>, r: Request, claims: Claims)
  {
    && p.base64(r.evidence).Some?
    && Attested(attestors, r.evidenceType, p.base64(r.evidence).value).Some?
    && Attested(attestors, r.evidenceType, p.base64(r.evidence).value).value.claims == claims
  }

  function TtlOf(e: Entry): Int64 { if e.ttl <= 0 then DEFAULT_TTL else e.ttl }

  function SvidFor(i: Instance, p: Parsers, r: Request, e: Entry, key: Key, now: int): Response
    requires MaySign(i, p.spiffeId, e.spiffeId) && (r.svidType != "x509" ==> r.audience != [])
  {
    if r.svidType == "x509" then
      var s := SignX509(i, p.spiffeId, e.spiffeId, key, TtlOf(e), now).value;
      X509Response(e.spiffeId, [s.leaf, s.intermediate], key, s.expiresAt)
    else
      var s := SignJwt(i, p.spiffeId, e.spiffeId, r.audience, TtlOf(e), now).value;
      JwtResponse(e.spiffeId, s, s.expiresAt)
  }

  function EndFor(i: Instance, p: Parsers, r: Request, chosen: Option<Entry>, key: Key, now: int): Response
    requires r.svidType != "x509" ==> r.audience != []
  {
    match chosen
    case None => Rejected(403, "NO_MATCHING_ENTRY")
    case Some(e) =>
      if MaySign(i, p.spiffeId, e.spiffeId) then SvidFor(i, p, r, e, key, now)
      else Rejected(500, "SVID_ISSUANCE_FAILED")
  }

  /** Every way a request can end, by the first thing it lacks; `chosen` is the store's answer. */
  ghost predicate Ends(
    p: Parsers, attestors: seq<Attestor>, chosen: Option<Entry>, i: Instance,
    request: Option<Request>, key: Key, now: int, resp: Response)
  {
    if request.None? || !WellFormed(request.value) || p.base64(request.value.evidence).None? then
      resp == Rejected(400, "INVALID_REQUEST")
    else
      var r := request.value;
      if Attested(attestors, r.evidenceType, p.base64(r.evidence).value).None? then
        resp == Rejected(401, "ATTESTATION_FAILED")
      else
        resp == EndFor(i, p, r, chosen, key, now)
  }

  /** `chosen` is what the store may answer to whatever claims the request proves. */
  ghost predicate ChosenFrom(
    p: Parsers, attestors: seq<Attestor>, h: Holdings, request: Option<Request>, chosen: Option<Entry>)
  {
    forall claims :: request.Some? && Proves(p, attestors, request.value, claims) ==>
      MayChoose(h, request.value.evidenceType, claims, chosen)
  }

  lemma ChosenForAttested(
    p: Parsers, attestors: seq<Attestor>, h: Holdings, request: Option<Request>, chosen: Option<Entry>)
    requires WellFormedRequest(request) && p.base64(request.value.evidence).Some?
    requires var got := Attested(attestors, request.value.evidenceType, p.base64(request.value.evidence).value);
      got.Some? ==> MayChoose(h, request.value.evidenceType, got.value.claims, chosen)
    ensures ChosenFrom(p, attestors, h, request, chosen)
  {
  }

  class Server {
    const ca: SelfSignedCA
    const attestors: seq<Attestor>
    const store: Backend
    var attestationTotal: multiset<(string, string)>  // by evidence type and status
    var svidIssuedTotal: multiset<(string, string)>   // by SVID type and evidence type

    /** Per evidence type, successful attestations are exactly the SVIDs issued. */
    ghost predicate CountersAgree()
      reads this
    {
      forall t: string :: attestationTotal[(t, "success")] == svidIssuedTotal[("x509", t)] + svidIssuedTotal[("jwt", t)]
    }

    constructor (ca: SelfSignedCA, attestors: seq<Attestor>, store: Backend)
      ensures this.ca == ca && this.attestors == attestors && this.store == store && CountersAgree()
    {
      this.ca, this.attestors, this.store := ca, attestors, store;
      attestationTotal, svidIssuedTotal := multiset{}, multiset{};
    }

    /** `request` is None when the body does not decode; `key` is the fresh workload key pair. */
    method HandleAttest(p: Parsers, request: Option<Request>, key: Key, dbOk: bool, now: int)
      returns (resp: Response, ghost chosen: Option<Entry>)
      requires CountersAgree()
      modifies this
      ensures WellFormedRequest(request) ==> ChosenFrom(p, attestors, old(Held(store, dbOk)), request, chosen)
      ensures Ends(p, attestors, chosen, old(ca.View()), request, key, now, resp)
      ensures CountersAgree()
      ensures !resp.Rejected? ==> request.Some?
      ensures !resp.Rejected? ==>
                && (resp.X509Response? <==> request.value.svidType == "x509")
                && (resp.JwtResponse? <==> request.value.svidType == "jwt")
      ensures svidIssuedTotal == old(svidIssuedTotal) +
                if resp.Rejected? then multiset{}
                else multiset{(request.value.svidType, request.value.evidenceType)}
      ensures attestationTotal == old(attestationTotal) +
                if resp.Rejected? && resp.status == 401 then multiset{("unknown", "error")}
                else if resp.Rejected? then multiset{}
                else multiset{(request.value.evidenceType, "success")}
    {
      resp, chosen := Decide(p, request, key, dbOk, now);
      if resp.Rejected? {
        if resp.status == 401 {
          CountRefused();
        }
      } else {
        CountIssued(request.value);
      }
    }

    /** The checks on the request in their order, and then its decoded evidence. */
    method CheckRequest(p: Parsers, request: Option<Request>) returns (evidence: Option<string>)
      ensures evidence.Some? <==> WellFormedRequest(request) && p.base64(request.value.evidence).Some?
      ensures evidence.Some? ==> evidence == p.base64(request.value.evidence)
    {
      if request.None? {
        return None;
      }
      var r := request.value;
      if r.evidenceType == "" || r.evidence == "" || r.svidType == "" {
        return None;
      }
      if r.svidType != "x509" && r.svidType != "jwt" {
        return None;
      }
      if r.svidType == "jwt" && |r.audience| == 0 {
        return None;
      }
      return p.base64(r.evidence);
    }

    /** The rest of the handler once the request is in order: attesting, matching, issuing. */
    method Answer(p: Parsers, r: Request, evidence: string, key: Key, dbOk: bool, now: int)
      returns (resp: Response, ghost chosen: Option<Entry>)
      requires WellFormed(r)
      ensures Attested(attestors, r.evidenceType, evidence).None? ==> resp == Rejected(401, "ATTESTATION_FAILED")
      ensures Attested(attestors, r.evidenceType, evidence).Some? ==>
                var claims := Attested(attestors, r.evidenceType, evidence).value.claims;
                MayChoose(Held(store, dbOk), r.evidenceType, claims, chosen)
                && resp == EndFor(ca.View(), p, r, chosen, key, now)
      ensures !resp.Rejected? ==>
                (resp.X509Response? <==> r.svidType == "x509") && (resp.JwtResponse? <==> r.svidType == "jwt")
    {
      chosen := None;
      var result := RegistryAttest(attestors, r.evidenceType, evidence);
      if result.None? {
        return Rejected(401, "ATTESTATION_FAILED"), chosen;
      }
      var matched := StoreMatch(store, r.evidenceType, result.value.claims, dbOk);
      chosen := Selected(matched);
      if matched == Failure || matched == Nothing {
        return Rejected(403, "NO_MATCHING_ENTRY"), chosen;
      }
      resp := IssueSvid(p, r, matched.e, key, now);
    }

    /** The handler without its counters: the early returns in their order. */
    method Decide(p: Parsers, request: Option<Request>, key: Key, dbOk: bool, now: int)
      returns (resp: Response, ghost chosen: Option<Entry>)
      ensures WellFormedRequest(request) ==> ChosenFrom(p, attestors, Held(store, dbOk), request, chosen)
      ensures Ends(p, attestors, chosen, ca.View(), request, key, now, resp)
      ensures !resp.Rejected? ==> request.Some? && WellFormed(request.value)
      ensures !resp.Rejected? ==>
                && (resp.X509Response? <==> request.value.svidType == "x509")
                && (resp.JwtResponse? <==> request.value.svidType == "jwt")
    {
      chosen := None;
      var evidence := CheckRequest(p, request);
      if evidence.None? {
        return Rejected(400, "INVALID_REQUEST"), chosen;
      }
      resp, chosen := Answer(p, request.value, evidence.value, key, dbOk, now);
      ChosenForAttested(p, attestors, Held(store, dbOk), request, chosen);
    }

    /** The TTL default and the switch over SVID types. */
    method IssueSvid(p: Parsers, r: Request, entry: Entry, key: Key, now: int) returns (resp: Response)
      requires WellFormed(r)
      ensures MaySign(ca.View(), p.spiffeId, entry.spiffeId) ==> resp == SvidFor(ca.View(), p, r, entry, key, now)
      ensures !MaySign(ca.View(), p.spiffeId, entry.spiffeId) ==> resp == Rejected(500, "SVID_ISSUANCE_FAILED")
      ensures !resp.Rejected? ==>
                && (resp.X509Response? <==> r.svidType == "x509") && (resp.JwtResponse? <==> r.svidType == "jwt")
                && resp.spiffeId == entry.spiffeId
    {
      var ttl := entry.ttl;
      if ttl <= 0 {
        ttl := DEFAULT_TTL;
      }
      if r.svidType == "x509" {
        var svid := ca.SignX509SVID(p.spiffeId, entry.spiffeId, key, ttl, now);
        if svid.None? {
          return Rejected(500, "SVID_ISSUANCE_FAILED");
        }
        var chain := [svid.value.leaf, svid.value.intermediate];
        var pems: seq<Cert> := [];
        for i := 0 to |chain|
          invariant pems == chain[..i]
        {
          pems := pems + [chain[i]];
        }
        return X509Response(entry.spiffeId, pems, key, svid.value.expiresAt);
      }
      var svid := ca.SignJWTSVID(p.spiffeId, entry.spiffeId, r.audience, ttl, now);
      if svid.None? {
        return Rejected(500, "SVID_ISSUANCE_FAILED");
      }
      return JwtResponse(entry.spiffeId, svid.value, svid.value.expiresAt);
    }

    method CountRefused()
      requires CountersAgree()
      modifies this`attestationTotal
      ensures attestationTotal == old(attestationTotal) + multiset{("unknown", "error")} && CountersAgree()
    {
      attestationTotal := attestationTotal + multiset{("unknown", "error")};
    }

    method CountIssued(r: Request)
      requires WellFormed(r) && CountersAgree()
      modifies this
      ensures attestationTotal == old(attestationTotal) + multiset{(r.evidenceType, "success")}
      ensures svidIssuedTotal == old(svidIssuedTotal) + multiset{(r.svidType, r.evidenceType)}
      ensures CountersAgree()
    {
      attestationTotal := attestationTotal + multiset{(r.evidenceType, "success")};
      svidIssuedTotal := svidIssuedTotal + multiset{(r.svidType, r.evidenceType)};
    }
  }

  /** What every refusal says, by the first thing a request lacks, and that nothing else is refused: the
      first attestor that accepts the type sees the evidence decoded, and decides. */
  lemma RefusalsExactly(
    p: Parsers, attestors: seq<Attestor>, chosen: Option<Entry>, i: Instance,
    request: Option<Request>, key: Key, now: int, resp: Response, k: nat)
    requires Ends(p, attestors, chosen, i, request, key, now, resp)
    requires k <= |attestors|
    requires request.Some? ==> forall j :: 0 <= j < k ==> !attestors[j].canAttest(request.value.evidenceType)
    requires request.Some? && k < |attestors| ==> attestors[k].canAttest(request.value.evidenceType)
    ensures
      var bad := request.None? || request.value.evidenceType == "" || request.value.evidence == ""
                 || !(request.value.svidType == "x509" || request.value.svidType == "jwt")
                 || (request.value.svidType == "jwt" && request.value.audience == [])
                 || p.base64(request.value.evidence).None?;
      var rejected := bad || k == |attestors| || attestors[k].attest(p.base64(request.value.evidence).value).None?;
      var unsigned := chosen.Some? && !(var id := p.spiffeId(chosen.value.spiffeId);
                        id.Some? && id.value.trustDomain == i.trustDomain && id.value.path != "");
      && (bad <==> resp == Rejected(400, "INVALID_REQUEST"))
      && (!bad && rejected <==> resp == Rejected(401, "ATTESTATION_FAILED"))
      && (!rejected && chosen.None? <==> resp == Rejected(403, "NO_MATCHING_ENTRY"))
      && (!rejected && unsigned <==> resp == Rejected(500, "SVID_ISSUANCE_FAILED"))
      && (!rejected && chosen.Some? && !unsigned <==> !resp.Rejected?)
  {
    if request.Some? && p.base64(request.value.evidence).Some? {
      FirstAttestorDecides(attestors, request.value.evidenceType, p.base64(request.value.evidence).value, k);
    }
  }

  lemma FirstAttestorDecides(attestors: seq<Attestor>, evidenceType: string, evidence: string, k: nat)
    requires k <= |attestors| && forall j :: 0 <= j < k ==> !attestors[j].canAttest(evidenceType)
    requires k < |attestors| ==> attestors[k].canAttest(evidenceType)
    ensures Attested(attestors, evidenceType, evidence)
         == if k < |attestors| then attestors[k].attest(evidence) else None
  {
    if k < |attestors| {
      assert Routes(attestors, evidenceType, k);
    }
    assert forall j: nat :: Routes(attestors, evidenceType, j) ==> j == k;
  }

  // ---- End to end ------------------------------------------------------------------------------

  /** The entries a store can read for an attestor: all in memory, or the attestor's rows of a database
      that works if every one of them decodes. */
  ghost function CanRead(h: Holdings, attestor: string): set<Entry>
  {
    match h
    case Entries(t) => t.Values
    case RowsOn(c, rows, dbOk) => if dbOk && RowsDecode(c, rows, attestor) then Decoded(c, rows, attestor) else {}
  }

  /** Holdings as the stores keep them: JSON's are keyed by ID, as JsonPersistence says. Rows always are. */
  ghost predicate WellKept(h: Holdings) { h.Entries? ==> Keyed(h.entries) }

  /** The entry a request is entitled to: it proves claims whose best match, among the entries the store
      can read for its evidence type, this is. */
  ghost predicate EntitledTo(p: Parsers, attestors: seq<Attestor>, h: Holdings, request: Option<Request>, e: Entry)
  {
    && WellFormedRequest(request)
    && var r := request.value;
       exists claims :: Proves(p, attestors, r, claims)
                        && IsBest(e, CanRead(h, r.evidenceType), r.evidenceType, claims)
  }

  /** The lifetime in seconds the documentation promises: the entry's TTL, or an hour, capped. */
  function PromisedSeconds(l: Limits, e: Entry): int
  {
    Min(if e.ttl > 0 then e.ttl else 3600, l.maxTtl / SECOND)
  }

  /** `chosen` is the table's winner for whatever claims the request proves. */
  ghost predicate ChosenByTable(p: Parsers, attestors: seq<Attestor>, t: Table, r: Request, chosen: Option<Entry>)
  {
    forall claims :: Proves(p, attestors, r, claims) ==> chosen == Winner(t.Values, r.evidenceType, claims)
  }

  /** Whatever backend stands for the table, the handler goes by the table's winner. */
  lemma HandlerGoesByTable(
    p: Parsers, attestors: seq<Attestor>, h: Holdings, t: Table, r: Request, chosen: Option<Entry>)
    requires StandsFor(h, t) && ChosenFrom(p, attestors, h, Some(r), chosen)
    ensures ChosenByTable(p, attestors, t, r, chosen)
  {
    forall claims | Proves(p, attestors, r, claims) ensures chosen == Winner(t.Values, r.evidenceType, claims) {
      BackendChoosesWinner(h, t, r.evidenceType, claims, chosen);
    }
  }

  /** Whatever the state of the store, it chooses the winner of what it can read. */
  lemma ChoosesFromReadable(h: Holdings, attestor: string, claims: Claims, chosen: Option<Entry>)
    requires WellKept(h) && MayChoose(h, attestor, claims, chosen)
    ensures DistinctIds(CanRead(h, attestor)) && chosen == Winner(CanRead(h, attestor), attestor, claims)
  {
    match h
    case Entries(t) =>
      KeyedTablesHaveDistinctIds(t);
      ScanOfPoolFindsWinner(chosen, t.Values, attestor, claims);
    case RowsOn(_, _, _) =>
      WinnerMeaning(CanRead(h, attestor), attestor, claims);
  }

  /** The entry a request is entitled to is the one the handler chose, if it gets as far as choosing. */
  lemma EntitledToTheChosen(
    p: Parsers, attestors: seq<Attestor>, h: Holdings, chosen: Option<Entry>, request: Option<Request>,
    claims: Claims, e: Entry)
    requires WellKept(h) && WellFormedRequest(request) && Proves(p, attestors, request.value, claims)
    requires ChosenFrom(p, attestors, h, request, chosen)
    ensures EntitledTo(p, attestors, h, request, e) <==> chosen == Some(e)
  {
    var attestor := request.value.evidenceType;
    ChoosesFromReadable(h, attestor, claims, chosen);
    WinnerMeaning(CanRead(h, attestor), attestor, claims);
  }

  /** End-to-end issuance, both ways: a request is answered with an SVID if and only if it is well formed,
      its evidence was accepted by the first attestor for its type, and the unique best match for the
      attested claims, among the entries the store can read for that type, names an ID of the CA's
      trust domain with a path. Every other request issues nothing, failing stores included. */
  lemma IssuesExactlyToTheEntitled(
    p: Parsers, attestors: seq<Attestor>, h: Holdings, chosen: Option<Entry>, i: Instance,
    request: Option<Request>, key: Key, now: int, resp: Response)
    requires WellKept(h) && (WellFormedRequest(request) ==> ChosenFrom(p, attestors, h, request, chosen))
    requires Ends(p, attestors, chosen, i, request, key, now, resp)
    ensures !resp.Rejected?
       <==> exists e :: EntitledTo(p, attestors, h, request, e) && MaySign(i, p.spiffeId, e.spiffeId)
  {
    if WellFormedRequest(request) && p.base64(request.value.evidence).Some? {
      var r := request.value;
      var got := Attested(attestors, r.evidenceType, p.base64(r.evidence).value);
      if got.Some? {
        forall e ensures EntitledTo(p, attestors, h, request, e) <==> chosen == Some(e) {
          EntitledToTheChosen(p, attestors, h, chosen, request, got.value.claims, e);
        }
      }
    }
  }

  /** And what is issued to a request entitled to an entry is that entry's SVID. */
  lemma IssuesTheEntrysSvid(
    p: Parsers, attestors: seq<Attestor>, h: Holdings, chosen: Option<Entry>, i: Instance,
    request: Option<Request>, key: Key, now: int, resp: Response, e: Entry)
    requires WellKept(h) && (WellFormedRequest(request) ==> ChosenFrom(p, attestors, h, request, chosen))
    requires Ends(p, attestors, chosen, i, request, key, now, resp) && EntitledTo(p, attestors, h, request, e)
    ensures if MaySign(i, p.spiffeId, e.spiffeId)
            then resp == SvidFor(i, p, request.value, e, key, now) && resp.spiffeId == e.spiffeId
            else resp == Rejected(500, "SVID_ISSUANCE_FAILED")
  {
    var r := request.value;
    var claims :| Proves(p, attestors, r, claims) && IsBest(e, CanRead(h, r.evidenceType), r.evidenceType, claims);
    EntitledToTheChosen(p, attestors, h, chosen, request, claims, e);
  }

  /** What an SVID says and how long it lives: min(entry TTL if positive else 3600 s, maximum TTL). */
  lemma IssuedLifetime(i: Instance, p: Parsers, r: Request, e: Entry, key: Key, now: int)
    requires MaySign(i, p.spiffeId, e.spiffeId) && (r.svidType != "x509" ==> r.audience != [])
    requires Positive(i.limits) && e.ttl <= MAX_SECONDS
    ensures var resp := SvidFor(i, p, r, e, key, now);
      && (resp.X509Response? <==> r.svidType == "x509") && !resp.Rejected? && resp.spiffeId == e.spiffeId
      && resp.expiresAt == now + PromisedSeconds(i.limits, e) * SECOND
      && (resp.X509Response? ==>
            var leaf := resp.certChain[0];
            && leaf.uri == Some(e.spiffeId) && leaf.publicKey == resp.workloadKey == key
            && leaf.notBefore == FloorSecond(now) && leaf.notAfter == FloorSecond(resp.expiresAt))
      && (resp.JwtResponse? ==>
            && resp.token.sub == e.spiffeId && resp.token.aud == r.audience && resp.token.signer == i.jwtKey
            && resp.token.iat == FloorSecond(now) && resp.token.exp == FloorSecond(resp.expiresAt))
  {
    var ttl := TtlOf(e);
    LifetimeIsLeastBound(i.limits, ttl, 0, None);
    var seconds := ComputeTtl(i.limits, ttl, 0, None);
    WrapIsIdentity(seconds * SECOND);
    var l := Effective(i.limits, ttl, 0, None);
    assert ttl * SECOND in Bounds(i.limits, ttl, 0, None) && i.limits.maxTtl in Bounds(i.limits, ttl, 0, None);
    assert l == Min(ttl * SECOND, i.limits.maxTtl);
  }

  /** What the documentation makes of a platform token's end: one more bound, in whole seconds. */
  function DocumentedSeconds(l: Limits, e: Entry, expiresAt: Option<int>, now: int): int
  {
    var promised := PromisedSeconds(l, e);
    if expiresAt.None? then promised else Min(promised, TruncDiv(expiresAt.value - now, SECOND))
  }

  /** The documented minimum includes what is left of the platform token, and the endpoint keeps to it
      exactly when that is no bound: there is no token expiry, or it leaves the promised lifetime. It
      never gives less than the minimum. */
  lemma DocumentedMinimumExactly(
    p: Parsers, attestors: seq<Attestor>, e: Entry, i: Instance, r: Request, a: Attestation,
    key: Key, now: int, resp: Response)
    requires WellFormed(r) && p.base64(r.evidence).Some?
    requires Attested(attestors, r.evidenceType, p.base64(r.evidence).value) == Some(a)
    requires Ends(p, attestors, Some(e), i, Some(r), key, now, resp) && !resp.Rejected?
    requires Positive(i.limits) && e.ttl <= MAX_SECONDS
    ensures resp.expiresAt == now + DocumentedSeconds(i.limits, e, a.expiresAt, now) * SECOND
       <==> (a.expiresAt.None? || TruncDiv(a.expiresAt.value - now, SECOND) >= PromisedSeconds(i.limits, e))
    ensures resp.expiresAt >= now + DocumentedSeconds(i.limits, e, a.expiresAt, now) * SECOND
  {
    IssuedLifetime(i, p, r, e, key, now);
    LifetimeIsLeastBound(i.limits, TtlOf(e), 0, None);
  }

  /** An instance: an entry without a TTL, a maximum of a day and a platform token with a minute left. */
  lemma TokenOutlived(
    p: Parsers, attestors: seq<Attestor>, e: Entry, i: Instance, r: Request, a: Attestation,
    key: Key, now: int, resp: Response)
    requires WellFormed(r) && p.base64(r.evidence).Some?
    requires Attested(attestors, r.evidenceType, p.base64(r.evidence).value) == Some(a)
    requires Ends(p, attestors, Some(e), i, Some(r), key, now, resp) && !resp.Rejected?
    requires i.limits == Limits(HOUR, 24 * HOUR) && e.ttl == 0 && a.expiresAt == Some(now + MINUTE)
    ensures DocumentedSeconds(i.limits, e, a.expiresAt, now) == 60 && resp.expiresAt == now + 3600 * SECOND
  {
    IssuedLifetime(i, p, r, e, key, now);
  }

  /** What an X.509 request is answered with validates: at the issuing process, at once, to the entry's
      ID, if and only if that process's own intermediate and root are still in their time and the
      lifetime it got outlasts the rounding down to whole seconds. */
  lemma IssuedSvidValidatesAtOnce(w: CaRuns.World, p: Parsers, r: Request, e: Entry, key: Key)
    requires CaRuns.CaInvariant(w) && w.current.Some? && w.parse == p.spiffeId
    requires MaySign(w.current.value, p.spiffeId, e.spiffeId) && r.svidType == "x509"
    requires Positive(w.current.value.limits)
    ensures var i := w.current.value;
      var resp := SvidFor(i, p, r, e, key, w.now);
      ValidateX509(i, p.spiffeId, resp.certChain, w.now) == Some(e.spiffeId)
      <==> (i.intermediateCert.notBefore <= w.now <= i.intermediateCert.notAfter
            && i.rootCert.notBefore <= w.now <= i.rootCert.notAfter
            && w.now <= resp.certChain[0].notAfter)
  {
    var i := w.current.value;
    var a := CaRuns.IssueX509(e.spiffeId, key, TtlOf(e));
    CaRuns.InvariantKept(w, a);
    var s := SignX509(i, p.spiffeId, e.spiffeId, key, TtlOf(e), w.now).value;
    CaRuns.IssuedChainValidatesExactly(CaRuns.Next(w, a), s, w.now);
    FloorMonotone(w.now, w.now);
  }

  /** The JWT counterpart: the token in the answer validates at the issuing process to the entry's ID for
      exactly the audiences asked for, from a minute before it was issued until a minute after the end
      of its lifetime. */
  lemma IssuedTokenValidatesExactly(
    i: Instance, p: Parsers, r: Request, e: Entry, key: Key, now: int, audience: string, at: int)
    requires MaySign(i, p.spiffeId, e.spiffeId) && WellFormed(r) && r.svidType == "jwt"
    ensures var resp := SvidFor(i, p, r, e, key, now);
      && resp.JwtResponse?
      && ValidateJwt(i, p.spiffeId, resp.token, audience, at)
         == if audience in r.audience && FloorSecond(now) - MINUTE <= at <= FloorSecond(resp.expiresAt) + MINUTE
            then Some(e.spiffeId) else None
  {
    CaRuns.JwtRoundTrip(i, p.spiffeId, e.spiffeId, r.audience, TtlOf(e), now, audience, at);
  }

  /** The CA's default TTL setting reaches what the endpoint issues exactly when the TTL asked for wraps
      around to nothing or the maximum is not positive: an entry without a TTL gets the handler's own
      hour instead. */
  lemma DefaultTtlSettingExactly(i: Instance, p: Parsers, r: Request, e: Entry, key: Key, now: int, other: Int64)
    requires MaySign(i, p.spiffeId, e.spiffeId) && (r.svidType != "x509" ==> r.audience != [])
    ensures SvidFor(i.(limits := i.limits.(defaultTtl := other)), p, r, e, key, now) == SvidFor(i, p, r, e, key, now)
       <==> ((Seconds(TtlOf(e)) > 0 && i.limits.maxTtl > 0)
             || TruncDiv(i.limits.defaultTtl, SECOND) == TruncDiv(other, SECOND))
  {
    var changed := i.limits.(defaultTtl := other);
    TruncatedSecondsFit(Effective(i.limits, TtlOf(e), 0, None));
    TruncatedSecondsFit(Effective(changed, TtlOf(e), 0, None));
    assert Seconds(TtlOf(e)) > 0 && i.limits.maxTtl > 0 ==>
        ComputeTtl(changed, TtlOf(e), 0, None) == ComputeTtl(i.limits, TtlOf(e), 0, None);
  }

  /** Two servers whose backends stand for the same table give the same response to every request,
      although SQLite and JSON report "no match" as an error and Postgres as nil, and JSON walks its
      map in any order. */
  lemma BackendsAnswerAlike(
    p: Parsers, attestors: seq<Attestor>, t: Table, ha: Holdings, hb: Holdings,
    ca: Option<Entry>, cb: Option<Entry>,
    i: Instance, request: Option<Request>, key: Key, now: int, ra: Response, rb: Response)
    requires StandsFor(ha, t) && StandsFor(hb, t)
    requires WellFormedRequest(request) ==>
               ChosenFrom(p, attestors, ha, request, ca) && ChosenFrom(p, attestors, hb, request, cb)
    requires Ends(p, attestors, ca, i, request, key, now, ra) && Ends(p, attestors, cb, i, request, key, now, rb)
    ensures ra == rb
  {
    if WellFormedRequest(request) && p.base64(request.value.evidence).Some? {
      var r := request.value;
      HandlerGoesByTable(p, attestors, ha, t, r, ca);
      HandlerGoesByTable(p, attestors, hb, t, r, cb);
      var got := Attested(attestors, r.evidenceType, p.base64(r.evidence).value);
      assert got.Some? ==> Proves(p, attestors, r, got.value.claims);
    }
  }
}
