/** internal/ca/federation.go: bundles of federated trust domains, fetched all together and committed
    in one critical section. */
module Federation {
  import opened Prelude
  import opened Runs

  type Cert = string

  datatype TrustBundle = TrustBundle(trustDomain: string, authorities: seq<Cert>)

  /** One key of a SPIFFE bundle document, with its raw certificates. */
  datatype KeyJson = KeyJson(use: string, x5c: seq<string>)

  type Document = seq<KeyJson>

  datatype Config = Config(trustDomain: string, refreshInterval: Option<int>)

  type Parser = string -> Option<Cert>

  const DEFAULT_INTERVAL: int := 5 * MINUTE

  /** The raw certificates of the x509-svid keys, in document order; other keys are skipped whole. */
  function Selected(doc: Document): seq<string>
  {
    if doc == [] then []
    else Selected(doc[..|doc| - 1]) + if doc[|doc| - 1].use == "x509-svid" then doc[|doc| - 1].x5c else []
  }

  predicate AllParse(parse: Parser, raws: seq<string>)
  {
    forall i :: 0 <= i < |raws| ==> parse(raws[i]).Some?
  }

  function ParseAll(parse: Parser, raws: seq<string>): seq<Cert>
    requires AllParse(parse, raws)
  {
    seq(|raws|, i requires 0 <= i < |raws| => parse(raws[i]).value)
  }

  predicate Usable(parse: Parser, doc: Document) { AllParse(parse, Selected(doc)) }

  function BundleOf(parse: Parser, cfg: Config, doc: Document): TrustBundle
    requires Usable(parse, doc)
  {
    TrustBundle(cfg.trustDomain, ParseAll(parse, Selected(doc)))
  }

  /** How many certificates the keys before the i-th contribute: those of x509-svid keys, all of them. */
  function Offset(doc: Document, i: nat): nat
    requires i <= |doc|
  {
    if i == 0 then 0
    else Offset(doc, i - 1) + if doc[i - 1].use == "x509-svid" then |doc[i - 1].x5c| else 0
  }

  /** Is there a j-th certificate in the i-th key, and is that an x509-svid key? */
  ghost predicate IsCertAt(doc: Document, i: nat, j: nat)
  {
    i < |doc| && doc[i].use == "x509-svid" && j < |doc[i].x5c|
  }

  /** The authorities are the parsed certificates of the x509-svid keys, each in its place in document
      order, and nothing else. */
  ghost predicate AuthoritiesOf(parse: Parser, doc: Document, authorities: seq<Cert>)
  {
    && |authorities| == Offset(doc, |doc|)
    && forall i: nat, j: nat :: IsCertAt(doc, i, j) ==>
         Offset(doc, i) + j < |authorities| && parse(doc[i].x5c[j]) == Some(authorities[Offset(doc, i) + j])
  }

  lemma {:induction false} OffsetOfPrefix(doc: Document, n: nat, i: nat)
    requires i <= n <= |doc|
    ensures Offset(doc[..n], i) == Offset(doc, i)
    decreases i
  {
    if i == 0 {
    } else {
      OffsetOfPrefix(doc, n, i - 1);
    }
  }

  lemma {:induction false} SelectedLength(doc: Document)
    ensures |Selected(doc)| == Offset(doc, |doc|)
    decreases |doc|
  {
    if doc == [] {
    } else {
      SelectedLength(doc[..|doc| - 1]);
      OffsetOfPrefix(doc, |doc| - 1, |doc| - 1);
    }
  }

  /** Where a certificate of a document stands in the selection. */
  lemma {:induction false} SelectedAt(doc: Document, i: nat, j: nat)
    requires IsCertAt(doc, i, j)
    ensures Offset(doc, i) + j < |Selected(doc)| && Selected(doc)[Offset(doc, i) + j] == doc[i].x5c[j]
    decreases |doc|
  {
    var n := |doc| - 1;
    OffsetOfPrefix(doc, n, i);
    SelectedLength(doc[..n]);
    if i == n {
    } else {
      SelectedAt(doc[..n], i, j);
    }
  }

  /** The selection holds nothing else. */
  lemma {:induction false} SelectedFrom(doc: Document, m: nat) returns (i: nat, j: nat)
    requires m < |Selected(doc)|
    ensures IsCertAt(doc, i, j) && Selected(doc)[m] == doc[i].x5c[j]
    decreases |doc|
  {
    var n := |doc| - 1;
    if m < |Selected(doc[..n])| {
      i, j := SelectedFrom(doc[..n], m);
    } else {
      i, j := n, m - |Selected(doc[..n])|;
    }
  }

  ghost predicate CertificatesParse(parse: Parser, doc: Document)
  {
    forall i: nat, j: nat :: IsCertAt(doc, i, j) ==> parse(doc[i].x5c[j]).Some?
  }

  /** A document is usable exactly if all certificates of its x509-svid keys parse, and then its bundle is
      filed under the configured domain and holds them. */
  lemma BundleMeaning(parse: Parser, cfg: Config, doc: Document)
    ensures Usable(parse, doc) <==> CertificatesParse(parse, doc)
    ensures Usable(parse, doc) ==>
              && BundleOf(parse, cfg, doc).trustDomain == cfg.trustDomain
              && AuthoritiesOf(parse, doc, BundleOf(parse, cfg, doc).authorities)
  {
    SelectedLength(doc);
    forall i: nat, j: nat | IsCertAt(doc, i, j)
      ensures Offset(doc, i) + j < |Selected(doc)| && Selected(doc)[Offset(doc, i) + j] == doc[i].x5c[j]
    {
      SelectedAt(doc, i, j);
    }
    if CertificatesParse(parse, doc) {
      forall m | 0 <= m < |Selected(doc)| ensures parse(Selected(doc)[m]).Some? {
        var i, j := SelectedFrom(doc, m);
      }
    }
  }

  /** What a key contributes depends on its use alone: keys for other uses may hold anything. */
  lemma {:induction false} OtherUsesIgnored(before: Document, other: KeyJson, after: Document)
    requires other.use != "x509-svid"
    ensures Selected(before + [other] + after) == Selected(before + after)
    decreases |after|
  {
    var doc := before + [other] + after;
    if after == [] {
      assert doc[..|doc| - 1] == before && before + after == before;
    } else {
      assert doc[..|doc| - 1] == before + [other] + after[..|after| - 1];
      assert (before + after)[..|before + after| - 1] == before + after[..|after| - 1];
      OtherUsesIgnored(before, other, after[..|after| - 1]);
    }
  }

  predicate AllUsable(parse: Parser, docs: seq<Document>)
  {
    forall i :: 0 <= i < |docs| ==> Usable(parse, docs[i])
  }

  /** The map a fetch round builds from the documents of the first |docs| endpoints. */
  function RoundResult(parse: Parser, configs: seq<Config>, docs: seq<Document>): map<string, TrustBundle>
    requires |docs| <= |configs| && AllUsable(parse, docs)
  {
    if docs == [] then map[]
    else
      var k := |docs| - 1;
      RoundResult(parse, configs, docs[..k])[configs[k].trustDomain := BundleOf(parse, configs[k], docs[k])]
  }

  function Domains(configs: seq<Config>, n: nat): set<string>
    requires n <= |configs|
  {
    set k | 0 <= k < n :: configs[k].trustDomain
  }

  lemma {:induction false} RoundCoversDomains(parse: Parser, configs: seq<Config>, docs: seq<Document>)
    requires |docs| <= |configs| && AllUsable(parse, docs)
    ensures RoundResult(parse, configs, docs).Keys == Domains(configs, |docs|)
    decreases |docs|
  {
    if docs == [] {
    } else {
      RoundCoversDomains(parse, configs, docs[..|docs| - 1]);
    }
  }

  /** Every bundle of a round is filed under its own domain and comes from the document of the last
      endpoint configured for that domain. */
  lemma {:induction false} RoundTakesLast(parse: Parser, configs: seq<Config>, docs: seq<Document>, td: string)
    returns (j: nat)
    requires |docs| <= |configs| && AllUsable(parse, docs) && td in RoundResult(parse, configs, docs)
    ensures j < |docs| && configs[j].trustDomain == td
    ensures forall k :: j < k < |docs| ==> configs[k].trustDomain != td
    ensures RoundResult(parse, configs, docs)[td] == BundleOf(parse, configs[j], docs[j])
    ensures RoundResult(parse, configs, docs)[td].trustDomain == td
    decreases |docs|
  {
    j := |docs| - 1;
    if configs[j].trustDomain == td {
    } else {
      j := RoundTakesLast(parse, configs, docs[..j], td);
    }
  }

  /** A full round leaves nothing of an earlier full round behind. */
  lemma FullRoundReplaces(parse: Parser, configs: seq<Config>, earlier: seq<Document>, docs: seq<Document>)
    requires |earlier| == |docs| == |configs| && AllUsable(parse, earlier) && AllUsable(parse, docs)
    ensures RoundResult(parse, configs, earlier) + RoundResult(parse, configs, docs)
         == RoundResult(parse, configs, docs)
  {
    RoundCoversDomains(parse, configs, earlier);
    RoundCoversDomains(parse, configs, docs);
  }

  function Read(bundles: map<string, TrustBundle>, trustDomain: string): Option<TrustBundle>
  {
    if trustDomain in bundles then Some(bundles[trustDomain]) else None
  }

  class BundleFetcher {
    const configs: seq<Config>
    var bundles: map<string, TrustBundle>

    constructor (configs: seq<Config>)
      ensures this.configs == configs && bundles == map[]
    {
      this.configs := configs;
      bundles := map[];
    }

    /** `response` is the endpoint's decoded document, None when the request, status or JSON is bad. */
    method FetchOne(parse: Parser, cfg: Config, response: Option<Document>) returns (bundle: Option<TrustBundle>)
      ensures bundle.Some? <==> response.Some? && CertificatesParse(parse, response.value)
      ensures bundle.Some? <==> response.Some? && Usable(parse, response.value)
      ensures bundle.Some? ==> bundle.value == BundleOf(parse, cfg, response.value)
      ensures bundle.Some? ==>
                bundle.value.trustDomain == cfg.trustDomain
                && AuthoritiesOf(parse, response.value, bundle.value.authorities)
    {
      if response.None? {
        return None;
      }
      var doc := response.value;
      BundleMeaning(parse, cfg, doc);
      var certs: seq<Cert> := [];
      for i := 0 to |doc|
        invariant AllParse(parse, Selected(doc[..i])) && certs == ParseAll(parse, Selected(doc[..i]))
      {
        assert doc[..i + 1][..i] == doc[..i];
        if doc[i].use == "x509-svid" {
          ghost var done := Selected(doc[..i]);
          for j := 0 to |doc[i].x5c|
            invariant AllParse(parse, done + doc[i].x5c[..j])
            invariant certs == ParseAll(parse, done + doc[i].x5c[..j])
          {
            var cert := parse(doc[i].x5c[j]);
            if cert.None? {
              SelectedGrows(doc, i);
              assert Selected(doc)[|done| + j] == doc[i].x5c[j];
              return None;
            }
            assert done + doc[i].x5c[..j + 1] == (done + doc[i].x5c[..j]) + [doc[i].x5c[j]];
            certs := certs + [cert.value];
          }
          assert doc[i].x5c[..|doc[i].x5c|] == doc[i].x5c;
        }
      }
      assert doc[..|doc|] == doc;
      return Some(TrustBundle(cfg.trustDomain, certs));
    }

    /** One round, undisturbed: every endpoint in turn, then one commit, or nothing at all. */
    method Fetch(parse: Parser, responses: seq<Option<Document>>)
      returns (result: Option<map<string, TrustBundle>>, ghost docs: seq<Document>)
      requires |responses| == |configs|
      modifies this
      ensures result.Some? <==>
                forall i :: 0 <= i < |responses| ==> responses[i].Some? && Usable(parse, responses[i].value)
      ensures result.Some? ==> |docs| == |configs| && AllUsable(parse, docs)
      ensures result.Some? ==> forall i :: 0 <= i < |docs| ==> responses[i] == Some(docs[i])
      ensures result.Some? ==> result.value == RoundResult(parse, configs, docs)
      ensures bundles == if result.Some? then old(bundles) + result.value else old(bundles)
    {
      var fetched: map<string, TrustBundle> := map[];
      docs := [];
      for i := 0 to |configs|
        invariant |docs| == i && AllUsable(parse, docs)
        invariant forall j :: 0 <= j < i ==> responses[j] == Some(docs[j])
        invariant fetched == RoundResult(parse, configs, docs)
        invariant bundles == old(bundles)
      {
        var bundle := FetchOne(parse, configs[i], responses[i]);
        if bundle.None? {
          return None, docs;
        }
        fetched := fetched[configs[i].trustDomain := bundle.value];
        ghost var more := docs + [responses[i].value];
        assert more[..i] == docs;
        docs := more;
      }
      CommitAll(fetched);
      return Some(fetched), docs;
    }

    /** The loop under the write lock; map iteration order is arbitrary. */
    method CommitAll(fetched: map<string, TrustBundle>)
      modifies this
      ensures bundles == old(bundles) + fetched
    {
      var todo := fetched.Keys;
      while todo != {}
        invariant todo <= fetched.Keys
        invariant bundles.Keys == old(bundles).Keys + (fetched.Keys - todo)
        invariant forall td <- bundles ::
                    bundles[td] == if td in fetched && td !in todo then fetched[td] else old(bundles)[td]
        decreases |todo|
      {
        var td :| td in todo;
        bundles := bundles[td := fetched[td]];
        todo := todo - {td};
      }
    }

    method GetBundle(trustDomain: string) returns (bundle: Option<TrustBundle>)
      ensures bundle == Read(bundles, trustDomain)
      ensures bundle.Some? <==> trustDomain in bundles
      ensures bundle.Some? ==> bundle.value == bundles[trustDomain]
    {
      if trustDomain in bundles {
        return Some(bundles[trustDomain]);
      }
      return None;
    }

    /** The smallest parsable refresh interval, and never more than five minutes. */
    method MinRefreshInterval() returns (min: int)
      ensures min <= 5 * MINUTE
      ensures forall c <- configs :: c.refreshInterval.Some? ==> min <= c.refreshInterval.value
      ensures min == 5 * MINUTE || exists c <- configs :: c.refreshInterval == Some(min)
    {
      min := DEFAULT_INTERVAL;
      for i := 0 to |configs|
        invariant min <= DEFAULT_INTERVAL
        invariant forall j :: 0 <= j < i && configs[j].refreshInterval.Some? ==> min <= configs[j].refreshInterval.value
        invariant min == DEFAULT_INTERVAL || exists c <- configs :: c.refreshInterval == Some(min)
      {
        var d := configs[i].refreshInterval;
        if d.Some? && d.value < min {
          min := d.value;
          assert configs[i] in configs;
        }
      }
    }
  }

  lemma {:induction false} SelectedGrows(doc: Document, i: nat)
    requires i < |doc| && doc[i].use == "x509-svid"
    ensures Selected(doc[..i]) + doc[i].x5c <= Selected(doc)
    decreases |doc|
  {
    var k := |doc| - 1;
    if i == k {
    } else {
      SelectedGrows(doc[..k], i);
      assert doc[..k][..i] == doc[..i];
    }
  }

  // ---- All interleavings -----------------------------------------------------------------------

  /** A call of Fetch in progress: the documents it has read and the map it has built from them. */
  datatype Round = Round(docs: seq<Document>, result: map<string, TrustBundle>)

  datatype World = World(
    parse: Parser,
    configs: seq<Config>,
    bundles: map<string, TrustBundle>,
    rounds: map<nat, Round>,
    committed: seq<seq<Document>>)

  datatype Action =
    | Begin(caller: nat)
    | Answer(caller: nat, doc: Document)
    | Abort(caller: nat)
    | Commit(caller: nat)

  ghost predicate Enabled(w: World, a: Action)
  {
    match a
    case Begin(i) => i !in w.rounds
    case Answer(i, doc) => i in w.rounds && |w.rounds[i].docs| < |w.configs| && Usable(w.parse, doc)
    case Abort(i) => i in w.rounds && |w.rounds[i].docs| < |w.configs|
    case Commit(i) => i in w.rounds && |w.rounds[i].docs| == |w.configs|
  }

  ghost function Next(w: World, a: Action): World
  {
    if !Enabled(w, a) then w else
    match a
    case Begin(i) => w.(rounds := w.rounds[i := Round([], map[])])
    case Answer(i, doc) =>
      var r := w.rounds[i];
      var cfg := w.configs[|r.docs|];
      var bundle := BundleOf(w.parse, cfg, doc);
      w.(rounds := w.rounds[i := Round(r.docs + [doc], r.result[cfg.trustDomain := bundle])])
    case Abort(i) => w.(rounds := w.rounds - {i})
    case Commit(i) =>
      w.(bundles := w.bundles + w.rounds[i].result, rounds := w.rounds - {i},
         committed := w.committed + [w.rounds[i].docs])
  }

  ghost predicate IsRound(w: World, docs: seq<Document>, result: map<string, TrustBundle>)
  {
    |docs| <= |w.configs| && AllUsable(w.parse, docs) && result == RoundResult(w.parse, w.configs, docs)
  }

  /** What readers see is nothing yet, or the whole of the last committed round. */
  ghost predicate Snapshot(w: World)
  {
    if w.committed == [] then w.bundles == map[]
    else
      var docs := w.committed[|w.committed| - 1];
      |docs| == |w.configs| && IsRound(w, docs, w.bundles)
  }

  ghost predicate Consistent(w: World)
  {
    Snapshot(w) && forall i <- w.rounds :: IsRound(w, w.rounds[i].docs, w.rounds[i].result)
  }

  lemma AnswerExtendsRound(w: World, i: nat, doc: Document)
    requires Consistent(w) && Enabled(w, Answer(i, doc))
    ensures Consistent(Next(w, Answer(i, doc)))
  {
    var v := Next(w, Answer(i, doc));
    var docs := w.rounds[i].docs + [doc];
    assert v.rounds[i].docs == docs && docs[..|docs| - 1] == w.rounds[i].docs;
    assert IsRound(v, docs, v.rounds[i].result);
    forall j <- v.rounds | j != i ensures IsRound(v, v.rounds[j].docs, v.rounds[j].result) {
      assert v.rounds[j] == w.rounds[j];
    }
  }

  lemma CommitShowsRound(w: World, i: nat)
    requires Consistent(w) && Enabled(w, Commit(i))
    ensures Consistent(Next(w, Commit(i)))
  {
    if w.committed == [] {
      assert map[] + w.rounds[i].result == w.rounds[i].result;
    } else {
      FullRoundReplaces(w.parse, w.configs, w.committed[|w.committed| - 1], w.rounds[i].docs);
    }
  }

  lemma ConsistencyKept(w: World, a: Action)
    requires Consistent(w) && Enabled(w, a)
    ensures Consistent(Next(w, a))
  {
    match a
    case Begin(_) =>
    case Abort(_) =>
    case Answer(i, doc) => AnswerExtendsRound(w, i, doc);
    case Commit(i) => CommitShowsRound(w, i);
  }

  function CommitsOf(acts: seq<Action>): nat
  {
    if acts == [] then 0 else (if acts[0].Commit? then 1 else 0) + CommitsOf(acts[1..])
  }

  /** A failed round changes nothing: without a commit, no mixture of begun, answered and aborted
      rounds alters what readers see. */
  lemma {:induction false} OnlyCommitsAreVisible(w: World, acts: seq<Action>)
    requires Legal(Enabled, Next, w, acts)
    ensures After(Next, w, acts).configs == w.configs && After(Next, w, acts).parse == w.parse
    ensures |After(Next, w, acts).committed| == |w.committed| + CommitsOf(acts)
    ensures CommitsOf(acts) == 0 ==> After(Next, w, acts).bundles == w.bundles
    decreases |acts|
  {
    if acts == [] {
    } else {
      OnlyCommitsAreVisible(Next(w, acts[0]), acts[1..]);
    }
  }

  /** Snapshot consistency: whatever fetches overlap, fail or commit in whatever order, the visible
      map is empty or exactly one successful round's, covers every configured domain, and keeps
      each bundle under its own domain. */
  lemma SnapshotConsistency(w: World, acts: seq<Action>)
    requires w.bundles == map[] && w.rounds == map[] && w.committed == []
    requires Legal(Enabled, Next, w, acts)
    ensures var v := After(Next, w, acts);
      && Snapshot(v) && v.configs == w.configs && v.parse == w.parse
      && (v.committed != [] ==> v.bundles.Keys == Domains(v.configs, |v.configs|))
      && (forall td <- v.bundles :: v.bundles[td].trustDomain == td)
  {
    forall v, a | Consistent(v) && Enabled(v, a) ensures Consistent(Next(v, a)) {
      ConsistencyKept(v, a);
    }
    Invariance(Enabled, Next, Consistent, w, acts);
    OnlyCommitsAreVisible(w, acts);
    var v := After(Next, w, acts);
    if v.committed != [] {
      var docs := v.committed[|v.committed| - 1];
      RoundCoversDomains(v.parse, v.configs, docs);
      forall td <- v.bundles ensures v.bundles[td].trustDomain == td {
        var _ := RoundTakesLast(v.parse, v.configs, docs, td);
      }
    }
  }

  /** The last endpoint configured for a domain. */
  ghost predicate LastFor(configs: seq<Config>, trustDomain: string, j: nat)
  {
    && j < |configs| && configs[j].trustDomain == trustDomain
    && forall k :: j < k < |configs| ==> configs[k].trustDomain != trustDomain
  }

  /** What GetBundle answers at any point of any run: nothing exactly as long as no round has committed,
      or for a domain that is not configured; otherwise the bundle of the document that the last
      committed round read from the last endpoint configured for the domain: filed under that domain,
      with the document's certificates as its authorities. */
  lemma ReadsComeFromLastRound(w: World, acts: seq<Action>, trustDomain: string)
    requires w.bundles == map[] && w.rounds == map[] && w.committed == []
    requires Legal(Enabled, Next, w, acts)
    ensures var v := After(Next, w, acts);
      var answer := Read(v.bundles, trustDomain);
      && (answer.Some? <==> v.committed != [] && trustDomain in Domains(w.configs, |w.configs|))
      && (answer.Some? ==>
            var docs := v.committed[|v.committed| - 1];
            exists j: nat ::
              && j < |docs| && LastFor(v.configs, trustDomain, j)
              && answer.value.trustDomain == trustDomain && AuthoritiesOf(v.parse, docs[j], answer.value.authorities))
  {
    SnapshotConsistency(w, acts);
    var v := After(Next, w, acts);
    if v.committed != [] && trustDomain in v.bundles {
      var docs := v.committed[|v.committed| - 1];
      var j := RoundTakesLast(v.parse, v.configs, docs, trustDomain);
      BundleMeaning(v.parse, v.configs[j], docs[j]);
      assert LastFor(v.configs, trustDomain, j);
    }
  }
}
