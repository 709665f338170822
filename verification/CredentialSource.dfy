/** sdk/go/x509source.go: the client-side source of X.509 SVIDs, as the object its callers hold. */
module CredentialSource {
  import opened Prelude

  /** A parsed certificate; the source itself only ever looks at NotAfter. */
  datatype Cert = Cert(notAfter: int, der: string)

  datatype Svid = Svid(id: string, certificates: seq<Cert>, privateKey: string)

  datatype Bundle = Bundle(trustDomain: string, authorities: seq<Cert>)

  datatype SvidResponse = SvidResponse(spiffeId: string, certChain: seq<string>, privateKey: string)

  datatype BundleResponse = BundleResponse(trustDomain: string, x509Authorities: seq<string>)

  /** The PEM, X.509, key and SPIFFE parsers: each either fails or yields a value. */
  datatype Codec = Codec(
    certificate: string -> Option<Cert>,
    ecPrivateKey: string -> Option<string>,
    spiffeId: string -> Option<string>,
    trustDomain: string -> Option<string>)

  /** What one refresh obtained: always an SVID together with a bundle. */
  datatype Credentials = Credentials(svid: Svid, bundle: Bundle)

  datatype Failure = SourceClosed | NothingYet

  datatype Reply<+T> = Served(value: T) | Refused(failure: Failure)

  /** The fields of the source that the mutex guards, and whether its context is cancelled. */
  datatype Fields = Fields(svid: Option<Svid>, bundle: Option<Bundle>, closed: bool, cancelled: bool)

  const ZERO_VALUE := Fields(None, None, false, false)

  function Commit(f: Fields, c: Credentials): Fields
  {
    f.(svid := Some(c.svid), bundle := Some(c.bundle))
  }

  function Cancel(f: Fields): Fields { f.(cancelled := true) }

  function MarkClosed(f: Fields): Fields { f.(closed := true) }

  function ReplySvid(f: Fields): Reply<Svid>
  {
    if f.closed then Refused(SourceClosed) else if f.svid.None? then Refused(NothingYet) else Served(f.svid.value)
  }

  function ReplyBundle(f: Fields): Reply<Bundle>
  {
    if f.closed then Refused(SourceClosed) else if f.bundle.None? then Refused(NothingYet) else Served(f.bundle.value)
  }

  predicate HoldsLeaf(f: Fields)
  {
    f.svid.Some? && f.svid.value.certificates != []
  }

  /** True when the refresh loop goes on: not closed and holding an SVID with a leaf certificate. */
  predicate LoopContinues(f: Fields)
  {
    !f.closed && HoldsLeaf(f)
  }

  function Expiry(f: Fields): int
    requires HoldsLeaf(f)
  {
    f.svid.value.certificates[0].notAfter
  }

  /** The refresh loop's wait when `remaining` nanoseconds are left before expiry. */
  function HalfLife(remaining: int): int
  {
    var half := TruncDiv(remaining, 2);
    if half <= 0 then SECOND else half
  }

  ghost predicate AllParse(codec: Codec, pems: seq<string>)
  {
    forall pem <- pems :: codec.certificate(pem).Some?
  }

  /** A certificate list is the parse of a PEM list: same order, nothing skipped. */
  ghost predicate IsParseOf(codec: Codec, certs: seq<Cert>, pems: seq<string>)
  {
    |certs| == |pems| && forall i :: 0 <= i < |pems| ==> codec.certificate(pems[i]) == Some(certs[i])
  }

  ghost predicate SvidParses(codec: Codec, resp: SvidResponse)
  {
    && resp.certChain != []
    && AllParse(codec, resp.certChain)
    && resp.privateKey != "" && codec.ecPrivateKey(resp.privateKey).Some?
    && codec.spiffeId(resp.spiffeId).Some?
  }

  ghost predicate BundleParses(codec: Codec, resp: BundleResponse)
  {
    codec.trustDomain(resp.trustDomain).Some? && AllParse(codec, resp.x509Authorities)
  }

  /** A refresh succeeds exactly when both requests are answered and both answers parse. */
  ghost predicate RefreshSucceeds(codec: Codec, attest: Option<SvidResponse>, bundle: Option<BundleResponse>)
  {
    attest.Some? && SvidParses(codec, attest.value) && bundle.Some? && BundleParses(codec, bundle.value)
  }

  ghost predicate ObtainedFrom(codec: Codec, c: Credentials, attest: SvidResponse, bundle: BundleResponse)
  {
    && codec.spiffeId(attest.spiffeId) == Some(c.svid.id)
    && codec.ecPrivateKey(attest.privateKey) == Some(c.svid.privateKey)
    && IsParseOf(codec, c.svid.certificates, attest.certChain)
    && codec.trustDomain(bundle.trustDomain) == Some(c.bundle.trustDomain)
    && IsParseOf(codec, c.bundle.authorities, bundle.x509Authorities)
  }

  method ParseCertificates(codec: Codec, pems: seq<string>) returns (certs: Option<seq<Cert>>)
    ensures certs.Some? <==> AllParse(codec, pems)
    ensures certs.Some? ==>
              && IsParseOf(codec, certs.value, pems) && |certs.value| == |pems|
              && forall i :: 0 <= i < |pems| ==> codec.certificate(pems[i]) == Some(certs.value[i])
  {
    var parsed := [];
    for i := 0 to |pems|
      invariant IsParseOf(codec, parsed, pems[..i])
    {
      var cert := codec.certificate(pems[i]);
      if cert.None? {
        return None;
      }
      parsed := parsed + [cert.value];
    }
    return Some(parsed);
  }

  method ParseSvidResponse(codec: Codec, resp: SvidResponse) returns (svid: Option<Svid>)
    ensures svid.Some? <==> SvidParses(codec, resp)
    ensures svid.Some? <==>
            && resp.certChain != [] && (forall pem <- resp.certChain :: codec.certificate(pem).Some?)
            && resp.privateKey != "" && codec.ecPrivateKey(resp.privateKey).Some?
            && codec.spiffeId(resp.spiffeId).Some?
    ensures svid.Some? ==>
              && codec.spiffeId(resp.spiffeId) == Some(svid.value.id)
              && codec.ecPrivateKey(resp.privateKey) == Some(svid.value.privateKey)
              && IsParseOf(codec, svid.value.certificates, resp.certChain)
  {
    if |resp.certChain| == 0 {
      return None;
    }
    var certs := ParseCertificates(codec, resp.certChain);
    if certs.None? || resp.privateKey == "" {
      return None;
    }
    var key := codec.ecPrivateKey(resp.privateKey);
    var id := codec.spiffeId(resp.spiffeId);
    if key.None? || id.None? {
      return None;
    }
    return Some(Svid(id.value, certs.value, key.value));
  }

  method ParseBundleResponse(codec: Codec, resp: BundleResponse) returns (bundle: Option<Bundle>)
    ensures bundle.Some? <==> BundleParses(codec, resp)
    ensures bundle.Some? <==>
            && codec.trustDomain(resp.trustDomain).Some?
            && forall pem <- resp.x509Authorities :: codec.certificate(pem).Some?
    ensures bundle.Some? ==>
              && codec.trustDomain(resp.trustDomain) == Some(bundle.value.trustDomain)
              && IsParseOf(codec, bundle.value.authorities, resp.x509Authorities)
  {
    var td := codec.trustDomain(resp.trustDomain);
    if td.None? {
      return None;
    }
    var certs := ParseCertificates(codec, resp.x509Authorities);
    if certs.None? {
      return None;
    }
    return Some(Bundle(td.value, certs.value));
  }

  class X509Source {
    var svid: Option<Svid>
    var bundle: Option<Bundle>
    var closed: bool
    var cancelled: bool  // the context that `cancel` ends

    function View(): Fields
      reads this
    {
      Fields(svid, bundle, closed, cancelled)
    }

    /** The zero value, before any attestation. */
    constructor ()
      ensures View() == ZERO_VALUE && svid.None? && bundle.None? && !closed && !cancelled
    {
      svid, bundle, closed, cancelled := None, None, false, false;
    }

    method GetX509SVID() returns (reply: Reply<Svid>)
      ensures reply == ReplySvid(View())
      ensures closed ==> reply == Refused(SourceClosed)
      ensures !closed ==> if svid.Some? then reply == Served(svid.value) else reply == Refused(NothingYet)
    {
      if closed {
        return Refused(SourceClosed);
      }
      if svid.None? {
        return Refused(NothingYet);
      }
      return Served(svid.value);
    }

    method GetX509BundleForTrustDomain(trustDomain: string) returns (reply: Reply<Bundle>)
      ensures reply == ReplyBundle(View())
      ensures closed ==> reply == Refused(SourceClosed)
      ensures !closed ==> if bundle.Some? then reply == Served(bundle.value) else reply == Refused(NothingYet)
    {
      if closed {
        return Refused(SourceClosed);
      }
      if bundle.None? {
        return Refused(NothingYet);
      }
      return Served(bundle.value);
    }

    method Close()
      modifies this
      ensures View() == MarkClosed(Cancel(old(View())))
      ensures closed && cancelled && svid == old(svid) && bundle == old(bundle)
    {
      cancelled := true;
      closed := true;
    }

    /** One refresh: `attest` and `bundleResponse` are the server's answers, None where a request failed.
        Both fields change together or neither does. */
    method Refresh(codec: Codec, attest: Option<SvidResponse>, bundleResponse: Option<BundleResponse>)
      returns (ok: bool, ghost got: Option<Credentials>)
      modifies this
      ensures ok == RefreshSucceeds(codec, attest, bundleResponse)
      ensures !ok ==> View() == old(View())
      ensures closed == old(closed) && cancelled == old(cancelled)
      ensures ok ==> got.Some? && svid == Some(got.value.svid) && bundle == Some(got.value.bundle)
      ensures ok ==>
                && got.Some?
                && ObtainedFrom(codec, got.value, attest.value, bundleResponse.value)
                && got.value.svid.certificates != []
                && View() == Commit(old(View()), got.value)
    {
      got := None;
      if attest.None? {
        return false, got;
      }
      var newSvid := ParseSvidResponse(codec, attest.value);
      if newSvid.None? || bundleResponse.None? {
        return false, got;
      }
      var newBundle := ParseBundleResponse(codec, bundleResponse.value);
      if newBundle.None? {
        return false, got;
      }
      svid := newSvid;
      bundle := newBundle;
      got := Some(Credentials(newSvid.value, newBundle.value));
      return true, got;
    }

    /** The part of a refresh-loop iteration under the read lock: None when the loop returns. */
    method NextWait(now: int) returns (wait: Option<int>)
      ensures wait.Some? <==> LoopContinues(View())
      ensures wait.Some? <==> !closed && svid.Some? && svid.value.certificates != []
      ensures wait.Some? ==> wait.value == HalfLife(Expiry(View()) - now)
      ensures wait.Some? ==>
                var left := svid.value.certificates[0].notAfter - now;
                if left < 2 then wait.value == SECOND else 2 * wait.value <= left <= 2 * wait.value + 1
    {
      if closed || svid.None? || |svid.value.certificates| == 0 {
        return None;
      }
      var halfLife := TruncDiv(svid.value.certificates[0].notAfter - now, 2);
      if halfLife <= 0 {
        halfLife := 1 * SECOND;
      }
      return Some(halfLife);
    }
  }

  /** NewX509Source: the source exists only if its first refresh succeeded, and then it can serve. */
  method NewX509Source(codec: Codec, attest: Option<SvidResponse>, bundleResponse: Option<BundleResponse>)
    returns (source: X509Source?)
    ensures source != null <==> RefreshSucceeds(codec, attest, bundleResponse)
    ensures source != null ==>
              && fresh(source)
              && LoopContinues(source.View()) && source.bundle.Some? && !source.cancelled
              && ObtainedFrom(codec, Credentials(source.svid.value, source.bundle.value),
                              attest.value, bundleResponse.value)
  {
    var s := new X509Source();
    var ok, _ := s.Refresh(codec, attest, bundleResponse);
    return if ok then s else null;
  }
}
