/** Symbolic certificates and their validation along a path (section 6.1 of RFC 5280), as
    x509svid.Verify of go-spiffe performs it on an SVID. */
module Pki {
  import opened Prelude

  /** A key pair, by name. A certificate's signature is the name of the key that made it. */
  type Key = nat

  datatype Cert = Cert(
    subject: string, issuer: string,
    publicKey: Key, signer: Key,
    isCA: bool, maxPathLen: Option<nat>, canSignCerts: bool,
    uri: Option<string>,
    notBefore: int, notAfter: int)

  datatype SpiffeId = SpiffeId(trustDomain: string, path: string)

  /** The SPIFFE ID parser; None for strings that are no SPIFFE ID. */
  type IdParser = string -> Option<SpiffeId>

  /** Certificates hold whole seconds. */
  function FloorSecond(t: int): int { t - t % SECOND }

  lemma FloorMonotone(s: int, t: int)
    requires s <= t
    ensures FloorSecond(s) <= FloorSecond(t) <= t
  {
  }

  lemma FloorIsWholeSecond(t: int)
    ensures FloorSecond(t) % SECOND == 0 && t - SECOND < FloorSecond(t) <= t
  {
  }

  predicate TimeValid(c: Cert, now: int) { c.notBefore <= now <= c.notAfter }

  predicate SignedBy(child: Cert, parent: Cert)
  {
    child.signer == parent.publicKey && child.issuer == parent.subject && parent.isCA && parent.canSignCerts
  }

  predicate AllowsBelow(c: Cert, intermediates: int)
  {
    c.maxPathLen.Some? ==> intermediates <= c.maxPathLen.value
  }

  /** path[0] is the leaf and each certificate is signed by the next, the last one by the root. */
  ghost predicate ValidPath(path: seq<Cert>, root: Cert, now: int)
  {
    && path != []
    && TimeValid(root, now) && AllowsBelow(root, |path| - 1)
    && (forall i :: 0 <= i < |path| ==> TimeValid(path[i], now))
    && (forall i :: 1 <= i < |path| ==> AllowsBelow(path[i], i - 1))
    && (forall i :: 1 <= i < |path| ==> SignedBy(path[i - 1], path[i]))
    && SignedBy(path[|path| - 1], root)
  }

  /** A valid path from the presented leaf through the other presented certificates to the root. */
  ghost predicate LeadsTo(path: seq<Cert>, certs: seq<Cert>, root: Cert, now: int)
    requires certs != []
  {
    ValidPath(path, root, now) && path[0] == certs[0] && forall i :: 1 <= i < |path| ==> path[i] in certs[1..]
  }

  /** The ID of a presented chain: the leaf is an end certificate with a SPIFFE ID of the trust domain. */
  ghost function Verify(parse: IdParser, trustDomain: string, root: Cert, certs: seq<Cert>, now: int): Option<string>
  {
    if certs == [] || certs[0].uri.None? || parse(certs[0].uri.value).None? then None
    else if certs[0].isCA || certs[0].canSignCerts then None
    else if parse(certs[0].uri.value).value.trustDomain != trustDomain then None
    else if exists path :: LeadsTo(path, certs, root, now) then certs[0].uri
    else None
  }
}
