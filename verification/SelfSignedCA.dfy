/** internal/ca/self_signed.go: one certificate authority process and the two root files on disk. */
module SelfSignedCA {
  import opened Prelude
  import opened Pki
  import opened Ttl

  const ROOT_NAME := "svidmint Root CA"
  const INTERMEDIATE_NAME := "svidmint Intermediate CA"
  const ROOT_LIFETIME: int := 10 * 365 * 24 * HOUR

  // The leeway that go-jose grants a token's exp and iat.
  const LEEWAY: int := MINUTE

  /** The three parsed duration settings; None where time.ParseDuration fails. */
  datatype Config = Config(
    trustDomain: string, signingTtl: Option<Int64>, defaultTtl: Option<Int64>, maxTtl: Option<Int64>)

  datatype Stored<T> = Missing | Corrupt | Holding(value: T)

  /** The root key file and the root certificate file. */
  datatype Files = Files(key: Stored<Key>, cert: Stored<Cert>)

  /** How a file write ends; a failed write may leave the file as it was or torn. */
  datatype Save = Saved | Untouched | Torn

  function Saving<T>(before: Stored<T>, value: T, how: Save): Stored<T>
  {
    match how
    case Saved => Holding(value)
    case Untouched => before
    case Torn => Corrupt
  }

  /** The keys that the random source yields during one start. */
  datatype NewKeys = NewKeys(root: Key, intermediate: Key, jwt: Key)

  /** What one start of the process meets: its settings, random keys, disk and clock. */
  datatype Start = Start(cfg: Config, keys: NewKeys, saveKey: Save, saveCert: Save)

  datatype Instance = Instance(
    rootKey: Key, rootCert: Cert,
    intermediateKey: Key, intermediateCert: Cert,
    jwtKey: Key,
    trustDomain: string, limits: Limits)

  datatype Booted = Booted(files: Files, instance: Option<Instance>)

  function RootCert(key: Key, now: int): Cert
  {
    Cert(ROOT_NAME, ROOT_NAME, key, key, true, None, true, None, FloorSecond(now), FloorSecond(now + ROOT_LIFETIME))
  }

  /** x509.CreateCertificate refuses a parent certificate that is not the signing key's own. */
  function IntermediateCert(key: Key, rootKey: Key, rootCert: Cert, signingTtl: Int64, now: int): Option<Cert>
  {
    if rootCert.publicKey != rootKey then None
    else Some(Cert(INTERMEDIATE_NAME, rootCert.subject, key, rootKey, true, Some(0), true, None,
                   FloorSecond(now), FloorSecond(now + signingTtl)))
  }

  predicate DurationsParse(c: Config)
  {
    c.defaultTtl.Some? && c.maxTtl.Some? && c.signingTtl.Some?
  }

  predicate BothExist(f: Files) { f.key != Missing && f.cert != Missing }

  /** Files that a start can come up with: one is absent, or both are readable and belong together. */
  predicate Recoverable(f: Files)
  {
    !BothExist(f) || (f.key.Holding? && f.cert.Holding? && f.cert.value.publicKey == f.key.value)
  }

  /** The root of a start: loaded when both files exist, else generated and saved, the key first. */
  function ObtainRoot(files: Files, s: Start, now: int): (Files, Option<(Key, Cert)>)
  {
    if BothExist(files) then
      (files, if files.key.Holding? && files.cert.Holding? then Some((files.key.value, files.cert.value)) else None)
    else
      var cert := RootCert(s.keys.root, now);
      var withKey := files.(key := Saving(files.key, s.keys.root, s.saveKey));
      if s.saveKey != Saved then (withKey, None)
      else
        var withBoth := withKey.(cert := Saving(files.cert, cert, s.saveCert));
        (withBoth, if s.saveCert == Saved then Some((s.keys.root, cert)) else None)
  }

  function Boot(files: Files, s: Start, now: int): Booted
  {
    if !DurationsParse(s.cfg) then Booted(files, None)
    else
      var (after, root) := ObtainRoot(files, s, now);
      if root.None? then Booted(after, None)
      else
        var (rootKey, rootCert) := root.value;
        match IntermediateCert(s.keys.intermediate, rootKey, rootCert, s.cfg.signingTtl.value, now)
        case None => Booted(after, None)
        case Some(intermediate) =>
          Booted(after, Some(Instance(rootKey, rootCert, s.keys.intermediate, intermediate, s.keys.jwt,
                                      s.cfg.trustDomain, Limits(s.cfg.defaultTtl.value, s.cfg.maxTtl.value))))
  }

  // ---- Signing ---------------------------------------------------------------------------------

  /** An issued X.509 SVID: the chain is the leaf and the intermediate. */
  datatype X509Svid = X509Svid(leaf: Cert, intermediate: Cert, spiffeId: string, expiresAt: int)

  datatype JwtSvid = JwtSvid(signer: Key, sub: string, aud: seq<string>, iat: int, exp: int, expiresAt: int)

  /** Signing wants a SPIFFE ID of the own trust domain with a path. */
  predicate MaySign(i: Instance, parse: IdParser, spiffeId: string)
  {
    var id := parse(spiffeId);
    id.Some? && id.value.trustDomain == i.trustDomain && id.value.path != ""
  }

  /** When an SVID signed now with this TTL request ends, before truncation to seconds. */
  function EndOf(i: Instance, ttl: Int64, now: int): int
  {
    now + Seconds(ComputeTtl(i.limits, ttl, 0, None))
  }

  function SignX509(i: Instance, parse: IdParser, spiffeId: string, key: Key, ttl: Int64, now: int): Option<X509Svid>
  {
    if !MaySign(i, parse, spiffeId) then None
    else
      var leaf := Cert("", i.intermediateCert.subject, key, i.intermediateKey, false, None, false, Some(spiffeId),
                       FloorSecond(now), FloorSecond(EndOf(i, ttl, now)));
      Some(X509Svid(leaf, i.intermediateCert, spiffeId, EndOf(i, ttl, now)))
  }

  function SignJwt(i: Instance, parse: IdParser, spiffeId: string, audience: seq<string>, ttl: Int64, now: int)
    : Option<JwtSvid>
  {
    if !MaySign(i, parse, spiffeId) || audience == [] then None
    else
      var end := EndOf(i, ttl, now);
      Some(JwtSvid(i.jwtKey, spiffeId, audience, FloorSecond(now), FloorSecond(end), end))
  }

  ghost function ValidateX509(i: Instance, parse: IdParser, certs: seq<Cert>, now: int): Option<string>
  {
    Verify(parse, i.trustDomain, i.rootCert, certs, now)
  }

  /** jwtsvid.ParseAndValidate against the one key of this process. */
  function ValidateJwt(i: Instance, parse: IdParser, t: JwtSvid, audience: string, now: int): Option<string>
  {
    if parse(t.sub).None? || parse(t.sub).value.trustDomain != i.trustDomain then None
    else if t.signer != i.jwtKey || audience !in t.aud then None
    else if now - LEEWAY > t.exp || now + LEEWAY < t.iat then None
    else Some(t.sub)
  }

  // ---- The object ------------------------------------------------------------------------------

  class Disk {
    var files: Files

    constructor (files: Files)
      ensures this.files == files
    {
      this.files := files;
    }

    method SaveKey(key: Key, how: Save) returns (ok: bool)
      modifies this
      ensures files == old(files).(key := Saving(old(files).key, key, how)) && ok == (how == Saved)
      ensures files.cert == old(files).cert
      ensures files.key
           == match how case Saved => Holding(key) case Untouched => old(files).key case Torn => Corrupt
    {
      files := files.(key := Saving(files.key, key, how));
      ok := how == Saved;
    }

    method SaveCert(cert: Cert, how: Save) returns (ok: bool)
      modifies this
      ensures files == old(files).(cert := Saving(old(files).cert, cert, how)) && ok == (how == Saved)
      ensures files.key == old(files).key
      ensures files.cert
           == match how case Saved => Holding(cert) case Untouched => old(files).cert case Torn => Corrupt
    {
      files := files.(cert := Saving(files.cert, cert, how));
      ok := how == Saved;
    }
  }

  class SelfSignedCA {
    var rootKey: Key
    var rootCert: Cert
    var intermediateKey: Key
    var intermediateCert: Cert
    var jwtSigningKey: Key
    var trustDomain: string
    var defaultTtl: Int64
    var maxTtl: Int64

    function View(): Instance
      reads this
    {
      Instance(rootKey, rootCert, intermediateKey, intermediateCert, jwtSigningKey, trustDomain,
               Limits(defaultTtl, maxTtl))
    }

    constructor (trustDomain: string, defaultTtl: Int64, maxTtl: Int64)
      ensures this.trustDomain == trustDomain && this.defaultTtl == defaultTtl && this.maxTtl == maxTtl
    {
      this.trustDomain, this.defaultTtl, this.maxTtl := trustDomain, defaultTtl, maxTtl;
    }

    method ComputeTTL(requested: Int64, entry: Int64, platformExpiry: Option<int>, now: int) returns (ttl: Int64)
      ensures ttl == ComputeTtl(View().limits, requested, entry,
                                if platformExpiry.None? then None else Some(Until(platformExpiry.value, now)))
    {
      var effective: Int64 := defaultTtl;
      if requested > 0 {
        effective := Seconds(requested);
      }
      if entry > 0 {
        var entryDur := Seconds(entry);
        if entryDur < effective {
          effective := entryDur;
        }
      }
      if platformExpiry.Some? {
        var remaining := Until(platformExpiry.value, now);
        if remaining > 0 && remaining < effective {
          effective := remaining;
        }
      }
      if effective > maxTtl {
        effective := maxTtl;
      }
      if effective <= 0 {
        effective := defaultTtl;
      }
      ttl := TruncDiv(effective, SECOND);
    }

    /** `key` is the workload's public key: the CSR's, or that of a fresh pair. */
    method SignX509SVID(parse: IdParser, spiffeId: string, key: Key, ttl: Int64, now: int)
      returns (svid: Option<X509Svid>)
      ensures svid == SignX509(View(), parse, spiffeId, key, ttl, now)
      ensures svid.Some? <==>
              && parse(spiffeId).Some? && parse(spiffeId).value.trustDomain == trustDomain
              && parse(spiffeId).value.path != ""
      ensures svid.Some? ==>
                && svid.value.spiffeId == spiffeId && svid.value.intermediate == intermediateCert
                && svid.value.leaf.uri == Some(spiffeId) && svid.value.leaf.publicKey == key
                && svid.value.leaf.signer == intermediateKey && svid.value.leaf.issuer == intermediateCert.subject
                && !svid.value.leaf.isCA && !svid.value.leaf.canSignCerts
    {
      var id := parse(spiffeId);
      if id.None? || id.value.trustDomain != trustDomain || id.value.path == "" {
        return None;
      }
      var effective := ComputeTTL(ttl, 0, None, now);
      var end := now + Seconds(effective);
      var leaf := Cert("", intermediateCert.subject, key, intermediateKey, false, None, false, Some(spiffeId),
                       FloorSecond(now), FloorSecond(end));
      return Some(X509Svid(leaf, intermediateCert, spiffeId, end));
    }

    method SignJWTSVID(parse: IdParser, spiffeId: string, audience: seq<string>, ttl: Int64, now: int)
      returns (svid: Option<JwtSvid>)
      ensures svid == SignJwt(View(), parse, spiffeId, audience, ttl, now)
      ensures svid.Some? <==>
              && parse(spiffeId).Some? && parse(spiffeId).value.trustDomain == trustDomain
              && parse(spiffeId).value.path != "" && audience != []
      ensures svid.Some? ==>
                svid.value.sub == spiffeId && svid.value.aud == audience && svid.value.signer == jwtSigningKey
    {
      var id := parse(spiffeId);
      if id.None? || id.value.trustDomain != trustDomain || id.value.path == "" {
        return None;
      }
      if |audience| == 0 {
        return None;
      }
      var effective := ComputeTTL(ttl, 0, None, now);
      var end := now + Seconds(effective);
      return Some(JwtSvid(jwtSigningKey, spiffeId, audience, FloorSecond(now), FloorSecond(end), end));
    }
  }

  method NewSelfSignedCA(disk: Disk, s: Start, now: int) returns (ca: SelfSignedCA?)
    modifies disk
    ensures disk.files == Boot(old(disk.files), s, now).files
    ensures (ca != null) == Boot(old(disk.files), s, now).instance.Some?
    ensures ca != null ==> fresh(ca) && Some(ca.View()) == Boot(old(disk.files), s, now).instance
    ensures ca != null ==>
              && ca.trustDomain == s.cfg.trustDomain
              && Some(ca.defaultTtl) == s.cfg.defaultTtl && Some(ca.maxTtl) == s.cfg.maxTtl
              && ca.intermediateKey == s.keys.intermediate && ca.jwtSigningKey == s.keys.jwt
              && disk.files == Files(Holding(ca.rootKey), Holding(ca.rootCert))
    ensures ca != null && old(disk.files).key != Missing && old(disk.files).cert != Missing ==>
              disk.files == old(disk.files)
    ensures ca != null && (old(disk.files).key == Missing || old(disk.files).cert == Missing) ==>
              ca.rootKey == s.keys.root && ca.rootCert.publicKey == ca.rootKey
    ensures ca != null ==>
              && ca.intermediateCert.publicKey == ca.intermediateKey && ca.intermediateCert.signer == ca.rootKey
              && ca.intermediateCert.isCA && ca.intermediateCert.maxPathLen == Some(0)
              && ca.intermediateCert.notBefore == FloorSecond(now)
              && ca.intermediateCert.notAfter == FloorSecond(now + s.cfg.signingTtl.value)
  {
    if s.cfg.defaultTtl.None? || s.cfg.maxTtl.None? || s.cfg.signingTtl.None? {
      return null;
    }
    var made := new SelfSignedCA(s.cfg.trustDomain, s.cfg.defaultTtl.value, s.cfg.maxTtl.value);
    if disk.files.key != Missing && disk.files.cert != Missing {
      if !disk.files.key.Holding? || !disk.files.cert.Holding? {
        return null;
      }
      made.rootKey := disk.files.key.value;
      made.rootCert := disk.files.cert.value;
    } else {
      made.rootKey := s.keys.root;
      made.rootCert := RootCert(made.rootKey, now);
      var ok := disk.SaveKey(made.rootKey, s.saveKey);
      if !ok {
        return null;
      }
      ok := disk.SaveCert(made.rootCert, s.saveCert);
      if !ok {
        return null;
      }
    }
    made.intermediateKey := s.keys.intermediate;
    var intermediate :=
      IntermediateCert(made.intermediateKey, made.rootKey, made.rootCert, s.cfg.signingTtl.value, now);
    if intermediate.None? {
      return null;
    }
    made.intermediateCert := intermediate.value;
    made.jwtSigningKey := s.keys.jwt;
    return made;
  }
}
