/** The certificate server's PILA handler: it checks that a request comes
    from the address it asks a certificate for, derives the endpoint
    certificate from the request, signs it with the AS's key and answers
    with the chain of endpoint, leaf and issuer certificates.

    The clock, the configuration store and the signing primitive are
    parameters; sending the reply is not modelled beyond the chain that
    would be sent. */
module CertSrvPila {
  import opened Wrappers
  import opened Addr
  import opened CertMgmt
  import opened PilaCert

  /** `snet.Addr` as the handler reads it: the requester's AS and host. */
  datatype SnetAddr = SnetAddr(IA: IA, Host: HostAddr)

  /** A certificate chain from the store: leaf and issuer certificates. */
  datatype Chain = Chain(Leaf: Certificate, Issuer: Certificate)

  /** The configuration the handler reads: the AS's signing key and the
      store's newest chain per AS and newest TRC version per ISD. */
  datatype Conf = Conf(SigningKey: seq<byte>, NewestChain: IA -> Chain, NewestTRCVersion: ISD -> uint64)

  /** How one request ends. */
  datatype Outcome =
    | NoEndpoint         // the request names no address; the Go handler dereferences nil
    | IPMismatch         // source and requested address differ: nothing is issued
    | NotAuthenticated   // the AS cannot vouch for the address
    | SignFailed(err: CertError)
    | Reply(chain: PilaChain)  // the chain handed to the sender

  /** The lifetime of an issued certificate, in seconds. */
  const ValidityPeriod: nat := 3600

  const TwoTo64: nat := 0x1_0000_0000_0000_0000

  /** The signature algorithm named after the length of the public key. */
  function SignAlgorithmFor(keyLen: nat): (alg: string)
    ensures keyLen == 64 ==> alg == "ECDSAP256SHA256"
    ensures keyLen == 96 ==> alg == "ECDSAP384SHA384"
    ensures alg == "" <==> keyLen != 64 && keyLen != 96
  {
    if keyLen == 64 then "ECDSAP256SHA256"
    else if keyLen == 96 then "ECDSAP384SHA384"
    else ""
  }

  /** `prepareCertificate`: the unsigned certificate for the request,
      issued at `now` for one hour, the expiration wrapping around as a
      64-bit unsigned sum does. The source dereferences the request's host,
      so there must be one. */
  function PrepareCertificate(a: SnetAddr, req: PilaReq, now: uint64, trcVersion: uint64): (c: CertValue)
    requires Host(req.EndpointIdentifier).Some?
    ensures c.IssuingTime == now && c.ExpirationTime == (now + ValidityPeriod) % TwoTo64
    ensures !c.CanIssue && c.Version == 1 && c.Issuer == a.IA && c.TRCVersion == trcVersion
    ensures c.Comment == req.SignedName && c.SubjectSignKey == req.RawPublicKey
    ensures c.SignAlgorithm == SignAlgorithmFor(|req.RawPublicKey|)
    ensures c.EncAlgorithm == "" && c.Signature == [] && c.SubjectEncKey == []
    ensures c.Subject == Entity(HostIP(Host(req.EndpointIdentifier).value))
  {
    CertValue(
      CanIssue := false,
      Comment := req.SignedName,
      EncAlgorithm := "",
      ExpirationTime := (now + ValidityPeriod) % TwoTo64,
      Issuer := a.IA,
      IssuingTime := now,
      SignAlgorithm := SignAlgorithmFor(|req.RawPublicKey|),
      Signature := [],
      Subject := Entity(HostIP(Host(req.EndpointIdentifier).value)),
      SubjectEncKey := [],
      SubjectSignKey := req.RawPublicKey,
      TRCVersion := trcVersion,
      Version := 1)
  }

  /** Unless the clock is within an hour of the 64-bit limit, a prepared
      certificate is valid exactly from `now` to `now + 3600`, both
      included. */
  lemma PreparedValidity(a: SnetAddr, req: PilaReq, now: uint64, trcVersion: uint64, ts: uint64)
    requires Host(req.EndpointIdentifier).Some?
    requires now + ValidityPeriod < TwoTo64
    ensures VerifyTime(PrepareCertificate(a, req, now, trcVersion), ts) == None <==>
              now <= ts <= now + ValidityPeriod
  {
    var c := PrepareCertificate(a, req, now, trcVersion);
    assert c.ExpirationTime == now + ValidityPeriod;
  }

  /** Within the last hour before the 64-bit limit the expiration time
      wraps below the issuing time, and the certificate is never valid. */
  lemma PreparedWrapped(a: SnetAddr, req: PilaReq, now: uint64, trcVersion: uint64, ts: uint64)
    requires Host(req.EndpointIdentifier).Some?
    requires now + ValidityPeriod >= TwoTo64
    ensures VerifyTime(PrepareCertificate(a, req, now, trcVersion), ts).Some?
  {
    var c := PrepareCertificate(a, req, now, trcVersion);
    assert c.ExpirationTime == now + ValidityPeriod - TwoTo64;
    VerifyTimeEmptyWindow(c, ts);
  }

  /** A prepared certificate has a non-reserved version, so its signing
      input can be built exactly when the encoder can write its subject:
      always for a request naming an IPv4 address, and for one naming only
      an IPv6 address when that has 4 or 16 bytes. Past the handler's gate,
      from a source host whose bytes are as long as its type says, it
      always can, and only the signing primitive can make signing fail. */
  lemma {:induction false} PreparedSignable(a: SnetAddr, req: PilaReq, now: uint64, trcVersion: uint64)
    requires Host(req.EndpointIdentifier).Some?
    ensures var e := req.EndpointIdentifier;
      SigPack(PrepareCertificate(a, req, now, trcVersion)).Ok? <==> e.Ipv4 != [] || |e.Ipv6| == 4 || |e.Ipv6| == 16
    ensures SameEndpoint(a, req) && a.Host.Valid() ==> SigPack(PrepareCertificate(a, req, now, trcVersion)).Ok?
  {
    var src, subject := HostIP(a.Host), HostIP(Host(req.EndpointIdentifier).value);
    if SameEndpoint(a, req) && a.Host.Valid() {
      assert MarshalIP(src).Some?;
      MarshalIPEqual(src, subject);
    }
  }

  /** `canAuthenticateIP`: every address is accepted. */
  function CanAuthenticateIP(ip: IP): (ok: bool)
    ensures ok
  {
    true
  }

  /** The gate at the top of `HandleReq`: the source address equals the
      address the request names. */
  predicate SameEndpoint(a: SnetAddr, req: PilaReq)
    requires Host(req.EndpointIdentifier).Some?
  {
    IPEqual(HostIP(a.Host), HostIP(Host(req.EndpointIdentifier).value))
  }

  /** The certificate issued past the gate names the requester's source
      address as its subject. */
  lemma PreparedSubjectIsSource(a: SnetAddr, req: PilaReq, now: uint64, trcVersion: uint64)
    requires Host(req.EndpointIdentifier).Some? && SameEndpoint(a, req)
    ensures EntityEq(Entity(HostIP(a.Host)), PrepareCertificate(a, req, now, trcVersion).Subject)
  {
  }

  /** `signCertificate`: sign in place with the AS's key and the algorithm
      of the leaf of the newest chain for the requester's AS. */
  method SignCertificate(a: SnetAddr, cert: PilaCertificate, conf: Conf, sign: SignFn) returns (err: Option<CertError>)
    modifies cert
    ensures var r := Signed(old(cert.Value()), conf.SigningKey, conf.NewestChain(a.IA).Leaf.SignAlgorithm, sign);
      (r.Err? ==> err == Some(r.error) && unchanged(cert)) &&
      (r.Ok? ==> err == None && fresh(cert.Signature) && cert.Value() == r.value)
  {
    var chain := conf.NewestChain(a.IA);
    err := cert.Sign(conf.SigningKey, chain.Leaf.SignAlgorithm, sign);
  }

  /** `combineCertificates`: the given certificate, by pointer, with the
      leaf and issuer of the newest chain for the requester's AS. */
  function CombineCertificates(a: SnetAddr, cert: PilaCertificate, conf: Conf): (ch: PilaChain)
    ensures ch.Endpoint == cert
    ensures Chain(ch.Leaf, ch.Issuer) == conf.NewestChain(a.IA)
  {
    var chain := conf.NewestChain(a.IA);
    PilaChain(cert, chain.Leaf, chain.Issuer)
  }

  /** `HandleReq`: no certificate unless the source address is the
      requested one; otherwise prepare, sign and combine, stopping at the
      first error. */
  method HandleReq(a: SnetAddr, req: PilaReq, conf: Conf, now: uint64, sign: SignFn) returns (out: Outcome)
    ensures out == NoEndpoint <==> Host(req.EndpointIdentifier).None?
    ensures out == IPMismatch <==> Host(req.EndpointIdentifier).Some? && !SameEndpoint(a, req)
    ensures out != NotAuthenticated
    ensures Host(req.EndpointIdentifier).Some? && SameEndpoint(a, req) ==>
      var r := Signed(PrepareCertificate(a, req, now, conf.NewestTRCVersion(a.IA.I)), conf.SigningKey,
                      conf.NewestChain(a.IA).Leaf.SignAlgorithm, sign);
      (r.Err? ==> out == SignFailed(r.error)) &&
      (r.Ok? ==> out.Reply? && fresh(out.chain.Endpoint) && out.chain.Endpoint.Value() == r.value &&
                 Chain(out.chain.Leaf, out.chain.Issuer) == conf.NewestChain(a.IA))
  {
    var host := Host(req.EndpointIdentifier);
    if host.None? {
      return NoEndpoint;
    }
    if !IPEqual(HostIP(a.Host), HostIP(host.value)) {
      return IPMismatch;
    }
    if !CanAuthenticateIP(HostIP(a.Host)) {
      return NotAuthenticated;
    }
    var prepared := PrepareCertificate(a, req, now, conf.NewestTRCVersion(a.IA.I));
    var cert := new PilaCertificate.FromValue(prepared);
    var err := SignCertificate(a, cert, conf, sign);
    if err.Some? {
      return SignFailed(err.value);
    }
    var chain := CombineCertificates(a, cert, conf);
    return Reply(chain);
  }

  /** End to end: when the signing primitive's signatures verify under
      `verifyKey`, a certificate the handler signs verifies for the
      requester's source address at every instant of its hour (the clock
      being more than an hour from the 64-bit limit). */
  lemma IssuedVerifies(a: SnetAddr, req: PilaReq, conf: Conf, now: uint64, ts: uint64,
                       verifyKey: seq<byte>, sign: SignFn, verify: VerifyFn)
    requires Host(req.EndpointIdentifier).Some? && SameEndpoint(a, req)
    requires now + ValidityPeriod < TwoTo64 && now <= ts <= now + ValidityPeriod
    requires var algo := conf.NewestChain(a.IA).Leaf.SignAlgorithm;
      forall m: SigInput :: sign(m, conf.SigningKey, algo).Ok? ==>
        verify(m, sign(m, conf.SigningKey, algo).value, verifyKey, algo) == None
    requires Signed(PrepareCertificate(a, req, now, conf.NewestTRCVersion(a.IA.I)), conf.SigningKey,
                    conf.NewestChain(a.IA).Leaf.SignAlgorithm, sign).Ok?
    ensures var algo := conf.NewestChain(a.IA).Leaf.SignAlgorithm;
      var c := Signed(PrepareCertificate(a, req, now, conf.NewestTRCVersion(a.IA.I)), conf.SigningKey, algo, sign).value;
      Verify(c, Entity(HostIP(a.Host)), verifyKey, algo, ts, verify) == None
  {
    var algo := conf.NewestChain(a.IA).Leaf.SignAlgorithm;
    var p := PrepareCertificate(a, req, now, conf.NewestTRCVersion(a.IA.I));
    var c := Signed(p, conf.SigningKey, algo, sign).value;
    PreparedValidity(a, req, now, conf.NewestTRCVersion(a.IA.I), ts);
    PreparedSubjectIsSource(a, req, now, conf.NewestTRCVersion(a.IA.I));
    SignedVerifies(p, conf.SigningKey, verifyKey, algo, sign, verify);
    VerifyAccepts(c, Entity(HostIP(a.Host)), verifyKey, algo, ts, verify);
  }
}
