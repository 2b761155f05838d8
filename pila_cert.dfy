/** PILA endpoint certificates: a certificate binding an endpoint's IP
    address to a signing key, issued by an AS and chained to that AS's
    leaf and issuer certificates.

    JSON encoding and the signature mathematics are not modelled: the
    signing input is the sorted object of fields the encoder is given, and signing,
    verifying and checking the leaf/issuer chain are function parameters. */
module PilaCert {
  import opened Wrappers
  import opened Addr

  type uint64 = n: nat | n < 0x1_0000_0000_0000_0000

  /** The errors the certificate code returns. */
  datatype CertError =
    | ParseFailed          // the JSON decoder rejected the input
    | ReservedVersion      // Version 0 is reserved
    | MarshalFailed        // the encoder cannot write the subject's address
    | InvalidSubject       // the certificate names a different endpoint
    | EarlyUsage           // used before its issuing time
    | Expired              // used after its expiration time
    | UnableSigPack(cause: CertError)
    | AlgorithmNotAllowed  // the leaf certificate does not sign with Ed25519
    | CryptoFailed         // an error of the signing or verifying primitive
    | ChainInvalid         // an error of the leaf/issuer chain check

  /** `PilaCertificateEntity`: the endpoint a certificate is about. */
  datatype Entity = Entity(Ipv4: IP)

  /** `PilaCertificateEntity.Eq`: the two addresses are the same IP,
      comparing a 4-byte and a 16-byte IPv4 address as equal. */
  predicate EntityEq(e: Entity, o: Entity)
  {
    IPEqual(e.Ipv4, o.Ipv4)
  }

  lemma EntityEqReflexive(e: Entity)
    ensures EntityEq(e, e)
  {
  }

  lemma EntityEqSymmetric(e: Entity, o: Entity)
    ensures EntityEq(e, o) <==> EntityEq(o, e)
  {
  }

  lemma EntityEqTransitive(e: Entity, o: Entity, p: Entity)
    requires EntityEq(e, o) && EntityEq(o, p)
    ensures EntityEq(e, p)
  {
    if |e.Ipv4| == 16 && |p.Ipv4| == 16 && |o.Ipv4| == 4 {
      SplitAt12(e.Ipv4);
      SplitAt12(p.Ipv4);
    }
  }

  /** The certificate's field values, as `PilaCertificate` declares them. */
  datatype CertValue = CertValue(
    CanIssue: bool,
    Comment: string,
    EncAlgorithm: string,
    ExpirationTime: uint64,
    Issuer: IA,
    IssuingTime: uint64,
    SignAlgorithm: string,
    Signature: seq<byte>,
    Subject: Entity,
    SubjectEncKey: seq<byte>,
    SubjectSignKey: seq<byte>,
    TRCVersion: uint64,
    Version: uint64)

  // ---------------------------------------------------------------------
  // Validity period

  /** `VerifyTime`: EarlyUsage before the issuing time, Expired after the
      expiration time, and nil (None) in between, both ends included. */
  function VerifyTime(c: CertValue, ts: uint64): (r: Option<CertError>)
    ensures r == Some(EarlyUsage) <==> ts < c.IssuingTime
    ensures r == Some(Expired) <==> c.IssuingTime <= ts && c.ExpirationTime < ts
    ensures r == None <==> c.IssuingTime <= ts <= c.ExpirationTime
  {
    if ts < c.IssuingTime then Some(EarlyUsage)
    else if ts > c.ExpirationTime then Some(Expired)
    else None
  }

  /** The instants a certificate accepts form an interval: an instant
      between two accepted instants is accepted too. */
  lemma VerifyTimeInterval(c: CertValue, t0: uint64, t1: uint64, t2: uint64)
    requires t0 <= t1 <= t2
    requires VerifyTime(c, t0) == None && VerifyTime(c, t2) == None
    ensures VerifyTime(c, t1) == None
  {
  }

  /** A certificate that expires before it is issued accepts no instant. */
  lemma VerifyTimeEmptyWindow(c: CertValue, ts: uint64)
    requires c.ExpirationTime < c.IssuingTime
    ensures VerifyTime(c, ts).Some?
  {
  }

  // ---------------------------------------------------------------------
  // The signing input

  /** A value stored under one key of the signing input. */
  datatype Field =
    | BoolField(b: bool)
    | TextField(s: string)
    | NumField(n: nat)
    | IAField(ia: IA)
    | SubjectField(text: IPText)
    | BytesField(bytes: seq<byte>)

  /** The JSON object the signature is computed over, before encoding:
      its members in the order the encoder writes them, sorted by key. */
  type SigInput = seq<(string, Field)>

  /** The keys of the signing input in sorted order: every field name but
      `Signature`. */
  const SigKeys: seq<string> := [
    "CanIssue", "Comment", "EncAlgorithm", "ExpirationTime", "Issuer",
    "IssuingTime", "SignAlgorithm", "Subject", "SubjectEncKey",
    "SubjectSignKey", "TRCVersion", "Version"]

  /** `sigPack`: ReservedVersion for Version 0; MarshalFailed when the
      encoder cannot write the subject, whose `MarshalText` accepts only
      0-, 4- and 16-byte addresses; otherwise the object holding every
      field except the signature, the subject as its text. */
  function SigPack(c: CertValue): (r: Result<SigInput, CertError>)
    ensures r.Err? <==> c.Version == 0 || MarshalIP(c.Subject.Ipv4).None?
    ensures c.Version == 0 ==> r == Err(ReservedVersion)
    ensures c.Version != 0 && MarshalIP(c.Subject.Ipv4).None? ==> r == Err(MarshalFailed)
    ensures r.Ok? ==> |r.value| == |SigKeys| && forall i :: 0 <= i < |r.value| ==> r.value[i].0 == SigKeys[i]
  {
    if c.Version == 0 then Err(ReservedVersion)
    else if MarshalIP(c.Subject.Ipv4).None? then Err(MarshalFailed)
    else Ok([
      ("CanIssue", BoolField(c.CanIssue)),
      ("Comment", TextField(c.Comment)),
      ("EncAlgorithm", TextField(c.EncAlgorithm)),
      ("ExpirationTime", NumField(c.ExpirationTime)),
      ("Issuer", IAField(c.Issuer)),
      ("IssuingTime", NumField(c.IssuingTime)),
      ("SignAlgorithm", TextField(c.SignAlgorithm)),
      ("Subject", SubjectField(MarshalIP(c.Subject.Ipv4).value)),
      ("SubjectEncKey", BytesField(c.SubjectEncKey)),
      ("SubjectSignKey", BytesField(c.SubjectSignKey)),
      ("TRCVersion", NumField(c.TRCVersion)),
      ("Version", NumField(c.Version))])
  }

  /** No member of the signing input is the signature. */
  lemma SignatureNotSigned()
    ensures "Signature" !in SigKeys
  {
  }

  /** The signing input does not depend on the signature. */
  lemma SigPackIgnoresSignature(c: CertValue, sig: seq<byte>)
    ensures SigPack(c.(Signature := sig)) == SigPack(c)
  {
  }

  /** The signing input binds every other field: two certificates with the
      same signing input differ at most in their signature and in how they
      write the same subject IP (4-byte or 16-byte form of an IPv4
      address). */
  lemma SigPackBindsFields(c: CertValue, o: CertValue)
    requires SigPack(c).Ok? && SigPack(c) == SigPack(o)
    ensures c.(Signature := o.Signature, Subject := o.Subject) == o
    ensures EntityEq(c.Subject, o.Subject)
  {
    var m, n := SigPack(c).value, SigPack(o).value;
    assert m[0] == n[0] && m[1] == n[1] && m[2] == n[2] && m[3] == n[3];
    assert m[4] == n[4] && m[5] == n[5] && m[6] == n[6] && m[7] == n[7];
    assert m[8] == n[8] && m[9] == n[9] && m[10] == n[10] && m[11] == n[11];
    assert MarshalIP(c.Subject.Ipv4) == MarshalIP(o.Subject.Ipv4);
    MarshalIPEqual(c.Subject.Ipv4, o.Subject.Ipv4);
  }

  /** Conversely, certificates that agree on every field but the signature
      and have the same subject IP have the same signing input. */
  lemma SigPackSameFields(c: CertValue, o: CertValue)
    requires c.(Signature := o.Signature, Subject := o.Subject) == o && EntityEq(c.Subject, o.Subject)
    ensures SigPack(c) == SigPack(o)
  {
    if MarshalIP(c.Subject.Ipv4).Some? {
      MarshalIPEqual(c.Subject.Ipv4, o.Subject.Ipv4);
    } else {
      assert c.Subject.Ipv4 == o.Subject.Ipv4;
    }
  }

  // ---------------------------------------------------------------------
  // The cryptographic primitives, left abstract

  /** `crypto.Sign`: a signature over the input with the key and algorithm. */
  type SignFn = (SigInput, seq<byte>, string) -> Result<seq<byte>, CertError>

  /** `crypto.Verify`: nil (None) when the signature over the input checks
      out under the key and algorithm. */
  type VerifyFn = (SigInput, seq<byte>, seq<byte>, string) -> Option<CertError>

  /** `Sign` on the field values: the certificate with its signature set to
      the one computed over its signing input, or the first error. */
  function Signed(c: CertValue, signKey: seq<byte>, signAlgo: string, sign: SignFn): (r: Result<CertValue, CertError>)
    ensures SigPack(c).Err? ==> r == Err(SigPack(c).error)
    ensures SigPack(c).Ok? ==> (r.Ok? <==> sign(SigPack(c).value, signKey, signAlgo).Ok?)
    ensures r.Ok? ==> SigPack(c).Ok? && r.value == c.(Signature := sign(SigPack(c).value, signKey, signAlgo).value)
  {
    match SigPack(c)
    case Err(e) => Err(e)
    case Ok(input) =>
      match sign(input, signKey, signAlgo)
      case Err(e) => Err(e)
      case Ok(sig) => Ok(c.(Signature := sig))
  }

  /** `VerifySignature`: UnableSigPack when the signing input cannot be
      built, otherwise the primitive's verdict on the stored signature. */
  function VerifySignature(c: CertValue, verifyKey: seq<byte>, signAlgo: string, verify: VerifyFn): (r: Option<CertError>)
    ensures SigPack(c).Err? ==> r == Some(UnableSigPack(SigPack(c).error))
    ensures SigPack(c).Ok? ==> r == verify(SigPack(c).value, c.Signature, verifyKey, signAlgo)
  {
    match SigPack(c)
    case Err(e) => Some(UnableSigPack(e))
    case Ok(input) => verify(input, c.Signature, verifyKey, signAlgo)
  }

  /** Signing and then verifying round-trips: when the primitives accept
      every signature the signing key produces, a certificate that was
      signed successfully passes signature verification. */
  lemma SignedVerifies(c: CertValue, signKey: seq<byte>, verifyKey: seq<byte>, signAlgo: string,
                       sign: SignFn, verify: VerifyFn)
    requires forall m: SigInput :: sign(m, signKey, signAlgo).Ok? ==>
               verify(m, sign(m, signKey, signAlgo).value, verifyKey, signAlgo) == None
    requires Signed(c, signKey, signAlgo, sign).Ok?
    ensures VerifySignature(Signed(c, signKey, signAlgo, sign).value, verifyKey, signAlgo, verify) == None
  {
    var m := SigPack(c).value;
    var sig := sign(m, signKey, signAlgo).value;
    SigPackIgnoresSignature(c, sig);
  }

  // ---------------------------------------------------------------------
  // Verification

  /** `PilaCertificate.Verify`: the subject first, then the validity period
      at `now`, then the signature. */
  function Verify(c: CertValue, subject: Entity, verifyKey: seq<byte>, signAlgo: string,
                  now: uint64, verify: VerifyFn): (r: Option<CertError>)
    ensures !EntityEq(subject, c.Subject) ==> r == Some(InvalidSubject)
    ensures EntityEq(subject, c.Subject) && VerifyTime(c, now).Some? ==> r == VerifyTime(c, now)
    ensures EntityEq(subject, c.Subject) && VerifyTime(c, now).None? ==>
              r == VerifySignature(c, verifyKey, signAlgo, verify)
  {
    if !EntityEq(subject, c.Subject) then Some(InvalidSubject)
    else
      var t := VerifyTime(c, now);
      if t.Some? then t
      else VerifySignature(c, verifyKey, signAlgo, verify)
  }

  /** A certificate is accepted exactly when it names the subject, is
      inside its validity period, has a non-reserved version and a subject
      the encoder can write, and carries a signature the primitive
      accepts. */
  lemma VerifyAccepts(c: CertValue, subject: Entity, verifyKey: seq<byte>, signAlgo: string,
                      now: uint64, verify: VerifyFn)
    ensures Verify(c, subject, verifyKey, signAlgo, now, verify) == None <==>
              EntityEq(subject, c.Subject) && c.IssuingTime <= now <= c.ExpirationTime &&
              c.Version != 0 && MarshalIP(c.Subject.Ipv4).Some? &&
              verify(SigPack(c).value, c.Signature, verifyKey, signAlgo) == None
  {
  }

  // ---------------------------------------------------------------------
  // Equality

  /** `PilaCertificate.Eq`: all thirteen fields agree, byte slices by
      content and the subject as an IP address. */
  predicate Eq(c: CertValue, o: CertValue)
  {
    c.CanIssue == o.CanIssue &&
    c.Comment == o.Comment &&
    c.ExpirationTime == o.ExpirationTime &&
    c.IssuingTime == o.IssuingTime &&
    c.TRCVersion == o.TRCVersion &&
    c.Version == o.Version &&
    c.Issuer == o.Issuer &&
    EntityEq(c.Subject, o.Subject) &&
    c.SignAlgorithm == o.SignAlgorithm &&
    c.EncAlgorithm == o.EncAlgorithm &&
    c.SubjectEncKey == o.SubjectEncKey &&
    c.SubjectSignKey == o.SubjectSignKey &&
    c.Signature == o.Signature
  }

  /** Two certificates are equal exactly when they hold the same values in
      every field but the subject, and their subjects are the same IP. */
  lemma EqFieldwise(c: CertValue, o: CertValue)
    ensures Eq(c, o) <==> c.(Subject := o.Subject) == o && EntityEq(c.Subject, o.Subject)
  {
  }

  lemma EqReflexive(c: CertValue)
    ensures Eq(c, c)
  {
  }

  lemma EqSymmetric(c: CertValue, o: CertValue)
    ensures Eq(c, o) <==> Eq(o, c)
  {
  }

  lemma EqTransitive(c: CertValue, o: CertValue, p: CertValue)
    requires Eq(c, o) && Eq(o, p)
    ensures Eq(c, p)
  {
    EntityEqTransitive(c.Subject, o.Subject, p.Subject);
  }

  // ---------------------------------------------------------------------
  // The certificate object

  /** A fresh byte slice holding the same bytes: `make` followed by `copy`. */
  method CopyBytes(src: array<byte>) returns (dst: array<byte>)
    ensures fresh(dst) && dst[..] == src[..]
  {
    dst := new byte[src.Length];
    var i := 0;
    while i < src.Length
      invariant 0 <= i <= src.Length
      invariant dst[..i] == src[..i]
    {
      dst[i] := src[i];
      i := i + 1;
    }
  }

  /** `PilaCertificate`, a record handled by pointer whose signature
      `Sign` sets in place. The byte slices are arrays; the model does not
      tell a nil slice from an empty one. */
  class PilaCertificate {
    var CanIssue: bool
    var Comment: string
    var EncAlgorithm: string
    var ExpirationTime: uint64
    var Issuer: IA
    var IssuingTime: uint64
    var SignAlgorithm: string
    var Signature: array<byte>
    var Subject: Entity
    var SubjectEncKey: array<byte>
    var SubjectSignKey: array<byte>
    var TRCVersion: uint64
    var Version: uint64

    /** The certificate's current field values. */
    function Value(): CertValue
      reads this, Signature, SubjectEncKey, SubjectSignKey
    {
      CertValue(CanIssue, Comment, EncAlgorithm, ExpirationTime, Issuer, IssuingTime,
                SignAlgorithm, Signature[..], Subject, SubjectEncKey[..], SubjectSignKey[..],
                TRCVersion, Version)
    }

    /** A composite literal: the given slices are shared, not copied. */
    constructor (canIssue: bool, comment: string, encAlgorithm: string, expirationTime: uint64,
                 issuer: IA, issuingTime: uint64, signAlgorithm: string, signature: array<byte>,
                 subject: Entity, subjectEncKey: array<byte>, subjectSignKey: array<byte>,
                 trcVersion: uint64, version: uint64)
      ensures Signature == signature && SubjectEncKey == subjectEncKey && SubjectSignKey == subjectSignKey
      ensures Value() == CertValue(canIssue, comment, encAlgorithm, expirationTime, issuer, issuingTime,
                                   signAlgorithm, signature[..], subject, subjectEncKey[..],
                                   subjectSignKey[..], trcVersion, version)
    {
      CanIssue, Comment, EncAlgorithm, ExpirationTime := canIssue, comment, encAlgorithm, expirationTime;
      Issuer, IssuingTime, SignAlgorithm, Signature := issuer, issuingTime, signAlgorithm, signature;
      Subject, SubjectEncKey, SubjectSignKey := subject, subjectEncKey, subjectSignKey;
      TRCVersion, Version := trcVersion, version;
    }

    /** A certificate over freshly allocated slices holding the given
        values, as the JSON decoder produces. */
    constructor FromValue(v: CertValue)
      ensures fresh(Signature) && fresh(SubjectEncKey) && fresh(SubjectSignKey)
      ensures Value() == v
    {
      CanIssue, Comment, EncAlgorithm, ExpirationTime := v.CanIssue, v.Comment, v.EncAlgorithm, v.ExpirationTime;
      Issuer, IssuingTime, SignAlgorithm := v.Issuer, v.IssuingTime, v.SignAlgorithm;
      Signature := new byte[|v.Signature|](i requires 0 <= i < |v.Signature| => v.Signature[i]);
      Subject := v.Subject;
      SubjectEncKey := new byte[|v.SubjectEncKey|](i requires 0 <= i < |v.SubjectEncKey| => v.SubjectEncKey[i]);
      SubjectSignKey := new byte[|v.SubjectSignKey|](i requires 0 <= i < |v.SubjectSignKey| => v.SubjectSignKey[i]);
      TRCVersion, Version := v.TRCVersion, v.Version;
    }

    /** `Sign`: on success the signature field holds a fresh slice with the
        signature over the signing input and nothing else changes; on any
        error (Version 0 among them) the certificate is left untouched. */
    method Sign(signKey: seq<byte>, signAlgo: string, sign: SignFn) returns (err: Option<CertError>)
      modifies this
      ensures var r := Signed(old(Value()), signKey, signAlgo, sign);
        (r.Err? ==> err == Some(r.error) && unchanged(this)) &&
        (r.Ok? ==> err == None && fresh(Signature) && Value() == r.value)
    {
      var input := SigPack(Value());
      if input.Err? {
        return Some(input.error);
      }
      var sig := sign(input.value, signKey, signAlgo);
      if sig.Err? {
        return Some(sig.error);
      }
      var s := sig.value;
      Signature := new byte[|s|](i requires 0 <= i < |s| => s[i]);
      return None;
    }

    /** `Copy`: a new certificate equal to this one, whose three byte
        slices are fresh copies. */
    method Copy() returns (n: PilaCertificate)
      ensures fresh(n) && fresh(n.Signature) && fresh(n.SubjectEncKey) && fresh(n.SubjectSignKey)
      ensures n.Value() == Value() && Eq(n.Value(), Value())
    {
      var sig := CopyBytes(Signature);
      var enc := CopyBytes(SubjectEncKey);
      var key := CopyBytes(SubjectSignKey);
      n := new PilaCertificate(CanIssue, Comment, EncAlgorithm, ExpirationTime, Issuer, IssuingTime,
                               SignAlgorithm, sig, Subject, enc, key, TRCVersion, Version);
      EqReflexive(Value());
    }
  }

  /** `PilaCertificateFromRaw` after decoding: a decoder error becomes
      ParseFailed and a decoded Version 0 becomes ReservedVersion. */
  function Admit(decoded: Option<CertValue>): (r: Result<CertValue, CertError>)
    ensures r == Err(ParseFailed) <==> decoded.None?
    ensures r == Err(ReservedVersion) <==> decoded.Some? && decoded.value.Version == 0
    ensures r.Ok? ==> decoded == Some(r.value) && r.value.Version != 0
  {
    match decoded
    case None => Err(ParseFailed)
    case Some(v) => if v.Version == 0 then Err(ReservedVersion) else Ok(v)
  }

  /** An admitted certificate can be signed exactly when the encoder can
      write its subject: the version check is already passed, so only the
      subject's length and the primitive can make `Sign` fail on it. */
  lemma AdmittedSignable(decoded: Option<CertValue>)
    requires Admit(decoded).Ok?
    ensures SigPack(Admit(decoded).value).Ok? <==> MarshalIP(decoded.value.Subject.Ipv4).Some?
  {
  }

  /** `PilaCertificateFromRaw`: decode (the JSON decoder is a parameter),
      then reject Version 0; nil and an error, or a new certificate. */
  method FromRaw(raw: seq<byte>, decode: seq<byte> -> Option<CertValue>)
    returns (cert: PilaCertificate?, err: Option<CertError>)
    ensures var r := Admit(decode(raw));
      (r.Err? ==> cert == null && err == Some(r.error)) &&
      (r.Ok? ==> cert != null && fresh(cert) && err == None && cert.Value() == r.value)
  {
    var r := Admit(decode(raw));
    if r.Err? {
      return null, Some(r.error);
    }
    cert := new PilaCertificate.FromValue(r.value);
    err := None;
  }

  // ---------------------------------------------------------------------
  // Chains

  /** The name `crypto.Ed25519` stands for. */
  const Ed25519: string := "ed25519"

  /** The parts of an AS certificate the PILA chain check reads; the other
      fields of `cert.Certificate` are not part of this model. */
  datatype Certificate = Certificate(Subject: IA, SignAlgorithm: string, SubjectSignKey: seq<byte>)

  /** `PilaChain`: the endpoint certificate (by pointer), the AS's leaf
      certificate and the issuer certificate that signed it. */
  datatype PilaChain = PilaChain(Endpoint: PilaCertificate, Leaf: Certificate, Issuer: Certificate)

  /** `ChainFromSlice` followed by `Chain.Verify` against the TRC: nil
      (None) when the leaf and issuer certificates form a valid chain. */
  type ChainCheckFn = (Certificate, Certificate) -> Option<CertError>

  /** `PilaChain.Verify`: the leaf/issuer chain first, then the Ed25519
      gate on the leaf, then the endpoint certificate under the leaf's key
      and algorithm. */
  function ChainVerify(ch: PilaChain, subject: Entity, now: uint64,
                       checkChain: ChainCheckFn, verify: VerifyFn): (r: Option<CertError>)
    reads ch.Endpoint, ch.Endpoint.Signature, ch.Endpoint.SubjectEncKey, ch.Endpoint.SubjectSignKey
    ensures checkChain(ch.Leaf, ch.Issuer).Some? ==> r == checkChain(ch.Leaf, ch.Issuer)
    ensures checkChain(ch.Leaf, ch.Issuer).None? && ch.Leaf.SignAlgorithm != Ed25519 ==>
              r == Some(AlgorithmNotAllowed)
    ensures checkChain(ch.Leaf, ch.Issuer).None? && ch.Leaf.SignAlgorithm == Ed25519 ==>
              r == Verify(ch.Endpoint.Value(), subject, ch.Leaf.SubjectSignKey, Ed25519, now, verify)
  {
    var chained := checkChain(ch.Leaf, ch.Issuer);
    if chained.Some? then chained
    else if ch.Leaf.SignAlgorithm != Ed25519 then Some(AlgorithmNotAllowed)
    else Verify(ch.Endpoint.Value(), subject, ch.Leaf.SubjectSignKey, ch.Leaf.SignAlgorithm, now, verify)
  }

  /** A chain is accepted only when the chain check passes, the leaf signs
      with Ed25519 and the endpoint certificate itself is accepted. */
  lemma ChainVerifyAccepts(ch: PilaChain, subject: Entity, now: uint64,
                           checkChain: ChainCheckFn, verify: VerifyFn)
    ensures ChainVerify(ch, subject, now, checkChain, verify) == None <==>
              checkChain(ch.Leaf, ch.Issuer) == None && ch.Leaf.SignAlgorithm == Ed25519 &&
              Verify(ch.Endpoint.Value(), subject, ch.Leaf.SubjectSignKey, Ed25519, now, verify) == None
  {
  }
}
