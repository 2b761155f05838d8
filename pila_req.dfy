/** PILA certificate requests: the endpoint a request names and the
    message type it travels as. */
module CertMgmt {
  import opened Wrappers
  import opened Addr

  type uint16 = n: nat | n < 0x1_0000

  /** `HostInfo`: a port and the endpoint's IPv4 and IPv6 address bytes,
      either of which may be empty. */
  datatype HostInfo = HostInfo(Port: uint16, Ipv4: seq<byte>, Ipv6: seq<byte>)

  /** `PilaReq`: the name to sign, the endpoint and its raw public key. */
  datatype PilaReq = PilaReq(SignedName: string, EndpointIdentifier: HostInfo, RawPublicKey: seq<byte>)

  /** The control-message types this model distinguishes. */
  datatype ProtoIdType = PilaCertReqTypeID | PilaCertRepTypeID

  /** `HostInfo.Host`: an IPv4 host over the IPv4 bytes when there are any,
      else an IPv6 host over the IPv6 bytes when there are any, else nil
      (None). The bytes are taken as they are. */
  function Host(h: HostInfo): (r: Option<HostAddr>)
    ensures r.None? <==> h.Ipv4 == [] && h.Ipv6 == []
    ensures r.Some? ==> r.value.Type in {HostTypeIPv4, HostTypeIPv6}
    ensures r.Some? && r.value.Type == HostTypeIPv4 <==> h.Ipv4 != []
    ensures r.Some? ==> r.value.Raw == if h.Ipv4 != [] then h.Ipv4 else h.Ipv6
  {
    if |h.Ipv4| > 0 then Some(HostAddr(HostTypeIPv4, h.Ipv4))
    else if |h.Ipv6| > 0 then Some(HostAddr(HostTypeIPv6, h.Ipv6))
    else None
  }

  /** IPv4 wins whenever it is present, whatever the IPv6 bytes are. */
  lemma HostPrefersIPv4(h: HostInfo, v6: seq<byte>)
    requires h.Ipv4 != []
    ensures Host(h.(Ipv6 := v6)) == Host(h)
  {
  }

  /** The IPv6 bytes matter only when there are no IPv4 bytes. */
  lemma HostFallsBackToIPv6(h: HostInfo)
    requires h.Ipv4 == [] && h.Ipv6 != []
    ensures Host(h) == Some(HostAddr(HostTypeIPv6, h.Ipv6))
  {
  }

  /** `PilaReq.ProtoId`: a request always travels as a PILA certificate
      request, whatever it holds. */
  function ProtoId(req: PilaReq): (id: ProtoIdType)
    ensures id == PilaCertReqTypeID
  {
    PilaCertReqTypeID
  }
}
