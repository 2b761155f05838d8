/** Addressing values shared by the router and the certificate code: the
    ISD-AS identifier with its text form, host addresses with their type
    tags, and the few `net.IP` operations the core calls (`To4`, `Equal`). */
module Addr {
  import opened Wrappers
  import Text

  /** One byte of a buffer or of an address. */
  type byte = b: int | 0 <= b < 0x100

  const MaxISD: nat := 0xFFFF
  const MaxBGPAS: nat := 0xFFFF_FFFF
  const MaxAS: nat := 0xFFFF_FFFF_FFFF

  /** 16-bit isolation domain number. */
  type ISD = n: nat | n <= MaxISD

  /** 48-bit autonomous system number. */
  type AS = n: nat | n <= MaxAS

  /** An ISD-AS pair; Go's `IA.Eq` is value equality on it. */
  datatype IA = IA(I: ISD, A: AS)

  /** `IA.Write`: the 64-bit integer ISD << 48 | AS, big-endian. */
  function IAWire(ia: IA): (b: seq<byte>)
    ensures |b| == 8
  {
    BigEndian(ia.I, 2) + BigEndian(ia.A, 6)
  }

  /** The low `n` bytes of `x`, most significant first. */
  function BigEndian(x: nat, n: nat): (b: seq<byte>)
    ensures |b| == n
  {
    if n == 0 then [] else BigEndian(x / 0x100, n - 1) + [x % 0x100]
  }

  datatype AddrError = InvalidISD | InvalidAS | InvalidIA

  /** `ISDFromString`: a decimal number below 2^16. */
  function ISDFromString(s: string): (r: Result<ISD, AddrError>)
    ensures r.Ok? ==> Text.ParseUint(s, Text.Decimal, MaxISD + 1) == Ok(r.value as nat)
  {
    match Text.ParseUint(s, Text.Decimal, MaxISD + 1)
    case Ok(v) => Ok(v)
    case Err(_) => Err(InvalidISD)
  }

  /** `ASFromString`: without a ':' a decimal (BGP-style) number below 2^32;
      otherwise exactly three ':'-separated hexadecimal groups below 2^16,
      most significant first. */
  function ASFromString(s: string): Result<AS, AddrError>
  {
    if ':' !in s then
      match Text.ParseUint(s, Text.Decimal, MaxBGPAS + 1)
      case Ok(v) => Ok(v)
      case Err(_) => Err(InvalidAS)
    else
      var parts := Text.Split(s, ':');
      if |parts| != 3 then Err(InvalidAS)
      else
        match (Text.ParseUint(parts[0], Text.Hex, 0x1_0000),
               Text.ParseUint(parts[1], Text.Hex, 0x1_0000),
               Text.ParseUint(parts[2], Text.Hex, 0x1_0000))
        case (Ok(a), Ok(b), Ok(c)) => Ok(GroupsAS(a, b, c))
        case _ => Err(InvalidAS)
  }

  /** The AS whose three 16-bit groups are `g0`, `g1`, `g2`, most significant
      first. */
  function GroupsAS(g0: nat, g1: nat, g2: nat): AS
    requires g0 < 0x1_0000 && g1 < 0x1_0000 && g2 < 0x1_0000
  {
    var hi := g0 * 0x1_0000 + g1;
    assert hi < 0x1_0000_0000;
    hi * 0x1_0000 + g2
  }

  /** The groups of GroupsAS are the 16-bit groups of the AS it makes. */
  lemma {:induction false} GroupsASGroups(g0: nat, g1: nat, g2: nat)
    requires g0 < 0x1_0000 && g1 < 0x1_0000 && g2 < 0x1_0000
    ensures var a := GroupsAS(g0, g1, g2);
      a / 0x1_0000_0000 == g0 && a / 0x1_0000 % 0x1_0000 == g1 && a % 0x1_0000 == g2
  {
    var hi := g0 * 0x1_0000 + g1;
    var a := GroupsAS(g0, g1, g2);
    assert a == g0 * 0x1_0000_0000 + g1 * 0x1_0000 + g2;
  }

  /** `IAFromString`: exactly two '-'-separated parts, an ISD and an AS. */
  function IAFromString(s: string): Result<IA, AddrError>
  {
    var parts := Text.Split(s, '-');
    if |parts| != 2 then Err(InvalidIA)
    else
      match (ISDFromString(parts[0]), ASFromString(parts[1]))
      case (Ok(i), Ok(a)) => Ok(IA(i, a))
      case _ => Err(InvalidIA)
  }

  /** `AS.String`: decimal up to MaxBGPAS, otherwise three lower-case
      hexadecimal groups joined by ':'. */
  function ASString(a: AS): string
  {
    if a <= MaxBGPAS then Text.FormatUint(a, Text.Decimal)
    else
      Text.FormatUint(a / 0x1_0000_0000 % 0x1_0000, Text.Hex) + ":" +
      Text.FormatUint(a / 0x1_0000 % 0x1_0000, Text.Hex) + ":" +
      Text.FormatUint(a % 0x1_0000, Text.Hex)
  }

  /** `IA.String`: "<isd>-<as>". */
  function IAString(ia: IA): string
  {
    Text.FormatUint(ia.I, Text.Decimal) + "-" + ASString(ia.A)
  }

  /** The printed AS reads back as the same AS. */
  lemma {:induction false} ASStringRoundTrip(a: AS)
    ensures ASFromString(ASString(a)) == Ok(a)
  {
    if a <= MaxBGPAS {
      Text.FormatUintHexDigits(a, Text.Decimal, ':');
      Text.ParseFormatUint(a, Text.Decimal, MaxBGPAS + 1);
    } else {
      HexGroupsRoundTrip(a / 0x1_0000_0000 % 0x1_0000, a / 0x1_0000 % 0x1_0000, a % 0x1_0000);
      HexGroupsRecombine(a);
    }
  }

  /** Three printed 16-bit groups joined by ':' read back as their
      combination. */
  lemma {:induction false} HexGroupsRoundTrip(g0: nat, g1: nat, g2: nat)
    requires g0 < 0x1_0000 && g1 < 0x1_0000 && g2 < 0x1_0000
    ensures ASFromString(Text.FormatUint(g0, Text.Hex) + ":" + Text.FormatUint(g1, Text.Hex) + ":" +
                         Text.FormatUint(g2, Text.Hex))
         == Ok(GroupsAS(g0, g1, g2))
  {
    var p0, p1, p2 := Text.FormatUint(g0, Text.Hex), Text.FormatUint(g1, Text.Hex), Text.FormatUint(g2, Text.Hex);
    var s := p0 + ":" + p1 + ":" + p2;
    Text.FormatUintHexDigits(g0, Text.Hex, ':');
    Text.FormatUintHexDigits(g1, Text.Hex, ':');
    Text.FormatUintHexDigits(g2, Text.Hex, ':');
    Text.SplitThree(p0, p1, p2, ':');
    assert ':' in s by { assert s[|p0|] == ':'; }
    Text.ParseFormatUint(g0, Text.Hex, 0x1_0000);
    Text.ParseFormatUint(g1, Text.Hex, 0x1_0000);
    Text.ParseFormatUint(g2, Text.Hex, 0x1_0000);
  }

  /** The three groups ASString prints recombine to the AS. */
  lemma {:induction false} HexGroupsRecombine(a: AS)
    ensures GroupsAS(a / 0x1_0000_0000 % 0x1_0000, a / 0x1_0000 % 0x1_0000, a % 0x1_0000) == a
  {
    var hi, lo := a / 0x1_0000, a % 0x1_0000;
    assert a == hi * 0x1_0000 + lo;
    assert hi == (hi / 0x1_0000) * 0x1_0000 + hi % 0x1_0000;
    assert a / 0x1_0000_0000 == hi / 0x1_0000;
    assert hi / 0x1_0000 < 0x1_0000;
  }

  /** The printed IA reads back as the same IA. */
  lemma {:induction false} IAStringRoundTrip(ia: IA)
    ensures IAFromString(IAString(ia)) == Ok(ia)
  {
    var pi, pa := Text.FormatUint(ia.I, Text.Decimal), ASString(ia.A);
    Text.FormatUintHexDigits(ia.I, Text.Decimal, '-');
    ASStringHasNoDash(ia.A);
    Text.SplitTwo(pi, pa, '-');
    Text.ParseFormatUint(ia.I, Text.Decimal, MaxISD + 1);
    ASStringRoundTrip(ia.A);
  }

  /** No printed AS contains '-', so an IA text splits at its one dash. */
  lemma {:induction false} ASStringHasNoDash(a: AS)
    ensures '-' !in ASString(a)
  {
    if a <= MaxBGPAS {
      Text.FormatUintHexDigits(a, Text.Decimal, '-');
    } else {
      Text.FormatUintHexDigits(a / 0x1_0000_0000 % 0x1_0000, Text.Hex, '-');
      Text.FormatUintHexDigits(a / 0x1_0000 % 0x1_0000, Text.Hex, '-');
      Text.FormatUintHexDigits(a % 0x1_0000, Text.Hex, '-');
    }
  }

  /** No printed IA contains a space or '>', the separators of the path
      description text format. */
  lemma {:induction false} IAStringSeparators(ia: IA)
    ensures ' ' !in IAString(ia) && '>' !in IAString(ia)
  {
    Text.FormatUintHexDigits(ia.I, Text.Decimal, ' ');
    Text.FormatUintHexDigits(ia.I, Text.Decimal, '>');
    if ia.A <= MaxBGPAS {
      Text.FormatUintHexDigits(ia.A, Text.Decimal, ' ');
      Text.FormatUintHexDigits(ia.A, Text.Decimal, '>');
    } else {
      Text.FormatUintHexDigits(ia.A / 0x1_0000_0000 % 0x1_0000, Text.Hex, ' ');
      Text.FormatUintHexDigits(ia.A / 0x1_0000 % 0x1_0000, Text.Hex, ' ');
      Text.FormatUintHexDigits(ia.A % 0x1_0000, Text.Hex, ' ');
      Text.FormatUintHexDigits(ia.A / 0x1_0000_0000 % 0x1_0000, Text.Hex, '>');
      Text.FormatUintHexDigits(ia.A / 0x1_0000 % 0x1_0000, Text.Hex, '>');
      Text.FormatUintHexDigits(ia.A % 0x1_0000, Text.Hex, '>');
    }
  }

  // ---------------------------------------------------------------------
  // Host addresses

  datatype HostType = HostTypeNone | HostTypeIPv4 | HostTypeIPv6 | HostTypeSVC

  /** The address-type tag carried in the common header. */
  function HostTypeCode(t: HostType): nat
  {
    match t
    case HostTypeNone => 0
    case HostTypeIPv4 => 1
    case HostTypeIPv6 => 2
    case HostTypeSVC => 3
  }

  /** `HostAddr.Size`: the wire length an address type occupies. */
  function HostLen(t: HostType): nat
  {
    match t
    case HostTypeNone => 0
    case HostTypeIPv4 => 4
    case HostTypeIPv6 => 16
    case HostTypeSVC => 2
  }

  /** A host address: its type and the bytes `Pack` returns. */
  datatype HostAddr = HostAddr(Type: HostType, Raw: seq<byte>) {
    function Size(): nat { HostLen(Type) }

    /** The bytes are as long as the type says. */
    predicate Valid() { |Raw| == Size() }
  }

  /** `net.IP`; a nil IP is the empty sequence. */
  type IP = seq<byte>

  /** The twelve-byte prefix of an IPv4 address written in IPv6 form. */
  const V4InV6Prefix: seq<byte> := [0, 0, 0, 0, 0, 0, 0, 0, 0, 0, 0xFF, 0xFF]

  /** `net.IP.To4`: the 4-byte form of an IPv4 address, None (nil) when the
      address is not IPv4. */
  function To4(ip: IP): (r: Option<IP>)
    ensures r.Some? ==> |r.value| == 4
  {
    if |ip| == 4 then Some(ip)
    else if |ip| == 16 && ip[..12] == V4InV6Prefix then Some(ip[12..])
    else None
  }

  /** `net.IP.Equal`: equal bytes, or the same IPv4 address once in 4-byte
      and once in 16-byte form. */
  predicate IPEqual(ip: IP, x: IP)
  {
    if |ip| == |x| then ip == x
    else if |ip| == 4 && |x| == 16 then x[..12] == V4InV6Prefix && ip == x[12..]
    else if |ip| == 16 && |x| == 4 then ip[..12] == V4InV6Prefix && ip[12..] == x
    else false
  }

  /** The text `net.IP.MarshalText` writes, by the form `IP.String` prints:
      nothing for the empty address, the dotted quad of an IPv4 address
      (given by its 4-byte form), the IPv6 text of any other 16 bytes.
      Distinct forms print distinct texts, so the form stands for the
      text. */
  datatype IPText = NoText | DottedQuad(v4: IP) | IPv6Text(v6: IP)

  /** `net.IP.MarshalText`: the text of a 0-, 4- or 16-byte address, an
      error (None) for any other length. */
  function MarshalIP(ip: IP): (r: Option<IPText>)
    ensures r.None? <==> |ip| != 0 && |ip| != 4 && |ip| != 16
    ensures r.Some? ==> (r.value.DottedQuad? <==> To4(ip).Some?) && (r.value == NoText <==> ip == [])
  {
    if |ip| == 0 then Some(NoText)
    else if |ip| != 4 && |ip| != 16 then None
    else
      match To4(ip)
      case Some(ip4) => Some(DottedQuad(ip4))
      case None => Some(IPv6Text(ip))
  }

  /** A 16-byte address is its first twelve bytes followed by the rest. */
  lemma SplitAt12(ip: IP)
    requires |ip| == 16
    ensures ip == ip[..12] + ip[12..]
  {
  }

  /** Two addresses, the first of which can be written as text, are written
      as the same text exactly when `Equal` calls them the same IP. */
  lemma {:induction false} MarshalIPEqual(ip: IP, x: IP)
    requires MarshalIP(ip).Some?
    ensures MarshalIP(ip) == MarshalIP(x) <==> IPEqual(ip, x)
  {
    if |ip| == 16 && |x| == 16 {
      SplitAt12(ip);
      SplitAt12(x);
    }
  }

  /** `HostFromIP`: an IPv4 host when the address has a 4-byte form,
      otherwise an IPv6 host. */
  function HostFromIP(ip: IP): HostAddr
  {
    match To4(ip)
    case Some(ip4) => HostAddr(HostTypeIPv4, ip4)
    case None => HostAddr(HostTypeIPv6, ip)
  }

  /** `HostAddr.IP`: the 4-byte form for an IPv4 host, the bytes for an
      IPv6 host, and nil for the other types. */
  function HostIP(h: HostAddr): IP
  {
    match h.Type
    case HostTypeIPv4 => (match To4(h.Raw) case Some(ip4) => ip4 case None => [])
    case HostTypeIPv6 => h.Raw
    case _ => []
  }
}
