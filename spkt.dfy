/** The structured SCION packet (`spkt.ScnPkt`) the border router builds its
    buffers from: the section sizes, the common header, the byte image a
    buffer holds once the packet is laid out, the offsets of its sections,
    and the reversal a reply starts from. */
module Spkt {
  import opened Wrappers
  import opened Addr

  const CmnHdrLen: nat := 8
  const IABytes: nat := 8
  const LineLen: nat := 8
  const ExtnSubHdrLen: nat := 3
  const HopFieldLength: nat := 8
  /** `common.L4None`: the next-header value meaning "nothing follows". */
  const L4None: byte := 59
  const HopByHopClass: byte := 0
  const End2EndClass: byte := 222

  type uint16 = n: int | 0 <= n < 0x1_0000

  /** The errors the packet code reports. */
  datatype PktError = CapacityError | FormatError | PathError

  /** `spath.Path`: the raw path bytes and the byte offsets of the current
      info and hop fields inside them. */
  datatype Path = Path(Raw: seq<byte>, InfOff: nat, HopOff: nat)

  /** A `common.Extension`: its type and the payload its `Write` produces. */
  datatype Extn = Extn(Type: byte, Data: seq<byte>)

  /** An `l4.L4Header`: protocol tag, the header bytes its `Write` produces
      (so `L4Len` is their count) and the payload length it records. */
  datatype L4Header = L4Header(Type: byte, Hdr: seq<byte>, PldLen: nat)

  datatype ScnPkt = ScnPkt(
    DstIA: IA, SrcIA: IA,
    DstHost: HostAddr, SrcHost: HostAddr,
    Path: Option<Path>,
    HBHExt: seq<Extn>, E2EExt: seq<Extn>,
    L4: Option<L4Header>,
    Pld: Option<seq<byte>>)
  {
    /** Host bytes as long as their types say, and a path made of whole
        8-byte lines, as every SCION path is. */
    predicate WellFormed() {
      DstHost.Valid() && SrcHost.Valid() &&
      (Path.Some? ==> |Path.value.Raw| % LineLen == 0)
    }
  }

  /** `util.CalcPadding`: the bytes needed to round `n` up to a multiple of
      `blk`. */
  function CalcPadding(n: nat, blk: nat): (p: nat)
    requires blk > 0
    ensures p < blk
    ensures n % blk == 0 <==> p == 0
  {
    if n % blk != 0 then blk - n % blk else 0
  }

  /** Padding to a whole line leaves a multiple of the line length. */
  lemma {:induction false} PaddingAligns(n: nat)
    ensures (n + CalcPadding(n, LineLen)) % LineLen == 0
  {
    var q := n % LineLen;
    assert n == LineLen * (n / LineLen) + q;
    if q != 0 {
      assert n + CalcPadding(n, LineLen) == LineLen * (n / LineLen + 1);
    }
  }

  /** `ScnPkt.AddrLen`: both IAs and both hosts, padded to a whole line. */
  function AddrLen(sp: ScnPkt): nat {
    var n := 2 * IABytes + sp.DstHost.Size() + sp.SrcHost.Size();
    n + CalcPadding(n, LineLen)
  }

  function PathLen(sp: ScnPkt): nat {
    if sp.Path.Some? then |sp.Path.value.Raw| else 0
  }

  /** `ScnPkt.HdrLen`: common header, address section and path. */
  function HdrLen(sp: ScnPkt): nat {
    CmnHdrLen + AddrLen(sp) + PathLen(sp)
  }

  function ExtnLen(e: Extn): nat {
    ExtnSubHdrLen + |e.Data|
  }

  function L4Len(h: L4Header): nat {
    |h.Hdr|
  }

  function PldLen(p: Option<seq<byte>>): nat {
    if p.Some? then |p.value| else 0
  }

  function ExtnsLen(es: seq<Extn>): nat {
    if |es| == 0 then 0 else ExtnsLen(es[..|es| - 1]) + ExtnLen(es[|es| - 1])
  }

  /** `ScnPkt.TotalLen`: every section, the payload included. */
  function TotalLen(sp: ScnPkt): nat {
    HdrLen(sp) + ExtnsLen(sp.HBHExt) + ExtnsLen(sp.E2EExt) +
    (if sp.L4.Some? then L4Len(sp.L4.value) else 0) + PldLen(sp.Pld)
  }

  /** An extension together with the class of the list it came from. */
  datatype ChainExt = ChainExt(Class: byte, E: Extn)

  /** The extensions in the order they are written: hop-by-hop first, then
      end-to-end. */
  function Chain(sp: ScnPkt): (cs: seq<ChainExt>)
    ensures |cs| == |sp.HBHExt| + |sp.E2EExt|
  {
    Tagged(HopByHopClass, sp.HBHExt) + Tagged(End2EndClass, sp.E2EExt)
  }

  /** Each extension of `es` tagged with the class `c`. */
  function Tagged(c: byte, es: seq<Extn>): (cs: seq<ChainExt>)
    ensures |cs| == |es|
  {
    if |es| == 0 then [] else [ChainExt(c, es[0])] + Tagged(c, es[1..])
  }

  /** The chain holds the hop-by-hop extensions, then the end-to-end ones,
      each with its class. */
  lemma {:induction false} ChainAt(sp: ScnPkt)
    ensures forall i :: 0 <= i < |sp.HBHExt| ==> Chain(sp)[i] == ChainExt(HopByHopClass, sp.HBHExt[i])
    ensures forall i :: |sp.HBHExt| <= i < |Chain(sp)| ==> Chain(sp)[i] == ChainExt(End2EndClass, sp.E2EExt[i - |sp.HBHExt|])
  {
    TaggedAt(HopByHopClass, sp.HBHExt);
    TaggedAt(End2EndClass, sp.E2EExt);
  }

  lemma {:induction false} TaggedAt(c: byte, es: seq<Extn>)
    ensures forall i :: 0 <= i < |es| ==> Tagged(c, es)[i] == ChainExt(c, es[i])
    decreases |es|
  {
    if |es| > 0 {
      TaggedAt(c, es[1..]);
    }
  }

  /** The sub-header plus payload of one extension, whose first byte names
      what follows it. The length byte counts whole lines. */
  function ExtnWire(e: Extn, next: byte): (b: seq<byte>)
    ensures |b| == ExtnLen(e) && b[0] == next
  {
    [next, (ExtnLen(e) / LineLen) % 0x100, e.Type] + e.Data
  }

  function ChainLen(cs: seq<ChainExt>): nat {
    if |cs| == 0 then 0 else ChainLen(cs[..|cs| - 1]) + ExtnLen(cs[|cs| - 1].E)
  }

  /** The written extension chain: each extension's next-header byte holds
      the class of the extension after it, the last one holds `tail`. */
  function ChainWire(cs: seq<ChainExt>, tail: byte): (b: seq<byte>)
    ensures |b| == ChainLen(cs)
  {
    if |cs| == 0 then []
    else ChainWire(cs[..|cs| - 1], cs[|cs| - 1].Class) + ExtnWire(cs[|cs| - 1].E, tail)
  }

  /** Where one extension's next-header byte sits in the buffer. */
  datatype ExtnIdx = ExtnIdx(Type: byte, Index: nat)

  /** The next-header positions of a chain written from offset `base`. */
  function ExtIdxs(cs: seq<ChainExt>, base: nat): (r: seq<ExtnIdx>)
    ensures |r| == |cs|
  {
    if |cs| == 0 then []
    else ExtIdxs(cs[..|cs| - 1], base) + [ExtnIdx(cs[|cs| - 1].E.Type, base + ChainLen(cs[..|cs| - 1]))]
  }

  /** `rpkt.packetIdxs`: where each section of the buffer starts. */
  datatype PktIdxs = PktIdxs(
    dstIA: nat, srcIA: nat, dstHost: nat, srcHost: nat, path: nat,
    l4: nat, pld: nat,
    hbhExt: seq<ExtnIdx>, e2eExt: seq<ExtnIdx>)

  /** The next-header slot of the last extension written: the last end-to-end
      one if there is any, else the last hop-by-hop one. */
  function LastExtnSlot(hbh: seq<ExtnIdx>, e2e: seq<ExtnIdx>): Option<nat> {
    if |e2e| > 0 then Some(e2e[|e2e| - 1].Index)
    else if |hbh| > 0 then Some(hbh[|hbh| - 1].Index)
    else None
  }

  /** The protocol tag the last header before the L4 header carries. */
  function L4Tag(sp: ScnPkt): byte {
    if sp.L4.Some? then sp.L4.value.Type else L4None
  }

  /** What the common header says follows the path. */
  function FirstNextHdr(sp: ScnPkt): byte {
    var cs := Chain(sp);
    if |cs| > 0 then cs[0].Class else L4Tag(sp)
  }

  /** The length of the buffer once the packet is laid out. A payload without
      an L4 header is not written. */
  function WireLen(sp: ScnPkt): nat {
    HdrLen(sp) + ChainLen(Chain(sp)) +
    (if sp.L4.Some? then L4Len(sp.L4.value) + PldLen(sp.Pld) else 0)
  }

  /** The section offsets of a laid-out packet. */
  function Layout(sp: ScnPkt): PktIdxs {
    var cs := Chain(sp);
    var l4 := HdrLen(sp) + ChainLen(cs);
    var ix := ExtIdxs(cs, HdrLen(sp));
    PktIdxs(
      CmnHdrLen, CmnHdrLen + IABytes, CmnHdrLen + 2 * IABytes,
      CmnHdrLen + 2 * IABytes + sp.DstHost.Size(),
      CmnHdrLen + AddrLen(sp),
      l4,
      if sp.L4.Some? then l4 + L4Len(sp.L4.value) else HdrLen(sp),
      ix[..|sp.HBHExt|], ix[|sp.HBHExt|..])
  }

  /** `spkt.CmnHdr`. */
  datatype CmnHdr = CmnHdr(
    Ver: nat, DstType: HostType, SrcType: HostType,
    TotalLen: uint16, HdrLen: byte, CurrInfoF: byte, CurrHopF: byte,
    NextHdr: byte)

  /** `CmnHdr.Write`: version, destination and source address types in one
      16-bit word (4, 6 and 6 bits), total length, header length in lines,
      the info and hop pointers in lines, next header. */
  function CmnHdrBytes(h: CmnHdr): (b: seq<byte>)
    ensures |b| == CmnHdrLen
  {
    BigEndian((h.Ver % 16) * 0x1000 + HostTypeCode(h.DstType) * 0x40 + HostTypeCode(h.SrcType), 2) +
    BigEndian(h.TotalLen, 2) + [h.HdrLen, h.CurrInfoF, h.CurrHopF, h.NextHdr]
  }

  /** A line offset truncated to the 8-bit header field, as `uint8(...)`. */
  function LineField(off: nat): byte {
    (off / LineLen) % 0x100
  }

  /** The common header as it stands once the address section and path are
      in place: the packet's own total length (truncated to 16 bits), the
      header length and the info and hop pointers in lines (truncated to 8
      bits; both pointers stay 0 without a path), and nothing following. */
  function InitHdr(sp: ScnPkt): CmnHdr {
    var path := CmnHdrLen + AddrLen(sp);
    CmnHdr(0, sp.DstHost.Type, sp.SrcHost.Type,
      TotalLen(sp) % 0x1_0000,
      LineField(HdrLen(sp)),
      if sp.Path.Some? then LineField(path + sp.Path.value.InfOff) else 0,
      if sp.Path.Some? then LineField(path + sp.Path.value.HopOff) else 0,
      L4None)
  }

  /** The common header of a laid-out packet: the total length is the
      buffer's and the next-header field names the first extension class or
      the L4 protocol. */
  function BuiltHdr(sp: ScnPkt): CmnHdr {
    InitHdr(sp).(TotalLen := WireLen(sp) % 0x1_0000, NextHdr := FirstNextHdr(sp))
  }

  function Zeros(n: nat): (z: seq<byte>)
    ensures |z| == n
  {
    seq(n, _ => 0)
  }

  /** Address section (with its zero padding) and path. */
  function AddrPathWire(sp: ScnPkt): (b: seq<byte>)
    requires sp.WellFormed()
    ensures |b| == AddrLen(sp) + PathLen(sp)
  {
    var n := 2 * IABytes + sp.DstHost.Size() + sp.SrcHost.Size();
    IAWire(sp.DstIA) + (IAWire(sp.SrcIA) + (sp.DstHost.Raw + (sp.SrcHost.Raw +
    (Zeros(CalcPadding(n, LineLen)) + (if sp.Path.Some? then sp.Path.value.Raw else [])))))
  }

  /** The payload bytes: none for no payload. */
  function PldBytes(p: Option<seq<byte>>): (b: seq<byte>)
    ensures |b| == PldLen(p)
  {
    if p.Some? then p.value else []
  }

  /** The L4 header and payload, when there is an L4 header. */
  function L4Wire(sp: ScnPkt): seq<byte> {
    if sp.L4.Some? then sp.L4.value.Hdr + PldBytes(sp.Pld) else []
  }

  /** The bytes of a laid-out packet. */
  function Wire(sp: ScnPkt): seq<byte>
    requires sp.WellFormed()
  {
    CmnHdrBytes(BuiltHdr(sp)) + AddrPathWire(sp) + (ChainWire(Chain(sp), L4Tag(sp)) + L4Wire(sp))
  }

  // ---------------------------------------------------------------------
  // Properties of the layout

  /** The section offsets never move backwards, the IA slots are exactly
      `IABytes` apart, and the address section, path, extensions, L4 header
      and payload follow each other without gaps. */
  lemma {:induction false} LayoutOrder(sp: ScnPkt)
    ensures var ix := Layout(sp);
      ix.dstIA == CmnHdrLen && ix.srcIA == ix.dstIA + IABytes &&
      ix.dstHost == ix.srcIA + IABytes && ix.srcHost == ix.dstHost + sp.DstHost.Size() &&
      ix.srcHost + sp.SrcHost.Size() <= ix.path &&
      ix.path + PathLen(sp) == HdrLen(sp) && HdrLen(sp) <= ix.l4 &&
      (sp.L4.Some? ==> ix.pld == ix.l4 + L4Len(sp.L4.value) && ix.pld <= WireLen(sp)) &&
      (sp.L4.None? ==> ix.pld == HdrLen(sp) && ix.l4 == WireLen(sp))
  {
  }

  /** The path and the extensions start on a line boundary. */
  lemma {:induction false} LayoutAligned(sp: ScnPkt)
    requires sp.WellFormed()
    ensures HdrLen(sp) % LineLen == 0 && Layout(sp).path % LineLen == 0
  {
    PaddingAligns(2 * IABytes + sp.DstHost.Size() + sp.SrcHost.Size());
  }

  /** A chain's length is the sum of its parts' lengths when split. */
  lemma {:induction false} ChainLenAppend(cs: seq<ChainExt>, ds: seq<ChainExt>)
    ensures ChainLen(cs + ds) == ChainLen(cs) + ChainLen(ds)
    decreases |ds|
  {
    if ds == [] {
      assert cs + ds == cs;
    } else {
      var n := |ds|;
      assert (cs + ds)[..|cs + ds| - 1] == cs + ds[..n - 1];
      ChainLenAppend(cs, ds[..n - 1]);
    }
  }

  /** Setting the next-header byte of the last extension of a chain changes
      the chain's tail and nothing else. */
  lemma {:induction false} ChainPatch(cs: seq<ChainExt>, t: byte, c: byte)
    requires |cs| > 0
    ensures ChainLen(cs[..|cs| - 1]) < ChainLen(cs)
    ensures ChainWire(cs, t)[ChainLen(cs[..|cs| - 1]) := c] == ChainWire(cs, c)
  {
    var n := |cs|;
    var pre := ChainWire(cs[..n - 1], cs[n - 1].Class);
    assert ChainWire(cs, t) == pre + ExtnWire(cs[n - 1].E, t);
    assert ChainWire(cs, c) == pre + ExtnWire(cs[n - 1].E, c);
    assert ExtnWire(cs[n - 1].E, t)[0 := c] == ExtnWire(cs[n - 1].E, c);
  }

  /** The next-header slot of the last extension of a chain written from
      `base`, if the chain is not empty. */
  function LastSlot(cs: seq<ChainExt>, base: nat): Option<nat> {
    if |cs| == 0 then None else Some(ExtIdxs(cs, base)[|cs| - 1].Index)
  }

  /** Appending one extension to a chain adds its length, its slot, and its
      bytes behind the chain, whose tail becomes the new extension's class. */
  lemma {:induction false} ChainAppend(cs: seq<ChainExt>, x: ChainExt, base: nat, t: byte)
    ensures ChainLen(cs + [x]) == ChainLen(cs) + ExtnLen(x.E)
    ensures ChainWire(cs + [x], t) == ChainWire(cs, x.Class) + ExtnWire(x.E, t)
    ensures ExtIdxs(cs + [x], base) == ExtIdxs(cs, base) + [ExtnIdx(x.E.Type, base + ChainLen(cs))]
    ensures LastSlot(cs + [x], base) == Some(base + ChainLen(cs))
  {
    var ys := cs + [x];
    assert ys[..|ys| - 1] == cs;
  }

  /** A prefix of a chain is no longer than the chain, and its slots are the
      chain's first slots. */
  lemma {:induction false} ChainPrefix(cs: seq<ChainExt>, i: nat, base: nat)
    requires i <= |cs|
    ensures ChainLen(cs[..i]) <= ChainLen(cs)
    ensures ExtIdxs(cs[..i], base) == ExtIdxs(cs, base)[..i]
    decreases |cs|
  {
    if i < |cs| {
      var n := |cs|;
      ChainPrefix(cs[..n - 1], i, base);
      assert cs[..n - 1][..i] == cs[..i];
    } else {
      assert cs[..i] == cs;
    }
  }

  /** The last slot lies inside the chain's bytes, and setting it changes the
      chain's tail and nothing else. */
  lemma {:induction false} LastSlotPatch(cs: seq<ChainExt>, base: nat, t: byte, c: byte)
    requires |cs| > 0
    ensures base <= LastSlot(cs, base).value < base + ChainLen(cs)
    ensures ChainWire(cs, t)[LastSlot(cs, base).value - base := c] == ChainWire(cs, c)
  {
    ChainPatch(cs, t, c);
  }

  /** The last recorded next-header slot is the one of the last extension of
      the chain. */
  lemma {:induction false} LastSlotOfChain(cs: seq<ChainExt>, base: nat, hbh: seq<ExtnIdx>, e2e: seq<ExtnIdx>)
    requires hbh + e2e == ExtIdxs(cs, base)
    ensures LastExtnSlot(hbh, e2e) == LastSlot(cs, base)
  {
    if |cs| > 0 {
      var all := hbh + e2e;
      if |e2e| > 0 {
        assert e2e[|e2e| - 1] == all[|all| - 1];
      } else {
        assert hbh == all;
      }
    }
  }

  /** Every recorded next-header slot of a chain written from `base` holds the
      class of the extension after it, or `tail` for the last one. */
  lemma {:induction false} ChainSlots(cs: seq<ChainExt>, base: nat, tail: byte, i: nat)
    requires i < |cs|
    ensures base <= ExtIdxs(cs, base)[i].Index
    ensures ExtIdxs(cs, base)[i].Index + ExtnLen(cs[i].E) <= base + ChainLen(cs)
    ensures ChainWire(cs, tail)[ExtIdxs(cs, base)[i].Index - base] ==
            (if i + 1 < |cs| then cs[i + 1].Class else tail)
    ensures ChainWire(cs, tail)[ExtIdxs(cs, base)[i].Index - base + 2] == cs[i].E.Type
    decreases |cs|
  {
    var n := |cs|;
    var pre := cs[..n - 1];
    var front := ChainWire(pre, cs[n - 1].Class);
    var w := ChainWire(cs, tail);
    assert w == front + ExtnWire(cs[n - 1].E, tail);
    if i < n - 1 {
      ChainSlots(pre, base, cs[n - 1].Class, i);
      assert ExtIdxs(cs, base)[i] == ExtIdxs(pre, base)[i];
      assert pre[i] == cs[i];
      var k := ExtIdxs(pre, base)[i].Index - base;
      assert k + 2 < |front|;
      assert w[k] == front[k] && w[k + 2] == front[k + 2];
      if i + 1 < n - 1 {
        assert pre[i + 1] == cs[i + 1];
      }
    } else {
      assert ExtIdxs(cs, base)[i].Index - base == |front|;
    }
  }

  /** The L4 protocol tag sits in exactly one place of a laid-out packet
      with an L4 header: the next-header byte of the last extension if there
      is one, otherwise the common header's next-header field. */
  lemma {:induction false} L4TagPlacement(sp: ScnPkt)
    requires sp.WellFormed() && sp.L4.Some?
    ensures var cs := Chain(sp);
      if |cs| == 0 then BuiltHdr(sp).NextHdr == sp.L4.value.Type
      else
        BuiltHdr(sp).NextHdr == cs[0].Class &&
        var slot := LastExtnSlot(Layout(sp).hbhExt, Layout(sp).e2eExt);
        slot.Some? && slot.value < |Wire(sp)| && Wire(sp)[slot.value] == sp.L4.value.Type
  {
    var cs := Chain(sp);
    if |cs| > 0 {
      var base := HdrLen(sp);
      var ix := ExtIdxs(cs, base);
      var idxs := Layout(sp);
      assert ix[..|sp.HBHExt|] + ix[|sp.HBHExt|..] == ix;
      LastSlotOfChain(cs, base, idxs.hbhExt, idxs.e2eExt);
      assert LastExtnSlot(idxs.hbhExt, idxs.e2eExt) == Some(ix[|cs| - 1].Index);
      ChainSlots(cs, base, L4Tag(sp), |cs| - 1);
      var head := CmnHdrBytes(BuiltHdr(sp)) + AddrPathWire(sp);
      assert |head| == base;
      var w := Wire(sp);
      assert w == head + ChainWire(cs, L4Tag(sp)) + L4Wire(sp);
      assert ix[|cs| - 1].Index == base + ChainLen(cs[..|cs| - 1]);
      assert w[ix[|cs| - 1].Index] == ChainWire(cs, L4Tag(sp))[ix[|cs| - 1].Index - base];
    }
  }

  /** A laid-out packet is as long as WireLen says. */
  lemma {:induction false} WireLength(sp: ScnPkt)
    requires sp.WellFormed()
    ensures |Wire(sp)| == WireLen(sp)
  {
    assert |L4Wire(sp)| == (if sp.L4.Some? then L4Len(sp.L4.value) + PldLen(sp.Pld) else 0);
  }

  /** The common header's length fields agree with the layout when they fit
      their widths: the total length is the packet's length and the header
      length counts the lines before the extensions. */
  lemma {:induction false} BuiltHdrLengths(sp: ScnPkt)
    requires sp.WellFormed() && WireLen(sp) < 0x1_0000 && HdrLen(sp) < 0x100 * LineLen
    ensures BuiltHdr(sp).TotalLen as nat == WireLen(sp)
    ensures BuiltHdr(sp).HdrLen as nat * LineLen == HdrLen(sp)
  {
    LayoutAligned(sp);
    LineFieldExact(HdrLen(sp));
  }

  /** A whole number of lines below 256 survives the 8-bit line field. */
  lemma {:induction false} LineFieldExact(h: nat)
    requires h % LineLen == 0 && h < 0x100 * LineLen
    ensures LineField(h) as nat * LineLen == h
  {
    assert h == LineLen * (h / LineLen);
  }

  /** The address section of a laid-out packet holds both IAs and both hosts
      at the offsets the layout records, and the path bytes follow at the
      path offset. */
  lemma {:induction false} WireSections(sp: ScnPkt)
    requires sp.WellFormed()
    ensures var w, ix := Wire(sp), Layout(sp);
      |w| >= HdrLen(sp) &&
      w[ix.dstIA..ix.srcIA] == IAWire(sp.DstIA) &&
      w[ix.srcIA..ix.dstHost] == IAWire(sp.SrcIA) &&
      w[ix.dstHost..ix.srcHost] == sp.DstHost.Raw &&
      w[ix.srcHost..ix.srcHost + sp.SrcHost.Size()] == sp.SrcHost.Raw &&
      w[ix.path..HdrLen(sp)] == (if sp.Path.Some? then sp.Path.value.Raw else [])
  {
    var n := 2 * IABytes + sp.DstHost.Size() + sp.SrcHost.Size();
    var hd := CmnHdrBytes(BuiltHdr(sp));
    var pad := Zeros(CalcPadding(n, LineLen));
    var p := if sp.Path.Some? then sp.Path.value.Raw else [];
    var rest := ChainWire(Chain(sp), L4Tag(sp)) + L4Wire(sp);
    NestedSlices(Wire(sp), hd, IAWire(sp.DstIA), IAWire(sp.SrcIA), sp.DstHost.Raw, sp.SrcHost.Raw, pad, p, rest);
  }

  /** Slicing a right-nested concatenation `w` recovers each part. */
  lemma {:induction false} NestedSlices<T>(w: seq<T>, h: seq<T>, a: seq<T>, b: seq<T>, c: seq<T>, d: seq<T>, e: seq<T>, f: seq<T>, rest: seq<T>)
    requires w == h + (a + (b + (c + (d + (e + f))))) + rest
    ensures var o1 := |h| + |a|;
      var o2 := o1 + |b|;
      var o3 := o2 + |c|;
      var o4 := o3 + |d|;
      var o5 := o4 + |e|;
      |w| >= o5 + |f| &&
      w[|h|..o1] == a && w[o1..o2] == b && w[o2..o3] == c && w[o3..o4] == d &&
      w[o5..o5 + |f|] == f
  {
    var o1 := |h| + |a|;
    var o2 := o1 + |b|;
    var o3 := o2 + |c|;
    var o4 := o3 + |d|;
    var o5 := o4 + |e|;
    assert w[|h|..] == a + (b + (c + (d + (e + f)))) + rest;
    assert w[o1..] == b + (c + (d + (e + f))) + rest;
    assert w[o2..] == c + (d + (e + f)) + rest;
    assert w[o3..] == d + (e + f) + rest;
    assert w[o4..] == e + f + rest;
    assert w[o5..] == f + rest;
  }

  // ---------------------------------------------------------------------
  // Reversal (`ScnPkt.Reverse`, `Path.Reverse`): stand-ins

  /** The 8-byte lines of `s` in reverse order (a trailing partial line
      stays in front). */
  function ReverseLines(s: seq<byte>): (r: seq<byte>)
    ensures |r| == |s|
    decreases |s|
  {
    if |s| < LineLen then s else ReverseLines(s[LineLen..]) + s[..LineLen]
  }

  /** `Path.Reverse` stand-in: an empty path stays as it is; otherwise the
      first (info) line is kept, the hop lines after it are reversed and the
      pointers reset to the first info and hop field. A path too short to
      hold an info and a hop field cannot be reversed. */
  function ReversePath(p: Path): (r: Result<Path, PktError>)
    ensures r.Ok? ==> |r.value.Raw| == |p.Raw|
    ensures r.Err? <==> 0 < |p.Raw| < LineLen + HopFieldLength
  {
    if p.Raw == [] then Ok(p)
    else if |p.Raw| < LineLen + HopFieldLength then Err(PathError)
    else Ok(Path(p.Raw[..LineLen] + ReverseLines(p.Raw[LineLen..]), 0, LineLen))
  }

  /** Reversing the lines twice restores them. */
  lemma {:induction false} ReverseLinesTwice(s: seq<byte>)
    requires |s| % LineLen == 0
    ensures ReverseLines(ReverseLines(s)) == s
    decreases |s|
  {
    if |s| >= LineLen {
      var t := s[LineLen..];
      ReverseLinesTwice(t);
      ReverseLinesAppend(ReverseLines(t), s[..LineLen]);
      assert s[..LineLen] + t == s;
    }
  }

  /** Reversing the lines of `a + l` for a whole line `l` puts `l` first. */
  lemma {:induction false} ReverseLinesAppend(a: seq<byte>, l: seq<byte>)
    requires |a| % LineLen == 0 && |l| == LineLen
    ensures ReverseLines(a + l) == l + ReverseLines(a)
    decreases |a|
  {
    if |a| < LineLen {
      assert a == [];
      assert (a + l)[LineLen..] == [] && (a + l)[..LineLen] == l;
    } else {
      assert (a + l)[LineLen..] == a[LineLen..] + l;
      assert (a + l)[..LineLen] == a[..LineLen];
      ReverseLinesAppend(a[LineLen..], l);
    }
  }

  /** `ScnPkt.Reverse`: swap destination and source, reverse the path. */
  function Reverse(sp: ScnPkt): (r: Result<ScnPkt, PktError>)
    ensures r.Ok? ==> r.value.DstIA == sp.SrcIA && r.value.SrcIA == sp.DstIA &&
                      r.value.DstHost == sp.SrcHost && r.value.SrcHost == sp.DstHost &&
                      r.value.Path.Some? == sp.Path.Some?
    ensures r.Err? <==> sp.Path.Some? && ReversePath(sp.Path.value).Err?
  {
    var swapped := sp.(DstIA := sp.SrcIA, SrcIA := sp.DstIA, DstHost := sp.SrcHost, SrcHost := sp.DstHost);
    if sp.Path.None? then Ok(swapped)
    else
      match ReversePath(sp.Path.value)
      case Ok(p) => Ok(swapped.(Path := Some(p)))
      case Err(e) => Err(e)
  }

  // ---------------------------------------------------------------------
  // Hop fields and the reply's path advancement

  /** The parts of `spath.HopField` the reply logic reads. */
  datatype HopField = HopField(Xover: bool, ConsIngress: nat, ConsEgress: nat)

  /** `spath.HopFFromRaw` on the eight bytes of a hop field: the crossover
      flag is the lowest flag bit, the interfaces are 12 bits each. */
  function HopFFromRaw(b: seq<byte>): HopField
    requires |b| >= HopFieldLength
  {
    HopField(b[0] % 2 == 1, b[2] as int * 16 + b[3] as int / 16, (b[3] as int % 16) * 0x100 + b[4] as int)
  }

  /** `RtrPkt.HopF` stand-in over a buffer: no hop field (nil) when the hop
      pointer lies before the path section, an error when the hop field does
      not fit inside the header, otherwise the decoded field. */
  function HopAt(raw: seq<byte>, h: CmnHdr, pathIdx: nat): (r: Result<Option<HopField>, PktError>)
    ensures r == Ok(None) <==> h.CurrHopF as nat * LineLen < pathIdx
    ensures r.Ok? && r.value.Some? ==>
      h.CurrHopF as nat * LineLen + HopFieldLength <= h.HdrLen as nat * LineLen &&
      h.CurrHopF as nat * LineLen + HopFieldLength <= |raw| &&
      r.value.value == HopFFromRaw(raw[h.CurrHopF as nat * LineLen..])
  {
    var off := h.CurrHopF as nat * LineLen;
    if off < pathIdx then Ok(None)
    else if off + HopFieldLength > h.HdrLen as nat * LineLen || off + HopFieldLength > |raw| then Err(PathError)
    else Ok(Some(HopFFromRaw(raw[off..])))
  }

  /** Where the router's last packet came from. */
  datatype Dir = DirUnset | DirSelf | DirLocal | DirExternal

  /** How often a reply advances its reversed path, once the destination is
      known not to be local: twice on a crossover hop when the forward path
      was advanced, once on any other crossover hop, once when the packet came
      from outside, else never. */
  function IncPathCount(hop: Option<HopField>, incremented: bool, dirFrom: Dir): (n: nat)
    ensures n <= 2
    ensures n == 2 <==> hop.Some? && hop.value.Xover && incremented
    ensures n == 0 <==> !(hop.Some? && hop.value.Xover) && dirFrom != DirExternal
    ensures hop.Some? && hop.value.Xover ==> n >= 1
  {
    if hop.Some? && hop.value.Xover then (if incremented then 2 else 1)
    else if dirFrom == DirExternal then 1
    else 0
  }
}
