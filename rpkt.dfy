/** The border router's packet buffer (`rpkt.RtrPkt`): one fixed-capacity
    byte array whose active length is trimmed and re-extended in place, an
    index of where each section starts, and the code that lays a structured
    packet out into it and builds a reply from a received packet. */
module Rpkt {
  import opened Wrappers
  import opened Addr
  import opened Spkt
  import opened RawBuf
  import opened ExtnChain

  type IFID = nat

  /** An output socket of the router, by identity. */
  type SockRef = nat

  datatype UDPAddr = UDPAddr(IP: IP, Port: nat)

  /** A configured interface: where its link leads. */
  datatype Interface = Interface(RemoteAddr: UDPAddr)

  /** `rctx.Ctx`: the local IA, the sockets towards the local AS (by
      ingress index) and towards neighbours (by interface), and the
      interfaces. */
  datatype Ctx = Ctx(
    IA: IA, LocSockOut: seq<SockRef>, ExtSockOut: map<IFID, SockRef>,
    IFs: map<IFID, Interface>)

  /** Where a received packet came in: the router's own address it arrived
      at, the sender, the receiving interface and local-socket index. */
  datatype IngressInfo = IngressInfo(Dst: UDPAddr, Src: UDPAddr, IfID: IFID, LocIdx: nat)

  /** A socket and the address to send through it to; a missing socket is
      None. */
  datatype EgressPair = EgressPair(S: Option<SockRef>, Dst: UDPAddr)

  const ZeroHdr: CmnHdr := CmnHdr(0, HostTypeNone, HostTypeNone, 0, 0, 0, 0, 0)
  const ZeroIdxs: PktIdxs := PktIdxs(0, 0, 0, 0, 0, 0, 0, [], [])
  const NoAddr: UDPAddr := UDPAddr([], 0)

  // ---------------------------------------------------------------------
  // The packet object

  const NoCtx: Ctx := Ctx(IA(0, 0), [], map[], map[])
  const NoIngress: IngressInfo := IngressInfo(NoAddr, NoAddr, 0, 0)
  const NoHost: HostAddr := HostAddr(HostTypeNone, [])

  /** `rpkt.RtrPkt`: the buffer `Raw` at full capacity with `rawLen` the
      length of the Go slice over it, the section offsets, the header fields
      parsed or filled in, and the router's bookkeeping for the packet. */
  class RtrPkt {
    var Raw: array<byte>
    var rawLen: nat
    var idxs: PktIdxs
    var CmnHdr: CmnHdr
    var dstIA: IA
    var srcIA: IA
    var dstHost: HostAddr
    var srcHost: HostAddr
    var HBHExt: seq<Extn>
    var E2EExt: seq<Extn>
    var L4Type: byte
    var l4: Option<L4Header>
    var pld: Option<seq<byte>>
    var DirFrom: Dir
    var DirTo: Dir
    var Ctx: Ctx
    var Ingress: IngressInfo
    var IncrementedPath: bool
    /** The interface the packet is handled on, when known (`IFCurr`). */
    var ifCurr: Option<IFID>
    var Egress: seq<EgressPair>
    /** How many times `IncPath` advanced this packet's path. */
    var pathIncs: nat

    /** The buffer has its fixed capacity and the slice fits in it. */
    predicate Valid()
      reads this`Raw, this`rawLen
    {
      Raw.Length == PktBufSize && rawLen <= Raw.Length
    }

    /** `NewRtrPkt`: a zeroed buffer at full length and every field empty. */
    constructor ()
      ensures Valid() && fresh(Raw)
      ensures Raw[..] == Zeros(PktBufSize) && rawLen == PktBufSize
      ensures CmnHdr == ZeroHdr && idxs == ZeroIdxs
      ensures HBHExt == [] && E2EExt == [] && L4Type == 0 && l4.None? && pld.None?
      ensures DirFrom == DirUnset && DirTo == DirUnset && Ctx == NoCtx && Ingress == NoIngress
      ensures !IncrementedPath && ifCurr.None? && Egress == [] && pathIncs == 0
    {
      Raw := new byte[PktBufSize](_ => 0);
      rawLen := PktBufSize;
      idxs := ZeroIdxs;
      CmnHdr := ZeroHdr;
      dstIA, srcIA := IA(0, 0), IA(0, 0);
      dstHost, srcHost := NoHost, NoHost;
      HBHExt, E2EExt := [], [];
      L4Type, l4, pld := 0, None, None;
      DirFrom, DirTo := DirUnset, DirUnset;
      Ctx := NoCtx;
      Ingress := NoIngress;
      IncrementedPath := false;
      ifCurr := None;
      Egress := [];
      pathIncs := 0;
    }

    /** The packet laid out from `sp`: the slice holds exactly its bytes, the
        offsets and common header are the layout's, and the parsed fields are
        the structured packet's (the L4 header records the payload length). */
    predicate Built(sp: ScnPkt)
      requires sp.WellFormed()
      reads this`Raw, this`rawLen, this`idxs, this`CmnHdr, this`dstIA, this`srcIA, this`dstHost, this`srcHost, this`HBHExt, this`E2EExt, this`L4Type, this`l4, this`pld, Raw
    {
      Valid() && rawLen == WireLen(sp) && Raw[..rawLen] == Wire(sp) &&
      idxs == Layout(sp) && CmnHdr == BuiltHdr(sp) &&
      dstIA == sp.DstIA && srcIA == sp.SrcIA && dstHost == sp.DstHost && srcHost == sp.SrcHost &&
      HBHExt == sp.HBHExt && E2EExt == sp.E2EExt &&
      (if sp.L4.Some? then
         L4Type == sp.L4.value.Type && l4 == Some(sp.L4.value.(PldLen := PldLen(sp.Pld))) && pld == sp.Pld
       else l4.None? && pld.None?)
    }

    /** The common header fields, the address section and the path of
        `RtrPktFromScnPkt`, written into a fresh buffer; the L4 offset starts
        right behind the path. */
    method FillHdr(sp: ScnPkt)
      requires Valid() && sp.WellFormed() && HdrLen(sp) <= PktBufSize
      requires CmnHdr == ZeroHdr
      modifies this`CmnHdr, this`idxs, this`dstIA, this`srcIA, this`dstHost, this`srcHost, Raw
      ensures Valid()
      ensures CmnHdr == InitHdr(sp)
      ensures idxs == old(idxs).(dstIA := Layout(sp).dstIA, srcIA := Layout(sp).srcIA,
                                 dstHost := Layout(sp).dstHost, srcHost := Layout(sp).srcHost,
                                 path := Layout(sp).path, l4 := HdrLen(sp))
      ensures dstIA == sp.DstIA && srcIA == sp.SrcIA && dstHost == sp.DstHost && srcHost == sp.SrcHost
      ensures Raw[..] == AddrPathWrites(old(Raw[..]), sp)
    {
      var totalLen := TotalLen(sp);
      var hdrLen := HdrLen(sp) / LineLen;
      CmnHdr := CmnHdr.(DstType := sp.DstHost.Type, SrcType := sp.SrcHost.Type,
        TotalLen := totalLen % 0x1_0000, HdrLen := hdrLen % 0x100,
        CurrInfoF := 0, CurrHopF := 0, NextHdr := L4None);
      idxs := idxs.(dstIA := CmnHdrLen);
      dstIA := sp.DstIA;
      idxs := idxs.(srcIA := idxs.dstIA + IABytes);
      srcIA := sp.SrcIA;
      idxs := idxs.(dstHost := idxs.srcIA + IABytes);
      dstHost := sp.DstHost;
      idxs := idxs.(srcHost := idxs.dstHost + dstHost.Size());
      srcHost := sp.SrcHost;
      idxs := idxs.(path := CmnHdrLen + AddrLen(sp));
      PutAddrPath(Raw, sp);
      if sp.Path.Some? {
        CmnHdr := CmnHdr.(CurrInfoF := LineField(idxs.path + sp.Path.value.InfOff),
                          CurrHopF := LineField(idxs.path + sp.Path.value.HopOff));
      }
      LayoutOrder(sp);
      LayoutAligned(sp);
      idxs := idxs.(l4 := hdrLen * LineLen);
    }


    /** The fields adding an extension reads and writes. */
    function Fields(): ExtnFields
      reads this`Raw, this`idxs, this`CmnHdr, Raw
    {
      ExtnFields(Raw[..], idxs.l4, idxs.hbhExt + idxs.e2eExt, CmnHdr.NextHdr)
    }

    /** The extension lists and how many slots of each class are recorded. */
    function Lists(): ExtnLists
      reads this`idxs, this`HBHExt, this`E2EExt
    {
      ExtnLists(HBHExt, E2EExt, |idxs.hbhExt|, |idxs.e2eExt|)
    }

    /** `extnAddHBH` / `extnAddE2E`: the fields change as AddExtn says and
        the extension joins the list of its class, or, when the buffer has
        no room for it, a capacity error leaves everything as it was.
        Hop-by-hop extensions precede all end-to-end ones. */
    method ExtnAdd(x: ChainExt) returns (err: Option<PktError>)
      requires Valid() && (x.Class == HopByHopClass ==> idxs.e2eExt == [])
      modifies this`idxs, this`CmnHdr, this`HBHExt, this`E2EExt, Raw
      ensures Valid()
      ensures err.None? ==> AddExtn(x, old(Fields())) == Some(Fields())
      ensures err.None? ==> Lists() == ListsAfter(old(Lists()), x.Class, [x.E])
      ensures x.Class == HopByHopClass ==> idxs.e2eExt == old(idxs.e2eExt)
      ensures err.Some? ==> err.value == CapacityError && AddExtn(x, old(Fields())).None?
      ensures err.Some? ==> unchanged(this) && unchanged(Raw)
      ensures OtherIdxs(idxs) == OtherIdxs(old(idxs)) && OtherHdr(CmnHdr) == OtherHdr(old(CmnHdr))
    {
      ghost var f := Fields();
      var slot := LastExtnSlot(idxs.hbhExt, idxs.e2eExt);
      LastIdxOfLists(idxs.hbhExt, idxs.e2eExt);
      var off := idxs.l4;
      var w := ExtnWire(x.E, L4None);
      if off + |w| > Raw.Length {
        return Some(CapacityError);
      }
      if slot.Some? {
        if slot.value < Raw.Length {
          Raw[slot.value] := x.Class;
        }
      } else {
        CmnHdr := CmnHdr.(NextHdr := x.Class);
      }
      assert Raw[..] == Patch(f.raw, slot, x.Class);
      Put(Raw, off, w);
      var ix := ExtnIdx(x.E.Type, off);
      if x.Class == HopByHopClass {
        idxs := idxs.(hbhExt := idxs.hbhExt + [ix]);
        HBHExt := HBHExt + [x.E];
      } else {
        idxs := idxs.(e2eExt := idxs.e2eExt + [ix]);
        E2EExt := E2EExt + [x.E];
      }
      assert idxs.hbhExt + idxs.e2eExt == f.idx + [ix];
      idxs := idxs.(l4 := off + |w|);
      return None;
    }

    /** One round of a loop of `RtrPktFromScnPkt` over the extensions `es`
        of class `cls`, which `all` holds from position `base` on: ExtnAdd
        on the `j`th of them, as step `n` of adding the extensions of
        `all`, which extends the lists by it. */
    method ExtnStep(es: seq<Extn>, cls: byte, j: nat, ghost all: seq<ChainExt>, ghost base: nat, ghost n: nat,
                    ghost f0: ExtnFields, ghost l0: ExtnLists)
      returns (err: Option<PktError>)
      requires Valid() && j < |es| && n == base + j && base + |es| <= |all|
      requires forall i :: 0 <= i < |es| ==> all[base + i] == ChainExt(cls, es[i])
      requires cls == HopByHopClass ==> idxs.e2eExt == []
      requires AddExtns(all, n, f0) == Some(Fields()) && Lists() == ListsAfter(l0, cls, es[..j])
      modifies this`idxs, this`CmnHdr, this`HBHExt, this`E2EExt, Raw
      ensures Valid() && (cls == HopByHopClass ==> idxs.e2eExt == [])
      ensures err.None? ==> AddExtns(all, n + 1, f0) == Some(Fields())
      ensures err.None? ==> Lists() == ListsAfter(l0, cls, es[..j + 1])
      ensures err.Some? ==> err.value == CapacityError && AddExtns(all, n + 1, f0).None?
      ensures OtherIdxs(idxs) == OtherIdxs(old(idxs)) && OtherHdr(CmnHdr) == OtherHdr(old(CmnHdr))
    {
      var x := ChainExt(cls, es[j]);
      assert all[base + j] == x;
      AddExtnsNext(all, n, f0, Fields());
      ListsAfterNext(l0, cls, es, j);
      err := ExtnAdd(x);
    }

    /** One loop of `RtrPktFromScnPkt` over a list of extensions of class
        `cls`, which `all` holds from position `base` to `end`; the first
        one that does not fit ends it with a capacity error. */
    method AddExtnList(es: seq<Extn>, cls: byte, ghost all: seq<ChainExt>, ghost base: nat, ghost end: nat,
                       ghost f0: ExtnFields)
      returns (err: Option<PktError>)
      requires Valid() && end == base + |es| <= |all| && (cls == HopByHopClass ==> idxs.e2eExt == [])
      requires forall j :: 0 <= j < |es| ==> all[base + j] == ChainExt(cls, es[j])
      requires AddExtns(all, base, f0) == Some(Fields())
      modifies this`idxs, this`CmnHdr, this`HBHExt, this`E2EExt, Raw
      ensures Valid()
      ensures err.None? ==> AddExtns(all, end, f0) == Some(Fields())
      ensures err.None? ==> Lists() == ListsAfter(old(Lists()), cls, es)
      ensures err.Some? ==> err.value == CapacityError && AddExtns(all, end, f0).None?
      ensures OtherIdxs(idxs) == OtherIdxs(old(idxs)) && OtherHdr(CmnHdr) == OtherHdr(old(CmnHdr))
    {
      ghost var l0 := Lists();
      assert es[..0] == [];
      var j := 0;
      ghost var n := base;
      err := None;
      while j < |es| && err.None?
        invariant 0 <= j <= |es| && n == base + j
        invariant Valid() && (cls == HopByHopClass ==> idxs.e2eExt == [])
        invariant err.None? ==> AddExtns(all, n, f0) == Some(Fields()) && Lists() == ListsAfter(l0, cls, es[..j])
        invariant err.Some? ==> err.value == CapacityError && AddExtns(all, n, f0).None?
        invariant OtherIdxs(idxs) == OtherIdxs(old(idxs)) && OtherHdr(CmnHdr) == OtherHdr(old(CmnHdr))
      {
        err := ExtnStep(es, cls, j, all, base, n, f0, l0);
        j, n := j + 1, n + 1;
      }
      if err.Some? {
        AddExtnsStaysNone(all, n, end, f0);
      } else {
        assert n == end && es[..j] == es;
      }
    }

    /** The extensions of `RtrPktFromScnPkt`: the hop-by-hop ones and then
        the end-to-end ones of `sp`, in the order of `Chain(sp)`, from the
        L4 offset behind the path and with no extension recorded yet; the
        fields end as AddExtns says and the lists hold the extensions, or a
        capacity error comes where AddExtns gives None. */
    method FillExtns(sp: ScnPkt, ghost all: seq<ChainExt>, ghost f0: ExtnFields) returns (err: Option<PktError>)
      requires Valid() && all == Chain(sp) && f0 == Fields() && idxs.hbhExt == [] && idxs.e2eExt == []
      modifies this`idxs, this`CmnHdr, this`HBHExt, this`E2EExt, Raw
      ensures Valid()
      ensures err.None? ==> AddExtns(all, |all|, f0) == Some(Fields())
      ensures err.None? ==> Lists() == ExtnLists(old(HBHExt) + sp.HBHExt, old(E2EExt) + sp.E2EExt, |sp.HBHExt|, |sp.E2EExt|)
      ensures err.Some? ==> err.value == CapacityError && AddExtns(all, |all|, f0).None?
      ensures OtherIdxs(idxs) == OtherIdxs(old(idxs)) && OtherHdr(CmnHdr) == OtherHdr(old(CmnHdr))
    {
      ChainAt(sp);
      err := AddExtnList(sp.HBHExt, HopByHopClass, all, 0, |sp.HBHExt|, f0);
      if err.Some? {
        AddExtnsStaysNone(all, |sp.HBHExt|, |all|, f0);
        return;
      }
      err := AddExtnList(sp.E2EExt, End2EndClass, all, |sp.HBHExt|, |all|, f0);
    }

    /** The packet after `RtrPktFromScnPkt` filled in the common header, the
        address section and the path of `sp` into a new buffer: no extension
        yet, the L4 offset behind the path. */
    predicate HdrBuilt(sp: ScnPkt)
      requires sp.WellFormed()
      reads this`Raw, this`rawLen, this`idxs, this`CmnHdr, this`HBHExt, this`E2EExt, Raw
    {
      Valid() && HdrLen(sp) <= PktBufSize && Raw[..] == HdrImage(sp) &&
      idxs == HdrIdxs(sp) && CmnHdr == InitHdr(sp) && HBHExt == [] && E2EExt == []
    }

    /** The packet after `RtrPktFromScnPkt` also added the extensions: the
        buffer holds them with the last extension saying that nothing
        follows, the offsets are the layout's with the payload offset at the
        extensions' start, and the common header names the first extension,
        if any. */
    predicate ExtnsBuilt(sp: ScnPkt)
      requires sp.WellFormed()
      reads this`Raw, this`rawLen, this`idxs, this`CmnHdr, this`HBHExt, this`E2EExt, Raw
    {
      Valid() && HdrLen(sp) + ChainLen(Chain(sp)) <= PktBufSize &&
      Raw[..] == ChainImage(HdrImage(sp), HdrLen(sp), Chain(sp)) &&
      idxs == Layout(sp).(pld := HdrLen(sp)) &&
      CmnHdr == InitHdr(sp).(NextHdr := if |Chain(sp)| == 0 then L4None else Chain(sp)[0].Class) &&
      HBHExt == sp.HBHExt && E2EExt == sp.E2EExt
    }

    /** The address fields hold those of `sp`. */
    predicate AddrsOf(sp: ScnPkt)
      reads this`dstIA, this`srcIA, this`dstHost, this`srcHost
    {
      dstIA == sp.DstIA && srcIA == sp.SrcIA && dstHost == sp.DstHost && srcHost == sp.SrcHost
    }

    /** The extension part of `RtrPktFromScnPkt`, from a buffer holding the
        header: it succeeds exactly when the header and the extensions fit
        the buffer, and then leaves the packet as ExtnsBuilt says. */
    method AddChain(sp: ScnPkt) returns (err: Option<PktError>)
      requires sp.WellFormed() && HdrBuilt(sp)
      modifies this`idxs, this`CmnHdr, this`HBHExt, this`E2EExt, Raw
      ensures err.None? <==> HdrLen(sp) + ChainLen(Chain(sp)) <= PktBufSize
      ensures err.Some? ==> err.value == CapacityError
      ensures err.None? ==> ExtnsBuilt(sp)
    {
      var hdrLen := HdrLen(sp) / LineLen;
      ghost var ix0, h0 := idxs, CmnHdr;
      ghost var all := Chain(sp);
      ghost var f0 := Fields();
      ghost var run := ChainRun(all, HdrImage(sp), HdrLen(sp), L4None);
      ChainStateStart(run, f0);
      err := FillExtns(sp, all, f0);
      AddExtnsState(run, |all|, f0);
      assert all[..|all|] == all;
      if err.None? {
        ChainStateEnd(run, Fields());
        LayoutAligned(sp);
        ghost var ix1 := idxs;
        idxs := idxs.(pld := hdrLen * LineLen);
        IdxsAfterExtns(sp, ix0, ix1, idxs);
        HdrAfterExtns(sp, h0, CmnHdr);
      }
    }

    /** The loops of `addL4` over the recorded hop-by-hop and then
        end-to-end slots: the slot of the last extension written, if any. */
    method NextHdrSlot() returns (slot: Option<nat>)
      ensures slot == LastIdx(idxs.hbhExt + idxs.e2eExt)
    {
      slot := None;
      var hbh, e2e := idxs.hbhExt, idxs.e2eExt;
      var i := 0;
      while i < |hbh|
        invariant 0 <= i <= |hbh| && slot == LastIdx(hbh[..i])
      {
        slot := Some(hbh[i].Index);
        i := i + 1;
      }
      assert hbh[..i] == hbh + e2e[..0];
      i := 0;
      while i < |e2e|
        invariant 0 <= i <= |e2e| && slot == LastIdx(hbh + e2e[..i])
      {
        slot := Some(e2e[i].Index);
        assert (hbh + e2e[..i + 1])[|hbh| + i] == e2e[i];
        i := i + 1;
      }
      assert e2e[..i] == e2e;
    }

    /** `addL4`: the L4 header is written at the L4 offset, the payload
        offset moves behind it, the last extension (or the common header)
        names its protocol, and the slice ends at the payload offset with the
        common header recording that length. When the header does not fit,
        a capacity error leaves the slice at full capacity. */
    method AddL4(h: L4Header) returns (err: Option<PktError>)
      requires Valid() && CmnHdrLen <= idxs.l4 <= Raw.Length
      requires LastIdx(idxs.hbhExt + idxs.e2eExt).Some? ==>
               LastIdx(idxs.hbhExt + idxs.e2eExt).value < Raw.Length
      modifies this`L4Type, this`l4, this`rawLen, this`idxs, this`CmnHdr, Raw
      ensures Valid() && L4Type == h.Type && l4 == Some(h)
      ensures err.Some? <==> old(idxs.l4) + L4Len(h) > Raw.Length
      ensures err.Some? ==> err.value == CapacityError && rawLen == Raw.Length
      ensures err.Some? ==> idxs == old(idxs) && CmnHdr == old(CmnHdr) && Raw[..] == old(Raw[..])
      ensures err.None? ==> idxs == old(idxs).(pld := old(idxs.l4) + L4Len(h)) && rawLen == idxs.pld
      ensures err.None? ==>
        var slot := LastIdx(old(idxs.hbhExt + idxs.e2eExt));
        CmnHdr == old(CmnHdr).(TotalLen := idxs.pld % 0x1_0000,
                               NextHdr := if slot.None? then h.Type else old(CmnHdr.NextHdr)) &&
        Raw[..] == WriteAt(Patch(WriteAt(old(Raw[..]), idxs.l4, h.Hdr), slot, h.Type), 0, CmnHdrBytes(CmnHdr))
    {
      L4Type := h.Type;
      l4 := Some(h);
      rawLen := Raw.Length;
      if idxs.l4 + |h.Hdr| > rawLen {
        return Some(CapacityError);
      }
      Put(Raw, idxs.l4, h.Hdr);
      idxs := idxs.(pld := idxs.l4 + L4Len(h));
      ghost var written := Raw[..];
      var slot := NextHdrSlot();
      if slot.Some? {
        Raw[slot.value] := L4Type;
      } else {
        CmnHdr := CmnHdr.(NextHdr := L4Type);
      }
      assert Raw[..] == Patch(written, slot, h.Type);
      rawLen := idxs.pld;
      CmnHdr := CmnHdr.(TotalLen := rawLen % 0x1_0000);
      Put(Raw, 0, CmnHdrBytes(CmnHdr));
      return None;
    }

    /** `SetPld`: the payload is recorded, written at the payload offset
        (nothing is written for no payload), the slice ends behind it, the
        L4 header records its length and the common header the slice's
        length. A payload that does not fit gives a capacity error with the
        slice at full capacity. */
    method SetPld(p: Option<seq<byte>>) returns (err: Option<PktError>)
      requires Valid() && CmnHdrLen <= idxs.pld <= Raw.Length
      modifies this`pld, this`rawLen, this`l4, this`CmnHdr, Raw
      ensures Valid() && pld == p
      ensures err.Some? <==> idxs.pld + PldLen(p) > Raw.Length
      ensures err.Some? ==> err.value == CapacityError && rawLen == Raw.Length
      ensures err.Some? ==> l4 == old(l4) && CmnHdr == old(CmnHdr) && Raw[..] == old(Raw[..])
      ensures err.None? ==> rawLen == idxs.pld + PldLen(p) && l4 == UpdateL4(old(l4), PldLen(p))
      ensures err.None? ==> CmnHdr == old(CmnHdr).(TotalLen := rawLen % 0x1_0000)
      ensures err.None? ==>
        Raw[..] == WriteAt(WriteAt(old(Raw[..]), idxs.pld, PldBytes(p)), 0, CmnHdrBytes(CmnHdr))
    {
      pld := p;
      var plen := 0;
      if p.Some? {
        rawLen := Raw.Length;
        if idxs.pld + |p.value| > rawLen {
          return Some(CapacityError);
        }
        Put(Raw, idxs.pld, p.value);
        plen := |p.value|;
      }
      rawLen := idxs.pld + plen;
      l4 := UpdateL4(l4, plen);
      CmnHdr := CmnHdr.(TotalLen := rawLen % 0x1_0000);
      Put(Raw, 0, CmnHdrBytes(CmnHdr));
      return None;
    }

    /** The buffer once `addL4` has placed the L4 header of `sp` behind its
        laid-out extensions: every offset is the layout's, the slice ends at
        the payload offset, and the header image is PlacedImage. */
    predicate L4Placed(sp: ScnPkt)
      requires sp.WellFormed() && sp.L4.Some?
      reads this`Raw, this`rawLen, this`idxs, this`CmnHdr, this`HBHExt, this`E2EExt, this`L4Type, this`l4, Raw
    {
      Valid() && Layout(sp).pld <= PktBufSize && Raw[..] == PlacedImage(sp) &&
      rawLen == Layout(sp).pld && idxs == Layout(sp) && CmnHdr == PlacedHdr(sp) &&
      HBHExt == sp.HBHExt && E2EExt == sp.E2EExt && L4Type == sp.L4.value.Type && l4 == sp.L4
    }

    /** The `addL4` step of `RtrPktFromScnPkt`: it succeeds exactly when the
        L4 header fits behind the extensions, and then the header is placed. */
    method PutL4(sp: ScnPkt) returns (err: Option<PktError>)
      requires sp.WellFormed() && sp.L4.Some? && ExtnsBuilt(sp)
      modifies this`L4Type, this`l4, this`rawLen, this`idxs, this`CmnHdr, Raw
      ensures err.None? <==> Layout(sp).pld <= PktBufSize
      ensures err.Some? ==> err.value == CapacityError
      ensures err.None? ==> L4Placed(sp)
    {
      ghost var ix0, hdr0, r0 := idxs, CmnHdr, Raw[..];
      err := AddL4(sp.L4.value);
      if err.None? {
        L4PlacedState(sp, ix0, hdr0, r0, idxs, CmnHdr, Raw[..]);
      }
    }

    /** The `SetPld` step of `RtrPktFromScnPkt`: it succeeds exactly when the
        whole packet fits the buffer, and then the packet is laid out. */
    method PutPld(sp: ScnPkt) returns (err: Option<PktError>)
      requires sp.WellFormed() && sp.L4.Some? && L4Placed(sp) && AddrsOf(sp)
      modifies this`pld, this`rawLen, this`l4, this`CmnHdr, Raw
      ensures err.None? <==> WireLen(sp) <= PktBufSize
      ensures err.Some? ==> err.value == CapacityError
      ensures err.None? ==> Built(sp)
    {
      ghost var x0 := Raw[..];
      err := SetPld(sp.Pld);
      if err.None? {
        assert CmnHdr == BuiltHdr(sp);
        assert Raw[..] == WriteAt(WriteAt(x0, Layout(sp).pld, PldBytes(sp.Pld)), 0, CmnHdrBytes(BuiltHdr(sp)));
        L4Wired(sp);
      }
    }

    /** The first part of `RtrPktFromScnPkt` on a new packet: the common
        header fields, the address section and the path. */
    method FillNewHdr(sp: ScnPkt)
      requires sp.WellFormed() && HdrLen(sp) <= PktBufSize
      requires Valid() && Raw[..] == Zeros(PktBufSize) && CmnHdr == ZeroHdr && idxs == ZeroIdxs
      requires HBHExt == [] && E2EExt == []
      modifies this`dstIA, this`srcIA, this`dstHost, this`srcHost, this`idxs, this`CmnHdr, Raw
      ensures HdrBuilt(sp) && AddrsOf(sp)
    {
      FillHdr(sp);
      HdrWrites(sp);
    }

    /** The layout half of `RtrPktFromScnPkt` on a new packet: the common
        header, addresses and path, then the rest. It succeeds exactly when
        the packet fits the buffer. */
    method Build(sp: ScnPkt) returns (err: Option<PktError>)
      requires sp.WellFormed() && HdrLen(sp) <= PktBufSize
      requires Valid() && Raw[..] == Zeros(PktBufSize) && CmnHdr == ZeroHdr && idxs == ZeroIdxs
      requires HBHExt == [] && E2EExt == [] && l4.None? && pld.None?
      modifies this`dstIA, this`srcIA, this`dstHost, this`srcHost
      modifies this`idxs, this`CmnHdr, this`HBHExt, this`E2EExt, this`L4Type, this`l4, this`pld, this`rawLen, Raw
      ensures err.None? <==> WireLen(sp) <= PktBufSize
      ensures err.Some? ==> err.value == CapacityError
      ensures err.None? ==> Built(sp)
      ensures DirFrom == old(DirFrom) && DirTo == old(DirTo) && Ctx == old(Ctx)
      ensures Egress == old(Egress) && pathIncs == old(pathIncs)
    {
      FillNewHdr(sp);
      err := Lay(sp);
    }

    /** The part of `RtrPktFromScnPkt` after the common header, addresses
        and path: the extensions, then the L4 header and the payload when
        there is an L4 header. It succeeds exactly when the packet fits the
        buffer, and then the packet is laid out. */
    method Lay(sp: ScnPkt) returns (err: Option<PktError>)
      requires sp.WellFormed() && HdrBuilt(sp) && AddrsOf(sp) && l4.None? && pld.None?
      modifies this`idxs, this`CmnHdr, this`HBHExt, this`E2EExt, this`L4Type, this`l4, this`pld, this`rawLen, Raw
      ensures err.None? <==> WireLen(sp) <= PktBufSize
      ensures err.Some? ==> err.value == CapacityError
      ensures err.None? ==> Built(sp)
    {
      LayoutOrder(sp);
      err := AddChain(sp);
      if err.None? {
        if sp.L4.Some? {
          err := PutL4(sp);
          if err.None? {
            err := PutPld(sp);
          }
        } else {
          FinishNoL4(sp);
        }
      }
    }

    /** The no-L4 part of `RtrPktFromScnPkt`: the slice ends behind the
        extensions and the common header records that length. */
    method FinishNoL4(sp: ScnPkt)
      requires sp.WellFormed() && sp.L4.None? && ExtnsBuilt(sp) && AddrsOf(sp) && l4.None? && pld.None?
      modifies this`rawLen, this`CmnHdr, Raw
      ensures Built(sp)
    {
      rawLen := idxs.l4;
      CmnHdr := CmnHdr.(TotalLen := rawLen % 0x1_0000);
      Put(Raw, 0, CmnHdrBytes(CmnHdr));
      assert CmnHdr == BuiltHdr(sp);
      NoL4Wired(sp);
    }

    // -------------------------------------------------------------------
    // Reading a packet back, and the reply

    /** `RtrPkt.ToScnPkt` stand-in: the parsed fields, with the path read
        back from the buffer between the path offset and the end of the
        header and its info and hop pointers made relative to it. A header
        end outside the slice or before the path offset is a format error;
        an empty path section is no path. */
    function ToScnPkt(): (r: Result<ScnPkt, PktError>)
      requires Valid()
      reads this`Raw, this`rawLen, this`idxs, this`CmnHdr, this`dstIA, this`srcIA, this`dstHost, this`srcHost,
            this`HBHExt, this`E2EExt, this`l4, this`pld, Raw
      ensures r.Err? <==> !(idxs.path <= CmnHdr.HdrLen as nat * LineLen <= rawLen)
      ensures r.Ok? ==> r.value.DstIA == dstIA && r.value.SrcIA == srcIA &&
                        r.value.DstHost == dstHost && r.value.SrcHost == srcHost
    {
      match ReadPath(Raw[..rawLen], CmnHdr, idxs.path)
      case Err(e) => Err(e)
      case Ok(path) => Ok(ScnPkt(dstIA, srcIA, dstHost, srcHost, path, HBHExt, E2EExt, l4, pld))
    }

    /** `CreateReplyScnPkt`: the packet read back and reversed, coming from
        this router's IA and, whichever way the packet came in, from the
        address it arrived at. A failed read or reversal is passed on. */
    function CreateReplyScnPkt(): (r: Result<ScnPkt, PktError>)
      requires Valid()
      reads this`Raw, this`rawLen, this`idxs, this`CmnHdr, this`dstIA, this`srcIA, this`dstHost, this`srcHost,
            this`HBHExt, this`E2EExt, this`l4, this`pld, this`Ctx, this`Ingress, Raw
      ensures r.Err? <==> ToScnPkt().Err? || Reverse(ToScnPkt().value).Err?
      ensures r.Ok? ==> r.value.SrcIA == Ctx.IA && r.value.SrcHost == HostFromIP(Ingress.Dst.IP)
      ensures r.Ok? ==> r.value.DstIA == srcIA && r.value.DstHost == srcHost
      ensures r.Ok? ==> r.value.HBHExt == HBHExt && r.value.E2EExt == E2EExt && r.value.L4 == l4 && r.value.Pld == pld
    {
      match ToScnPkt()
      case Err(e) => Err(e)
      case Ok(sp) =>
        match Reverse(sp)
        case Err(e) => Err(e)
        case Ok(rev) => Ok(rev.(SrcIA := Ctx.IA, SrcHost := HostFromIP(Ingress.Dst.IP)))
    }

    /** Reading back a packet laid out from a canonical `sp` gives `sp` as
        delivered. */
    lemma {:induction false} ReadBack(sp: ScnPkt)
      requires sp.WellFormed() && Canonical(sp) && Built(sp)
      ensures ToScnPkt() == Ok(Delivered(sp))
    {
      PathOfWire(sp);
    }

    /** The reply to a packet laid out from a canonical `sp` goes back to
        where `sp` came from, from this router's IA and the address the
        packet arrived at; it fails exactly when the path cannot be
        reversed. */
    lemma {:induction false} ReplyOfBuilt(sp: ScnPkt)
      requires sp.WellFormed() && Canonical(sp) && Built(sp)
      ensures CreateReplyScnPkt().Err? <==> sp.Path.Some? && ReversePath(sp.Path.value).Err?
      ensures CreateReplyScnPkt().Ok? ==>
        var rep := CreateReplyScnPkt().value;
        rep.DstIA == sp.SrcIA && rep.DstHost == sp.SrcHost &&
        rep.SrcIA == Ctx.IA && rep.SrcHost == HostFromIP(Ingress.Dst.IP) &&
        rep.Path == (if sp.Path.Some? then Some(ReversePath(sp.Path.value).value) else None)
    {
      ReadBack(sp);
    }

    /** `RtrPkt.HopF` stand-in: the hop field the hop pointer designates in
        the slice. */
    function HopF(): Result<Option<HopField>, PktError>
      requires Valid()
      reads this`Raw, this`rawLen, this`idxs, this`CmnHdr, Raw
    {
      HopAt(Raw[..rawLen], CmnHdr, idxs.path)
    }

    /** `RtrPkt.IncPath` stand-in, kept as a counter: a packet without a
        path cannot be advanced. */
    method IncPath() returns (err: Option<PktError>)
      modifies this`pathIncs
      ensures err.None? <==> HasPath(CmnHdr, idxs.path)
      ensures err.Some? ==> err.value == PathError
      ensures pathIncs == old(pathIncs) + (if err.None? then 1 else 0)
    {
      if HasPath(CmnHdr, idxs.path) {
        pathIncs := pathIncs + 1;
        err := None;
      } else {
        err := Some(PathError);
      }
    }

    /** `RtrPkt.IFCurr` stand-in: the current interface, an error when it
        is not known. */
    function IFCurr(): (r: Result<IFID, PktError>)
      reads this`ifCurr
    {
      if ifCurr.Some? then Ok(ifCurr.value) else Err(FormatError)
    }

    /** `replyEgress`: back through the local socket the packet came in on,
        to its sender, when it came from the local AS; otherwise through the
        external socket of the packet's current interface (None when there
        is none) to the neighbour at the far end of that interface. */
    function ReplyEgress(): (r: Result<EgressPair, PktError>)
      requires DirFrom == DirLocal ==> Ingress.LocIdx < |Ctx.LocSockOut|
      requires DirFrom != DirLocal && ifCurr.Some? ==> ifCurr.value in Ctx.IFs
      reads this`DirFrom, this`Ctx, this`Ingress, this`ifCurr
      ensures DirFrom == DirLocal ==> r == Ok(EgressPair(Some(Ctx.LocSockOut[Ingress.LocIdx]), Ingress.Src))
      ensures DirFrom != DirLocal ==> (r.Ok? <==> ifCurr.Some?)
      ensures DirFrom != DirLocal && r.Ok? ==>
        r.value.Dst == Ctx.IFs[ifCurr.value].RemoteAddr && (r.value.S.Some? <==> ifCurr.value in Ctx.ExtSockOut)
    {
      if DirFrom == DirLocal then Ok(EgressPair(Some(Ctx.LocSockOut[Ingress.LocIdx]), Ingress.Src))
      else
        match IFCurr()
        case Err(e) => Err(e)
        case Ok(ifid) =>
          Ok(EgressPair(if ifid in Ctx.ExtSockOut then Some(Ctx.ExtSockOut[ifid]) else None,
                        Ctx.IFs[ifid].RemoteAddr))
    }

    /** The path advancement of `CreateReply`, on the reply laid out from
        `sp`: `IncPath` is called as often as ReplyIncs says, unless the hop
        field cannot be read or the path cannot be advanced. */
    method Advance(sp: ScnPkt, local: IA, incremented: bool, dirFrom: Dir) returns (err: Option<PktError>)
      requires sp.WellFormed() && Built(sp)
      modifies this`pathIncs
      ensures Built(sp)
      ensures err.None? <==> ReplyIncs(sp, local, incremented, dirFrom).Ok?
      ensures err.Some? ==> ReplyIncs(sp, local, incremented, dirFrom) == Err(err.value)
      ensures err.None? ==> pathIncs == old(pathIncs) + ReplyIncs(sp, local, incremented, dirFrom).value
    {
      err := None;
      if dstIA != local {
        var hop := HopF();
        if hop.Err? {
          err := Some(hop.error);
        } else if hop.value.Some? && hop.value.value.Xover {
          err := IncPath();
          if err.None? && incremented {
            err := IncPath();
          }
        } else if dirFrom == DirExternal {
          err := IncPath();
        }
      }
    }

    /** `CreateReply`: the reply `sp` laid out for the direction this packet
        came from, its reversed path advanced as ReplyIncs says, and exactly
        one egress, the one `replyEgress` derives from this (the inbound)
        packet. Any error leaves no reply. */
    method CreateReply(sp: ScnPkt) returns (r: Result<RtrPkt, PktError>)
      requires sp.WellFormed() && HdrLen(sp) <= PktBufSize
      requires DirFrom == DirLocal ==> Ingress.LocIdx < |Ctx.LocSockOut|
      requires DirFrom != DirLocal && ifCurr.Some? ==> ifCurr.value in Ctx.IFs
      ensures r.Err? <==> WireLen(sp) > PktBufSize || ReplyIncs(sp, Ctx.IA, IncrementedPath, DirFrom).Err? ||
                          ReplyEgress().Err?
      ensures WireLen(sp) > PktBufSize ==> r == Err(CapacityError)
      ensures WireLen(sp) <= PktBufSize && ReplyIncs(sp, Ctx.IA, IncrementedPath, DirFrom).Err? ==>
                r == Err(ReplyIncs(sp, Ctx.IA, IncrementedPath, DirFrom).error)
      ensures WireLen(sp) <= PktBufSize && ReplyIncs(sp, Ctx.IA, IncrementedPath, DirFrom).Ok? && ReplyEgress().Err? ==>
                r == Err(ReplyEgress().error)
      ensures r.Ok? ==> fresh(r.value) && r.value.Built(sp)
      ensures r.Ok? ==> r.value.DirFrom == DirSelf && r.value.DirTo == DirFrom && r.value.Ctx == Ctx
      ensures r.Ok? ==> ReplyIncs(sp, Ctx.IA, IncrementedPath, DirFrom) == Ok(r.value.pathIncs)
      ensures r.Ok? ==> ReplyEgress().Ok? && r.value.Egress == [ReplyEgress().value]
    {
      var made := RtrPktFromScnPkt(sp, DirFrom, Ctx);
      if made.Err? {
        return Err(made.error);
      }
      var reply := made.value;
      var err := reply.Advance(sp, Ctx.IA, IncrementedPath, DirFrom);
      if err.Some? {
        return Err(err.value);
      }
      var egress := ReplyEgress();
      if egress.Err? {
        return Err(egress.error);
      }
      reply.Egress := reply.Egress + [egress.value];
      return Ok(reply);
    }
  }

  /** `updateL4` stand-in: the L4 header records the payload length. */
  function UpdateL4(h: Option<L4Header>, plen: nat): (r: Option<L4Header>)
    ensures r.Some? == h.Some?
    ensures r.Some? ==> r.value.Type == h.value.Type && r.value.Hdr == h.value.Hdr && r.value.PldLen == plen
  {
    if h.Some? then Some(h.value.(PldLen := plen)) else None
  }

  /** The common header once the L4 header is placed: it names the first
      extension class or the L4 protocol and records the slice up to the
      payload offset. */
  function PlacedHdr(sp: ScnPkt): CmnHdr {
    InitHdr(sp).(TotalLen := Layout(sp).pld % 0x1_0000, NextHdr := FirstNextHdr(sp))
  }

  /** The buffer once the L4 header is placed: over the chain image, the L4
      header behind the chain, the protocol named in the chain's last
      next-header slot, and PlacedHdr written at the front. */
  function PlacedImage(sp: ScnPkt): (b: seq<byte>)
    requires sp.WellFormed() && sp.L4.Some? && Layout(sp).pld <= PktBufSize
    ensures |b| == PktBufSize
  {
    var cs, hl, h := Chain(sp), HdrLen(sp), sp.L4.value;
    var l := hl + ChainLen(cs);
    WriteAt(Patch(WriteAt(ChainImage(HdrImage(sp), hl, cs), l, h.Hdr), LastSlot(cs, hl), h.Type), 0,
            CmnHdrBytes(PlacedHdr(sp)))
  }

  /** What `addL4` does to the buffer of `sp` with its extensions laid out
      (offsets `ix0`, header `hdr0`, bytes `r0`) leaves the L4 header
      placed. */
  lemma {:induction false} L4PlacedState(sp: ScnPkt, ix0: PktIdxs, hdr0: CmnHdr, r0: seq<byte>,
                                         ix1: PktIdxs, hdr1: CmnHdr, r1: seq<byte>)
    requires sp.WellFormed() && sp.L4.Some? && HdrLen(sp) + ChainLen(Chain(sp)) <= PktBufSize
    requires ix0 == Layout(sp).(pld := HdrLen(sp)) && |r0| == PktBufSize
    requires hdr0 == InitHdr(sp).(NextHdr := if |Chain(sp)| == 0 then L4None else Chain(sp)[0].Class)
    requires r0 == ChainImage(HdrImage(sp), HdrLen(sp), Chain(sp))
    requires ix1 == ix0.(pld := ix0.l4 + L4Len(sp.L4.value)) && ix1.pld <= PktBufSize
    requires var slot := LastIdx(ix0.hbhExt + ix0.e2eExt);
      hdr1 == hdr0.(TotalLen := ix1.pld % 0x1_0000, NextHdr := if slot.None? then sp.L4.value.Type else hdr0.NextHdr) &&
      r1 == WriteAt(Patch(WriteAt(r0, ix0.l4, sp.L4.value.Hdr), slot, sp.L4.value.Type), 0, CmnHdrBytes(hdr1))
    ensures Layout(sp).pld <= PktBufSize
    ensures ix1 == Layout(sp) && hdr1 == PlacedHdr(sp) && r1 == PlacedImage(sp)
  {
    var cs, hl := Chain(sp), HdrLen(sp);
    var slot := LastIdx(ix0.hbhExt + ix0.e2eExt);
    PlacedSlot(sp, ix0);
    assert ix1 == Layout(sp);
    assert hdr1 == PlacedHdr(sp);
    assert r1 == WriteAt(Patch(WriteAt(r0, hl + ChainLen(cs), sp.L4.value.Hdr), LastSlot(cs, hl), sp.L4.value.Type), 0,
                         CmnHdrBytes(PlacedHdr(sp)));
  }

  /** The last next-header slot of the laid-out extensions is the chain's
      last slot; there is none exactly when the chain is empty. */
  lemma {:induction false} PlacedSlot(sp: ScnPkt, ix0: PktIdxs)
    requires ix0 == Layout(sp).(pld := HdrLen(sp))
    ensures LastIdx(ix0.hbhExt + ix0.e2eExt) == LastSlot(Chain(sp), HdrLen(sp))
    ensures LastIdx(ix0.hbhExt + ix0.e2eExt).None? <==> |Chain(sp)| == 0
  {
    var cs, hl := Chain(sp), HdrLen(sp);
    var ix := ExtIdxs(cs, hl);
    assert ix0.hbhExt + ix0.e2eExt == ix;
  }

  /** The payload written behind a placed L4 header and the built common
      header over it give the packet's wire image, up to the wire length. */
  lemma {:induction false} L4Wired(sp: ScnPkt)
    requires sp.WellFormed() && sp.L4.Some? && WireLen(sp) <= PktBufSize
    ensures WriteAt(WriteAt(PlacedImage(sp), Layout(sp).pld, PldBytes(sp.Pld)), 0, CmnHdrBytes(BuiltHdr(sp)))[..WireLen(sp)]
            == Wire(sp)
  {
    L4WiredUnder(sp, CmnHdrBytes(BuiltHdr(sp)));
    L4WireParts(sp);
  }

  /** L4Wired for any common header `h2` written last. */
  lemma {:induction false} L4WiredUnder(sp: ScnPkt, h2: seq<byte>)
    requires sp.WellFormed() && sp.L4.Some? && WireLen(sp) <= PktBufSize && |h2| == CmnHdrLen
    ensures WriteAt(WriteAt(PlacedImage(sp), Layout(sp).pld, PldBytes(sp.Pld)), 0, h2)[..WireLen(sp)]
            == h2 + AddrPathWire(sp) + (ChainWire(Chain(sp), sp.L4.value.Type) + (sp.L4.value.Hdr + PldBytes(sp.Pld)))
  {
    var cs, hl, h := Chain(sp), HdrLen(sp), sp.L4.value;
    var w := h2 + AddrPathWire(sp) + (ChainWire(cs, h.Type) + (h.Hdr + PldBytes(sp.Pld)));
    L4WireParts(sp);
    HdrImageSlice(sp);
    PlacedImageIs(sp);
    L4ImageIs(HdrImage(sp), hl, cs, h.Hdr, h.Type, CmnHdrBytes(PlacedHdr(sp)), PldBytes(sp.Pld), h2,
              AddrPathWire(sp), w, PlacedImage(sp), Layout(sp).pld, WireLen(sp));
  }

  /** The buffer before the payload, written out. */
  lemma {:induction false} PlacedImageIs(sp: ScnPkt)
    requires sp.WellFormed() && sp.L4.Some? && WireLen(sp) <= PktBufSize
    ensures var cs, hl, h := Chain(sp), HdrLen(sp), sp.L4.value;
      hl + ChainLen(cs) + |h.Hdr| + PldLen(sp.Pld) <= PktBufSize &&
      PlacedImage(sp) == WriteAt(Patch(WriteAt(ChainImage(HdrImage(sp), hl, cs), hl + ChainLen(cs), h.Hdr),
                                       LastSlot(cs, hl), h.Type), 0, CmnHdrBytes(PlacedHdr(sp)))
  {
  }

  /** The wire image of a packet with an L4 header, section by section, and
      where its payload starts. */
  lemma {:induction false} L4WireParts(sp: ScnPkt)
    requires sp.WellFormed() && sp.L4.Some?
    ensures Wire(sp) == CmnHdrBytes(BuiltHdr(sp)) + AddrPathWire(sp) +
      (ChainWire(Chain(sp), sp.L4.value.Type) + (sp.L4.value.Hdr + PldBytes(sp.Pld)))
    ensures Layout(sp).pld == HdrLen(sp) + ChainLen(Chain(sp)) + |sp.L4.value.Hdr|
  {
  }

  /** The buffer `FinishNoL4` leaves: the chain image with the built common
      header over it; its slice up to the wire length is the wire image. */
  lemma {:induction false} NoL4Wired(sp: ScnPkt)
    requires sp.WellFormed() && sp.L4.None? && WireLen(sp) <= PktBufSize
    ensures var cs, hl := Chain(sp), HdrLen(sp);
      WriteAt(ChainImage(HdrImage(sp), hl, cs), 0, CmnHdrBytes(BuiltHdr(sp)))[..WireLen(sp)] == Wire(sp)
  {
    var cs, hl := Chain(sp), HdrLen(sp);
    LayoutOrder(sp);
    FinishImageNoL4(HdrImage(sp), hl, ChainWire(cs, L4None), CmnHdrBytes(BuiltHdr(sp)));
    HdrImageSlice(sp);
  }

  /** The offsets once the header is in place: those of the address section
      and path, and the L4 offset behind the path. */
  function HdrIdxs(sp: ScnPkt): PktIdxs {
    ZeroIdxs.(dstIA := Layout(sp).dstIA, srcIA := Layout(sp).srcIA,
              dstHost := Layout(sp).dstHost, srcHost := Layout(sp).srcHost,
              path := Layout(sp).path, l4 := HdrLen(sp))
  }

  /** The offsets once the header and the extensions are in place: the
      layout's, with the payload offset at the extensions' start. */
  lemma {:induction false} IdxsAfterExtns(sp: ScnPkt, ix0: PktIdxs, ix1: PktIdxs, ix2: PktIdxs)
    requires ix0 == HdrIdxs(sp)
    requires OtherIdxs(ix1) == OtherIdxs(ix0) && ix1.l4 == HdrLen(sp) + ChainLen(Chain(sp))
    requires ix1.hbhExt + ix1.e2eExt == ExtIdxs(Chain(sp), HdrLen(sp)) && |ix1.hbhExt| == |sp.HBHExt|
    requires ix2 == ix1.(pld := HdrLen(sp))
    ensures ix2 == Layout(sp).(pld := HdrLen(sp))
  {
    var ix := ExtIdxs(Chain(sp), HdrLen(sp));
    assert ix1.hbhExt == ix[..|sp.HBHExt|] && ix1.e2eExt == ix[|sp.HBHExt|..];
  }

  /** The common header once the extensions are in place: the initial one
      naming the first extension, if any. */
  lemma {:induction false} HdrAfterExtns(sp: ScnPkt, h0: CmnHdr, h1: CmnHdr)
    requires h0 == InitHdr(sp) && OtherHdr(h1) == OtherHdr(h0)
    requires h1.NextHdr == (if |Chain(sp)| == 0 then L4None else Chain(sp)[0].Class)
    ensures h1 == InitHdr(sp).(NextHdr := if |Chain(sp)| == 0 then L4None else Chain(sp)[0].Class)
  {
  }

  /** `RtrPktFromScnPkt`: a new packet laid out from `sp` on its way out of
      the router; it is built exactly when `sp` fits the buffer, and a
      capacity error says that it does not. */
  method RtrPktFromScnPkt(sp: ScnPkt, dirTo: Dir, ctx: Ctx) returns (r: Result<RtrPkt, PktError>)
    requires sp.WellFormed() && HdrLen(sp) <= PktBufSize
    ensures r.Ok? <==> WireLen(sp) <= PktBufSize
    ensures r.Err? ==> r.error == CapacityError
    ensures r.Ok? ==> fresh(r.value) && fresh(r.value.Raw) && r.value.Built(sp)
    ensures r.Ok? ==> r.value.DirFrom == DirSelf && r.value.DirTo == dirTo && r.value.Ctx == ctx
    ensures r.Ok? ==> r.value.Egress == [] && r.value.pathIncs == 0
  {
    var rp := new RtrPkt();
    rp.Ctx := ctx;
    rp.DirFrom := DirSelf;
    rp.DirTo := dirTo;
    var err := rp.Build(sp);
    if err.Some? {
      return Err(err.value);
    }
    return Ok(rp);
  }

  /** A packet whose path pointers sit on line boundaries inside a
      non-empty path and whose header is short enough for the 8-bit header
      length field. */
  predicate Canonical(sp: ScnPkt) {
    HdrLen(sp) < 0x100 * LineLen &&
    (sp.Path.Some? ==>
       var p := sp.Path.value;
       0 < |p.Raw| && p.InfOff % LineLen == 0 && p.HopOff % LineLen == 0 &&
       p.InfOff < |p.Raw| && p.HopOff < |p.Raw|)
  }

  /** `sp` as it stands once laid out: its L4 header records the payload
      length, and a payload is only there behind an L4 header. */
  function Delivered(sp: ScnPkt): ScnPkt {
    sp.(L4 := UpdateL4(sp.L4, PldLen(sp.Pld)), Pld := if sp.L4.Some? then sp.Pld else None)
  }

  /** The path section of a slice `raw` whose header is `h`, from the path
      offset to the end of the header, with the info and hop pointers made
      relative to it: a header end outside the slice or before the path
      offset is a format error, an empty section is no path. */
  function ReadPath(raw: seq<byte>, h: CmnHdr, pathIdx: nat): (r: Result<Option<Path>, PktError>)
    ensures r.Err? <==> !(pathIdx <= h.HdrLen as nat * LineLen <= |raw|)
    ensures r.Ok? && r.value.Some? ==> r.value.value.Raw == raw[pathIdx..h.HdrLen as nat * LineLen] && |r.value.value.Raw| > 0
  {
    var end := h.HdrLen as nat * LineLen;
    if end < pathIdx || end > |raw| then Err(FormatError)
    else if end == pathIdx then Ok(None)
    else Ok(Some(Path(raw[pathIdx..end], Behind(h.CurrInfoF as nat * LineLen, pathIdx),
                      Behind(h.CurrHopF as nat * LineLen, pathIdx))))
  }

  /** The path section of a laid-out canonical packet reads back as its
      path. */
  lemma {:induction false} PathOfWire(sp: ScnPkt)
    requires sp.WellFormed() && Canonical(sp)
    ensures ReadPath(Wire(sp), BuiltHdr(sp), Layout(sp).path) == Ok(sp.Path)
  {
    HdrPointers(sp);
    PathSlice(sp);
    PathBack(Wire(sp), BuiltHdr(sp), Layout(sp).path, HdrLen(sp), sp.Path);
  }

  /** The header length and the info and hop pointers of a laid-out
      canonical packet are exact. */
  lemma {:induction false} HdrPointers(sp: ScnPkt)
    requires sp.WellFormed() && Canonical(sp)
    ensures var h, path := BuiltHdr(sp), Layout(sp).path;
      h.HdrLen as nat * LineLen == HdrLen(sp) &&
      (sp.Path.Some? ==> h.CurrInfoF as nat * LineLen == path + sp.Path.value.InfOff &&
                         h.CurrHopF as nat * LineLen == path + sp.Path.value.HopOff)
  {
    var path := Layout(sp).path;
    LayoutAligned(sp);
    LineFieldExact(HdrLen(sp));
    if sp.Path.Some? {
      var p := sp.Path.value;
      PointerExact(path, p.InfOff, HdrLen(sp));
      PointerExact(path, p.HopOff, HdrLen(sp));
    }
  }

  /** The path section of a laid-out packet holds the path's bytes. */
  lemma {:induction false} PathSlice(sp: ScnPkt)
    requires sp.WellFormed()
    ensures Layout(sp).path <= HdrLen(sp) <= |Wire(sp)|
    ensures Wire(sp)[Layout(sp).path..HdrLen(sp)] == (if sp.Path.Some? then sp.Path.value.Raw else [])
  {
    LayoutOrder(sp);
    WireSections(sp);
  }

  /** A line-aligned offset into a line-aligned path inside a header of
      fewer than 256 lines survives the 8-bit pointer field. */
  lemma {:induction false} PointerExact(path: nat, off: nat, end: nat)
    requires path % LineLen == 0 && off % LineLen == 0 && path + off < end < 0x100 * LineLen
    ensures LineField(path + off) as nat * LineLen == path + off
  {
    assert path + off == LineLen * (path / LineLen + off / LineLen);
    LineFieldExact(path + off);
  }

  /** A path section holding the bytes of `p`, with the header's pointers
      `p`'s offsets past the path offset, reads back as `p`. */
  lemma {:induction false} PathBack(raw: seq<byte>, h: CmnHdr, pathIdx: nat, end: nat, p: Option<Path>)
    requires h.HdrLen as nat * LineLen == end && pathIdx <= end <= |raw|
    requires raw[pathIdx..end] == (if p.Some? then p.value.Raw else [])
    requires p.Some? ==> 0 < |p.value.Raw| && h.CurrInfoF as nat * LineLen == pathIdx + p.value.InfOff &&
                         h.CurrHopF as nat * LineLen == pathIdx + p.value.HopOff
    ensures ReadPath(raw, h, pathIdx) == Ok(p)
  {
  }

  /** How far `p` lies behind `base`, 0 when it lies before it. */
  function Behind(p: nat, base: nat): nat {
    if p >= base then p - base else 0
  }

  /** The header has a path section: it ends behind the path offset. */
  predicate HasPath(h: CmnHdr, pathIdx: nat) {
    pathIdx < h.HdrLen as nat * LineLen
  }

  /** How many times the reply laid out from `sp` advances its path, or the
      error that stops it: none when it is bound for the local IA, else as
      IncPathCount says for the hop field it starts at; a packet without a
      path cannot be advanced. */
  function ReplyIncs(sp: ScnPkt, local: IA, incremented: bool, dirFrom: Dir): (r: Result<nat, PktError>)
    requires sp.WellFormed()
    ensures sp.DstIA == local ==> r == Ok(0)
    ensures r.Ok? ==> r.value <= 2
    ensures r.Ok? && r.value > 0 ==> HasPath(BuiltHdr(sp), Layout(sp).path)
    ensures r.Err? ==> sp.DstIA != local
  {
    if sp.DstIA == local then Ok(0)
    else
      match HopAt(Wire(sp), BuiltHdr(sp), Layout(sp).path)
      case Err(e) => Err(e)
      case Ok(hop) =>
        var n := IncPathCount(hop, incremented, dirFrom);
        if n > 0 && !HasPath(BuiltHdr(sp), Layout(sp).path) then Err(PathError) else Ok(n)
  }
}
