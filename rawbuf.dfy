/** Byte images of the border router's packet buffer: writing a section
    over a buffer, patching one byte, and the images the construction steps
    of a packet leave behind. */
module RawBuf {
  import opened Wrappers
  import opened Addr
  import opened Spkt

  /** The capacity of every packet buffer. */
  const PktBufSize: nat := 9 * 1024

  // ---------------------------------------------------------------------
  // Writing into the buffer

  /** `b` written over `s` at `off`, one byte after the other. */
  function WriteAt(s: seq<byte>, off: nat, b: seq<byte>): (r: seq<byte>)
    requires off + |b| <= |s|
    ensures |r| == |s|
    decreases |b|
  {
    if |b| == 0 then s else WriteAt(s[off := b[0]], off + 1, b[1..])
  }

  /** The written bytes replace exactly the bytes they cover. */
  lemma {:induction false} WriteAtDef(s: seq<byte>, off: nat, b: seq<byte>)
    requires off + |b| <= |s|
    ensures WriteAt(s, off, b) == s[..off] + b + s[off + |b|..]
    decreases |b|
  {
    if b != [] {
      var t := s[off := b[0]];
      WriteAtDef(t, off + 1, b[1..]);
      assert t[..off + 1] == s[..off] + [b[0]];
      assert t[off + |b|..] == s[off + |b|..];
      assert [b[0]] + b[1..] == b;
    }
  }

  /** `s` with the byte at `slot` set to `v`, when there is a slot inside
      `s`. */
  function Patch(s: seq<byte>, slot: Option<nat>, v: byte): (r: seq<byte>)
    ensures |r| == |s|
  {
    if slot.Some? && slot.value < |s| then s[slot.value := v] else s
  }

  /** A slot inside the buffer is set. */
  lemma {:induction false} PatchInside(s: seq<byte>, k: nat, v: byte)
    requires k < |s|
    ensures Patch(s, Some(k), v) == s[k := v]
  {
  }

  /** `copy(a[off:], b)` where the destination has room for all of `b`. */
  method Put(a: array<byte>, off: nat, b: seq<byte>)
    requires off + |b| <= a.Length
    modifies a
    ensures a[..] == WriteAt(old(a[..]), off, b)
  {
    var i := 0;
    while i < |b|
      invariant 0 <= i <= |b|
      invariant forall j :: 0 <= j < a.Length ==> a[j] == (if off <= j < off + i then b[j - off] else old(a[j]))
    {
      a[off + i] := b[i];
      i := i + 1;
    }
    WriteAtDef(old(a[..]), off, b);
    assert forall j :: 0 <= j < a.Length ==> a[..][j] == WriteAt(old(a[..]), off, b)[j];
  }

  /** A write leaves the bytes around it alone. */
  lemma {:induction false} WriteAtParts(s: seq<byte>, off: nat, b: seq<byte>)
    requires off + |b| <= |s|
    ensures WriteAt(s, off, b)[off..off + |b|] == b
    ensures WriteAt(s, off, b)[..off] == s[..off]
    ensures WriteAt(s, off, b)[off + |b|..] == s[off + |b|..]
  {
    WriteAtDef(s, off, b);
  }

  /** Two writes side by side are one write of both. */
  lemma {:induction false} WriteAtAdjacent(s: seq<byte>, o: nat, x: seq<byte>, y: seq<byte>)
    requires o + |x| + |y| <= |s|
    ensures WriteAt(WriteAt(s, o, x), o + |x|, y) == WriteAt(s, o, x + y)
  {
    var t := WriteAt(s, o, x);
    WriteAtParts(s, o, x);
    WriteAtDef(t, o + |x|, y);
    WriteAtDef(s, o, x + y);
    assert t[..o + |x|] == s[..o] + x;
    assert t[o + |x| + |y|..] == s[o + |x| + |y|..];
  }

  /** Writing over zeros with zeros changes nothing. */
  lemma {:induction false} WriteAtZeros(s: seq<byte>, o: nat, x: seq<byte>, k: nat)
    requires o + |x| + k <= |s|
    requires s[o + |x|..o + |x| + k] == Zeros(k)
    ensures WriteAt(s, o, x) == WriteAt(s, o, x + Zeros(k))
  {
    WriteAtDef(s, o, x);
    WriteAtDef(s, o, x + Zeros(k));
    var t := s[o + |x|..];
    assert t == Zeros(k) + s[o + |x| + k..];
  }

  /** The written bytes and what precedes them. */
  lemma {:induction false} WriteAtPrefix(s: seq<byte>, o: nat, b: seq<byte>)
    requires o + |b| <= |s|
    ensures WriteAt(s, o, b)[..o + |b|] == s[..o] + b
  {
    WriteAtDef(s, o, b);
  }

  /** A write that ends before `n` and starts at 0 replaces the head of the
      first `n` bytes. */
  lemma {:induction false} WriteHeadPrefix(s: seq<byte>, h: seq<byte>, n: nat)
    requires |h| <= n <= |s|
    ensures WriteAt(s, 0, h)[..n] == h + s[|h|..n]
  {
    WriteAtDef(s, 0, h);
  }

  // ---------------------------------------------------------------------
  // Buffer images of the construction steps

  /** A fresh buffer after the address section and path are written. */
  function HdrImage(sp: ScnPkt): (b: seq<byte>)
    requires sp.WellFormed() && HdrLen(sp) <= PktBufSize
    ensures |b| == PktBufSize
  {
    WriteAt(Zeros(PktBufSize), CmnHdrLen, AddrPathWire(sp))
  }

  /** `img` with the extension chain `cs` written at `h`, the last extension
      saying that nothing follows. */
  function ChainImage(img: seq<byte>, h: nat, cs: seq<ChainExt>): (b: seq<byte>)
    requires h + ChainLen(cs) <= |img|
    ensures |b| == |img|
  {
    WriteAt(img, h, ChainWire(cs, L4None))
  }

  /** The five writes of the address section and path, in the order
      `RtrPktFromScnPkt` makes them, over the buffer `z`. */
  function AddrPathWrites(z: seq<byte>, sp: ScnPkt): (b: seq<byte>)
    requires sp.WellFormed() && HdrLen(sp) <= |z|
    ensures |b| == |z|
  {
    var s1 := WriteAt(z, CmnHdrLen, IAWire(sp.DstIA));
    var s2 := WriteAt(s1, CmnHdrLen + IABytes, IAWire(sp.SrcIA));
    var s3 := WriteAt(s2, CmnHdrLen + 2 * IABytes, sp.DstHost.Raw);
    var s4 := WriteAt(s3, CmnHdrLen + 2 * IABytes + |sp.DstHost.Raw|, sp.SrcHost.Raw);
    if sp.Path.Some? then WriteAt(s4, CmnHdrLen + AddrLen(sp), sp.Path.value.Raw) else s4
  }

  /** Over a fresh buffer, the five writes produce HdrImage: the padding
      between the address section and the path keeps the buffer's zeros. */
  lemma {:induction false} HdrWrites(sp: ScnPkt)
    requires sp.WellFormed() && HdrLen(sp) <= PktBufSize
    ensures AddrPathWrites(Zeros(PktBufSize), sp) == HdrImage(sp)
  {
    var n := 2 * IABytes + sp.DstHost.Size() + sp.SrcHost.Size();
    var pad := Zeros(CalcPadding(n, LineLen));
    var p := if sp.Path.Some? then sp.Path.value.Raw else [];
    SectionWrites(Zeros(PktBufSize), CmnHdrLen, IAWire(sp.DstIA), IAWire(sp.SrcIA),
      sp.DstHost.Raw, sp.SrcHost.Raw, pad, p);
  }

  /** Four sections written back to back over zeros, then a fifth after a
      gap of zeros, is one write of all of them with the gap. */
  lemma {:induction false} SectionWrites(z: seq<byte>, o: nat, d: seq<byte>, s: seq<byte>, dh: seq<byte>, sh: seq<byte>,
                      pad: seq<byte>, p: seq<byte>)
    requires o + |d| + |s| + |dh| + |sh| + |pad| + |p| <= |z|
    requires pad == Zeros(|pad|)
    requires forall i :: 0 <= i < |z| ==> z[i] == 0
    ensures var s1 := WriteAt(z, o, d);
      var s2 := WriteAt(s1, o + |d|, s);
      var s3 := WriteAt(s2, o + |d| + |s|, dh);
      var s4 := WriteAt(s3, o + |d| + |s| + |dh|, sh);
      var a := |d| + |s| + |dh| + |sh|;
      (if p == [] then s4 else WriteAt(s4, o + a + |pad|, p)) == WriteAt(z, o, d + (s + (dh + (sh + (pad + p)))))
  {
    WriteAtAdjacent(z, o, d, s);
    WriteAtAdjacent(z, o, d + s, dh);
    WriteAtAdjacent(z, o, d + s + dh, sh);
    var a := d + s + dh + sh;
    assert z[o + |a|..o + |a| + |pad|] == Zeros(|pad|);
    WriteAtZeros(z, o, a, |pad|);
    WriteAtAdjacent(z, o, a + pad, p);
    assert a + pad + p == d + (s + (dh + (sh + (pad + p))));
    if p == [] {
      assert a + pad + p == a + pad;
    }
  }

  /** Adding one extension to the image: the previous last extension (or
      nothing, for the first) gets the new class as next header and the new
      extension is written at the chain's end. */
  lemma {:induction false} ExtStep(img: seq<byte>, h: nat, cs: seq<ChainExt>, x: ChainExt)
    requires h + ChainLen(cs + [x]) <= |img|
    ensures ChainLen(cs + [x]) == ChainLen(cs) + ExtnLen(x.E)
    ensures LastSlot(cs, h).Some? ==> h <= LastSlot(cs, h).value < h + ChainLen(cs)
    ensures WriteAt(Patch(ChainImage(img, h, cs), LastSlot(cs, h), x.Class), h + ChainLen(cs), ExtnWire(x.E, L4None))
            == ChainImage(img, h, cs + [x])
  {
    ChainAppend(cs, x, h, L4None);
    var cw := ChainWire(cs, L4None);
    var cwp := ChainWire(cs, x.Class);
    var ew := ExtnWire(x.E, L4None);
    if |cs| > 0 {
      LastSlotPatch(cs, h, L4None, x.Class);
      PatchThenAppend(img, h, cw, Some(LastSlot(cs, h).value - h), x.Class, cwp, ew);
    } else {
      PatchThenAppend(img, h, cw, None, x.Class, cwp, ew);
    }
  }

  /** Patching one byte of a written section and writing another section
      right behind it is one write of the patched section and the new one. */
  lemma {:induction false} PatchThenAppend(img: seq<byte>, h: nat, cw: seq<byte>, k: Option<nat>, c: byte, cwp: seq<byte>, ew: seq<byte>)
    requires h + |cw| + |ew| <= |img|
    requires k.Some? ==> k.value < |cw| && cw[k.value := c] == cwp
    requires k.None? ==> cw == cwp
    ensures var slot := if k.Some? then Some(h + k.value) else None;
      WriteAt(Patch(WriteAt(img, h, cw), slot, c), h + |cw|, ew) == WriteAt(img, h, cwp + ew)
  {
    if k.Some? {
      WriteAtUpdate(img, h, cw, k.value, c);
    }
    WriteAtAdjacent(img, h, cwp, ew);
  }

  /** Setting one byte of a written section is writing the section with that
      byte set. */
  lemma {:induction false} WriteAtUpdate(s: seq<byte>, o: nat, b: seq<byte>, k: nat, v: byte)
    requires o + |b| <= |s| && k < |b|
    ensures WriteAt(s, o, b)[o + k := v] == WriteAt(s, o, b[k := v])
  {
    var l := WriteAt(s, o, b)[o + k := v];
    var r := WriteAt(s, o, b[k := v]);
    WriteAtDef(s, o, b);
    WriteAtDef(s, o, b[k := v]);
    assert forall i :: 0 <= i < |s| ==> l[i] == r[i];
  }

  /** Setting one byte of a written section after writing another section
      behind it is one write of the patched section and the other one. */
  lemma {:induction false} PatchBeforeAppend(img: seq<byte>, h: nat, cw: seq<byte>, slot: nat, c: byte, cwp: seq<byte>, hdr: seq<byte>)
    requires h + |cw| + |hdr| <= |img|
    requires h <= slot < h + |cw| && cw[slot - h := c] == cwp
    ensures WriteAt(WriteAt(img, h, cw), h + |cw|, hdr)[slot := c] == WriteAt(img, h, cwp + hdr)
  {
    var k := slot - h;
    WriteAtAdjacent(img, h, cw, hdr);
    WriteAtUpdate(img, h, cw + hdr, k, c);
    UpdateAppend(cw, hdr, k, c);
  }

  /** Setting a byte of the front part of a concatenation. */
  lemma {:induction false} UpdateAppend(a: seq<byte>, b: seq<byte>, k: nat, v: byte)
    requires k < |a|
    ensures (a + b)[k := v] == a[k := v] + b
  {
  }

  /** After the body is written at `h`, the common header written twice at
      the front and the payload written behind the body, the buffer begins
      with the second header, the bytes between the header and `h`, the body
      and the payload. */
  lemma {:induction false} FinishImage(img: seq<byte>, h: nat, body: seq<byte>, h1: seq<byte>, p: seq<byte>, h2: seq<byte>)
    requires CmnHdrLen <= h && h + |body| + |p| <= |img|
    requires |h1| == CmnHdrLen && |h2| == CmnHdrLen
    ensures var s1 := WriteAt(WriteAt(img, h, body), 0, h1);
      WriteAt(WriteAt(s1, h + |body|, p), 0, h2)[..h + |body| + |p|] == h2 + img[CmnHdrLen..h] + body + p
  {
    var s0 := WriteAt(img, h, body);
    WriteAtPrefix(img, h, body);
    var s1 := WriteAt(s0, 0, h1);
    WriteHeadPrefix(s0, h1, h + |body|);
    assert s0[CmnHdrLen..h + |body|] == img[CmnHdrLen..h] + body;
    var s2 := WriteAt(s1, h + |body|, p);
    WriteAtPrefix(s1, h + |body|, p);
    assert s2[..h + |body| + |p|] == h1 + img[CmnHdrLen..h] + body + p;
    assert s2[CmnHdrLen..h + |body| + |p|] == s2[..h + |body| + |p|][CmnHdrLen..];
    assert s2[CmnHdrLen..h + |body| + |p|] == img[CmnHdrLen..h] + body + p;
    WriteHeadPrefix(s2, h2, h + |body| + |p|);
  }

  /** Without an L4 header: the body written at `h` and the common header
      written at the front. */
  lemma {:induction false} FinishImageNoL4(img: seq<byte>, h: nat, body: seq<byte>, h2: seq<byte>)
    requires CmnHdrLen <= h && h + |body| <= |img| && |h2| == CmnHdrLen
    ensures WriteAt(WriteAt(img, h, body), 0, h2)[..h + |body|] == h2 + img[CmnHdrLen..h] + body
  {
    WriteAtPrefix(img, h, body);
    WriteHeadPrefix(WriteAt(img, h, body), h2, h + |body|);
  }

  /** Of a fresh buffer with the address section and path written, the bytes
      between the common header and the extensions are exactly those. */
  lemma {:induction false} HdrImageSlice(sp: ScnPkt)
    requires sp.WellFormed() && HdrLen(sp) <= PktBufSize
    ensures HdrImage(sp)[CmnHdrLen..HdrLen(sp)] == AddrPathWire(sp)
  {
    WriteAtDef(Zeros(PktBufSize), CmnHdrLen, AddrPathWire(sp));
  }

  /** The buffer of a packet with an L4 header: over the extension chain
      written at `h`, the L4 header written behind the chain, the last
      extension (if any) naming the protocol `t`, the common header written,
      then the payload behind the L4 header and the common header written
      again. The slice up to the payload's end is the second header, the
      bytes before `h`, the chain ending in `t`, the L4 header and the
      payload. */
  lemma {:induction false} L4Image(img: seq<byte>, h: nat, cs: seq<ChainExt>, hdr: seq<byte>, t: byte,
                h1: seq<byte>, p: seq<byte>, h2: seq<byte>)
    requires CmnHdrLen <= h && h + ChainLen(cs) + |hdr| + |p| <= |img|
    requires |h1| == CmnHdrLen && |h2| == CmnHdrLen
    ensures var l := h + ChainLen(cs);
      var s1 := WriteAt(Patch(WriteAt(ChainImage(img, h, cs), l, hdr), LastSlot(cs, h), t), 0, h1);
      WriteAt(WriteAt(s1, l + |hdr|, p), 0, h2)[..l + |hdr| + |p|] ==
        h2 + img[CmnHdrLen..h] + (ChainWire(cs, t) + (hdr + p))
  {
    var cwp := ChainWire(cs, t);
    L4Body(img, h, cs, hdr, t);
    FinishImage(img, h, cwp + hdr, h1, p, h2);
    assert cwp + hdr + p == cwp + (hdr + p);
  }

  /** L4Image with the bytes before `h`, the buffer before the payload,
      the payload offset and the whole slice named. */
  lemma {:induction false} L4ImageIs(img: seq<byte>, h: nat, cs: seq<ChainExt>, hdr: seq<byte>, t: byte,
                h1: seq<byte>, p: seq<byte>, h2: seq<byte>, head: seq<byte>, w: seq<byte>,
                s1: seq<byte>, pos: nat, n: nat)
    requires CmnHdrLen <= h && h + ChainLen(cs) + |hdr| + |p| <= |img|
    requires |h1| == CmnHdrLen && |h2| == CmnHdrLen
    requires img[CmnHdrLen..h] == head && w == h2 + head + (ChainWire(cs, t) + (hdr + p))
    requires s1 == WriteAt(Patch(WriteAt(ChainImage(img, h, cs), h + ChainLen(cs), hdr), LastSlot(cs, h), t), 0, h1)
    requires pos == h + ChainLen(cs) + |hdr| && n == |w|
    ensures |s1| == |img| && pos + |p| <= |s1|
    ensures WriteAt(WriteAt(s1, pos, p), 0, h2)[..n] == w
  {
    L4Image(img, h, cs, hdr, t, h1, p, h2);
  }

  /** The L4 header written behind the chain and the chain's last
      next-header byte set to `t` is one write of the chain ending in `t`
      and the L4 header. */
  lemma {:induction false} L4Body(img: seq<byte>, h: nat, cs: seq<ChainExt>, hdr: seq<byte>, t: byte)
    requires h + ChainLen(cs) + |hdr| <= |img|
    ensures Patch(WriteAt(ChainImage(img, h, cs), h + ChainLen(cs), hdr), LastSlot(cs, h), t)
            == WriteAt(img, h, ChainWire(cs, t) + hdr)
  {
    var cw := ChainWire(cs, L4None);
    var cwp := ChainWire(cs, t);
    assert ChainImage(img, h, cs) == WriteAt(img, h, cw);
    if |cs| > 0 {
      var slot := LastSlot(cs, h).value;
      LastSlotPatch(cs, h, L4None, t);
      PatchBeforeAppend(img, h, cw, slot, t, cwp, hdr);
      PatchInside(WriteAt(WriteAt(img, h, cw), h + |cw|, hdr), slot, t);
    } else {
      assert cw == [] && cwp == [];
      WriteAtAdjacent(img, h, cw, hdr);
      assert cw + hdr == hdr && cwp + hdr == hdr;
    }
  }

  /** The writes of the address section (both IAs, both hosts) and of the
      path into the buffer, each at its layout offset. */
  method PutAddrPath(a: array<byte>, sp: ScnPkt)
    requires sp.WellFormed() && HdrLen(sp) <= a.Length
    modifies a
    ensures a[..] == AddrPathWrites(old(a[..]), sp)
  {
    var o := CmnHdrLen;
    ghost var s0 := a[..];
    Put(a, o, IAWire(sp.DstIA));
    ghost var s1 := a[..];
    Put(a, o + IABytes, IAWire(sp.SrcIA));
    ghost var s2 := a[..];
    Put(a, o + 2 * IABytes, sp.DstHost.Raw);
    ghost var s3 := a[..];
    Put(a, o + 2 * IABytes + sp.DstHost.Size(), sp.SrcHost.Raw);
    ghost var s4 := a[..];
    assert s4 == WriteAt(WriteAt(WriteAt(WriteAt(s0, o, IAWire(sp.DstIA)), o + IABytes, IAWire(sp.SrcIA)),
      o + 2 * IABytes, sp.DstHost.Raw), o + 2 * IABytes + sp.DstHost.Size(), sp.SrcHost.Raw);
    if sp.Path.Some? {
      Put(a, o + AddrLen(sp), sp.Path.value.Raw);
    }
  }
}
