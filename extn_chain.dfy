/** Adding extension headers to a packet buffer one after the other: the
    fields involved, the step on them, and the state the steps reach. */
module ExtnChain {
  import opened Wrappers
  import opened Addr
  import opened Spkt
  import opened RawBuf

  /** The fields of a packet that adding an extension reads and writes: the
      buffer, the L4 offset, the next-header slots recorded so far (the
      hop-by-hop ones followed by the end-to-end ones) and the common
      header's next-header field. */
  datatype ExtnFields = ExtnFields(raw: seq<byte>, l4: nat, idx: seq<ExtnIdx>, next: byte)

  /** The slot of the last recorded extension, if any. */
  function LastIdx(idx: seq<ExtnIdx>): Option<nat> {
    if |idx| == 0 then None else Some(idx[|idx| - 1].Index)
  }

  /** The last slot of the two lists is the last of the hop-by-hop slots
      followed by the end-to-end ones. */
  lemma {:induction false} LastIdxOfLists(hbh: seq<ExtnIdx>, e2e: seq<ExtnIdx>)
    ensures LastExtnSlot(hbh, e2e) == LastIdx(hbh + e2e)
  {
    if |e2e| == 0 {
      assert hbh + e2e == hbh;
    }
  }

  /** `extnAddHBH` / `extnAddE2E` on the fields: the extension is written at
      the L4 offset with nothing following it, the previous last extension
      (or the common header, for the first one) names its class, its slot
      is recorded and the L4 offset moves behind it; None when the buffer
      has no room for it. */
  function AddExtn(x: ChainExt, f: ExtnFields): (g: Option<ExtnFields>)
    ensures g.Some? <==> f.l4 + ExtnLen(x.E) <= |f.raw|
    ensures g.Some? ==> |g.value.raw| == |f.raw|
  {
    var slot := LastIdx(f.idx);
    var end := f.l4 + ExtnLen(x.E);
    if end > |f.raw| then None
    else
      var raw := WriteAt(Patch(f.raw, slot, x.Class), f.l4, ExtnWire(x.E, L4None));
      Some(ExtnFields(raw, end, f.idx + [ExtnIdx(x.E.Type, f.l4)], if slot.None? then x.Class else f.next))
  }

  /** The fields after the first `k` extensions of `all` were added one by
      one from `f0`, or None once one did not fit. */
  function AddExtns(all: seq<ChainExt>, k: nat, f0: ExtnFields): (g: Option<ExtnFields>)
    requires k <= |all|
    ensures g.Some? ==> |g.value.raw| == |f0.raw|
    decreases k
  {
    if k == 0 then Some(f0)
    else
      match AddExtns(all, k - 1, f0)
      case None => None
      case Some(f) => AddExtn(all[k - 1], f)
  }

  /** The extension loops of one packet: the chain `all` written into a
      buffer that held `img0` from offset `h`, with `n0` the common header's
      next-header field before the first extension. */
  datatype ChainRun = ChainRun(all: seq<ChainExt>, img0: seq<byte>, h: nat, n0: byte)

  /** The first `k` extensions of the run were added: the buffer holds
      `img0` with them written at `h`, the L4 offset lies behind them, their
      slots are recorded and the common header names the first one. */
  ghost predicate ChainState(r: ChainRun, k: nat, f: ExtnFields) {
    k <= |r.all| && |r.img0| == |f.raw| && r.h + ChainLen(r.all[..k]) <= |f.raw| &&
    f.raw == ChainImage(r.img0, r.h, r.all[..k]) &&
    f.l4 == r.h + ChainLen(r.all[..k]) &&
    f.idx == ExtIdxs(r.all[..k], r.h) &&
    f.next == (if k == 0 then r.n0 else r.all[0].Class)
  }

  /** Adding the `k`th extension (counting from one) moves the state from
      `k - 1` to `k`. */
  lemma {:induction false} ChainStateStep(r: ChainRun, k: nat, f: ExtnFields, g: ExtnFields)
    requires 0 < k <= |r.all| && ChainState(r, k - 1, f)
    requires AddExtn(r.all[k - 1], f) == Some(g)
    ensures ChainState(r, k, g)
  {
    var cs, x := r.all[..k - 1], r.all[k - 1];
    assert r.all[..k] == cs + [x];
    ChainAppend(cs, x, r.h, L4None);
    ExtStep(r.img0, r.h, cs, x);
    assert LastIdx(f.idx) == LastSlot(cs, r.h);
  }

  /** The `k`th step of AddExtns, from fields in the state of the first
      `k - 1` extensions: it succeeds exactly when the chain up to the `k`th
      extension fits behind `h`, and then reaches the state of the first
      `k`. */
  lemma {:induction false} AddExtnsStep(r: ChainRun, k: nat, f0: ExtnFields, f: ExtnFields)
    requires 0 < k <= |r.all|
    requires AddExtns(r.all, k - 1, f0) == Some(f) && ChainState(r, k - 1, f)
    ensures AddExtns(r.all, k, f0).Some? <==> r.h + ChainLen(r.all[..k]) <= |f0.raw|
    ensures AddExtns(r.all, k, f0).Some? ==> ChainState(r, k, AddExtns(r.all, k, f0).value)
  {
    var cs, x := r.all[..k - 1], r.all[k - 1];
    assert r.all[..k] == cs + [x];
    ChainAppend(cs, x, r.h, L4None);
    var g := AddExtn(x, f);
    assert AddExtns(r.all, k, f0) == g;
    if g.Some? {
      ChainStateStep(r, k, f, g.value);
    }
  }

  /** Adding the extensions one by one succeeds exactly when the chain up
      to the `k`th fits behind `h`, and then leaves the state ChainState
      describes. */
  lemma {:induction false} AddExtnsState(r: ChainRun, k: nat, f0: ExtnFields)
    requires k <= |r.all| && ChainState(r, 0, f0)
    ensures AddExtns(r.all, k, f0).Some? <==> r.h + ChainLen(r.all[..k]) <= |f0.raw|
    ensures AddExtns(r.all, k, f0).Some? ==> ChainState(r, k, AddExtns(r.all, k, f0).value)
    decreases k
  {
    if k > 0 {
      AddExtnsState(r, k - 1, f0);
      if AddExtns(r.all, k - 1, f0).Some? {
        AddExtnsStep(r, k, f0, AddExtns(r.all, k - 1, f0).value);
      } else {
        assert r.all[..k] == r.all[..k - 1] + [r.all[k - 1]];
        ChainAppend(r.all[..k - 1], r.all[k - 1], r.h, L4None);
      }
    }
  }

  /** One more step of AddExtns is AddExtn on the fields so far. */
  lemma {:induction false} AddExtnsNext(all: seq<ChainExt>, k: nat, f0: ExtnFields, f: ExtnFields)
    requires k < |all| && AddExtns(all, k, f0) == Some(f)
    ensures AddExtns(all, k + 1, f0) == AddExtn(all[k], f)
  {
  }

  /** Once an extension did not fit, none of the later steps succeed. */
  lemma {:induction false} AddExtnsStaysNone(all: seq<ChainExt>, k: nat, n: nat, f0: ExtnFields)
    requires k <= n <= |all| && AddExtns(all, k, f0).None?
    ensures AddExtns(all, n, f0).None?
    decreases n
  {
    if n > k {
      AddExtnsStaysNone(all, k, n - 1, f0);
    }
  }

  /** Before the first extension: nothing added, the chain starts at the L4
      offset. */
  lemma {:induction false} ChainStateStart(r: ChainRun, f: ExtnFields)
    requires r.img0 == f.raw && r.h == f.l4 && r.n0 == f.next && r.h <= |f.raw| && f.idx == []
    ensures ChainState(r, 0, f)
  {
    assert r.all[..0] == [];
    WriteAtDef(f.raw, f.l4, []);
  }

  /** After the last extension: the whole chain is in place. */
  lemma {:induction false} ChainStateEnd(r: ChainRun, f: ExtnFields)
    requires ChainState(r, |r.all|, f)
    ensures r.h + ChainLen(r.all) <= |f.raw| && f.raw == ChainImage(r.img0, r.h, r.all)
    ensures f.l4 == r.h + ChainLen(r.all) && f.idx == ExtIdxs(r.all, r.h)
    ensures f.next == (if |r.all| == 0 then r.n0 else r.all[0].Class)
  {
    assert r.all[..|r.all|] == r.all;
  }

  /** The extension lists of a packet and how many slots of each class are
      recorded. */
  datatype ExtnLists = ExtnLists(hbh: seq<Extn>, e2e: seq<Extn>, nh: nat, ne: nat)

  /** The lists after `es` were added as extensions of class `cls`. */
  function ListsAfter(l: ExtnLists, cls: byte, es: seq<Extn>): ExtnLists {
    if cls == HopByHopClass then l.(hbh := l.hbh + es, nh := l.nh + |es|)
    else l.(e2e := l.e2e + es, ne := l.ne + |es|)
  }

  /** Adding one more extension of the class extends the lists by it. */
  lemma {:induction false} ListsAfterNext(l: ExtnLists, cls: byte, es: seq<Extn>, j: nat)
    requires j < |es|
    ensures ListsAfter(l, cls, es[..j + 1]) == ListsAfter(ListsAfter(l, cls, es[..j]), cls, [es[j]])
  {
    assert es[..j + 1] == es[..j] + [es[j]];
  }

  /** The offsets with the L4 offset and the extension slots cleared: what
      adding extensions leaves alone. */
  function OtherIdxs(ix: PktIdxs): PktIdxs {
    ix.(l4 := 0, hbhExt := [], e2eExt := [])
  }

  /** The common header with the next-header field cleared. */
  function OtherHdr(h: CmnHdr): CmnHdr {
    h.(NextHdr := 0)
  }
}
