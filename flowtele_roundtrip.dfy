/** The path description text read back: what `String` prints, `Set` reads
    into the same lists, and what `Set` reads is always something `String`
    prints faithfully. */
module FlowteleRoundTrip {
  import opened Wrappers
  import opened Addr
  import opened Text
  import opened FlowtelePath

  /** Lists a path description text can hold: an even number, at least
      two, of entries; the in- and out-entry of each intermediate AS carry
      the same IA; every ID an unsigned 64-bit value. */
  predicate Canonical(ias: seq<IA>, ids: seq<nat>) {
    2 <= |ias| == |ids| && |ias| % 2 == 0 &&
    (forall j :: 0 < j < |ias| - 1 && j % 2 == 1 ==> ias[j] == ias[j + 1]) &&
    forall j :: 0 <= j < |ids| ==> ids[j] < IFIDLimit
  }

  // ---------------------------------------------------------------------
  // The printed text is the hops joined by '>'

  /** The words of hop `k` of the `|ts| / 2 + 1` hops that printed IAs
      `ts` and IDs `ds` describe: `IA id` first, `id IA` last, `id IA id`
      in between, with the spaces between them. */
  function HopWords(ts: seq<string>, ds: seq<string>, k: nat): seq<string>
    requires 2 <= |ts| == |ds| && k <= |ts| / 2
  {
    var m := |ts| / 2;
    if k == 0 then [ts[0], " ", ds[0]]
    else if k == m then [ds[2 * m - 1], " ", ts[2 * m - 1]]
    else [ds[2 * (k - 1) + 1], " ", ts[2 * k], " ", ds[2 * k]]
  }

  /** The strings written for the first `j` pairs of positions, an even
      position and the odd one after it. */
  function Pairs(ts: seq<string>, ds: seq<string>, j: nat): seq<string>
    requires 2 * j <= |ts| && 2 * j <= |ds|
  {
    if j == 0 then []
    else Pairs(ts, ds, j - 1) + [ts[2 * (j - 1)], " ", ds[2 * (j - 1)], ">", ds[2 * (j - 1) + 1], " "]
  }

  /** The text of hop `k`. */
  function HopString(ts: seq<string>, ds: seq<string>, k: nat): string
    requires 2 <= |ts| == |ds| && k <= |ts| / 2
  {
    Concat(HopWords(ts, ds, k))
  }

  /** All hop texts, in order. */
  function Hops(ts: seq<string>, ds: seq<string>): (hs: seq<string>)
    requires 2 <= |ts| == |ds|
    ensures |hs| == |ts| / 2 + 1
  {
    seq(|ts| / 2 + 1, k requires 0 <= k < |ts| / 2 + 1 => HopString(ts, ds, k))
  }

  /** The words of the first `j` hops with a `>` between each two. */
  function JoinedHops(ts: seq<string>, ds: seq<string>, j: nat): seq<string>
    requires 2 <= |ts| == |ds| && 1 <= j <= |ts| / 2 + 1
  {
    if j == 1 then HopWords(ts, ds, 0) else JoinedHops(ts, ds, j - 1) + [">"] + HopWords(ts, ds, j - 1)
  }

  /** A builder written `parts` and then `more` holds both texts in turn. */
  lemma {:induction false} ConcatAppend(parts: seq<string>, more: seq<string>)
    ensures Concat(parts + more) == Concat(parts) + Concat(more)
    decreases |more|
  {
    if more != [] {
      var front, last := more[..|more| - 1], more[|more| - 1];
      assert (parts + more)[..|parts + more| - 1] == parts + front;
      assert Concat(parts + more) == Concat(parts + front) + last;
      assert Concat(more) == Concat(front) + last;
      ConcatAppend(parts, front);
    } else {
      assert parts + more == parts;
      assert Concat(more) == [];
    }
  }

  /** Three strings written one after another. */
  lemma {:induction false} ConcatThree(a: string, b: string, c: string)
    ensures Concat([a, b, c]) == a + b + c
  {
    assert [a, b, c][..2] == [a, b] && [a, b][..1] == [a] && [a][..0] == [];
    assert Concat([]) == [];
    assert Concat([a]) == a;
    assert Concat([a, b]) == a + b;
  }

  /** Five strings written one after another. */
  lemma {:induction false} ConcatFive(a: string, b: string, c: string, d: string, e: string)
    ensures Concat([a, b, c, d, e]) == a + b + c + d + e
  {
    assert [a, b, c, d, e] == [a, b, c] + [d, e];
    ConcatAppend([a, b, c], [d, e]);
    ConcatThree(a, b, c);
    assert [d, e][..1] == [d] && [d][..0] == [];
    assert Concat([]) == [];
    assert Concat([d]) == d;
  }

  /** The text of the first `j` hops' words joined by '>' is their hop
      texts joined by '>'. */
  lemma {:induction false} JoinedText(ts: seq<string>, ds: seq<string>, j: nat)
    requires 2 <= |ts| == |ds| && 1 <= j <= |ts| / 2 + 1
    ensures Concat(JoinedHops(ts, ds, j)) == Join(Hops(ts, ds)[..j], '>')
  {
    var hs := Hops(ts, ds);
    if j == 1 {
      assert hs[..1] == [HopString(ts, ds, 0)];
    } else {
      var w, h, x := JoinedHops(ts, ds, j - 1), HopWords(ts, ds, j - 1), hs[j - 1];
      assert x == Concat(h);
      JoinedText(ts, ds, j - 1);
      JoinStep(w, h, hs[..j - 1], x);
      TakeLast(hs, j);
    }
  }

  /** Appending '>' and one more hop's words to joined words whose text is
      `ps` joined appends that hop's text to `ps`. */
  lemma JoinStep(w: seq<string>, h: seq<string>, ps: seq<string>, x: string)
    requires |ps| >= 1 && Concat(w) == Join(ps, '>') && x == Concat(h)
    ensures Concat(w + [">"] + h) == Join(ps + [x], '>')
  {
    ConcatAppend(w + [">"], h);
    ConcatAppend(w, [">"]);
    ConcatOne(">");
    JoinSnoc(ps, '>', x);
  }

  /** A builder written one string holds that string. */
  lemma ConcatOne(a: string)
    ensures Concat([a]) == a
  {
    assert [a][..0] == [];
  }

  /** The first `j` elements are the first `j - 1` and then element `j - 1`. */
  lemma TakeLast<T>(s: seq<T>, j: nat)
    requires 1 <= j <= |s|
    ensures s[..j] == s[..j - 1] + [s[j - 1]]
  {
  }

  /** Regrouping the words `String` writes around one intermediate hop. */
  lemma {:induction false} Regroup(w: seq<string>, x: string, t: string, d: string, y: string)
    ensures w + [">", x, " "] + [t, " ", d, ">", y, " "] == w + [">"] + [x, " ", t, " ", d] + [">", y, " "]
  {
  }

  /** The words written for positions `2j - 2` and `2j - 1`. */
  lemma {:induction false} WrittenPair(ts: seq<string>, ds: seq<string>, j: nat)
    requires 1 <= j && 2 * j <= |ts| && 2 * j <= |ds|
    ensures Written(ts, ds, 2 * j) ==
      Written(ts, ds, 2 * (j - 1)) + [ts[2 * (j - 1)], " ", ds[2 * (j - 1)], ">", ds[2 * (j - 1) + 1], " "]
  {
    var e := 2 * (j - 1);
    assert e % 2 == 0 && (e + 1) % 2 == 1 && e + 2 == 2 * j;
    assert Written(ts, ds, e + 1) == Written(ts, ds, e) + Piece(ts, ds, e);
  }

  /** The first `2j` positions write the first `j` pairs. */
  lemma {:induction false} WrittenPairs(ts: seq<string>, ds: seq<string>, j: nat)
    requires 2 * j <= |ts| && 2 * j <= |ds|
    ensures Written(ts, ds, 2 * j) == Pairs(ts, ds, j)
  {
    if j > 0 {
      WrittenPairs(ts, ds, j - 1);
      WrittenPair(ts, ds, j);
    }
  }

  /** The first `j` pairs, for `j` hops but the last, are those hops' words
      joined by '>', then '>', the next ID and a space. */
  lemma {:induction false} PairsHops(ts: seq<string>, ds: seq<string>, j: nat)
    requires 2 <= |ts| == |ds| && 1 <= j <= |ts| / 2
    ensures Pairs(ts, ds, j) == JoinedHops(ts, ds, j) + [">", ds[2 * (j - 1) + 1], " "]
  {
    if j == 1 {
      PairsFirst(ts, ds);
    } else {
      PairsHops(ts, ds, j - 1);
      PairsNext(ts, ds, j);
    }
  }

  /** The first pair is the first hop's words, then '>', the next ID and a
      space. */
  lemma PairsFirst(ts: seq<string>, ds: seq<string>)
    requires 2 <= |ts| == |ds|
    ensures Pairs(ts, ds, 1) == JoinedHops(ts, ds, 1) + [">", ds[2 * (1 - 1) + 1], " "]
  {
    assert Pairs(ts, ds, 0) == [];
  }

  /** Pair `j - 1` adds intermediate hop `j - 1` to the words before it. */
  lemma PairsNext(ts: seq<string>, ds: seq<string>, j: nat)
    requires 2 <= |ts| == |ds| && 2 <= j <= |ts| / 2
    requires Pairs(ts, ds, j - 1) == JoinedHops(ts, ds, j - 1) + [">", ds[2 * ((j - 1) - 1) + 1], " "]
    ensures Pairs(ts, ds, j) == JoinedHops(ts, ds, j) + [">", ds[2 * (j - 1) + 1], " "]
  {
    Regroup(JoinedHops(ts, ds, j - 1), ds[2 * ((j - 1) - 1) + 1], ts[2 * (j - 1)], ds[2 * (j - 1)], ds[2 * (j - 1) + 1]);
  }

  /** The printed lists are the hops joined by '>'. */
  lemma {:induction false} PrintJoin(ts: seq<string>, ds: seq<string>)
    requires 2 <= |ts| == |ds| && |ts| % 2 == 0
    ensures Print(ts, ds) == Join(Hops(ts, ds), '>')
  {
    var m, hs := |ts| / 2, Hops(ts, ds);
    PrintHops(ts, ds, m);
    JoinedText(ts, ds, m + 1);
    TakeAll(hs);
    assert hs[..m + 1] == hs;
  }

  /** The printed lists are the words of all `m + 1` hops with '>' between
      them. */
  lemma {:induction false} PrintHops(ts: seq<string>, ds: seq<string>, m: nat)
    requires 1 <= m && |ts| == |ds| == 2 * m
    ensures Print(ts, ds) == Concat(JoinedHops(ts, ds, m + 1))
  {
    var q := 2 * (m - 1) + 1;
    assert q == |ts| - 1;
    var w, x := Written(ts, ds, 2 * m), ts[q];
    WrittenPairs(ts, ds, m);
    PairsLast(ts, ds, m);
    assert w + [x] == JoinedHops(ts, ds, m + 1);
    PrintOf(ts, ds, w, x);
  }

  /** All `m` pairs and then the last IA are all hops' words joined by
      '>'. */
  lemma PairsLast(ts: seq<string>, ds: seq<string>, m: nat)
    requires 1 <= m && |ts| == |ds| == 2 * m
    ensures Pairs(ts, ds, m) + [ts[2 * (m - 1) + 1]] == JoinedHops(ts, ds, m + 1)
  {
    var x, t := ds[2 * (m - 1) + 1], ts[2 * (m - 1) + 1];
    PairsHops(ts, ds, m);
    HopWordsLast(ts, ds, m);
    RegroupLast(JoinedHops(ts, ds, m), x, t);
  }

  /** The words of the last hop: the last ID, then the last IA. */
  lemma HopWordsLast(ts: seq<string>, ds: seq<string>, m: nat)
    requires 1 <= m && |ts| == |ds| == 2 * m
    ensures HopWords(ts, ds, m) == [ds[2 * (m - 1) + 1], " ", ts[2 * (m - 1) + 1]]
  {
  }

  /** Taking all elements leaves the sequence. */
  lemma TakeAll<T>(s: seq<T>)
    ensures s[..|s|] == s
  {
  }

  /** Regrouping the words `String` writes around the last hop. */
  lemma {:induction false} RegroupLast(w: seq<string>, d: string, t: string)
    ensures w + [">", d, " "] + [t] == w + [">"] + [d, " ", t]
  {
  }

  // ---------------------------------------------------------------------
  // Each hop reads back

  /** The printed IAs `ts` and IDs `ds` hold no separator and read back as
      `ias` and `ids`. */
  predicate ReadsAs(ts: seq<string>, ds: seq<string>, ias: seq<IA>, ids: seq<nat>) {
    |ts| == |ias| && |ds| == |ids| &&
    (forall i :: 0 <= i < |ts| ==> ' ' !in ts[i] && '>' !in ts[i] && IAFromString(ts[i]) == Ok(ias[i])) &&
    forall i :: 0 <= i < |ds| ==> ' ' !in ds[i] && '>' !in ds[i] && IsDecimal(ds[i]) && UnmarshalID(ds[i], 0) == ids[i]
  }

  /** The first hop `IA id`. */
  lemma {:induction false} FirstHopReads(t: string, d: string, n: nat, a: IA, id: nat)
    requires 2 <= n && ' ' !in t && ' ' !in d && IsDecimal(d)
    requires IAFromString(t) == Ok(a) && UnmarshalID(d, 0) == id
    ensures Matches(t + " " + d, 0, n)
    ensures Contribution(HopOf(t + " " + d, 0, n)) == Ok(Lists([a], [id]))
  {
    SplitTwo(t, d, ' ');
    var h := HopOf(t + " " + d, 0, n);
    assert h == HopText(t, [], d);
    assert Added(a, h) == Lists([a], [id]);
  }

  /** The last hop `id IA`. */
  lemma {:induction false} LastHopReads(d: string, t: string, n: nat, a: IA, id: nat)
    requires 2 <= n && ' ' !in t && ' ' !in d && IsDecimal(d)
    requires IAFromString(t) == Ok(a) && UnmarshalID(d, 0) == id
    ensures Matches(d + " " + t, n - 1, n)
    ensures Contribution(HopOf(d + " " + t, n - 1, n)) == Ok(Lists([a], [id]))
  {
    SplitTwo(d, t, ' ');
    var h := HopOf(d + " " + t, n - 1, n);
    assert h == HopText(t, d, []);
    assert Added(a, h) == Lists([a], [id]);
  }

  /** An intermediate hop `id IA id`. */
  lemma {:induction false} MidHopReads(d: string, t: string, e: string, k: nat, n: nat, a: IA, id: nat, od: nat)
    requires 0 < k < n - 1 && ' ' !in t && ' ' !in d && ' ' !in e && IsDecimal(d) && IsDecimal(e)
    requires IAFromString(t) == Ok(a) && UnmarshalID(d, 0) == id && UnmarshalID(e, 0) == od
    ensures Matches(d + " " + t + " " + e, k, n)
    ensures Contribution(HopOf(d + " " + t + " " + e, k, n)) == Ok(Lists([a, a], [id, od]))
  {
    SplitThree(d, t, e, ' ');
    var h := HopOf(d + " " + t + " " + e, k, n);
    assert h == HopText(t, d, e);
    assert Added(a, h) == Lists([a, a], [id, od]);
  }

  /** Hop text `h`, hop `k` of `n`, has no '>', matches its pattern, and
      contributes exactly the entries of the lists from Filled(k) to
      Filled(k + 1). */
  predicate ReadsBack(h: string, k: nat, n: nat, ias: seq<IA>, ids: seq<nat>)
    requires k < n && Filled(k + 1, n) <= |ias| && Filled(k + 1, n) <= |ids|
  {
    '>' !in h && Matches(h, k, n) &&
    Contribution(HopOf(h, k, n)) ==
      Ok(Lists(ias[Filled(k, n)..Filled(k + 1, n)], ids[Filled(k, n)..Filled(k + 1, n)]))
  }

  /** The element at position `q`, as a stretch. */
  lemma SliceOne<T>(s: seq<T>, q: nat)
    requires q < |s|
    ensures s[q..q + 1] == [s[q]]
  {
  }

  /** The two elements from position `q`. */
  lemma SliceTwo<T>(s: seq<T>, q: nat)
    requires q + 2 <= |s|
    ensures s[q..q + 2] == [s[q], s[q + 1]]
  {
  }

  /** The text of the first hop. */
  lemma HopStringFirst(ts: seq<string>, ds: seq<string>)
    requires 2 <= |ts| == |ds|
    ensures HopString(ts, ds, 0) == ts[0] + " " + ds[0]
  {
    ConcatThree(ts[0], " ", ds[0]);
  }

  /** The text of the last hop. */
  lemma HopStringLast(ts: seq<string>, ds: seq<string>, m: nat)
    requires 1 <= m && |ts| == |ds| == 2 * m
    ensures HopString(ts, ds, m) == ds[2 * m - 1] + " " + ts[2 * m - 1]
  {
    HopWordsLast(ts, ds, m);
    ConcatThree(ds[2 * m - 1], " ", ts[2 * m - 1]);
  }

  /** The text of intermediate hop `k`. */
  lemma HopStringMid(ts: seq<string>, ds: seq<string>, k: nat)
    requires 2 <= |ts| == |ds| && 0 < k < |ts| / 2
    ensures HopString(ts, ds, k) == ds[2 * k - 1] + " " + ts[2 * k] + " " + ds[2 * k]
  {
    assert HopWords(ts, ds, k) == [ds[2 * k - 1], " ", ts[2 * k], " ", ds[2 * k]];
    ConcatFive(ds[2 * k - 1], " ", ts[2 * k], " ", ds[2 * k]);
  }

  /** The first hop reads back. */
  lemma {:induction false} FirstHopBack(ts: seq<string>, ds: seq<string>, ias: seq<IA>, ids: seq<nat>, m: nat)
    requires Canonical(ias, ids) && ReadsAs(ts, ds, ias, ids) && |ias| == 2 * m
    ensures ReadsBack(Hops(ts, ds)[0], 0, m + 1, ias, ids)
  {
    var n := m + 1;
    HopStringFirst(ts, ds);
    FirstHopReads(ts[0], ds[0], n, ias[0], ids[0]);
    assert Filled(0, n) == 0 && Filled(1, n) == 1;
    assert ias[0..1] == [ias[0]] && ids[0..1] == [ids[0]];
  }

  /** The last hop reads back. */
  lemma {:induction false} LastHopBack(ts: seq<string>, ds: seq<string>, ias: seq<IA>, ids: seq<nat>, m: nat)
    requires Canonical(ias, ids) && ReadsAs(ts, ds, ias, ids) && |ias| == 2 * m
    ensures ReadsBack(Hops(ts, ds)[m], m, m + 1, ias, ids)
  {
    var q := 2 * m - 1;
    HopStringLast(ts, ds, m);
    LastBack(Hops(ts, ds)[m], ds[q], ts[q], m, ias, ids);
  }

  /** A last hop text `d t` reads back as the last entry. */
  lemma LastBack(h: string, d: string, t: string, m: nat, ias: seq<IA>, ids: seq<nat>)
    requires 1 <= m && |ias| == |ids| == 2 * m && h == d + " " + t
    requires ' ' !in t && '>' !in t && IAFromString(t) == Ok(ias[2 * m - 1])
    requires ' ' !in d && '>' !in d && IsDecimal(d) && UnmarshalID(d, 0) == ids[2 * m - 1]
    ensures ReadsBack(h, m, m + 1, ias, ids)
  {
    var n, q := m + 1, 2 * m - 1;
    LastHopReads(d, t, n, ias[q], ids[q]);
    assert Filled(m, n) == q && Filled(m + 1, n) == q + 1;
    assert ias[q..q + 1] == [ias[q]] && ids[q..q + 1] == [ids[q]];
  }

  /** An intermediate hop reads back. */
  lemma {:induction false} MidHopBack(ts: seq<string>, ds: seq<string>, ias: seq<IA>, ids: seq<nat>, m: nat, k: nat)
    requires Canonical(ias, ids) && ReadsAs(ts, ds, ias, ids) && |ias| == 2 * m && 0 < k < m
    ensures ReadsBack(Hops(ts, ds)[k], k, m + 1, ias, ids)
  {
    var q := 2 * k - 1;
    HopStringMid(ts, ds, k);
    assert q + 1 == 2 * k;
    MidBack(Hops(ts, ds)[k], ds[q], ts[q + 1], ds[q + 1], k, m, ias, ids);
  }

  /** An intermediate hop text `d t e`, hop `k`, reads back as the two
      entries from 2k - 1. */
  lemma MidBack(h: string, d: string, t: string, e: string, k: nat, m: nat, ias: seq<IA>, ids: seq<nat>)
    requires 0 < k < m && |ias| == |ids| == 2 * m && h == d + " " + t + " " + e
    requires ias[2 * k - 1] == ias[2 * k]
    requires ' ' !in t && '>' !in t && IAFromString(t) == Ok(ias[2 * k])
    requires ' ' !in d && '>' !in d && IsDecimal(d) && UnmarshalID(d, 0) == ids[2 * k - 1]
    requires ' ' !in e && '>' !in e && IsDecimal(e) && UnmarshalID(e, 0) == ids[2 * k]
    ensures ReadsBack(h, k, m + 1, ias, ids)
  {
    var n, q := m + 1, 2 * k - 1;
    assert q + 1 == 2 * k;
    MidHopReads(d, t, e, k, n, ias[q + 1], ids[q], ids[q + 1]);
    assert Filled(k, n) == q && Filled(k + 1, n) == q + 2;
    SliceTwo(ias, q);
    SliceTwo(ids, q);
  }

  /** Every hop of the printed lists reads back. */
  lemma {:induction false} HopsReadBack(ts: seq<string>, ds: seq<string>, ias: seq<IA>, ids: seq<nat>, m: nat)
    requires Canonical(ias, ids) && ReadsAs(ts, ds, ias, ids) && |ias| == 2 * m
    ensures forall k :: 0 <= k < m + 1 ==> ReadsBack(Hops(ts, ds)[k], k, m + 1, ias, ids)
  {
    forall k | 0 <= k < m + 1
      ensures ReadsBack(Hops(ts, ds)[k], k, m + 1, ias, ids)
    {
      if k == 0 {
        FirstHopBack(ts, ds, ias, ids, m);
      } else if k == m {
        LastHopBack(ts, ds, ias, ids, m);
      } else {
        MidHopBack(ts, ds, ias, ids, m, k);
      }
    }
  }

  /** Hops contributing the consecutive stretches of the lists read back,
      for the first `j` of them, as the first Filled(j) entries. */
  lemma {:induction false} EntriesRead(cs: seq<Result<Lists, AddrError>>, ias: seq<IA>, ids: seq<nat>, j: nat)
    requires 2 <= |cs| && j <= |cs| && |ias| == |ids| == Filled(|cs|, |cs|)
    requires forall k :: 0 <= k < |cs| ==>
      cs[k] == Ok(Lists(ias[Filled(k, |cs|)..Filled(k + 1, |cs|)], ids[Filled(k, |cs|)..Filled(k + 1, |cs|)]))
    ensures Entries(cs, j) == Ok(Lists(ias[..Filled(j, |cs|)], ids[..Filled(j, |cs|)]))
  {
    if j > 0 {
      var n := |cs|;
      EntriesRead(cs, ias, ids, j - 1);
      var a, b := Filled(j - 1, n), Filled(j, n);
      assert ias[..a] + ias[a..b] == ias[..b];
      assert ids[..a] + ids[a..b] == ids[..b];
    }
  }

  /** Hop texts that each read back, `n` of them joined by '>', are a text
      `Set` accepts and reads into the lists. */
  lemma {:induction false} ParseJoin(hs: seq<string>, n: nat, ias: seq<IA>, ids: seq<nat>)
    requires 2 <= n == |hs| && |ias| == |ids| == Filled(n, n)
    requires forall k :: 0 <= k < n ==> ReadsBack(hs[k], k, n, ias, ids)
    ensures InputMatches(Join(hs, '>'))
    ensures Parse(Join(hs, '>')) == Ok(Lists(ias, ids))
  {
    SplitJoin(hs, '>');
    EntriesRead(Contributions(hs), ias, ids, n);
    TakeAll(ias);
    TakeAll(ids);
  }

  /** Printed lists that read back as canonical `ias` and `ids` are a text
      `Set` accepts and reads into those lists. */
  lemma {:induction false} ParsePrint(ts: seq<string>, ds: seq<string>, ias: seq<IA>, ids: seq<nat>)
    requires Canonical(ias, ids) && ReadsAs(ts, ds, ias, ids)
    ensures InputMatches(Print(ts, ds))
    ensures Parse(Print(ts, ds)) == Ok(Lists(ias, ids))
  {
    var m := |ias| / 2;
    PrintJoin(ts, ds);
    HopsReadBack(ts, ds, ias, ids, m);
    assert Filled(m + 1, m + 1) == |ias|;
    ParseJoin(Hops(ts, ds), m + 1, ias, ids);
  }

  /** Canonical lists print as texts that read back as them. */
  lemma {:induction false} TextsRead(ias: seq<IA>, ids: seq<nat>)
    requires Canonical(ias, ids)
    ensures ReadsAs(IATexts(ias), IDTexts(ids), ias, ids)
  {
    forall i | 0 <= i < |ias|
      ensures ' ' !in IAString(ias[i]) && '>' !in IAString(ias[i]) && IAFromString(IAString(ias[i])) == Ok(ias[i])
    {
      IAStringSeparators(ias[i]);
      IAStringRoundTrip(ias[i]);
    }
    forall i | 0 <= i < |ids|
      ensures ' ' !in IDString(ids[i]) && '>' !in IDString(ids[i]) && UnmarshalID(IDString(ids[i]), 0) == ids[i]
    {
      FormatUintHexDigits(ids[i], Decimal, ' ');
      FormatUintHexDigits(ids[i], Decimal, '>');
      ParseFormatUint(ids[i], Decimal, IFIDLimit);
    }
  }

  /** What `String` prints from canonical lists, `Set` accepts and reads
      into the same lists. */
  lemma {:induction false} ParseRender(ias: seq<IA>, ids: seq<nat>)
    requires Canonical(ias, ids)
    ensures InputMatches(Render(ias, ids))
    ensures Parse(Render(ias, ids)) == Ok(Lists(ias, ids))
  {
    TextsRead(ias, ids);
    ParsePrint(IATexts(ias), IDTexts(ids), ias, ids);
  }

  // ---------------------------------------------------------------------
  // What `Set` reads is canonical

  /** The entries a hop `k` of `n` adds: one for the first and the last hop,
      two carrying the same IA for an intermediate one, every ID below
      2^64. */
  predicate HopShaped(c: Lists, k: nat, n: nat) {
    |c.IAs| == |c.IDs| == Filled(k + 1, n) - Filled(k, n) &&
    (|c.IAs| == 2 ==> c.IAs[0] == c.IAs[1]) &&
    forall q :: 0 <= q < |c.IDs| ==> c.IDs[q] < IFIDLimit
  }

  /** A parsed ID, or the zero a failed parse leaves, is below 2^64. */
  lemma {:induction false} IDBound(text: string)
    ensures UnmarshalID(text, 0) < IFIDLimit
  {
  }

  /** What a matching hop adds has its shape. */
  lemma {:induction false} HopShape(comps: seq<string>, k: nat)
    requires 2 <= |comps| && k < |comps| && Matches(comps[k], k, |comps|)
    ensures Contributions(comps)[k].Ok? ==> HopShaped(Contributions(comps)[k].value, k, |comps|)
  {
    var h := HopOf(comps[k], k, |comps|);
    HopCount(comps[k], k, |comps|);
    IDBound(h.inId);
    IDBound(h.outId);
  }

  /** The entries of the first `j` hops, each shaped as its position
      demands: Filled(j) of them, each intermediate IA in two consecutive
      slots, every ID below 2^64. */
  lemma {:induction false} EntriesShape(cs: seq<Result<Lists, AddrError>>, j: nat, l: Lists)
    requires 2 <= |cs| && j <= |cs|
    requires forall k :: 0 <= k < |cs| && cs[k].Ok? ==> HopShaped(cs[k].value, k, |cs|)
    requires Entries(cs, j) == Ok(l)
    ensures |l.IAs| == |l.IDs| == Filled(j, |cs|)
    ensures forall q :: 0 < q < |l.IAs| - 1 && q % 2 == 1 ==> l.IAs[q] == l.IAs[q + 1]
    ensures forall q :: 0 <= q < |l.IDs| ==> l.IDs[q] < IFIDLimit
  {
    if j > 0 {
      var l0 := Entries(cs, j - 1).value;
      var c := cs[j - 1].value;
      EntriesShape(cs, j - 1, l0);
      assert l == Lists(l0.IAs + c.IAs, l0.IDs + c.IDs);
    }
  }

  /** Whatever `Set` reads from a matching input holds canonical lists, so
      `String` prints them and `Set` reads the print back to the same
      lists. */
  /** A description read from a text is empty exactly when the text is:
      a text `Parse` accepts has at least two hops, and so at least two
      entries. */
  lemma {:induction false} ParseEmpty(input: string)
    requires InputMatches(input) && Parse(input).Ok?
    ensures |Parse(input).value.IAs| == 0 <==> input == []
    ensures |Parse(input).value.IDs| == 0 <==> input == []
  {
    if input != [] {
      var comps := Split(input, '>');
      forall k | 0 <= k < |comps|
        ensures Contributions(comps)[k].Ok? ==> HopShaped(Contributions(comps)[k].value, k, |comps|)
      {
        HopShape(comps, k);
      }
      EntriesShape(Contributions(comps), |comps|, Parse(input).value);
    }
  }

  lemma {:induction false} ParseCanonical(input: string)
    requires InputMatches(input) && input != [] && Parse(input).Ok?
    ensures Canonical(Parse(input).value.IAs, Parse(input).value.IDs)
    ensures Parse(Render(Parse(input).value.IAs, Parse(input).value.IDs)) == Parse(input)
  {
    var comps := Split(input, '>');
    var l := Parse(input).value;
    forall k | 0 <= k < |comps|
      ensures Contributions(comps)[k].Ok? ==> HopShaped(Contributions(comps)[k].value, k, |comps|)
    {
      HopShape(comps, k);
    }
    EntriesShape(Contributions(comps), |comps|, l);
    ParseRender(l.IAs, l.IDs);
  }

  // ---------------------------------------------------------------------
  // A text spelled as `String` spells prints back as itself

  /** An IA text that reads as an IA printing as that text. */
  predicate SpelledIA(t: string) {
    IAFromString(t).Ok? && IAString(IAFromString(t).value) == t
  }

  /** An ID text that reads as an ID printing as that text: decimal
      digits without a leading zero, below 2^64. */
  predicate SpelledID(d: string) {
    IDString(UnmarshalID(d, 0)) == d
  }

  /** Hop `k` of `n` spells its IA and its IDs as `String` prints them. */
  predicate HopSpelled(c: string, k: nat, n: nat) {
    var h := HopOf(c, k, n);
    SpelledIA(h.ia) && (h.inId != [] ==> SpelledID(h.inId)) && (h.outId != [] ==> SpelledID(h.outId))
  }

  /** Every hop of the input is spelled as `String` prints it. */
  predicate Spelled(input: string) {
    var comps := Split(input, '>');
    forall k :: 0 <= k < |comps| ==> HopSpelled(comps[k], k, |comps|)
  }

  /** The entries of the first `j` hops, each hop adding as many as its
      position demands, hold hop `k`'s contribution in its own stretch,
      from Filled(k) to Filled(k + 1). */
  lemma {:induction false} EntriesSlice(cs: seq<Result<Lists, AddrError>>, j: nat, l: Lists, k: nat)
    requires 2 <= |cs| && k < j <= |cs|
    requires forall i :: 0 <= i < |cs| && cs[i].Ok? ==> HopShaped(cs[i].value, i, |cs|)
    requires Entries(cs, j) == Ok(l)
    ensures |l.IAs| == |l.IDs| == Filled(j, |cs|)
    ensures cs[k] == Ok(Lists(l.IAs[Filled(k, |cs|)..Filled(k + 1, |cs|)], l.IDs[Filled(k, |cs|)..Filled(k + 1, |cs|)]))
  {
    var n := |cs|;
    var l0, c := Entries(cs, j - 1).value, cs[j - 1].value;
    EntriesShape(cs, j - 1, l0);
    assert l == Lists(l0.IAs + c.IAs, l0.IDs + c.IDs);
    var a, b := Filled(k, n), Filled(k + 1, n);
    FilledGrows(k, k + 1, n);
    if k < j - 1 {
      EntriesSlice(cs, j - 1, l0, k);
      FilledGrows(k + 1, j - 1, n);
      SliceFront(l0.IAs, c.IAs, a, b);
      SliceFront(l0.IDs, c.IDs, a, b);
    } else {
      SliceBack(l0.IAs, c.IAs);
      SliceBack(l0.IDs, c.IDs);
    }
  }

  /** More hops fill at least as many slots. */
  lemma FilledGrows(i: nat, j: nat, n: nat)
    requires i <= j
    ensures Filled(i, n) <= Filled(j, n)
  {
  }

  /** Twice a number is even. */
  lemma Even(m: nat)
    ensures (2 * m) % 2 == 0
  {
  }

  /** A stretch within the first part of a concatenation. */
  lemma SliceFront<T>(s: seq<T>, t: seq<T>, a: nat, b: nat)
    requires a <= b <= |s|
    ensures (s + t)[a..b] == s[a..b]
  {
  }

  /** The second part of a concatenation. */
  lemma SliceBack<T>(s: seq<T>, t: seq<T>)
    ensures (s + t)[|s|..|s| + |t|] == t
  {
  }

  /** Two fields joined by a space. */
  lemma JoinTwo(f: seq<string>)
    requires |f| == 2
    ensures Join(f, ' ') == f[0] + " " + f[1]
  {
    assert f[1..] == [f[1]];
  }

  /** Three fields joined by spaces. */
  lemma JoinThree(f: seq<string>)
    requires |f| == 3
    ensures Join(f, ' ') == f[0] + " " + f[1] + " " + f[2]
  {
    JoinTwo(f[1..]);
  }

  /** A first hop `IA id` spelled as printed is the printed IA and ID it
      contributes, with a space between them. */
  lemma {:induction false} FirstPrints(c: string, n: nat, x: IA, y: nat)
    requires 2 <= n && Matches(c, 0, n) && HopSpelled(c, 0, n)
    requires Contribution(HopOf(c, 0, n)) == Ok(Lists([x], [y]))
    ensures IAString(x) + " " + IDString(y) == c
  {
    var f := Split(c, ' ');
    var h := HopOf(c, 0, n);
    assert h == HopText(f[0], [], f[1]) && f[1] != [];
    var ia := IAFromString(f[0]).value;
    assert Added(ia, h) == Lists([ia], [UnmarshalID(f[1], 0)]);
    assert x == ia && y == UnmarshalID(f[1], 0);
    assert IAString(x) == f[0] && IDString(y) == f[1];
    JoinTwo(f);
    JoinSplit(c, ' ');
  }

  /** A last hop `id IA` spelled as printed is the printed ID and IA it
      contributes, with a space between them. */
  lemma {:induction false} LastPrints(c: string, n: nat, x: IA, y: nat)
    requires 2 <= n && Matches(c, n - 1, n) && HopSpelled(c, n - 1, n)
    requires Contribution(HopOf(c, n - 1, n)) == Ok(Lists([x], [y]))
    ensures IDString(y) + " " + IAString(x) == c
  {
    var f := Split(c, ' ');
    var h := HopOf(c, n - 1, n);
    assert h == HopText(f[1], f[0], []) && f[0] != [];
    var ia := IAFromString(f[1]).value;
    assert Added(ia, h) == Lists([ia], [UnmarshalID(f[0], 0)]);
    assert x == ia && y == UnmarshalID(f[0], 0);
    assert IAString(x) == f[1] && IDString(y) == f[0];
    JoinTwo(f);
    JoinSplit(c, ' ');
  }

  /** An intermediate hop `id IA id` spelled as printed is the printed
      in-ID, IA and out-ID it contributes, with spaces between them. */
  lemma {:induction false} MidPrints(c: string, k: nat, n: nat, x: IA, x': IA, y: nat, z: nat)
    requires 0 < k < n - 1 && Matches(c, k, n) && HopSpelled(c, k, n)
    requires Contribution(HopOf(c, k, n)) == Ok(Lists([x, x'], [y, z]))
    ensures IDString(y) + " " + IAString(x') + " " + IDString(z) == c
  {
    var f := Split(c, ' ');
    var h := HopOf(c, k, n);
    assert h == HopText(f[1], f[0], f[2]) && f[0] != [] && f[2] != [];
    var ia := IAFromString(f[1]).value;
    assert Added(ia, h) == Lists([ia, ia], [UnmarshalID(f[0], 0), UnmarshalID(f[2], 0)]);
    assert x' == ia && y == UnmarshalID(f[0], 0) && z == UnmarshalID(f[2], 0);
    assert IAString(x') == f[1] && IDString(y) == f[0] && IDString(z) == f[2];
    JoinThree(f);
    JoinSplit(c, ' ');
  }

  /** The first hop's text from the lists: the first IA and ID printed. */
  lemma FirstText(ias: seq<IA>, ids: seq<nat>)
    requires 2 <= |ias| == |ids|
    ensures HopString(IATexts(ias), IDTexts(ids), 0) == IAString(ias[0]) + " " + IDString(ids[0])
  {
    IAText(ias, 0);
    IDText(ids, 0);
    HopStringFirst(IATexts(ias), IDTexts(ids));
  }

  /** The last hop's text from the lists: the last ID and IA printed. */
  lemma LastText(ias: seq<IA>, ids: seq<nat>, m: nat)
    requires 1 <= m && |ias| == |ids| == 2 * m
    ensures HopString(IATexts(ias), IDTexts(ids), m) == IDString(ids[2 * m - 1]) + " " + IAString(ias[2 * m - 1])
  {
    IAText(ias, 2 * m - 1);
    IDText(ids, 2 * m - 1);
    HopStringLast(IATexts(ias), IDTexts(ids), m);
  }

  /** Intermediate hop `k`'s text from the lists: its in-ID, IA and out-ID
      printed. */
  lemma MidText(ias: seq<IA>, ids: seq<nat>, k: nat)
    requires 2 <= |ias| == |ids| && 0 < k < |ias| / 2
    ensures HopString(IATexts(ias), IDTexts(ids), k) ==
      IDString(ids[2 * k - 1]) + " " + IAString(ias[2 * k]) + " " + IDString(ids[2 * k])
  {
    IAText(ias, 2 * k);
    IDText(ids, 2 * k - 1);
    IDText(ids, 2 * k);
    HopStringMid(IATexts(ias), IDTexts(ids), k);
  }

  /** The first hop, spelled as printed, prints back as itself from the
      first entry. */
  lemma {:induction false} FirstHopPrints(c: string, n: nat, l: Lists)
    requires 2 <= n && Matches(c, 0, n) && HopSpelled(c, 0, n)
    requires |l.IAs| == |l.IDs| == 2 * (n - 1)
    requires Contribution(HopOf(c, 0, n)) == Ok(Lists(l.IAs[0..1], l.IDs[0..1]))
    ensures HopString(IATexts(l.IAs), IDTexts(l.IDs), 0) == c
  {
    SliceOne(l.IAs, 0);
    SliceOne(l.IDs, 0);
    FirstPrints(c, n, l.IAs[0], l.IDs[0]);
    FirstText(l.IAs, l.IDs);
  }

  /** The last hop, spelled as printed, prints back as itself from the
      last entry. */
  lemma {:induction false} LastHopPrints(c: string, n: nat, l: Lists)
    requires 2 <= n && Matches(c, n - 1, n) && HopSpelled(c, n - 1, n)
    requires |l.IAs| == |l.IDs| == 2 * (n - 1)
    requires Contribution(HopOf(c, n - 1, n)) == Ok(Lists(l.IAs[2 * n - 3..2 * n - 2], l.IDs[2 * n - 3..2 * n - 2]))
    ensures HopString(IATexts(l.IAs), IDTexts(l.IDs), n - 1) == c
  {
    var m := n - 1;
    var q := 2 * m - 1;
    assert q == 2 * n - 3 && q + 1 == 2 * n - 2;
    SliceOne(l.IAs, q);
    SliceOne(l.IDs, q);
    LastPrints(c, n, l.IAs[q], l.IDs[q]);
    LastText(l.IAs, l.IDs, m);
  }

  /** An intermediate hop `k`, spelled as printed, prints back as itself
      from the two entries from 2k - 1. */
  lemma {:induction false} MidHopPrints(c: string, k: nat, n: nat, l: Lists)
    requires 0 < k < n - 1 && Matches(c, k, n) && HopSpelled(c, k, n)
    requires |l.IAs| == |l.IDs| == 2 * (n - 1)
    requires Contribution(HopOf(c, k, n)) == Ok(Lists(l.IAs[2 * k - 1..2 * k + 1], l.IDs[2 * k - 1..2 * k + 1]))
    ensures HopString(IATexts(l.IAs), IDTexts(l.IDs), k) == c
  {
    var q := 2 * k - 1;
    SliceTwo(l.IAs, q);
    SliceTwo(l.IDs, q);
    MidPrints(c, k, n, l.IAs[q], l.IAs[q + 1], l.IDs[q], l.IDs[q + 1]);
    MidText(l.IAs, l.IDs, k);
  }

  /** Hop `k`'s contribution is what its text adds. */
  lemma ContributionAt(comps: seq<string>, k: nat)
    requires k < |comps|
    ensures Contributions(comps)[k] == Contribution(HopOf(comps[k], k, |comps|))
  {
  }

  /** `HopPrints` for the first hop. */
  lemma {:induction false} FirstHopAt(comps: seq<string>, l: Lists)
    requires 2 <= |comps| && Matches(comps[0], 0, |comps|) && HopSpelled(comps[0], 0, |comps|)
    requires |l.IAs| == |l.IDs| == 2 * (|comps| - 1)
    requires Contributions(comps)[0] == Ok(Lists(l.IAs[Filled(0, |comps|)..Filled(1, |comps|)],
                                                 l.IDs[Filled(0, |comps|)..Filled(1, |comps|)]))
    ensures HopString(IATexts(l.IAs), IDTexts(l.IDs), 0) == comps[0]
  {
    var n, c := |comps|, comps[0];
    assert Filled(0, n) == 0 && Filled(1, n) == 1;
    ContributionAt(comps, 0);
    FirstHopPrints(c, n, l);
  }

  /** `HopPrints` for the last hop. */
  lemma {:induction false} LastHopAt(comps: seq<string>, l: Lists, k: nat)
    requires 2 <= |comps| && k == |comps| - 1 && Matches(comps[k], k, |comps|) && HopSpelled(comps[k], k, |comps|)
    requires |l.IAs| == |l.IDs| == 2 * (|comps| - 1)
    requires Contributions(comps)[k] == Ok(Lists(l.IAs[Filled(k, |comps|)..Filled(k + 1, |comps|)],
                                                 l.IDs[Filled(k, |comps|)..Filled(k + 1, |comps|)]))
    ensures HopString(IATexts(l.IAs), IDTexts(l.IDs), k) == comps[k]
  {
    var n, c := |comps|, comps[k];
    assert Filled(k, n) == 2 * n - 3 && Filled(k + 1, n) == 2 * n - 2;
    ContributionAt(comps, k);
    LastHopPrints(c, n, l);
  }

  /** `HopPrints` for an intermediate hop. */
  lemma {:induction false} MidHopAt(comps: seq<string>, l: Lists, k: nat)
    requires 0 < k < |comps| - 1 && Matches(comps[k], k, |comps|) && HopSpelled(comps[k], k, |comps|)
    requires |l.IAs| == |l.IDs| == 2 * (|comps| - 1)
    requires Contributions(comps)[k] == Ok(Lists(l.IAs[Filled(k, |comps|)..Filled(k + 1, |comps|)],
                                                 l.IDs[Filled(k, |comps|)..Filled(k + 1, |comps|)]))
    ensures HopString(IATexts(l.IAs), IDTexts(l.IDs), k) == comps[k]
  {
    var n, c := |comps|, comps[k];
    assert Filled(k, n) == 2 * k - 1 && Filled(k + 1, n) == 2 * k + 1;
    ContributionAt(comps, k);
    MidHopPrints(c, k, n, l);
  }

  /** Hop `k`, spelled as printed, prints back as itself from its stretch
      of the lists. */
  lemma {:induction false} HopPrints(comps: seq<string>, l: Lists, k: nat)
    requires 2 <= |comps| && k < |comps| && Matches(comps[k], k, |comps|) && HopSpelled(comps[k], k, |comps|)
    requires |l.IAs| == |l.IDs| == 2 * (|comps| - 1)
    requires Filled(k + 1, |comps|) <= |l.IAs|
    requires Contributions(comps)[k] == Ok(Lists(l.IAs[Filled(k, |comps|)..Filled(k + 1, |comps|)],
                                                 l.IDs[Filled(k, |comps|)..Filled(k + 1, |comps|)]))
    ensures HopString(IATexts(l.IAs), IDTexts(l.IDs), k) == comps[k]
  {
    if k == 0 {
      FirstHopAt(comps, l);
    } else if k == |comps| - 1 {
      LastHopAt(comps, l, k);
    } else {
      MidHopAt(comps, l, k);
    }
  }

  /** Every hop that matches its pattern adds entries of its shape. */
  lemma {:induction false} HopsShaped(comps: seq<string>)
    requires 2 <= |comps|
    requires forall k :: 0 <= k < |comps| ==> Matches(comps[k], k, |comps|)
    ensures forall k :: 0 <= k < |comps| && Contributions(comps)[k].Ok? ==>
      HopShaped(Contributions(comps)[k].value, k, |comps|)
  {
    forall k | 0 <= k < |comps|
      ensures Contributions(comps)[k].Ok? ==> HopShaped(Contributions(comps)[k].value, k, |comps|)
    {
      HopShape(comps, k);
    }
  }

  /** Hop `k`, matching its pattern and spelled as printed, of hops that
      read into lists without error, is the hop text those lists print as
      at `k`. */
  lemma {:induction false} HopSpelledAt(comps: seq<string>, l: Lists, k: nat)
    requires 2 <= |comps| && k < |comps|
    requires Matches(comps[k], k, |comps|) && HopSpelled(comps[k], k, |comps|)
    requires forall i :: 0 <= i < |comps| && Contributions(comps)[i].Ok? ==>
      HopShaped(Contributions(comps)[i].value, i, |comps|)
    requires Entries(Contributions(comps), |comps|) == Ok(l)
    ensures |l.IAs| == |l.IDs| == 2 * (|comps| - 1)
    ensures HopString(IATexts(l.IAs), IDTexts(l.IDs), k) == comps[k]
  {
    EntriesSlice(Contributions(comps), |comps|, l, k);
    FilledGrows(k + 1, |comps|, |comps|);
    HopPrints(comps, l, k);
  }

  /** Hops that match their patterns and are spelled as printed, read
      into lists without error, are the hop texts those lists print as. */
  lemma {:induction false} HopsSpelled(comps: seq<string>, l: Lists)
    requires 2 <= |comps|
    requires forall k :: 0 <= k < |comps| ==> Matches(comps[k], k, |comps|) && HopSpelled(comps[k], k, |comps|)
    requires Entries(Contributions(comps), |comps|) == Ok(l)
    ensures |l.IAs| == |l.IDs| == 2 * (|comps| - 1)
    ensures Hops(IATexts(l.IAs), IDTexts(l.IDs)) == comps
  {
    HopsShaped(comps);
    HopSpelledAt(comps, l, 0);
    var ts, ds := IATexts(l.IAs), IDTexts(l.IDs);
    forall k | 0 <= k < |comps|
      ensures Hops(ts, ds)[k] == comps[k]
    {
      HopSpelledAt(comps, l, k);
    }
  }

  /** A text `Set` accepts whose every IA and ID is spelled as `String`
      spells it prints back, from what `Set` reads, as exactly that text. */
  lemma {:induction false} RenderParse(input: string)
    requires InputMatches(input) && Spelled(input) && input != [] && Parse(input).Ok?
    ensures |Parse(input).value.IAs| == |Parse(input).value.IDs|
    ensures Render(Parse(input).value.IAs, Parse(input).value.IDs) == input
  {
    var comps := Split(input, '>');
    var n, l := |comps|, Parse(input).value;
    HopsSpelled(comps, l);
    var m := n - 1;
    assert |l.IAs| == 2 * m;
    Even(m);
    PrintJoin(IATexts(l.IAs), IDTexts(l.IDs));
    JoinSplit(input, '>');
  }
}
