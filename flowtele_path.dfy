/** The path description of the FlowTele tool: a text of `>`-separated hops
    (`IA id`, then `id IA id` for each intermediate AS, then `id IA`) read
    into two parallel lists, one ISD-AS and one interface ID per interface
    crossed, and printed back. */
module FlowtelePath {
  import opened Wrappers
  import opened Addr
  import opened Text

  /** `common.IFIDType`: an unsigned 64-bit interface ID. */
  const IFIDLimit: nat := 0x1_0000_0000_0000_0000

  /** The zero IA a freshly made list holds. */
  const NoIA: IA := IA(0, 0)

  const EmptyText: string := "<Empty SCION path description>"

  /** The errors `Set` returns: too few hops, or an ISD-AS that does not
      parse. */
  datatype SetError = ShortPath(hops: nat) | BadIA(e: AddrError)

  /** The two lists of a path description. */
  datatype Lists = Lists(IAs: seq<IA>, IDs: seq<nat>)

  // ---------------------------------------------------------------------
  // One hop of the text

  /** The pattern hop `i` of `n` has to match: `IA id` first, `id IA` last,
      `id IA id` in between; an IA text holds no space and an ID is a
      non-empty run of decimal digits. */
  predicate Matches(c: string, i: nat, n: nat)
    requires i < n
  {
    var f := Split(c, ' ');
    if i == 0 then |f| == 2 && IsDecimal(f[1])
    else if i == n - 1 then |f| == 2 && IsDecimal(f[0])
    else |f| == 3 && IsDecimal(f[0]) && IsDecimal(f[2])
  }

  /** Every hop of a non-empty input with at least two hops matches its
      pattern. */
  predicate InputMatches(input: string) {
    var comps := Split(input, '>');
    input != [] && |comps| >= 2 ==> forall i :: 0 <= i < |comps| ==> Matches(comps[i], i, |comps|)
  }

  /** The three texts of a hop: its IA, the ID it is entered through and
      the ID it is left through (empty where the hop has none). */
  datatype HopText = HopText(ia: string, inId: string, outId: string)

  /** Field `k` of a split hop, empty past the end. */
  function Field(f: seq<string>, k: nat): string {
    if k < |f| then f[k] else []
  }

  /** The submatches of hop `i` of `n`: `IA id` for the first hop, `id IA`
      for the last, `id IA id` in between; on a hop that Matches its
      pattern these are exactly its space-separated fields. */
  function HopOf(c: string, i: nat, n: nat): HopText {
    var f := Split(c, ' ');
    if i == 0 then HopText(Field(f, 0), [], Field(f, 1))
    else if i == n - 1 then HopText(Field(f, 1), Field(f, 0), [])
    else HopText(Field(f, 1), Field(f, 0), Field(f, 2))
  }

  /** `IFIDType.UnmarshalText` into a slot holding `prev`: the decimal value
      below 2^64; on an error, which the caller drops, the slot keeps
      `prev`. */
  function UnmarshalID(text: string, prev: nat): nat {
    match ParseUint(text, Decimal, IFIDLimit)
    case Ok(v) => v
    case Err(_) => prev
  }

  /** `IFIDType.String`: decimal. */
  function IDString(id: nat): string {
    FormatUint(id, Decimal)
  }

  // ---------------------------------------------------------------------
  // The reading (`Set`) as a function

  /** How many slots a hop fills: one per ID it has. */
  function Count(h: HopText): nat {
    (if h.inId != [] then 1 else 0) + (if h.outId != [] then 1 else 0)
  }

  /** The entries of a hop whose IA is `ia`: the IA with its in-ID, then
      the IA with its out-ID, each only when the hop has that ID. */
  function Added(ia: IA, h: HopText): (r: Lists)
    ensures |r.IAs| == |r.IDs| == Count(h)
  {
    Lists((if h.inId != [] then [ia] else []) + (if h.outId != [] then [ia] else []),
          (if h.inId != [] then [UnmarshalID(h.inId, 0)] else []) +
          (if h.outId != [] then [UnmarshalID(h.outId, 0)] else []))
  }

  /** The entries a hop adds, or the error of its IA. */
  function Contribution(h: HopText): Result<Lists, AddrError> {
    match IAFromString(h.ia)
    case Err(e) => Err(e)
    case Ok(ia) => Ok(Added(ia, h))
  }

  /** What each hop contributes, hop by hop. */
  function Contributions(comps: seq<string>): (cs: seq<Result<Lists, AddrError>>)
    ensures |cs| == |comps|
  {
    seq(|comps|, j requires 0 <= j < |comps| => Contribution(HopOf(comps[j], j, |comps|)))
  }

  /** The entries of the first `k` hops in order, or the error of the first
      hop whose IA does not parse, from the hops' contributions `cs`. */
  function Entries(cs: seq<Result<Lists, AddrError>>, k: nat): Result<Lists, AddrError>
    requires k <= |cs|
  {
    if k == 0 then Ok(Lists([], []))
    else
      match Entries(cs, k - 1)
      case Err(e) => Err(e)
      case Ok(l) =>
        match cs[k - 1]
        case Err(e) => Err(e)
        case Ok(c) => Ok(Lists(l.IAs + c.IAs, l.IDs + c.IDs))
  }

  /** What `Set` reads from `input`: nothing from the empty text, an error
      for a single hop, else the entries of all hops. */
  function Parse(input: string): Result<Lists, SetError> {
    if input == [] then Ok(Lists([], []))
    else
      var comps := Split(input, '>');
      if |comps| < 2 then Err(ShortPath(|comps|))
      else
        match Entries(Contributions(comps), |comps|)
        case Err(e) => Err(BadIA(e))
        case Ok(l) => Ok(l)
  }

  // ---------------------------------------------------------------------
  // The printing (`String`) as a function

  /** The printed IAs of a list. */
  function IATexts(ias: seq<IA>): (ts: seq<string>)
    ensures |ts| == |ias|
  {
    seq(|ias|, i requires 0 <= i < |ias| => IAString(ias[i]))
  }

  /** The printed IDs of a list. */
  function IDTexts(ids: seq<nat>): (ds: seq<string>)
    ensures |ds| == |ids|
  {
    seq(|ids|, i requires 0 <= i < |ids| => IDString(ids[i]))
  }

  /** What `String` writes for list position `i`, from the printed IAs
      `ts` and IDs `ds`: at an even position the IA, a space and the ID, at
      an odd one `>`, the ID and a space. */
  function Piece(ts: seq<string>, ds: seq<string>, i: nat): seq<string>
    requires i < |ts| && i < |ds|
  {
    if i % 2 == 0 then [ts[i], " ", ds[i]] else [">", ds[i], " "]
  }

  /** The strings written for the first `k` positions, in order. */
  function Written(ts: seq<string>, ds: seq<string>, k: nat): seq<string>
    requires k <= |ts| && k <= |ds|
  {
    if k == 0 then [] else Written(ts, ds, k - 1) + Piece(ts, ds, k - 1)
  }

  /** The text of a builder that was written `parts` in order. */
  function Concat(parts: seq<string>): string {
    if parts == [] then [] else Concat(parts[..|parts| - 1]) + parts[|parts| - 1]
  }

  /** The pieces of all positions followed by the last IA. */
  function Print(ts: seq<string>, ds: seq<string>): string
    requires 1 <= |ts| <= |ds|
  {
    Concat(Written(ts, ds, |ts|) + [ts[|ts| - 1]])
  }

  /** The printed description: a placeholder below two IAs, else the
      printed lists. */
  function Render(ias: seq<IA>, ids: seq<nat>): string
    requires |ias| < 2 || |ids| >= |ias|
  {
    if |ias| < 2 then EmptyText else Print(IATexts(ias), IDTexts(ids))
  }

  // ---------------------------------------------------------------------
  // The description object

  /** `scionPathDescription`: the IAs and interface IDs of the interfaces a
      path crosses, in order. */
  class PathDescription {
    var IAList: seq<IA>
    var IDList: seq<nat>

    constructor ()
      ensures IAList == [] && IDList == []
    {
      IAList, IDList := [], [];
    }

    /** `IsEmpty`: both lists are empty (a nil list and an empty one are
        the same here). */
    predicate IsEmpty()
      reads this
    {
      |IAList| == 0 && |IDList| == 0
    }

    /** `Set`: the lists are made two slots per hop but one, then filled hop
        by hop through a running index; it stops at the first hop whose IA
        does not parse, with the slots behind still zero. */
    method Set(input: string) returns (err: Option<SetError>)
      requires InputMatches(input)
      modifies this
      ensures err.Some? ==> Parse(input) == Err(err.value)
      ensures err.None? ==> Parse(input) == Ok(Lists(IAList, IDList))
      ensures input == [] || |Split(input, '>')| < 2 ==> IAList == [] && IDList == []
      ensures input != [] ==> |IAList| == |IDList| == 2 * (|Split(input, '>')| - 1)
      ensures err.None? ==> (IsEmpty() <==> input == [])
      ensures err.Some? && err.value.BadIA? ==>
        exists i :: 0 <= i < |Split(input, '>')| && FailedAt(Contributions(Split(input, '>')), i, Lists(IAList, IDList))
    {
      if input == [] {
        IAList, IDList := [], [];
        return None;
      }
      var comps := Split(input, '>');
      var n := |comps|;
      IAList := seq(2 * (n - 1), _ => NoIA);
      IDList := seq(2 * (n - 1), _ => 0);
      if n < 2 {
        return Some(ShortPath(n));
      }
      ghost var cs := Contributions(comps);
      var failed := FillHops(comps, cs);
      if failed.Some? {
        ParseFails(input, failed.value);
        return Some(BadIA(failed.value));
      }
      ParseDone(input, Lists(IAList, IDList));
      return None;
    }

    /** The loop of `Set` over the hops, each one's slots written from a
        running index on zero lists made to size; it stops at the first
        hop whose IA does not parse. */
    method FillHops(comps: seq<string>, ghost cs: seq<Result<Lists, AddrError>>) returns (failed: Option<AddrError>)
      requires cs == Contributions(comps) && 2 <= |comps|
      requires forall i :: 0 <= i < |comps| ==> Matches(comps[i], i, |comps|)
      requires |IAList| == |IDList| == 2 * (|comps| - 1)
      requires forall j :: 0 <= j < |IDList| ==> IDList[j] == 0
      modifies this
      ensures |IAList| == |IDList| == 2 * (|comps| - 1)
      ensures failed.Some? ==> Entries(cs, |cs|) == Err(failed.value)
      ensures failed.Some? ==> exists i :: 0 <= i < |cs| && FailedAt(cs, i, Lists(IAList, IDList))
      ensures failed.None? ==> Entries(cs, |cs|) == Ok(Lists(IAList, IDList))
    {
      var index: nat := 0;
      var i := 0;
      while i < |comps|
        invariant 0 <= i <= |comps| && |IAList| == |IDList| == 2 * (|comps| - 1)
        invariant FilledUpTo(cs, i, Lists(IAList, IDList), index)
      {
        index, failed := SetHop(comps, cs, i, index);
        if failed.Some? {
          assert FailedAt(cs, i, Lists(IAList, IDList));
          return;
        }
        i := i + 1;
      }
      assert IAList[..index] == IAList && IDList[..index] == IDList;
      return None;
    }

    /** One pass of `Set`'s loop: the submatches of the pattern the switch
        on `i` picks, the IA parsed from them (the first that fails ends
        `Set`), then the hop's writes from slot `index` on. */
    method SetHop(comps: seq<string>, ghost cs: seq<Result<Lists, AddrError>>, i: nat, index: nat)
      returns (next: nat, failed: Option<AddrError>)
      requires cs == Contributions(comps)
      requires 2 <= |comps| && i < |comps| && Matches(comps[i], i, |comps|)
      requires |IAList| == |IDList| == 2 * (|comps| - 1)
      requires FilledUpTo(cs, i, Lists(IAList, IDList), index)
      modifies this
      ensures failed.Some? ==> Entries(cs, |cs|) == Err(failed.value)
      ensures failed.Some? ==> FailedAt(cs, i, Lists(IAList, IDList))
      ensures |IAList| == |IDList| == 2 * (|comps| - 1)
      ensures failed.None? ==> FilledUpTo(cs, i + 1, Lists(IAList, IDList), next)
    {
      var hop := HopOf(comps[i], i, |comps|);
      var ia := IAFromString(hop.ia);
      if ia.Err? {
        HopFails(cs, i);
        return index, Some(ia.error);
      }
      HopCount(comps[i], i, |comps|);
      ghost var l0 := Lists(IAList, IDList);
      next := WriteHop(index, ia.value, hop);
      HopFilled(cs, i, ia.value, hop, l0, index, Lists(IAList, IDList), next);
      failed := None;
    }

    /** The writes `Set` makes for one hop from slot `index` on: the IA and
        the parsed in-ID if the hop has one, then the IA and the parsed
        out-ID if it has one; each parse that fails leaves the slot's ID as
        it was. */
    method WriteHop(index: nat, ia: IA, hop: HopText) returns (next: nat)
      requires index + Count(hop) <= |IAList| == |IDList|
      modifies this
      ensures Lists(IAList, IDList) == PutHop(old(Lists(IAList, IDList)), index, ia, hop)
      ensures next == index + Count(hop)
    {
      next := index;
      if hop.inId != [] {
        IAList := IAList[next := ia];
        IDList := IDList[next := UnmarshalID(hop.inId, IDList[next])];
        next := next + 1;
      }
      if hop.outId != [] {
        IAList := IAList[next := ia];
        IDList := IDList[next := UnmarshalID(hop.outId, IDList[next])];
        next := next + 1;
      }
    }

    /** `String`: the pieces appended one position after another, then the
        last IA; the placeholder below two IAs. */
    method String() returns (s: string)
      requires |IAList| < 2 || |IDList| >= |IAList|
      ensures s == Render(IAList, IDList)
    {
      if |IAList| < 2 {
        return EmptyText;
      }
      var ias, ids := IAList, IDList;
      // the builder, as the strings written to it so far
      var sb: seq<string> := [];
      var i := 0;
      while i < |ias|
        invariant 0 <= i <= |ias| && sb == Written(IATexts(ias), IDTexts(ids), i)
      {
        ghost var before := sb;
        if i % 2 == 0 {
          var t, d := IAString(ias[i]), IDString(ids[i]);
          sb := sb + [t];
          sb := sb + [" "];
          sb := sb + [d];
          ThreeWrites(before, t, " ", d);
          WrittenEven(ias, ids, i);
        } else {
          var d := IDString(ids[i]);
          sb := sb + [">"];
          sb := sb + [d];
          sb := sb + [" "];
          ThreeWrites(before, ">", d, " ");
          WrittenOdd(ias, ids, i);
        }
        i := i + 1;
      }
      RenderWritten(ias, ids, sb, IAString(ias[|ias| - 1]));
      sb := sb + [IAString(ias[|ias| - 1])];
      return Concat(sb);
    }

    /** `IsEqual`: different IA counts are unequal; otherwise equal exactly
        when every IA and every ID agrees. */
    method IsEqual(other: PathDescription) returns (eq: bool)
      requires |IAList| == |other.IAList| ==> |IDList| >= |IAList| && |other.IDList| >= |IAList|
      ensures eq <==> SameHops(IAList, IDList, other.IAList, other.IDList)
    {
      if |IAList| != |other.IAList| {
        return false;
      }
      var i := 0;
      while i < |IAList|
        invariant 0 <= i <= |IAList|
        invariant forall j :: 0 <= j < i ==> IAList[j] == other.IAList[j] && IDList[j] == other.IDList[j]
      {
        if IAList[i] != other.IAList[i] || IDList[i] != other.IDList[i] {
          return false;
        }
        i := i + 1;
      }
      return true;
    }
  }

  /** A builder written all positions and then the last IA holds the
      printed description. */
  lemma RenderWritten(ias: seq<IA>, ids: seq<nat>, w: seq<string>, x: string)
    requires 2 <= |ias| <= |ids|
    requires w == Written(IATexts(ias), IDTexts(ids), |ias|) && x == IAString(ias[|ias| - 1])
    ensures Concat(w + [x]) == Render(ias, ids)
  {
    var ts, ds, k := IATexts(ias), IDTexts(ids), |ias| - 1;
    IAText(ias, k);
    assert k == |ts| - 1 && x == ts[k];
    PrintOf(ts, ds, w, x);
    RenderIsPrint(ias, ids);
  }

  /** From two IAs on, the description is the printed lists. */
  lemma RenderIsPrint(ias: seq<IA>, ids: seq<nat>)
    requires 2 <= |ias| <= |ids|
    ensures Render(ias, ids) == Print(IATexts(ias), IDTexts(ids))
  {
  }

  /** The pieces of all positions followed by the last IA text are the
      printed lists. */
  lemma PrintOf(ts: seq<string>, ds: seq<string>, w: seq<string>, x: string)
    requires 1 <= |ts| <= |ds| && w == Written(ts, ds, |ts|) && x == ts[|ts| - 1]
    ensures Concat(w + [x]) == Print(ts, ds)
  {
  }

  /** Position `i` of the printed IAs is IA `i` printed. */
  lemma IAText(ias: seq<IA>, i: nat)
    requires i < |ias|
    ensures IATexts(ias)[i] == IAString(ias[i])
  {
  }

  /** Position `i` of the printed IDs is ID `i` printed. */
  lemma IDText(ids: seq<nat>, i: nat)
    requires i < |ids|
    ensures IDTexts(ids)[i] == IDString(ids[i])
  {
  }

  /** An even position writes its IA, a space and its ID. */
  lemma WrittenEven(ias: seq<IA>, ids: seq<nat>, i: nat)
    requires i < |ias| <= |ids| && i % 2 == 0
    ensures Written(IATexts(ias), IDTexts(ids), i + 1) ==
      Written(IATexts(ias), IDTexts(ids), i) + [IAString(ias[i]), " ", IDString(ids[i])]
  {
    var ts, ds := IATexts(ias), IDTexts(ids);
    assert Piece(ts, ds, i) == [ts[i], " ", ds[i]];
    assert ts[i] == IAString(ias[i]) && ds[i] == IDString(ids[i]);
  }

  /** An odd position writes '>', its ID and a space. */
  lemma WrittenOdd(ias: seq<IA>, ids: seq<nat>, i: nat)
    requires i < |ias| <= |ids| && i % 2 == 1
    ensures Written(IATexts(ias), IDTexts(ids), i + 1) ==
      Written(IATexts(ias), IDTexts(ids), i) + [">", IDString(ids[i]), " "]
  {
    var ts, ds := IATexts(ias), IDTexts(ids);
    assert Piece(ts, ds, i) == [">", ds[i], " "];
    assert ds[i] == IDString(ids[i]);
  }

  /** Three writes one after another leave what one write of all three
      would. */
  lemma {:induction false} ThreeWrites(s: seq<string>, a: string, b: string, c: string)
    ensures s + [a] + [b] + [c] == s + [a, b, c]
  {
  }

  /** Two descriptions agree: as many IAs, and the same IA and ID at each
      of their positions. */
  predicate SameHops(ias: seq<IA>, ids: seq<nat>, oias: seq<IA>, oids: seq<nat>)
  {
    |ias| == |oias| && |ids| >= |ias| && |oids| >= |ias| &&
    forall j :: 0 <= j < |ias| ==> ias[j] == oias[j] && ids[j] == oids[j]
  }

  /** A description with enough IDs agrees with itself, so `IsEqual` is
      reflexive. */
  lemma SameHopsReflexive(ias: seq<IA>, ids: seq<nat>)
    requires |ids| >= |ias|
    ensures SameHops(ias, ids, ias, ids)
  {
  }

  /** The lists after `Set` has handled the first `i` hops without error:
      the first Filled(i) slots hold their entries and the rest are still
      zero. */
  predicate FilledUpTo(cs: seq<Result<Lists, AddrError>>, i: nat, l: Lists, index: nat)
    requires i <= |cs|
  {
    index == Filled(i, |cs|) && index <= |l.IAs| == |l.IDs| &&
    Entries(cs, i) == Ok(Lists(l.IAs[..index], l.IDs[..index])) &&
    forall j :: index <= j < |l.IDs| ==> l.IDs[j] == 0
  }

  /** The lists `Set` leaves when hop `i` is the first whose IA does not
      parse: the entries of the hops before it, and zero IDs behind them. */
  predicate FailedAt(cs: seq<Result<Lists, AddrError>>, i: nat, l: Lists)
    requires i < |cs|
  {
    cs[i].Err? && FilledUpTo(cs, i, l, Filled(i, |cs|))
  }

  /** How many slots the first `i` of `n` hops fill: one for the first hop,
      two for each intermediate one, one for the last. */
  function Filled(i: nat, n: nat): nat {
    if i == 0 || n == 0 then 0 else if i < n then 2 * i - 1 else 2 * n - 2
  }

  /** The lists once a hop with IA `ia` has written its in-ID slot and then
      its out-ID slot at `index`, each only when it has that ID. */
  function PutHop(l: Lists, index: nat, ia: IA, h: HopText): Lists
    requires index + Count(h) <= |l.IAs| == |l.IDs|
  {
    var l1 := if h.inId != [] then Lists(l.IAs[index := ia], l.IDs[index := UnmarshalID(h.inId, l.IDs[index])]) else l;
    var k := if h.inId != [] then index + 1 else index;
    if h.outId != [] then Lists(l1.IAs[k := ia], l1.IDs[k := UnmarshalID(h.outId, l1.IDs[k])]) else l1
  }

  /** A hop matching its pattern has an in-ID exactly when it is not the
      first hop and an out-ID exactly when it is not the last, so it fills
      the slots from Filled(i) to Filled(i + 1). */
  lemma {:induction false} HopCount(c: string, i: nat, n: nat)
    requires 2 <= n && i < n && Matches(c, i, n)
    ensures (HopOf(c, i, n).inId != []) == (i > 0) && (HopOf(c, i, n).outId != []) == (i < n - 1)
    ensures Filled(i, n) + Count(HopOf(c, i, n)) == Filled(i + 1, n) <= 2 * (n - 1)
  {
  }

  /** Writing a hop's slots over zero slots extends the filled prefix by
      the hop's entries and leaves the slots behind zero. */
  lemma {:induction false} PutHopPrefix(l: Lists, index: nat, ia: IA, h: HopText)
    requires index + Count(h) <= |l.IAs| == |l.IDs|
    requires forall j :: index <= j < |l.IDs| ==> l.IDs[j] == 0
    ensures var r, k := PutHop(l, index, ia, h), index + Count(h);
      |r.IAs| == |r.IDs| == |l.IAs| &&
      r.IAs[..k] == l.IAs[..index] + Added(ia, h).IAs &&
      r.IDs[..k] == l.IDs[..index] + Added(ia, h).IDs &&
      forall j :: k <= j < |r.IDs| ==> r.IDs[j] == 0
  {
    var a := Added(ia, h);
    if h.inId != [] {
      var l1 := Lists(l.IAs[index := ia], l.IDs[index := UnmarshalID(h.inId, 0)]);
      assert l1.IAs[..index + 1] == l.IAs[..index] + [ia];
      assert l1.IDs[..index + 1] == l.IDs[..index] + [UnmarshalID(h.inId, 0)];
      if h.outId != [] {
        assert l1.IDs[index + 1] == 0;
        var r := PutHop(l, index, ia, h);
        assert r.IAs[..index + 2] == l1.IAs[..index + 1] + [ia];
        assert r.IDs[..index + 2] == l1.IDs[..index + 1] + [UnmarshalID(h.outId, 0)];
      }
    } else if h.outId != [] {
      var r := PutHop(l, index, ia, h);
      assert r.IAs[..index + 1] == l.IAs[..index] + [ia];
      assert r.IDs[..index + 1] == l.IDs[..index] + [UnmarshalID(h.outId, 0)];
    }
  }

  /** Handling a hop whose IA parses keeps the lists filled up to it. */
  lemma {:induction false} HopFilled(cs: seq<Result<Lists, AddrError>>, i: nat, ia: IA, h: HopText,
                                     l: Lists, index: nat, l1: Lists, index1: nat)
    requires i < |cs| && cs[i] == Ok(Added(ia, h)) && FilledUpTo(cs, i, l, index)
    requires index1 == index + Count(h) == Filled(i + 1, |cs|) <= |l.IAs|
    requires l1 == PutHop(l, index, ia, h)
    ensures FilledUpTo(cs, i + 1, l1, index1)
  {
    PutHopPrefix(l, index, ia, h);
    assert Entries(cs, i + 1) == Ok(Lists(l.IAs[..index] + Added(ia, h).IAs, l.IDs[..index] + Added(ia, h).IDs));
  }

  /** All hops filled: the lists are what `Parse` gives. */
  lemma ParseDone(input: string, l: Lists)
    requires input != [] && 2 <= |Split(input, '>')|
    requires Entries(Contributions(Split(input, '>')), |Split(input, '>')|) == Ok(l)
    ensures Parse(input) == Ok(l)
  {
  }

  /** A hop that fails fails `Parse` with the same error. */
  lemma ParseFails(input: string, e: AddrError)
    requires input != [] && 2 <= |Split(input, '>')|
    requires Entries(Contributions(Split(input, '>')), |Split(input, '>')|) == Err(e)
    ensures Parse(input) == Err(BadIA(e))
  {
  }

  /** A hop whose IA does not parse, after hops that did, is the error of
      all hops. */
  lemma {:induction false} HopFails(cs: seq<Result<Lists, AddrError>>, i: nat)
    requires i < |cs| && Entries(cs, i).Ok? && cs[i].Err?
    ensures Entries(cs, |cs|) == Err(cs[i].error)
  {
    assert Entries(cs, i + 1) == Err(cs[i].error);
    EntriesErrStays(cs, i + 1);
  }

  /** An error of the first `k` hops is the error of all of them. */
  lemma {:induction false} EntriesErrStays(cs: seq<Result<Lists, AddrError>>, k: nat)
    requires k <= |cs| && Entries(cs, k).Err?
    ensures Entries(cs, |cs|) == Entries(cs, k)
    decreases |cs| - k
  {
    if k < |cs| {
      assert Entries(cs, k + 1) == Entries(cs, k);
      EntriesErrStays(cs, k + 1);
    }
  }
}
