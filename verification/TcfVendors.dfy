/** `ce`: vendor vectors, written as a bit field or as ranges, whichever the running budget favours. */
module TcfVendors {
  import opened Outcomes
  import opened Sequences
  import opened TcfBits
  import opened TcfVector

  /** A range of ids; a single id when both ends agree. */
  datatype Entry = Entry(first: nat, last: nat) {
    function Ids(): set<nat> {
      Interval(first, last)
    }

    predicate Fits() {
      first < 65536 && last < 65536
    }
  }

  function Covered(es: seq<Entry>): set<nat> {
    if es == [] then {} else es[0].Ids() + Covered(es[1..])
  }

  lemma {:induction false} CoveredAppend(es: seq<Entry>, e: Entry)
    ensures Covered(es + [e]) == Covered(es) + e.Ids()
  {
    if es == [] {
      assert es + [e] == [e];
    } else {
      assert (es + [e])[1..] == es[1..] + [e];
      CoveredAppend(es[1..], e);
    }
  }

  // ---------- The runs of a set of ids ----------

  /** The first id of the run of consecutive ids that contains `l`. */
  function RunStart(ids: set<nat>, l: nat): (a: nat)
    ensures a <= l
  {
    if l > 0 && l - 1 in ids then RunStart(ids, l - 1) else l
  }

  lemma {:induction false} RunStartMeaning(ids: set<nat>, l: nat)
    requires 0 !in ids && l in ids
    ensures var a := RunStart(ids, l); 0 < a && a - 1 !in ids && forall x | a <= x <= l :: x in ids
  {
    if l - 1 in ids {
      RunStartMeaning(ids, l - 1);
    }
  }

  /** The runs that end at or before `l`, in increasing order. */
  function Runs(ids: set<nat>, l: nat): seq<Entry> {
    if l == 0 then []
    else if l in ids && l + 1 !in ids then Runs(ids, l - 1) + [Entry(RunStart(ids, l), l)]
    else Runs(ids, l - 1)
  }

  /** The start of the run that is still open after `l`. */
  function OpenRun(ids: set<nat>, l: nat): Option<nat> {
    if l in ids && l + 1 in ids then Some(RunStart(ids, l)) else None
  }

  lemma RunGrows(ids: set<nat>, l: nat)
    requires 0 !in ids && l > 0 && l in ids
    ensures Entry(RunStart(ids, l), l).Ids()
         == (if l - 1 in ids then Entry(RunStart(ids, l - 1), l - 1).Ids() else {}) + {l}
  {
    RunStartMeaning(ids, l);
  }

  lemma UpToStep(ids: set<nat>, l: nat)
    requires l > 0
    ensures (set x | x in ids && x <= l) == (set x | x in ids && x <= l - 1) + (if l in ids then {l} else {})
  {
  }

  /** The runs together with the open run are exactly the ids up to `l`. */
  lemma {:induction false} RunsCover(ids: set<nat>, l: nat)
    requires 0 !in ids
    ensures Covered(Runs(ids, l)) + (if OpenRun(ids, l).Some? then Entry(RunStart(ids, l), l).Ids() else {})
         == set x | x in ids && x <= l
  {
    hide Entry.Ids, RunStart, Covered;
    if l == 0 {
      NoneCoveredYet(ids);
    } else {
      RunsCover(ids, l - 1);
      UpToStep(ids, l);
      if l in ids {
        RunGrows(ids, l);
        CoveredAppend(Runs(ids, l - 1), Entry(RunStart(ids, l), l));
      }
    }
  }

  lemma NoneCoveredYet(ids: set<nat>)
    requires 0 !in ids
    ensures Covered([]) == {} == set x | x in ids && x <= 0
  {
  }

  /** The runs are maximal: their neighbours are not members, so they lie apart from each other. */
  lemma {:induction false} RunsSeparated(ids: set<nat>, l: nat)
    requires 0 !in ids
    ensures forall e | e in Runs(ids, l) :: 0 < e.first <= e.last <= l && e.first - 1 !in ids && e.last + 1 !in ids
    ensures forall i, j | 0 <= i < j < |Runs(ids, l)| :: Runs(ids, l)[i].last + 1 < Runs(ids, l)[j].first
  {
    if l > 0 {
      RunsSeparated(ids, l - 1);
      if l in ids && l + 1 !in ids {
        RunStartMeaning(ids, l);
        var before := Runs(ids, l - 1);
        forall i | 0 <= i < |before|
          ensures before[i].last + 1 < RunStart(ids, l)
        {
          assert before[i] in before;
        }
      }
    }
  }

  // ---------- The budget that chooses the form ----------

  /** The budget after the ids up to `l`: 16 for a single id, 17 to open a range and 16 to close it. */
  function Budget(ids: set<nat>, l: nat): int {
    if l == 0 then 29
    else
      Budget(ids, l - 1) +
      if l !in ids then 0
      else if l + 1 !in ids then 16
      else if l - 1 in ids then 0
      else 17
  }

  /** The range form is chosen by the comparison made at the largest id. */
  predicate RangeChosen(ids: set<nat>, maxId: nat) {
    maxId > 45 && Budget(ids, maxId - 1) < 17 + maxId
  }

  function Singles(es: seq<Entry>): nat {
    if es == [] then 0 else Singles(es[..|es| - 1]) + if es[|es| - 1].first == es[|es| - 1].last then 1 else 0
  }

  // ---------- Encoding ----------

  ghost function EntryBits(e: Entry): BitString
    requires e.Fits()
  {
    Pow2Values();
    EncodeBool(e.first != e.last) + IntBits(e.first, 16) + if e.first != e.last then IntBits(e.last, 16) else []
  }

  ghost function EntriesBits(es: seq<Entry>): BitString
    requires forall e | e in es :: e.Fits()
  {
    if es == [] then [] else EntryBits(es[0]) + EntriesBits(es[1..])
  }

  /** `buildRangeEncoding`. */
  ghost function EncodeEntries(es: seq<Entry>): Result<BitString, TcfError> {
    Pow2Values();
    if |es| < 4096 && forall e | e in es :: e.Fits() then Success(IntBits(|es|, 12) + EntriesBits(es))
    else Failure(EncodingError)
  }

  /** `ce.encode`. */
  ghost function EncodeVendors(ids: set<nat>): Result<BitString, TcfError> {
    var maxId := MaxId(ids);
    var s :- EncodeInt(maxId, 16);
    if RangeChosen(ids, maxId) then
      var u :- EncodeEntries(Runs(ids, maxId));
      Success(s + [true] + u)
    else
      Success(s + [false] + FixedBits(ids, maxId))
  }

  // ---------- Decoding ----------

  /** The range entries from the cursor `pos` on, added to `ids`; setting id 0 throws. */
  ghost function DecodeRanges(e: BitString, pos: nat, n: nat, ids: set<nat>): Result<(set<nat>, nat), TcfError>
    decreases n
  {
    if n == 0 then Success((ids, pos))
    else
      var first :- ReadInt(e, pos + 1, 16);
      if ReadBool(e, pos) then
        var last :- ReadInt(e, pos + 17, 16);
        if first == 0 then Failure(TCModelError)
        else DecodeRanges(e, pos + 33, n - 1, ids + Interval(first, last))
      else if first == 0 then Failure(TCModelError)
      else DecodeRanges(e, pos + 17, n - 1, ids + {first})
  }

  /** `ce.decode` for version 2: the ids and the number of bits read. */
  ghost function DecodeVendors(e: BitString): Result<(set<nat>, nat), TcfError> {
    var maxId :- ReadInt(e, 0, 16);
    var form :- ReadInt(e, 16, 1);
    if form == 1 then
      var n :- ReadInt(e, 17, 12);
      DecodeRanges(e, 29, n, {})
    else
      var ids :- DecodeFixed(Substr(e, 17, maxId), maxId);
      Success((ids, 17 + maxId))
  }

  // ---------- Round trip ----------

  lemma ReadEntry(e: BitString, pos: nat, x: Entry)
    requires x.Fits() && At(e, pos, EntryBits(x))
    ensures ReadBool(e, pos) == (x.first != x.last)
    ensures ReadInt(e, pos + 1, 16) == Success(x.first)
    ensures x.first != x.last ==> ReadInt(e, pos + 17, 16) == Success(x.last)
    ensures |EntryBits(x)| == if x.first != x.last then 33 else 17
  {
    Pow2Values();
    var isRange, first := EncodeBool(x.first != x.last), IntBits(x.first, 16);
    var last := if x.first != x.last then IntBits(x.last, 16) else [];
    AtConcat(e, pos, isRange + first, last);
    AtConcat(e, pos, isRange, first);
    BoolRoundTrip(e, pos, x.first != x.last);
    IntRoundTrip(e, pos + 1, x.first, 16);
    if x.first != x.last {
      IntRoundTrip(e, pos + 17, x.last, 16);
    }
  }

  lemma {:induction false} RangesRoundTrip(e: BitString, pos: nat, es: seq<Entry>, ids: set<nat>)
    requires forall x | x in es :: x.Fits() && x.first > 0
    requires At(e, pos, EntriesBits(es))
    ensures DecodeRanges(e, pos, |es|, ids) == Success((ids + Covered(es), pos + |EntriesBits(es)|))
    decreases |es|
  {
    hide ReadInt, ReadBool, IntBits;
    if es == [] {
      assert ids + {} == ids;
    } else {
      var x := es[0];
      AtConcat(e, pos, EntryBits(x), EntriesBits(es[1..]));
      ReadEntry(e, pos, x);
      RangesRoundTrip(e, pos + |EntryBits(x)|, es[1..], ids + x.Ids());
      assert x.first == x.last ==> x.Ids() == {x.first};
      assert ids + x.Ids() + Covered(es[1..]) == ids + Covered(es);
    }
  }

  /** The header: the largest id and the form bit. */
  lemma ReadHeader(e: BitString, maxId: nat, form: bool)
    requires EncodeInt(maxId, 16).Success? && At(e, 0, EncodeInt(maxId, 16).value + [form])
    ensures ReadInt(e, 0, 16) == Success(maxId) && ReadInt(e, 16, 1) == Success(if form then 1 else 0)
  {
    hide IntBits;
    AtConcat(e, 0, IntBits(maxId, 16), [form]);
    IntRoundTrip(e, 0, maxId, 16);
    SubstrAt(e, 16, [form]);
  }

  /** All the runs together are the set itself. */
  lemma AllRunsCover(ids: set<nat>, maxId: nat)
    requires 0 !in ids && IsMaxId(maxId, ids)
    ensures Covered(Runs(ids, maxId)) == ids
  {
    RunsCover(ids, maxId);
    assert (set x | x in ids && x <= maxId) == ids;
    assert maxId + 1 !in ids;
  }

  lemma RangeFormRoundTrip(ids: set<nat>, e: BitString)
    requires 0 !in ids && RangeChosen(ids, MaxId(ids))
    requires EncodeVendors(ids).Success? && At(e, 0, EncodeVendors(ids).value)
    ensures DecodeVendors(e) == Success((ids, |EncodeVendors(ids).value|))
  {
    hide ReadInt, ReadBool, IntBits, MaxId, Runs, RangeChosen, DecodeRanges, EntriesBits;
    var maxId := MaxId(ids);
    var es := Runs(ids, maxId);
    var s := EncodeInt(maxId, 16).value;
    Pow2Values();
    var n := IntBits(|es|, 12);
    AtConcat(e, 0, s + [true], n + EntriesBits(es));
    ReadHeader(e, maxId, true);
    AtConcat(e, 17, n, EntriesBits(es));
    IntRoundTrip(e, 17, |es|, 12);
    RunsSeparated(ids, maxId);
    RangesRoundTrip(e, 29, es, {});
    AllRunsCover(ids, maxId);
    assert {} + Covered(es) == ids;
  }

  lemma FieldFormRoundTrip(ids: set<nat>, e: BitString)
    requires 0 !in ids && !RangeChosen(ids, MaxId(ids))
    requires EncodeVendors(ids).Success? && At(e, 0, EncodeVendors(ids).value)
    ensures DecodeVendors(e) == Success((ids, |EncodeVendors(ids).value|))
  {
    hide ReadInt, ReadBool, IntBits, MaxId, RangeChosen, FixedBits;
    var maxId := MaxId(ids);
    var s, f := EncodeInt(maxId, 16).value, FixedBits(ids, maxId);
    AtConcat(e, 0, s + [false], f);
    ReadHeader(e, maxId, false);
    SubstrAt(e, 17, f);
    FixedRoundTrip(ids, maxId);
    assert Within(ids, maxId) == ids;
  }

  /** Whatever form was chosen and whatever bits follow, decoding recovers the ids and stops at the last bit. */
  lemma VendorsRoundTrip(ids: set<nat>, e: BitString)
    requires 0 !in ids && EncodeVendors(ids).Success? && At(e, 0, EncodeVendors(ids).value)
    ensures DecodeVendors(e) == Success((ids, |EncodeVendors(ids).value|))
  {
    if RangeChosen(ids, MaxId(ids)) {
      RangeFormRoundTrip(ids, e);
    } else {
      FieldFormRoundTrip(ids, e);
    }
  }

  // ---------- The cost of the two forms ----------

  /** The budget charges 16 bits for a single id and 33 for a range; an open range has 17 of them so far. */
  lemma {:induction false} BudgetIsCost(ids: set<nat>, l: nat)
    requires 0 !in ids
    ensures var es := Runs(ids, l);
      && Singles(es) <= |es|
      && Budget(ids, l) == 29 + 33 * |es| - 17 * Singles(es) + if OpenRun(ids, l).Some? then 17 else 0
  {
    if l > 0 {
      BudgetIsCost(ids, l - 1);
      var before := Runs(ids, l - 1);
      assert (before + [Entry(RunStart(ids, l), l)])[..|before|] == before;
    }
  }

  lemma {:induction false} EntriesLength(es: seq<Entry>)
    requires forall e | e in es :: e.Fits()
    ensures |EntriesBits(es)| == 33 * |es| - 16 * Singles(es)
  {
    if es != [] {
      EntriesLength(es[1..]);
      SinglesFront(es);
      Pow2Values();
    }
  }

  lemma {:induction false} SinglesFront(es: seq<Entry>)
    requires es != []
    ensures Singles(es) == (if es[0].first == es[0].last then 1 else 0) + Singles(es[1..])
  {
    if |es| > 1 {
      SinglesFront(es[..|es| - 1]);
      assert es[..|es| - 1][1..] == es[1..][..|es| - 2];
    }
  }

  /** The length in bits of the range form, not counting the limits of its fields. */
  function RangeFormLength(ids: set<nat>, maxId: nat): int {
    29 + 33 * |Runs(ids, maxId)| - 16 * Singles(Runs(ids, maxId))
  }

  /** Above id 45, ranges are chosen exactly when they cost at most 15 bits, and one per single id, over the field. */
  lemma FormChoice(ids: set<nat>, maxId: nat)
    requires 0 !in ids && IsMaxId(maxId, ids) && maxId > 45
    ensures RangeChosen(ids, maxId) <==> RangeFormLength(ids, maxId) <= 17 + maxId + 15 + Singles(Runs(ids, maxId))
  {
    BudgetIsCost(ids, maxId);
    assert maxId + 1 !in ids;
  }

  /** The encoding has the length of the form that was chosen. */
  lemma EncodedLength(ids: set<nat>)
    requires 0 !in ids && EncodeVendors(ids).Success?
    ensures var maxId := MaxId(ids);
      |EncodeVendors(ids).value| == if RangeChosen(ids, maxId) then RangeFormLength(ids, maxId) else 17 + maxId
  {
    var maxId := MaxId(ids);
    if RangeChosen(ids, maxId) {
      EntriesLength(Runs(ids, maxId));
      Pow2Values();
    }
  }

  // ---------- When encoding fails ----------

  /** No two of the ids are neighbours. */
  predicate Isolated(ids: set<nat>) {
    forall x, y | x in ids && y in ids :: y != x + 1
  }

  lemma {:induction false} IsolatedRuns(ids: set<nat>, l: nat)
    requires 0 !in ids && Isolated(ids)
    ensures Singles(Runs(ids, l)) == |Runs(ids, l)| == |set x | x in ids && x <= l|
  {
    var upTo := set x | x in ids && x <= l;
    if l == 0 {
      assert upTo == {};
    } else {
      IsolatedRuns(ids, l - 1);
      var before := set x | x in ids && x <= l - 1;
      assert upTo == if l in ids then before + {l} else before;
      assert l in ids ==> l - 1 !in ids;
      var runs := Runs(ids, l - 1);
      assert (runs + [Entry(RunStart(ids, l), l)])[..|runs|] == runs;
    }
  }

  lemma {:induction false} AllSingle(es: seq<Entry>)
    requires Singles(es) == |es|
    ensures forall e | e in es :: e.first == e.last
  {
    if es != [] {
      SinglesBound(es[..|es| - 1]);
      AllSingle(es[..|es| - 1]);
    }
  }

  lemma {:induction false} SinglesBound(es: seq<Entry>)
    ensures Singles(es) <= |es|
  {
    if es != [] {
      SinglesBound(es[..|es| - 1]);
    }
  }

  lemma {:induction false} CoveredBy(es: seq<Entry>, x: nat)
    requires x in Covered(es)
    ensures exists e :: e in es && x in e.Ids()
  {
    if x !in es[0].Ids() {
      CoveredBy(es[1..], x);
    }
  }

  lemma SingleRunsIsolated(ids: set<nat>, maxId: nat)
    requires 0 !in ids && IsMaxId(maxId, ids)
    requires Singles(Runs(ids, maxId)) == |Runs(ids, maxId)|
    ensures Isolated(ids)
  {
    AllSingle(Runs(ids, maxId));
    RunsSeparated(ids, maxId);
    AllRunsCover(ids, maxId);
    forall x | x in ids
      ensures x + 1 !in ids
    {
      CoveredBy(Runs(ids, maxId), x);
    }
  }

  /** The range form overflows its entry count only on 4096 single ids. */
  lemma RangeOverflow(ids: set<nat>, maxId: nat)
    requires 0 !in ids && IsMaxId(maxId, ids) && maxId <= 65535
    ensures var es := Runs(ids, maxId);
      RangeChosen(ids, maxId) && |es| >= 4096 <==> maxId >= 65533 && Singles(es) == |es| == 4096
  {
    BudgetIsCost(ids, maxId);
    assert maxId + 1 !in ids;
  }

  lemma IsolatedIsAllSingle(ids: set<nat>, maxId: nat)
    requires 0 !in ids && IsMaxId(maxId, ids)
    ensures var es := Runs(ids, maxId); Isolated(ids) <==> Singles(es) == |es|
    ensures Isolated(ids) ==> |Runs(ids, maxId)| == |ids|
  {
    if Isolated(ids) {
      IsolatedRuns(ids, maxId);
      assert (set x | x in ids && x <= maxId) == ids;
    } else if Singles(Runs(ids, maxId)) == |Runs(ids, maxId)| {
      SingleRunsIsolated(ids, maxId);
    }
  }

  /** Encoding fails exactly above id 65535, or on 4096 isolated ids that reach to 65533 or beyond. */
  lemma VendorsEncodable(ids: set<nat>)
    requires 0 !in ids
    ensures EncodeVendors(ids).Success? <==>
      MaxId(ids) <= 65535 && !(MaxId(ids) >= 65533 && |ids| == 4096 && Isolated(ids))
  {
    var maxId := MaxId(ids);
    var es := Runs(ids, maxId);
    assert EncodeInt(maxId, 16).Success? <==> maxId <= 65535 by {
      Pow2Values();
    }
    if maxId <= 65535 {
      RangeOverflow(ids, maxId);
      IsolatedIsAllSingle(ids, maxId);
      RunsSeparated(ids, maxId);
      assert EncodeEntries(es).Success? <==> |es| < 4096;
    }
  }

  /** The odd numbers below `n`. */
  function OddsBelow(n: nat): (ids: set<nat>) {
    set x: nat | x < n && x % 2 == 1
  }

  lemma OddsStep(k: nat)
    requires k > 0
    ensures OddsBelow(2 * k) == OddsBelow(2 * k - 2) + {2 * k - 1}
  {
    assert (2 * k - 1) % 2 == 1 && (2 * k - 2) % 2 == 0;
  }

  lemma {:induction false} OddsSize(k: nat)
    ensures |OddsBelow(2 * k)| == k && Isolated(OddsBelow(2 * k))
  {
    if k == 0 {
      assert OddsBelow(0) == {};
    } else {
      OddsSize(k - 1);
      OddsStep(k);
      assert 2 * k - 1 !in OddsBelow(2 * k - 2);
    }
  }

  lemma MaxIdUnique(m: nat, ids: set<nat>)
    requires IsMaxId(m, ids)
    ensures MaxId(ids) == m
  {
  }

  lemma IsolatedInsert(ids: set<nat>, m: nat)
    requires Isolated(ids) && forall x | x in ids :: x + 1 < m
    ensures Isolated(ids + {m}) && |ids + {m}| == |ids| + 1 && IsMaxId(m, ids + {m})
  {
    assert m !in ids;
  }

  /** The first 4095 odd numbers together with 65533 cannot be encoded, although all of them have 16 bits. */
  lemma UnencodableVendors()
    ensures var ids := OddsBelow(8190) + {65533};
      0 !in ids && MaxId(ids) <= 65535 && EncodeVendors(ids).Failure?
  {
    hide EncodeVendors, MaxId;
    var ids := OddsBelow(8190) + {65533};
    OddsSize(4095);
    IsolatedInsert(OddsBelow(8190), 65533);
    MaxIdUnique(65533, ids);
    VendorsEncodable(ids);
  }

  // ---------- The loops ----------

  lemma {:induction false} BudgetMonotone(ids: set<nat>, l: nat)
    requires l > 0
    ensures Budget(ids, l) >= Budget(ids, l - 1)
  {
  }

  predicate AllFit(es: seq<Entry>) {
    forall e | e in es :: e.Fits()
  }

  method EncodeEntryText(e: Entry) returns (r: Result<BitString, TcfError>)
    ensures r == if e.Fits() then Success(EntryBits(e)) else Failure(EncodingError)
  {
    Pow2Values();
    var single := e.first == e.last;
    var i :- EncodeIntText(e.first, 16);
    if single {
      assert EncodeBool(!single) + i + [] == EncodeBool(!single) + i;
      return Success(EncodeBool(!single) + i);
    }
    var last :- EncodeIntText(e.last, 16);
    return Success(EncodeBool(!single) + i + last);
  }

  method EncodeEntriesText(es: seq<Entry>) returns (r: Result<BitString, TcfError>)
    ensures r == EncodeEntries(es)
  {
    Pow2Values();
    var i :- EncodeIntText(|es|, 12);
    ghost var header := i;
    for k := 0 to |es|
      invariant AllFit(es[..k])
      invariant AllFit(es) ==> i + EntriesBits(es[k..]) == header + EntriesBits(es)
    {
      assert es[k..][1..] == es[k + 1..];
      assert es[..k + 1] == es[..k] + [es[k]];
      var bits :- EncodeEntryText(es[k]);
      i := i + bits;
    }
    assert es[..|es|] == es;
    assert i + [] == i;
    return Success(i);
  }

  /**
    `o` is re-evaluated at every id and stops the collection of runs as soon as it turns false. The budget never
    decreases, so when its last value is true no run has been skipped.
   */
  method EncodeVendorsText(v: Vector) returns (r: Result<BitString, TcfError>)
    requires v.Valid()
    ensures r == EncodeVendors(v.ids)
  {
    var s :- EncodeIntText(v.maxId, 16);
    var bits: BitString := [];
    var ranges: seq<Entry>, open: Option<nat> := [], None;
    var c, p, o := 17 + v.maxId, 29, false;
    for l := 1 to v.maxId + 1
      invariant bits == FixedBits(v.ids, l - 1)
      invariant o <==> l > 1 && v.maxId > 45 && Budget(v.ids, l - 2) < c
      invariant v.maxId > 45 && (l > 1 ==> o) ==>
        p == Budget(v.ids, l - 1) && ranges == Runs(v.ids, l - 1) && open == OpenRun(v.ids, l - 1)
      invariant v.maxId > 45 && l > 1 && !o ==> p >= c && Budget(v.ids, l - 2) >= c
    {
      BudgetMonotone(v.ids, l);
      bits := bits + EncodeBool(l in v.ids);
      o := v.maxId > 45 && p < c;
      if o && l in v.ids {
        if l + 1 in v.ids {
          if open.None? {
            open := Some(l);
            p := p + 17;
          }
        } else {
          ranges := ranges + [Entry(if open.Some? then open.value else l, l)];
          open := None;
          p := p + 16;
        }
      }
    }
    MaxIdUnique(v.maxId, v.ids);
    if o {
      var u :- EncodeEntriesText(ranges);
      return Success(s + [true] + u);
    }
    return Success(s + [false] + bits);
  }

  /** Sets the ids from `first` to `last`, throwing at id 0. */
  method SetRange(i: Vector, first: nat, last: nat) returns (r: Result<(), TcfError>)
    requires i.Valid()
    modifies i
    ensures i.Valid()
    ensures r.Failure? <==> first == 0
    ensures r.Failure? ==> r.error == TCModelError
    ensures r.Success? ==> i.ids == old(i.ids) + Interval(first, last)
  {
    var l := first;
    while l <= last
      invariant first <= l
      invariant i.Valid() && (l > first ==> first > 0)
      invariant forall x :: x in i.ids <==> x in old(i.ids) || (first <= x < l && x <= last)
      decreases last + 1 - l
    {
      var ok :- i.Set(l);
      l := l + 1;
    }
    return Success(());
  }

  method DecodeVendorsText(e: BitString) returns (r: Result<Vector, TcfError>)
    ensures r.Failure? <==> DecodeVendors(e).Failure?
    ensures r.Failure? ==> r.error == DecodeVendors(e).error
    ensures r.Success? ==> fresh(r.value) && r.value.Valid()
    ensures r.Success? ==> (r.value.ids, r.value.bitLength) == DecodeVendors(e).value
  {
    var maxId :- ReadInt(e, 0, 16);
    var form :- ReadInt(e, 16, 1);
    var i: Vector;
    var s := 17;
    if form == 1 {
      i := new Vector();
      var a :- ReadInt(e, s, 12);
      s := s + 12;
      for k := 0 to a
        invariant i.Valid() && fresh(i)
        invariant DecodeVendors(e) == DecodeRanges(e, s, a - k, i.ids)
      {
        var first :- ReadInt(e, s + 1, 16);
        if ReadBool(e, s) {
          var last :- ReadInt(e, s + 17, 16);
          s := s + 33;
          var ok :- SetRange(i, first, last);
        } else {
          s := s + 17;
          var ok :- i.Set(first);
        }
      }
    } else {
      i :- DecodeFixedText(Substr(e, s, maxId), maxId);
      s := s + maxId;
    }
    i.bitLength := s;
    return Success(i);
  }
}
