/** `he` and `Ve`: publisher restrictions, whose vendor ids are compressed relative to the vendor list. */
module TcfRestrictions {
  import opened Outcomes
  import opened Sequences
  import opened TcfBits
  import opened TcfVector
  import opened TcfVendors

  datatype PurposeRestriction = PurposeRestriction(purposeId: nat, restrictionType: nat) {
    predicate IsValid() {
      purposeId > 0 && restrictionType <= 2
    }
  }

  predicate Distinct(order: seq<PurposeRestriction>) {
    forall i, j | 0 <= i < j < |order| :: order[i] != order[j]
  }

  /** The map of the vector: its keys in insertion order and the vendor ids of each. */
  datatype Restrictions = Restrictions(order: seq<PurposeRestriction>, vendors: map<PurposeRestriction, set<nat>>) {
    ghost predicate Valid() {
      && (forall k | k in vendors :: k.IsValid() && 0 !in vendors[k])
      && (forall k | k in order :: k in vendors)
      && (forall k | k in vendors :: k in order)
      && Distinct(order)
    }

    /** A new key goes to the end of the order. */
    function AddIds(k: PurposeRestriction, ids: set<nat>): Restrictions {
      if k in vendors then Restrictions(order, vendors[k := vendors[k] + ids])
      else Restrictions(order + [k], vendors[k := ids])
    }
  }

  const NoRestrictions := Restrictions([], map[])

  // ---------- Sorted vendor ids ----------

  ghost predicate IsSorted(r: seq<nat>) {
    forall i, j | 0 <= i < j < |r| :: r[i] < r[j]
  }

  /** The result of `getVendors`. */
  ghost function Sorted(ids: set<nat>): (r: seq<nat>)
    ensures IsSorted(r)
    ensures forall x :: x in r <==> x in ids
  {
    if ids == {} then []
    else
      var m := MaxId(ids);
      var init := Sorted(ids - {m});
      assert forall x | x in init :: x in ids && x != m;
      init + [m]
  }

  // ---------- Grouping ----------

  /** The first id of the vendor list in `o..last`, or `d` when there is none. */
  function NextListed(gvl: set<nat>, d: nat, o: nat, last: nat): (g: nat)
    requires d < o
    ensures g == d || (o <= g <= last && g in gvl)
    ensures forall x | o <= x <= last && (g == d || x < g) :: x !in gvl
    decreases last + 1 - o
  {
    if o > last then d else if o in gvl then o else NextListed(gvl, d, o + 1, last)
  }

  /** The entry that contains the `p`-th vendor ends there. */
  predicate Closes(r: seq<nat>, gvl: set<nat>, p: nat)
    requires p < |r|
  {
    p == |r| - 1 || r[p + 1] > NextListed(gvl, r[p], r[p] + 1, r[|r| - 1])
  }

  /** Where the entry of the `p`-th vendor starts. */
  function GroupStart(r: seq<nat>, gvl: set<nat>, p: nat): (a: nat)
    requires p < |r|
    ensures a <= p
  {
    if p == 0 || Closes(r, gvl, p - 1) then p else GroupStart(r, gvl, p - 1)
  }

  /** The entries completed by the first `p` vendors. */
  function Groups(r: seq<nat>, gvl: set<nat>, p: nat): seq<Entry>
    requires p <= |r|
  {
    if p == 0 then []
    else if Closes(r, gvl, p - 1) then Groups(r, gvl, p - 1) + [Entry(r[GroupStart(r, gvl, p - 1)], r[p - 1])]
    else Groups(r, gvl, p - 1)
  }

  /** What the first `p` vendors stand for: the completed entries and the one in progress. */
  function CoveredSoFar(r: seq<nat>, gvl: set<nat>, p: nat): set<nat>
    requires p <= |r|
  {
    Covered(Groups(r, gvl, p)) +
    if p > 0 && !Closes(r, gvl, p - 1) then Interval(r[GroupStart(r, gvl, p - 1)], r[p - 1]) else {}
  }

  function Prefix(r: seq<nat>, p: nat): (ids: set<nat>)
    requires p <= |r|
    ensures forall x | x in ids :: x in r
  {
    if p == 0 then {} else Prefix(r, p - 1) + {r[p - 1]}
  }

  lemma {:induction false} PrefixHas(r: seq<nat>, p: nat, k: nat)
    requires k < p <= |r|
    ensures r[k] in Prefix(r, p)
  {
    if k < p - 1 {
      PrefixHas(r, p - 1, k);
    }
  }

  lemma NoneCovered(r: seq<nat>, gvl: set<nat>)
    ensures CoveredSoFar(r, gvl, 0) == {}
  {
  }

  lemma CoveredStep(r: seq<nat>, gvl: set<nat>, p: nat)
    requires 0 < p <= |r| && IsSorted(r)
    ensures var a, d := GroupStart(r, gvl, p - 1), r[p - 1];
      if a == p - 1 then CoveredSoFar(r, gvl, p) == CoveredSoFar(r, gvl, p - 1) + {d}
      else CoveredSoFar(r, gvl, p) == CoveredSoFar(r, gvl, p - 1) + Interval(r[p - 2] + 1, d)
  {
    var a, d := GroupStart(r, gvl, p - 1), r[p - 1];
    CoveredAppend(Groups(r, gvl, p - 1), Entry(r[a], d));
    if a == p - 1 {
      assert Interval(d, d) == {d};
    } else {
      assert r[a] <= r[p - 2] < d;
      assert Interval(r[a], d) == Interval(r[a], r[p - 2]) + Interval(r[p - 2] + 1, d);
    }
  }

  /** Between two vendors of one entry there is no id of the vendor list. */
  lemma BetweenUnlisted(r: seq<nat>, gvl: set<nat>, p: nat)
    requires 0 < p <= |r| && GroupStart(r, gvl, p - 1) < p - 1
    ensures forall x | x in Interval(r[p - 2] + 1, r[p - 1]) && x in gvl :: x == r[p - 1]
  {
  }

  /** The vendors so far are covered, and nothing else from the vendor list is. */
  lemma {:induction false} GroupsCover(r: seq<nat>, gvl: set<nat>, p: nat)
    requires IsSorted(r) && p <= |r|
    ensures Prefix(r, p) <= CoveredSoFar(r, gvl, p)
    ensures CoveredSoFar(r, gvl, p) * gvl <= Prefix(r, p)
  {
    hide CoveredSoFar, GroupStart;
    if p == 0 {
      NoneCovered(r, gvl);
    } else {
      GroupsCover(r, gvl, p - 1);
      CoveredStep(r, gvl, p);
      if GroupStart(r, gvl, p - 1) < p - 1 {
        BetweenUnlisted(r, gvl, p);
      }
    }
  }

  ghost function Entries(ids: set<nat>, gvl: set<nat>): seq<Entry> {
    var r := Sorted(ids);
    Groups(r, gvl, |r|)
  }

  /** The ids that the entries written for `ids` stand for. */
  ghost function Widened(ids: set<nat>, gvl: set<nat>): set<nat> {
    Covered(Entries(ids, gvl))
  }

  /** Compression only ever adds ids that are not on the vendor list. */
  lemma WidenedIsExact(ids: set<nat>, gvl: set<nat>)
    ensures ids <= Widened(ids, gvl)
    ensures Widened(ids, gvl) * gvl == ids * gvl
    ensures Widened(ids, gvl) == {} <==> ids == {}
  {
    var r := Sorted(ids);
    GroupsCover(r, gvl, |r|);
    forall x | x in ids
      ensures x in Prefix(r, |r|)
    {
      var k: nat :| k < |r| && r[k] == x;
      PrefixHas(r, |r|, k);
    }
    assert CoveredSoFar(r, gvl, |r|) == Widened(ids, gvl);
  }

  // ---------- What compression adds ----------

  /** No id lies between the two. */
  ghost predicate Neighbours(ids: set<nat>, a: nat, b: nat) {
    a in ids && b in ids && a < b && forall x | a < x < b :: x !in ids
  }

  /** Neighbours share an entry: no listed id lies between them, but one from the second to the greatest id. */
  ghost predicate Joined(ids: set<nat>, gvl: set<nat>, a: nat, b: nat) {
    Neighbours(ids, a, b) && (forall x | a < x < b :: x !in gvl) && exists g :: g in gvl && b <= g <= MaxId(ids)
  }

  /** Two ids that are not adjacent share an entry. */
  ghost predicate Widens(ids: set<nat>, gvl: set<nat>) {
    exists a: nat, b: nat | Joined(ids, gvl, a, b) :: a + 1 < b
  }

  /** The id lies between two ids that share an entry. */
  ghost predicate Swallowed(ids: set<nat>, gvl: set<nat>, x: nat) {
    exists a: nat, b: nat | Joined(ids, gvl, a, b) :: a < x < b
  }

  /** The ids that begin an entry. */
  ghost function Starts(ids: set<nat>, gvl: set<nat>): set<nat> {
    set b | b in ids && forall a :: !Joined(ids, gvl, a, b)
  }

  lemma SortedNeighbours(ids: set<nat>, k: nat)
    requires 0 < k < |Sorted(ids)|
    ensures Neighbours(ids, Sorted(ids)[k - 1], Sorted(ids)[k])
    ensures forall a | Neighbours(ids, a, Sorted(ids)[k]) :: a == Sorted(ids)[k - 1]
  {
    hide Sorted;
    var r := Sorted(ids);
    assert r[k - 1] in r && r[k] in r;
    assert forall i | 0 <= i < |r| :: r[i] <= r[k - 1] || r[k] <= r[i];
    assert forall x | x in r :: x <= r[k - 1] || r[k] <= x;
  }

  lemma SortedLast(ids: set<nat>)
    requires ids != {}
    ensures Sorted(ids) != [] && Sorted(ids)[|Sorted(ids)| - 1] == MaxId(ids)
  {
  }

  /** The sorted loop keeps the entry open exactly between joined neighbours. */
  lemma OpenIsJoined(ids: set<nat>, gvl: set<nat>, k: nat)
    requires 0 < k < |Sorted(ids)|
    ensures Closes(Sorted(ids), gvl, k - 1) <==> !Joined(ids, gvl, Sorted(ids)[k - 1], Sorted(ids)[k])
  {
    hide Sorted;
    var r := Sorted(ids);
    assert r[k] in r;
    SortedLast(ids);
    SortedNeighbours(ids, k);
    var last := r[|r| - 1];
    var g := NextListed(gvl, r[k - 1], r[k - 1] + 1, last);
    if g >= r[k] {
      assert g in gvl && r[k] <= g <= MaxId(ids);
    }
  }

  /** The `k`-th id, or what lies before it in one entry with the id before. */
  predicate Reaches(r: seq<nat>, gvl: set<nat>, k: nat, x: nat)
    requires k < |r|
  {
    x == r[k] || (k > 0 && !Closes(r, gvl, k - 1) && r[k - 1] < x < r[k])
  }

  lemma {:induction false} CoveredMeaning(r: seq<nat>, gvl: set<nat>, p: nat, x: nat)
    requires IsSorted(r) && p <= |r|
    ensures x in CoveredSoFar(r, gvl, p) <==> exists k: nat :: k < p && Reaches(r, gvl, k, x)
  {
    hide CoveredSoFar, Closes;
    if p == 0 {
      NoneCovered(r, gvl);
    } else {
      CoveredMeaning(r, gvl, p - 1, x);
      CoveredStep(r, gvl, p);
      assert GroupStart(r, gvl, p - 1) < p - 1 <==> p - 1 > 0 && !Closes(r, gvl, p - 2);
      assert x in CoveredSoFar(r, gvl, p) <==> x in CoveredSoFar(r, gvl, p - 1) || Reaches(r, gvl, p - 1, x);
    }
  }

  lemma ReachesMeaning(ids: set<nat>, gvl: set<nat>, k: nat, x: nat)
    requires k < |Sorted(ids)| && Reaches(Sorted(ids), gvl, k, x)
    ensures x in ids || Swallowed(ids, gvl, x)
  {
    hide Sorted, Closes, Joined;
    assert Sorted(ids)[k] in Sorted(ids);
    if k > 0 {
      OpenIsJoined(ids, gvl, k);
    }
  }

  lemma SwallowedReached(ids: set<nat>, gvl: set<nat>, x: nat) returns (k: nat)
    requires x in ids || Swallowed(ids, gvl, x)
    ensures k < |Sorted(ids)| && Reaches(Sorted(ids), gvl, k, x)
  {
    hide Sorted, Closes, Joined;
    var r := Sorted(ids);
    if x in ids {
      k :| k < |r| && r[k] == x;
    } else {
      var a: nat, b: nat :| Joined(ids, gvl, a, b) && a < x < b;
      JoinedAt(ids, gvl, a, b);
      k :| 0 < k < |r| && r[k - 1] == a && r[k] == b;
      OpenIsJoined(ids, gvl, k);
    }
  }

  /** Compression adds exactly what lies between joined neighbours. */
  lemma WidenedMeaning(ids: set<nat>, gvl: set<nat>, x: nat)
    ensures x in Widened(ids, gvl) <==> x in ids || Swallowed(ids, gvl, x)
  {
    hide Sorted, Groups, Covered, Reaches, Swallowed;
    var r := Sorted(ids);
    CoveredMeaning(r, gvl, |r|, x);
    assert CoveredSoFar(r, gvl, |r|) == Widened(ids, gvl);
    if x in Widened(ids, gvl) {
      var k: nat :| k < |r| && Reaches(r, gvl, k, x);
      ReachesMeaning(ids, gvl, k, x);
    }
    if x in ids || Swallowed(ids, gvl, x) {
      var k := SwallowedReached(ids, gvl, x);
    }
  }

  lemma JoinedAt(ids: set<nat>, gvl: set<nat>, a: nat, b: nat)
    requires Joined(ids, gvl, a, b)
    ensures exists k: nat :: 0 < k < |Sorted(ids)| && Sorted(ids)[k - 1] == a && Sorted(ids)[k] == b
  {
    hide Sorted;
    var r := Sorted(ids);
    assert a in r && b in r;
    var i :| 0 <= i < |r| && r[i] == a;
    var k :| 0 <= k < |r| && r[k] == b;
    SortedNeighbours(ids, k);
  }

  /** Compression adds nothing exactly when no two ids apart from each other share an entry. */
  lemma WidenedIsSame(ids: set<nat>, gvl: set<nat>)
    ensures Widened(ids, gvl) == ids <==> !Widens(ids, gvl)
  {
    hide Widened, Joined;
    forall x: nat
      ensures x in Widened(ids, gvl) <==> x in ids || Swallowed(ids, gvl, x)
    {
      WidenedMeaning(ids, gvl, x);
    }
    if a: nat, b: nat :| Joined(ids, gvl, a, b) && a + 1 < b {
      JoinedApart(ids, gvl, a, b);
      assert Swallowed(ids, gvl, a + 1) && a + 1 !in ids;
    }
  }

  lemma JoinedApart(ids: set<nat>, gvl: set<nat>, a: nat, b: nat)
    requires Joined(ids, gvl, a, b)
    ensures forall x | a < x < b :: x !in ids
  {
  }

  /** The first ids of the entries begun by the first `p` vendors. */
  function StartsSoFar(r: seq<nat>, gvl: set<nat>, p: nat): (starts: set<nat>)
    requires p <= |r|
    ensures forall x :: x in starts <==> exists k :: 0 <= k < p && x == r[k] && (k == 0 || Closes(r, gvl, k - 1))
  {
    if p == 0 then {}
    else StartsSoFar(r, gvl, p - 1) + if p == 1 || Closes(r, gvl, p - 2) then {r[p - 1]} else {}
  }

  lemma {:induction false} GroupCount(r: seq<nat>, gvl: set<nat>, p: nat)
    requires IsSorted(r) && p <= |r|
    ensures |StartsSoFar(r, gvl, p)| == |Groups(r, gvl, p)| + if p > 0 && !Closes(r, gvl, p - 1) then 1 else 0
  {
    hide NextListed;
    if p > 0 {
      GroupCount(r, gvl, p - 1);
      assert r[p - 1] !in StartsSoFar(r, gvl, p - 1);
    }
  }

  /** There are as many entries as ids that begin one. */
  lemma EntryCount(ids: set<nat>, gvl: set<nat>)
    ensures |Entries(ids, gvl)| == |Starts(ids, gvl)|
  {
    hide Sorted, Groups, Joined;
    var r := Sorted(ids);
    GroupCount(r, gvl, |r|);
    forall x
      ensures x in StartsSoFar(r, gvl, |r|) <==> x in Starts(ids, gvl)
    {
      StartMeaning(ids, gvl, x);
    }
    assert StartsSoFar(r, gvl, |r|) == Starts(ids, gvl);
  }

  lemma StartMeaning(ids: set<nat>, gvl: set<nat>, x: nat)
    ensures x in StartsSoFar(Sorted(ids), gvl, |Sorted(ids)|) <==> x in Starts(ids, gvl)
  {
    hide Sorted, Closes, Joined;
    var r := Sorted(ids);
    if x in r {
      var k :| 0 <= k < |r| && r[k] == x;
      if k > 0 {
        OpenIsJoined(ids, gvl, k);
      }
      forall a | Joined(ids, gvl, a, x)
        ensures k > 0 && a == r[k - 1]
      {
        JoinedAt(ids, gvl, a, x);
      }
    }
  }

  lemma {:induction false} GroupsOrdered(r: seq<nat>, gvl: set<nat>, p: nat)
    requires IsSorted(r) && p <= |r|
    ensures forall e | e in Groups(r, gvl, p) :: e.first <= e.last
  {
    if p > 0 {
      GroupsOrdered(r, gvl, p - 1);
      var a := GroupStart(r, gvl, p - 1);
      assert a == p - 1 || r[a] < r[p - 1];
    }
  }

  /** The entries begin and end at ids, so they fit 16 bits exactly when the ids do. */
  lemma EntriesFit(ids: set<nat>, gvl: set<nat>)
    ensures AllFit(Entries(ids, gvl)) <==> forall x | x in ids :: x <= 65535
  {
    var es := Entries(ids, gvl);
    WidenedIsExact(ids, gvl);
    if AllFit(es) {
      forall x | x in ids
        ensures x <= 65535
      {
        CoveredBy(es, x);
      }
    } else {
      var e :| e in es && !e.Fits();
      GroupEnds(Sorted(ids), gvl, |Sorted(ids)|, e);
    }
  }

  lemma {:induction false} GroupEnds(r: seq<nat>, gvl: set<nat>, p: nat, e: Entry)
    requires p <= |r| && e in Groups(r, gvl, p)
    ensures e.first in r && e.last in r
  {
    if Closes(r, gvl, p - 1) && e == Entry(r[GroupStart(r, gvl, p - 1)], r[p - 1]) {
      assert r[p - 1] in r;
    } else {
      GroupEnds(r, gvl, p - 1, e);
    }
  }

  // ---------- Encoding ----------

  predicate Fits(k: PurposeRestriction, es: seq<Entry>) {
    k.purposeId < 64 && k.restrictionType < 4 && |es| < 4096 && AllFit(es)
  }

  ghost predicate ListFits(order: seq<PurposeRestriction>, rv: Restrictions, gvl: set<nat>) {
    forall k | k in order :: k in rv.vendors && Fits(k, Entries(rv.vendors[k], gvl))
  }

  ghost function RestrictionBits(k: PurposeRestriction, es: seq<Entry>): BitString
    requires Fits(k, es)
  {
    Pow2Values();
    IntBits(k.purposeId, 6) + IntBits(k.restrictionType, 2) + (IntBits(|es|, 12) + EntriesBits(es))
  }

  ghost function ListBits(order: seq<PurposeRestriction>, rv: Restrictions, gvl: set<nat>): BitString
    requires ListFits(order, rv, gvl)
  {
    if order == [] then []
    else RestrictionBits(order[0], Entries(rv.vendors[order[0]], gvl)) + ListBits(order[1..], rv, gvl)
  }

  /** `Ve.encode`, `gvl` being the ids of the vendor list. */
  ghost function EncodeRestrictions(rv: Restrictions, gvl: set<nat>): Result<BitString, TcfError> {
    Pow2Values();
    if |rv.order| < 4096 && ListFits(rv.order, rv, gvl) then
      Success(IntBits(|rv.order|, 12) + ListBits(rv.order, rv, gvl))
    else Failure(EncodingError)
  }

  // ---------- Decoding ----------

  /** `n` range entries of the restriction `k` from the cursor on. An invalid `k` cannot be hashed. */
  ghost function DecodeEntriesInto(e: BitString, pos: nat, n: nat, k: PurposeRestriction, rv: Restrictions)
    : Result<(Restrictions, nat), TcfError>
    decreases n
  {
    if n == 0 then Success((rv, pos))
    else
      var first :- ReadInt(e, pos + 1, 16);
      if ReadBool(e, pos) then
        var last :- ReadInt(e, pos + 17, 16);
        if last < first then Failure(DecodingError)
        else if !k.IsValid() then Failure(OtherError)
        else DecodeEntriesInto(e, pos + 33, n - 1, k, rv.AddIds(k, Interval(first, last)))
      else if !k.IsValid() then Failure(OtherError)
      else DecodeEntriesInto(e, pos + 17, n - 1, k, rv.AddIds(k, {first}))
  }

  ghost function DecodeList(e: BitString, pos: nat, n: nat, rv: Restrictions): Result<(Restrictions, nat), TcfError>
    decreases n
  {
    if n == 0 then Success((rv, pos))
    else
      var purposeId :- ReadInt(e, pos, 6);
      var restrictionType :- ReadInt(e, pos + 6, 2);
      var count :- ReadInt(e, pos + 8, 12);
      var next :- DecodeEntriesInto(e, pos + 20, count, PurposeRestriction(purposeId, restrictionType), rv);
      DecodeList(e, next.1, n - 1, next.0)
  }

  /** `Ve.decode`: the restrictions and the number of bits read. */
  ghost function DecodeRestrictions(e: BitString): Result<(Restrictions, nat), TcfError> {
    var n :- ReadInt(e, 0, 12);
    DecodeList(e, 12, n, NoRestrictions)
  }

  // ---------- Round trip ----------

  /** Adding no ids does not create the key. */
  function WithIds(rv: Restrictions, k: PurposeRestriction, ids: set<nat>): Restrictions {
    if ids == {} then rv else rv.AddIds(k, ids)
  }

  lemma WithIdsTwice(rv: Restrictions, k: PurposeRestriction, a: set<nat>, b: set<nat>)
    ensures WithIds(WithIds(rv, k, a), k, b) == WithIds(rv, k, a + b)
  {
    if a == {} {
      assert a + b == b;
    } else if b == {} {
      assert a + b == a;
    } else if k in rv.vendors {
      assert rv.vendors[k] + a + b == rv.vendors[k] + (a + b);
      assert rv.vendors[k := rv.vendors[k] + a][k := rv.vendors[k] + a + b] == rv.vendors[k := rv.vendors[k] + (a + b)];
    } else {
      assert rv.vendors[k := a][k := a + b] == rv.vendors[k := a + b];
    }
  }

  lemma {:induction false} EntriesIntoRoundTrip(
    e: BitString, pos: nat, es: seq<Entry>, k: PurposeRestriction, rv: Restrictions)
    requires k.IsValid() && AllFit(es) && forall x | x in es :: x.first <= x.last
    requires At(e, pos, EntriesBits(es))
    ensures DecodeEntriesInto(e, pos, |es|, k, rv) == Success((WithIds(rv, k, Covered(es)), pos + |EntriesBits(es)|))
    decreases |es|
  {
    hide ReadInt, ReadBool, IntBits, WithIds;
    if es == [] {
      assert WithIds(rv, k, {}) == rv by {
        WithNoIds(rv, k);
      }
    } else {
      var x := es[0];
      AtConcat(e, pos, EntryBits(x), EntriesBits(es[1..]));
      ReadEntry(e, pos, x);
      WithSomeIds(rv, k, x);
      EntriesIntoRoundTrip(e, pos + |EntryBits(x)|, es[1..], k, WithIds(rv, k, x.Ids()));
      WithIdsTwice(rv, k, x.Ids(), Covered(es[1..]));
    }
  }

  lemma WithNoIds(rv: Restrictions, k: PurposeRestriction)
    ensures WithIds(rv, k, {}) == rv
  {
  }

  lemma WithSomeIds(rv: Restrictions, k: PurposeRestriction, x: Entry)
    requires x.first <= x.last
    ensures rv.AddIds(k, x.Ids()) == WithIds(rv, k, x.Ids())
    ensures x.first == x.last ==> x.Ids() == {x.first}
  {
    assert x.first in x.Ids();
  }

  /** What decoding the list `order` adds to `acc`: the widened vendor ids of each key that has any. */
  ghost function RecoverOnto(order: seq<PurposeRestriction>, rv: Restrictions, gvl: set<nat>, acc: Restrictions)
    : Restrictions
    requires forall k | k in order :: k in rv.vendors
    decreases |order|
  {
    if order == [] then acc
    else RecoverOnto(order[1..], rv, gvl, WithIds(acc, order[0], Widened(rv.vendors[order[0]], gvl)))
  }

  ghost function Recovered(rv: Restrictions, gvl: set<nat>): Restrictions
    requires rv.Valid()
  {
    RecoverOnto(rv.order, rv, gvl, NoRestrictions)
  }

  lemma {:induction false} ListRoundTrip(
    e: BitString, pos: nat, order: seq<PurposeRestriction>, rv: Restrictions, gvl: set<nat>, acc: Restrictions)
    requires ListFits(order, rv, gvl) && forall k | k in order :: k.IsValid()
    requires At(e, pos, ListBits(order, rv, gvl))
    ensures DecodeList(e, pos, |order|, acc)
         == Success((RecoverOnto(order, rv, gvl, acc), pos + |ListBits(order, rv, gvl)|))
    decreases |order|
  {
    hide ReadInt, IntBits, DecodeEntriesInto, EntriesBits, Entries, WithIds, RestrictionBits;
    if order != [] {
      var k, rest := order[0], order[1..];
      var es := Entries(rv.vendors[k], gvl);
      AtConcat(e, pos, RestrictionBits(k, es), ListBits(rest, rv, gvl));
      RestrictionRoundTrip(e, pos, k, rv.vendors[k], gvl, acc);
      var next := WithIds(acc, k, Widened(rv.vendors[k], gvl));
      ListRoundTrip(e, pos + |RestrictionBits(k, es)|, rest, rv, gvl, next);
    }
  }

  lemma RestrictionRoundTrip(
    e: BitString, pos: nat, k: PurposeRestriction, ids: set<nat>, gvl: set<nat>, rv: Restrictions)
    requires var es := Entries(ids, gvl); k.IsValid() && Fits(k, es) && At(e, pos, RestrictionBits(k, es))
    ensures var es := Entries(ids, gvl);
      && ReadInt(e, pos, 6) == Success(k.purposeId)
      && ReadInt(e, pos + 6, 2) == Success(k.restrictionType)
      && ReadInt(e, pos + 8, 12) == Success(|es|)
      && DecodeEntriesInto(e, pos + 20, |es|, k, rv)
      == Success((WithIds(rv, k, Widened(ids, gvl)), pos + |RestrictionBits(k, es)|))
  {
    hide ReadInt, IntBits, WithIds, DecodeEntriesInto, EntriesBits;
    var es := Entries(ids, gvl);
    Pow2Values();
    AtConcat(e, pos, IntBits(k.purposeId, 6) + IntBits(k.restrictionType, 2), IntBits(|es|, 12) + EntriesBits(es));
    AtConcat(e, pos, IntBits(k.purposeId, 6), IntBits(k.restrictionType, 2));
    AtConcat(e, pos + 8, IntBits(|es|, 12), EntriesBits(es));
    IntRoundTrip(e, pos, k.purposeId, 6);
    IntRoundTrip(e, pos + 6, k.restrictionType, 2);
    IntRoundTrip(e, pos + 8, |es|, 12);
    GroupsOrdered(Sorted(ids), gvl, |Sorted(ids)|);
    EntriesIntoRoundTrip(e, pos + 20, es, k, rv);
  }

  /** Decoding reads all the bits and recovers the widened restrictions. */
  lemma RestrictionsRoundTrip(rv: Restrictions, gvl: set<nat>, e: BitString)
    requires rv.Valid() && EncodeRestrictions(rv, gvl).Success?
    requires At(e, 0, EncodeRestrictions(rv, gvl).value)
    ensures DecodeRestrictions(e) == Success((Recovered(rv, gvl), |EncodeRestrictions(rv, gvl).value|))
  {
    hide ReadInt, IntBits, DecodeList, ListBits, Entries, RecoverOnto;
    Pow2Values();
    AtConcat(e, 0, IntBits(|rv.order|, 12), ListBits(rv.order, rv, gvl));
    IntRoundTrip(e, 0, |rv.order|, 12);
    ListRoundTrip(e, 12, rv.order, rv, gvl, NoRestrictions);
  }

  // ---------- What is recovered ----------

  /** The keys of `order` that have vendors. */
  function NonEmpty(order: seq<PurposeRestriction>, rv: Restrictions): seq<PurposeRestriction>
    requires forall k | k in order :: k in rv.vendors
  {
    if order == [] then []
    else (if rv.vendors[order[0]] == {} then [] else [order[0]]) + NonEmpty(order[1..], rv)
  }

  lemma {:induction false} RecoverOrder(
    order: seq<PurposeRestriction>, rv: Restrictions, gvl: set<nat>, acc: Restrictions)
    requires (forall k | k in order :: k in rv.vendors && k !in acc.vendors) && Distinct(order)
    ensures RecoverOnto(order, rv, gvl, acc).order == acc.order + NonEmpty(order, rv)
    decreases |order|
  {
    if order == [] {
      assert acc.order + [] == acc.order;
    } else {
      var k, rest := order[0], order[1..];
      var ids := Widened(rv.vendors[k], gvl);
      WidenedIsExact(rv.vendors[k], gvl);
      hide Widened;
      var next := WithIds(acc, k, ids);
      var head := if ids == {} then [] else [k];
      assert next.order == acc.order + head;
      assert forall x | x in rest :: x in rv.vendors && x !in next.vendors;
      hide WithIds;
      RecoverOrder(rest, rv, gvl, next);
      assert NonEmpty(order, rv) == head + NonEmpty(rest, rv);
      assert RecoverOnto(order, rv, gvl, acc) == RecoverOnto(rest, rv, gvl, next);
      ConcatAssociative(acc.order, head, NonEmpty(rest, rv));
    }
  }

  /** The vendor ids of one key: those it had, unless the list brings it. */
  lemma {:induction false} RecoverKey(
    order: seq<PurposeRestriction>, rv: Restrictions, gvl: set<nat>, acc: Restrictions, x: PurposeRestriction)
    requires (forall k | k in order :: k in rv.vendors) && Distinct(order) && (x in order ==> x !in acc.vendors)
    ensures var result := RecoverOnto(order, rv, gvl, acc).vendors;
      && (x in result <==> x in acc.vendors || (x in order && rv.vendors[x] != {}))
      && (x in result ==> result[x] == if x in acc.vendors then acc.vendors[x] else Widened(rv.vendors[x], gvl))
    decreases |order|
  {
    if order != [] {
      WidenedIsExact(rv.vendors[order[0]], gvl);
      hide Widened;
      RecoverKey(order[1..], rv, gvl, WithIds(acc, order[0], Widened(rv.vendors[order[0]], gvl)), x);
    }
  }

  lemma RecoveredKeys(rv: Restrictions, gvl: set<nat>)
    requires rv.Valid()
    ensures var result := Recovered(rv, gvl);
      && result.order == NonEmpty(rv.order, rv)
      && (forall k :: k in result.vendors <==> k in rv.vendors && rv.vendors[k] != {})
      && (forall k | k in result.vendors :: result.vendors[k] == Widened(rv.vendors[k], gvl))
  {
    RecoverOrder(rv.order, rv, gvl, NoRestrictions);
    assert [] + NonEmpty(rv.order, rv) == NonEmpty(rv.order, rv);
    var result := Recovered(rv, gvl).vendors;
    forall k
      ensures k in result <==> k in rv.vendors && rv.vendors[k] != {}
      ensures k in result ==> result[k] == Widened(rv.vendors[k], gvl)
    {
      RecoverKey(rv.order, rv, gvl, NoRestrictions, k);
    }
  }

  /**
    The recovered vector has the same keys in the same order, save those without vendors. Each keeps all of its
    vendors, and any it gained are not on the vendor list.
   */
  lemma RecoveredIsExact(rv: Restrictions, gvl: set<nat>)
    requires rv.Valid()
    ensures var result := Recovered(rv, gvl);
      && result.order == NonEmpty(rv.order, rv)
      && (forall k :: k in result.vendors <==> k in rv.vendors && rv.vendors[k] != {})
      && (forall k | k in result.vendors ::
            rv.vendors[k] <= result.vendors[k] && result.vendors[k] * gvl == rv.vendors[k] * gvl)
  {
    RecoveredKeys(rv, gvl);
    hide Recovered, Widened, IsSorted, Distinct;
    forall k | k in Recovered(rv, gvl).vendors {
      WidenedIsExact(rv.vendors[k], gvl);
    }
  }

  lemma {:induction false} NonEmptyAll(order: seq<PurposeRestriction>, rv: Restrictions)
    requires forall k | k in order :: k in rv.vendors
    ensures NonEmpty(order, rv) == order <==> forall k | k in order :: rv.vendors[k] != {}
    ensures |NonEmpty(order, rv)| <= |order|
    ensures |NonEmpty(order, rv)| == |order| ==> NonEmpty(order, rv) == order
  {
    if order != [] {
      NonEmptyAll(order[1..], rv);
      assert order == [order[0]] + order[1..];
    }
  }

  /** A vector is recovered unchanged exactly when no key is without vendors and no set of vendors is widened. */
  lemma RecoveredIsSame(rv: Restrictions, gvl: set<nat>)
    requires rv.Valid()
    ensures Recovered(rv, gvl) == rv <==>
      forall k | k in rv.vendors :: rv.vendors[k] != {} && !Widens(rv.vendors[k], gvl)
  {
    hide Recovered, Widened, Widens, NonEmpty, IsSorted, Distinct;
    RecoveredKeys(rv, gvl);
    NonEmptyAll(rv.order, rv);
    forall k | k in rv.vendors {
      WidenedIsSame(rv.vendors[k], gvl);
    }
    if forall k | k in rv.vendors :: rv.vendors[k] != {} && !Widens(rv.vendors[k], gvl) {
      assert Recovered(rv, gvl).vendors == rv.vendors;
    }
  }

  // ---------- The loops ----------

  /** `getVendors` of one restriction: its ids in increasing order. */
  method GetVendors(ids: set<nat>) returns (r: seq<nat>)
    ensures r == Sorted(ids)
  {
    r := [];
    var rest := ids;
    while rest != {}
      invariant Sorted(rest) + r == Sorted(ids)
    {
      var m :| m in rest && forall x | x in rest :: x <= m by { var greatest := MaxId(rest); }
      MaxIdUnique(m, rest);
      ConcatAssociative(Sorted(rest - {m}), [m], r);
      r := [m] + r;
      rest := rest - {m};
    }
    assert [] + r == r;
  }

  method FindNextListed(gvl: set<nat>, s: nat, last: nat) returns (g: nat)
    ensures g == NextListed(gvl, s, s + 1, last)
  {
    var o := s + 1;
    while o <= last
      invariant o > s && NextListed(gvl, s, o, last) == NextListed(gvl, s, s + 1, last)
      decreases last + 1 - o
    {
      if o in gvl {
        return o;
      }
      o := o + 1;
    }
    return s;
  }

  lemma {:induction false} EntriesBitsAppend(es: seq<Entry>, x: Entry)
    requires AllFit(es) && x.Fits()
    ensures AllFit(es + [x]) && EntriesBits(es + [x]) == EntriesBits(es) + EntryBits(x)
  {
    if es == [] {
      assert es + [x] == [x];
    } else {
      assert (es + [x])[1..] == es[1..] + [x];
      EntriesBitsAppend(es[1..], x);
      ConcatAssociative(EntryBits(es[0]), EntriesBits(es[1..]), EntryBits(x));
    }
  }

  lemma {:induction false} GroupsGrow(r: seq<nat>, gvl: set<nat>, p: nat, q: nat)
    requires p <= q <= |r|
    ensures forall e | e in Groups(r, gvl, p) :: e in Groups(r, gvl, q)
    decreases q
  {
    if p < q {
      GroupsGrow(r, gvl, p, q - 1);
    }
  }

  /** The loop variable `c` before the `p`-th vendor: the first id of the entry in progress, or 0. */
  function StartInProgress(r: seq<nat>, gvl: set<nat>, p: nat): nat
    requires p <= |r|
  {
    if p > 0 && !Closes(r, gvl, p - 1) then r[GroupStart(r, gvl, p - 1)] else 0
  }

  lemma NoGroups(r: seq<nat>, gvl: set<nat>)
    ensures Groups(r, gvl, 0) == [] && EntriesBits([]) == [] && StartInProgress(r, gvl, 0) == 0
  {
  }

  lemma GroupStep(r: seq<nat>, gvl: set<nat>, p: nat)
    requires p < |r| && forall x | x in r :: x > 0
    ensures var c := StartInProgress(r, gvl, p);
      var start := if c == 0 then r[p] else c;
      if Closes(r, gvl, p) then
        Groups(r, gvl, p + 1) == Groups(r, gvl, p) + [Entry(start, r[p])] && StartInProgress(r, gvl, p + 1) == 0
      else Groups(r, gvl, p + 1) == Groups(r, gvl, p) && StartInProgress(r, gvl, p + 1) == start > 0
  {
    assert r[GroupStart(r, gvl, p)] in r && r[p] in r;
    if p > 0 {
      assert r[GroupStart(r, gvl, p - 1)] in r;
    }
  }

  /**
    The loop over the vendors of one restriction: the number of entries and their bits. `c` is the start of the entry
    in progress, 0 meaning none, and `a` counts the entries begun.
   */
  method EncodeGroups(r: seq<nat>, gvl: set<nat>) returns (result: Result<(nat, BitString), TcfError>)
    requires forall x | x in r :: x > 0
    ensures var es := Groups(r, gvl, |r|);
      result == if AllFit(es) then Success((|es|, EntriesBits(es))) else Failure(EncodingError)
  {
    hide EntryBits, Groups, StartInProgress, EntriesBits;
    var o := |r|;
    var a, c := 0, 0;
    var u: BitString := [];
    NoGroups(r, gvl);
    for p := 0 to o
      invariant AllFit(Groups(r, gvl, p)) && u == EntriesBits(Groups(r, gvl, p))
      invariant c == StartInProgress(r, gvl, p) && (p == o ==> c == 0)
      invariant a == |Groups(r, gvl, p)| + if c > 0 then 1 else 0
    {
      var d := r[p];
      GroupStep(r, gvl, p);
      if c == 0 {
        a := a + 1;
        c := d;
      }
      var next := FindNextListed(gvl, d, r[o - 1]);
      if p == o - 1 || r[p + 1] > next {
        GroupsGrow(r, gvl, p + 1, o);
        var bits :- EncodeEntryText(Entry(c, d));
        EntriesBitsAppend(Groups(r, gvl, p), Entry(c, d));
        u := u + bits;
        c := 0;
      }
    }
    return Success((a, u));
  }

  /** The body of the loop over the restrictions. */
  method EncodeRestrictionText(k: PurposeRestriction, ids: set<nat>, gvl: set<nat>)
    returns (result: Result<BitString, TcfError>)
    requires 0 !in ids
    ensures var es := Entries(ids, gvl);
      result == if Fits(k, es) then Success(RestrictionBits(k, es)) else Failure(EncodingError)
  {
    hide Groups, EntriesBits, AllFit, IntBits;
    Pow2Values();
    var t1 :- EncodeIntText(k.purposeId, 6);
    var t2 :- EncodeIntText(k.restrictionType, 2);
    var r := GetVendors(ids);
    var u :- EncodeGroups(r, gvl);
    var n :- EncodeIntText(u.0, 12);
    return Success(t1 + t2 + (n + u.1));
  }

  lemma ListStep(order: seq<PurposeRestriction>, rv: Restrictions, gvl: set<nat>, i: nat)
    requires i <= |order| && forall k | k in order :: k in rv.vendors
    ensures i == |order| ==> ListFits(order[i..], rv, gvl) && ListBits(order[i..], rv, gvl) == []
    ensures i < |order| ==>
      var es := Entries(rv.vendors[order[i]], gvl);
      && (ListFits(order[i..], rv, gvl) <==> Fits(order[i], es) && ListFits(order[i + 1..], rv, gvl))
      && (ListFits(order[i..], rv, gvl) ==>
           ListBits(order[i..], rv, gvl) == RestrictionBits(order[i], es) + ListBits(order[i + 1..], rv, gvl))
  {
    hide Entries, Fits, RestrictionBits;
    if i < |order| {
      assert order[i..] == [order[i]] + order[i + 1..];
    }
  }

  method EncodeRestrictionsText(rv: Restrictions, gvl: set<nat>) returns (r: Result<BitString, TcfError>)
    requires rv.Valid()
    ensures r == EncodeRestrictions(rv, gvl)
  {
    hide Entries, EntriesBits, IntBits, Fits, RestrictionBits, ListFits, ListBits;
    Pow2Values();
    var t :- EncodeIntText(|rv.order|, 12);
    ghost var header := t;
    assert rv.order[0..] == rv.order;
    for i := 0 to |rv.order|
      invariant ListFits(rv.order[i..], rv, gvl) <==> ListFits(rv.order, rv, gvl)
      invariant ListFits(rv.order[i..], rv, gvl) ==>
        t + ListBits(rv.order[i..], rv, gvl) == header + ListBits(rv.order, rv, gvl)
    {
      ListStep(rv.order, rv, gvl, i);
      var bits :- EncodeRestrictionText(rv.order[i], rv.vendors[rv.order[i]], gvl);
      if ListFits(rv.order[i + 1..], rv, gvl) {
        ConcatAssociative(t, bits, ListBits(rv.order[i + 1..], rv, gvl));
      }
      t := t + bits;
    }
    ListStep(rv.order, rv, gvl, |rv.order|);
    assert t + [] == t;
    return Success(t);
  }

  lemma AddIdsStep(rv: Restrictions, k: PurposeRestriction, first: nat, m: nat)
    requires first <= m
    ensures rv.AddIds(k, Interval(first, m))
         == (if m > first then rv.AddIds(k, Interval(first, m - 1)) else rv).AddIds(k, {m})
  {
    if m > first {
      WithIdsTwice(rv, k, Interval(first, m - 1), {m});
      assert first in Interval(first, m - 1);
      assert Interval(first, m) == Interval(first, m - 1) + {m};
    } else {
      assert Interval(first, m) == {m};
    }
  }

  /** The vector that decoding fills; without a vendor list every id may be added. */
  class PurposeRestrictionVector {
    var entries: Restrictions
    var bitLength: nat

    constructor ()
      ensures entries == NoRestrictions && bitLength == 0
    {
      entries, bitLength := NoRestrictions, 0;
    }

    method Add(id: nat, k: PurposeRestriction) returns (r: Result<(), TcfError>)
      modifies this
      ensures r == if k.IsValid() then Success(()) else Failure(OtherError)
      ensures entries == if k.IsValid() then old(entries).AddIds(k, {id}) else old(entries)
    {
      if !k.IsValid() {
        return Failure(OtherError);
      }
      if k !in entries.vendors {
        bitLength := 0;
      }
      entries := entries.AddIds(k, {id});
      return Success(());
    }

    /** Adds the ids from `first` to `last`. */
    method AddRange(first: nat, last: nat, k: PurposeRestriction) returns (r: Result<(), TcfError>)
      requires first <= last
      modifies this
      ensures r == if k.IsValid() then Success(()) else Failure(OtherError)
      ensures k.IsValid() ==> entries == old(entries).AddIds(k, Interval(first, last))
    {
      var m := first;
      while m <= last
        invariant first <= m <= last + 1
        invariant m > first ==> k.IsValid() && entries == old(entries).AddIds(k, Interval(first, m - 1))
        invariant m == first ==> entries == old(entries)
        decreases last + 1 - m
      {
        var ok :- Add(m, k);
        AddIdsStep(old(entries), k, first, m);
        m := m + 1;
      }
      return Success(());
    }

    /** One pass of the loop over the range entries of `k`, `n` of which are left. */
    method DecodeEntriesIntoText(e: BitString, pos: nat, n: nat, k: PurposeRestriction)
      returns (r: Result<nat, TcfError>)
      modifies this
      ensures var spec := DecodeEntriesInto(e, pos, n, k, old(entries));
        && (r.Success? <==> spec.Success?)
        && (r.Success? ==> (entries, r.value) == spec.value)
        && (r.Failure? ==> r.error == spec.error)
    {
      var t := pos;
      for p := 0 to n
        invariant DecodeEntriesInto(e, pos, n, k, old(entries)) == DecodeEntriesInto(e, t, n - p, k, entries)
      {
        var isRange := ReadBool(e, t);
        var l :- ReadInt(e, t + 1, 16);
        if isRange {
          var y :- ReadInt(e, t + 17, 16);
          if y < l {
            return Failure(DecodingError);
          }
          t := t + 33;
          var ok :- AddRange(l, y, k);
        } else {
          t := t + 17;
          var ok :- Add(l, k);
        }
      }
      return Success(t);
    }
  }

  method DecodeRestrictionsText(e: BitString) returns (r: Result<PurposeRestrictionVector, TcfError>)
    ensures r.Success? <==> DecodeRestrictions(e).Success?
    ensures r.Success? ==> fresh(r.value) && (r.value.entries, r.value.bitLength) == DecodeRestrictions(e).value
    ensures r.Failure? ==> r.error == DecodeRestrictions(e).error
  {
    hide ReadInt, DecodeEntriesInto;
    var i := new PurposeRestrictionVector();
    var s :- ReadInt(e, 0, 12);
    var t := 12;
    for k := 0 to s
      invariant fresh(i)
      invariant DecodeRestrictions(e) == DecodeList(e, t, s - k, i.entries)
    {
      var o :- ReadInt(e, t, 6);
      var a :- ReadInt(e, t + 6, 2);
      var u :- ReadInt(e, t + 8, 12);
      t :- i.DecodeEntriesIntoText(e, t + 20, u, PurposeRestriction(o, a));
    }
    i.bitLength := t;
    return Success(i);
  }
}
