/** A second pass through the codec: what was decoded is encoded to the same string again. */
module TcfSecondPass {
  import opened Outcomes
  import opened Sequences
  import opened TcfBits
  import opened TcfVector
  import opened TcfVendors
  import opened TcfRestrictions
  import opened TcfFields
  import opened TcfSegments
  import Base64 = TcfBase64Url

  // ---------- Widening twice ----------

  lemma WidenedHas(ids: set<nat>, gvl: set<nat>)
    ensures forall x: nat :: x in Widened(ids, gvl) <==> x in ids || Swallowed(ids, gvl, x)
  {
    hide Widened, Swallowed;
    forall x: nat
      ensures x in Widened(ids, gvl) <==> x in ids || Swallowed(ids, gvl, x)
    {
      WidenedMeaning(ids, gvl, x);
    }
  }

  /** Between two joined ids everything is covered. */
  lemma JoinedCovered(ids: set<nat>, gvl: set<nat>, a: nat, b: nat)
    requires Joined(ids, gvl, a, b)
    ensures forall x | a <= x <= b :: x in Widened(ids, gvl)
  {
    hide Widened, Joined;
    WidenedHas(ids, gvl);
    JoinedMembers(ids, gvl, a, b);
  }

  lemma JoinedMembers(ids: set<nat>, gvl: set<nat>, a: nat, b: nat)
    requires Joined(ids, gvl, a, b)
    ensures a in ids && b in ids && a < b
  {
  }

  /** Widening does not reach beyond the greatest id. */
  lemma WidenedMax(ids: set<nat>, gvl: set<nat>)
    ensures MaxId(Widened(ids, gvl)) == MaxId(ids)
  {
    hide Widened, Joined;
    WidenedHas(ids, gvl);
    forall x: nat | x in Widened(ids, gvl)
      ensures x <= MaxId(ids)
    {
      if Swallowed(ids, gvl, x) {
        var a: nat, b: nat :| Joined(ids, gvl, a, b) && a < x < b;
        JoinedMembers(ids, gvl, a, b);
      }
    }
    if ids == {} {
      assert Widened(ids, gvl) == {} by { WidenedIsExact(ids, gvl); }
    } else {
      assert MaxId(ids) in Widened(ids, gvl);
    }
  }

  /** What lies on either side of an added id is covered too. */
  lemma SwallowedSides(ids: set<nat>, gvl: set<nat>, x: nat)
    requires Swallowed(ids, gvl, x)
    ensures x > 0 && x - 1 in Widened(ids, gvl) && x + 1 in Widened(ids, gvl)
  {
    hide Widened, Joined;
    var a: nat, b: nat :| Joined(ids, gvl, a, b) && a < x < b;
    JoinedCovered(ids, gvl, a, b);
  }

  /** Original ids that are joined in the widened set were so before. */
  lemma OldJoined(ids: set<nat>, gvl: set<nat>, a: nat, b: nat)
    requires a in ids && b in ids && Joined(Widened(ids, gvl), gvl, a, b)
    ensures Joined(ids, gvl, a, b)
  {
    hide Widened;
    WidenedHas(ids, gvl);
    WidenedMax(ids, gvl);
  }

  /** Ids that share an entry of the widened set are adjacent. */
  lemma WidenedAdjacent(ids: set<nat>, gvl: set<nat>, a: nat, b: nat)
    requires Joined(Widened(ids, gvl), gvl, a, b)
    ensures b == a + 1
  {
    var w := Widened(ids, gvl);
    var next := a + 1;
    assert next in w by {
      hide Widened, Joined;
      WidenedHas(ids, gvl);
      JoinedMembers(w, gvl, a, b);
      if Swallowed(ids, gvl, a) {
        SwallowedSides(ids, gvl, a);
      } else if Swallowed(ids, gvl, b) {
        SwallowedSides(ids, gvl, b);
        LastBefore(w, gvl, a, b);
      } else {
        OldJoined(ids, gvl, a, b);
        JoinedCovered(ids, gvl, a, b);
      }
    }
  }

  lemma LastBefore(ids: set<nat>, gvl: set<nat>, a: nat, b: nat)
    requires Joined(ids, gvl, a, b) && b - 1 in ids
    ensures b == a + 1
  {
  }

  /** Compression has nothing left to add. */
  lemma WidenedOnce(ids: set<nat>, gvl: set<nat>)
    ensures !Widens(Widened(ids, gvl), gvl) && Widened(Widened(ids, gvl), gvl) == Widened(ids, gvl)
  {
    hide Widened, Joined;
    forall a: nat, b: nat | Joined(Widened(ids, gvl), gvl, a, b)
      ensures b == a + 1
    {
      WidenedAdjacent(ids, gvl, a, b);
    }
    WidenedIsSame(Widened(ids, gvl), gvl);
  }

  /** A covered id that is joined to the one before it in the original set is so in the widened one. */
  lemma WidenedJoined(ids: set<nat>, gvl: set<nat>, a: nat, b: nat, x: nat)
    requires Joined(ids, gvl, a, b) && a < x <= b
    ensures Joined(Widened(ids, gvl), gvl, x - 1, x)
  {
    hide Widened;
    JoinedCovered(ids, gvl, a, b);
    WidenedMax(ids, gvl);
  }

  /** An original id that is joined to the one before it in the widened set was joined to some id before. */
  lemma OldPredecessor(ids: set<nat>, gvl: set<nat>, a: nat, b: nat) returns (p: nat)
    requires b in ids && Joined(Widened(ids, gvl), gvl, a, b)
    ensures Joined(ids, gvl, p, b)
  {
    hide Widened;
    WidenedHas(ids, gvl);
    WidenedAdjacent(ids, gvl, a, b);
    if a in ids {
      OldJoined(ids, gvl, a, b);
      p := a;
    } else {
      var q: nat;
      p, q :| Joined(ids, gvl, p, q) && p < a < q;
      assert q == b;
    }
  }

  /** The same ids begin an entry of the widened set. */
  lemma SameStarts(ids: set<nat>, gvl: set<nat>)
    ensures Starts(Widened(ids, gvl), gvl) == Starts(ids, gvl)
  {
    hide Widened, Joined;
    var w := Widened(ids, gvl);
    WidenedHas(ids, gvl);
    forall b: nat
      ensures b in Starts(w, gvl) <==> b in Starts(ids, gvl)
    {
      if b in ids {
        if a: nat :| Joined(w, gvl, a, b) {
          var p := OldPredecessor(ids, gvl, a, b);
        }
        if a: nat :| Joined(ids, gvl, a, b) {
          JoinedMembers(ids, gvl, a, b);
          WidenedJoined(ids, gvl, a, b, b);
        }
      } else if b in w {
        var p: nat, q: nat :| Joined(ids, gvl, p, q) && p < b < q;
        WidenedJoined(ids, gvl, p, q, b);
      }
    }
  }

  // ---------- The entries are determined by what they cover and where they begin ----------

  ghost predicate Ordered(es: seq<Entry>) {
    && (forall i | 0 <= i < |es| :: es[i].first <= es[i].last)
    && forall i, j | 0 <= i < j < |es| :: es[i].last < es[j].first
  }

  function Firsts(es: seq<Entry>): set<nat> {
    set e | e in es :: e.first
  }

  lemma {:induction false} GroupsApart(r: seq<nat>, gvl: set<nat>, p: nat)
    requires IsSorted(r) && p <= |r|
    ensures Ordered(Groups(r, gvl, p))
    ensures p < |r| ==>
      forall i | 0 <= i < |Groups(r, gvl, p)| :: Groups(r, gvl, p)[i].last < r[GroupStart(r, gvl, p)]
  {
    hide Closes;
    if p > 0 {
      GroupsApart(r, gvl, p - 1);
    }
  }

  lemma FirstsAppend(es: seq<Entry>, e: Entry)
    ensures Firsts(es + [e]) == Firsts(es) + {e.first} && Firsts([]) == {}
  {
    assert forall x :: x in es + [e] <==> x in es || x == e;
  }

  lemma {:induction false} GroupFirsts(r: seq<nat>, gvl: set<nat>, p: nat)
    requires p <= |r|
    ensures Firsts(Groups(r, gvl, p)) + (if p > 0 && !Closes(r, gvl, p - 1) then {r[GroupStart(r, gvl, p - 1)]} else {})
         == StartsSoFar(r, gvl, p)
  {
    hide Closes, Firsts;
    if p == 0 {
      FirstsAppend([], Entry(0, 0));
    } else {
      GroupFirsts(r, gvl, p - 1);
      FirstsAppend(Groups(r, gvl, p - 1), Entry(r[GroupStart(r, gvl, p - 1)], r[p - 1]));
    }
  }

  lemma EntriesMeaning(ids: set<nat>, gvl: set<nat>)
    ensures Ordered(Entries(ids, gvl)) && Firsts(Entries(ids, gvl)) == Starts(ids, gvl)
  {
    hide Sorted, Groups, Firsts, Ordered, Starts, Closes;
    var r := Sorted(ids);
    GroupsApart(r, gvl, |r|);
    GroupFirsts(r, gvl, |r|);
    LastCloses(r, gvl);
    forall x: nat
      ensures x in StartsSoFar(r, gvl, |r|) <==> x in Starts(ids, gvl)
    {
      StartMeaning(ids, gvl, x);
    }
  }

  lemma LastCloses(r: seq<nat>, gvl: set<nat>)
    ensures r != [] ==> Closes(r, gvl, |r| - 1)
  {
  }

  lemma {:induction false} CoveredFrom(es: seq<Entry>, x: nat)
    ensures x in Covered(es) <==> exists i :: 0 <= i < |es| && es[i].first <= x <= es[i].last
  {
    if es != [] {
      CoveredFrom(es[1..], x);
      assert forall i | 0 < i < |es| :: es[i] == es[1..][i - 1];
      if i :| 0 <= i < |es[1..]| && es[1..][i].first <= x <= es[1..][i].last {
        assert es[i + 1] == es[1..][i];
      }
    }
  }

  /** The first entry begins at the least covered number and is not longer than the other's first. */
  lemma HeadFits(es: seq<Entry>, fs: seq<Entry>)
    requires Ordered(es) && Ordered(fs) && es != []
    requires Covered(es) == Covered(fs) && Firsts(es) == Firsts(fs)
    ensures fs != [] && es[0].first >= fs[0].first
    ensures es[0].first == fs[0].first ==> fs[0].last <= es[0].last
  {
    CoveredFrom(es, es[0].first);
    CoveredFrom(fs, es[0].first);
    assert es[0].first in Covered(fs);
    assert fs != [];
    if es[0].first == fs[0].first {
      var x := fs[0].last;
      CoveredFrom(es, x);
      CoveredFrom(fs, x);
      var j :| 0 <= j < |es| && es[j].first <= x <= es[j].last;
      assert es[j] in es && es[j].first in Firsts(fs);
      var e :| e in fs && e.first == es[j].first;
      var i :| 0 <= i < |fs| && fs[i] == e;
      assert i == 0;
      assert j == 0;
    }
  }

  lemma {:induction false} EntriesUnique(es: seq<Entry>, fs: seq<Entry>)
    requires Ordered(es) && Ordered(fs) && Covered(es) == Covered(fs) && Firsts(es) == Firsts(fs)
    ensures es == fs
    decreases |es|
  {
    hide Firsts, Covered;
    if es == [] {
      if fs != [] {
        HeadFits(fs, es);
      }
    } else {
      HeadFits(es, fs);
      HeadFits(fs, es);
      assert es[0] == fs[0];
      TailsAgree(es, fs);
      EntriesUnique(es[1..], fs[1..]);
      assert es == [es[0]] + es[1..] && fs == [fs[0]] + fs[1..];
    }
  }

  lemma TailsAgree(es: seq<Entry>, fs: seq<Entry>)
    requires Ordered(es) && Ordered(fs) && es != [] && fs != [] && es[0] == fs[0]
    requires Covered(es) == Covered(fs) && Firsts(es) == Firsts(fs)
    ensures Ordered(es[1..]) && Ordered(fs[1..])
    ensures Covered(es[1..]) == Covered(fs[1..]) && Firsts(es[1..]) == Firsts(fs[1..])
  {
    TailMeaning(es);
    TailMeaning(fs);
  }

  lemma TailMeaning(es: seq<Entry>)
    requires Ordered(es) && es != []
    ensures Ordered(es[1..])
    ensures Covered(es[1..]) == set x | x in Covered(es) && x > es[0].last
    ensures Firsts(es[1..]) == Firsts(es) - {es[0].first}
  {
    hide Firsts;
    var rest := es[1..];
    assert forall i | 0 <= i < |rest| :: rest[i] == es[i + 1];
    forall x: nat | x in Covered(rest)
      ensures x > es[0].last
    {
      CoveredFrom(rest, x);
    }
    TailFirsts(es);
  }

  lemma TailFirsts(es: seq<Entry>)
    requires es != [] && forall i | 0 < i < |es| :: es[i].first > es[0].first
    ensures Firsts(es[1..]) == Firsts(es) - {es[0].first}
  {
    var rest := es[1..];
    assert es == [es[0]] + rest;
    assert forall e :: e in es <==> e == es[0] || e in rest;
    assert forall e | e in rest :: e.first > es[0].first;
  }

  /** The entries of a widened set are those of the original one. */
  lemma SameEntries(ids: set<nat>, gvl: set<nat>)
    ensures Entries(Widened(ids, gvl), gvl) == Entries(ids, gvl)
  {
    hide Entries, Ordered, Firsts, Starts, Covered, Widens;
    var w := Widened(ids, gvl);
    WidenedOnce(ids, gvl);
    EntriesMeaning(ids, gvl);
    EntriesMeaning(w, gvl);
    SameStarts(ids, gvl);
    EntriesUnique(Entries(w, gvl), Entries(ids, gvl));
  }

  // ---------- Restrictions ----------

  lemma {:induction false} NonEmptyMembers(order: seq<PurposeRestriction>, rv: Restrictions, k: PurposeRestriction)
    requires forall k | k in order :: k in rv.vendors
    ensures k in NonEmpty(order, rv) <==> k in order && rv.vendors[k] != {}
  {
    if order != [] {
      NonEmptyMembers(order[1..], rv, k);
      assert order == [order[0]] + order[1..];
    }
  }

  lemma DistinctTail(order: seq<PurposeRestriction>)
    requires order != [] && Distinct(order)
    ensures Distinct(order[1..]) && order[0] !in order[1..]
  {
  }

  lemma DistinctCons(k: PurposeRestriction, rest: seq<PurposeRestriction>)
    requires Distinct(rest) && k !in rest
    ensures Distinct([k] + rest)
  {
  }

  lemma {:induction false} NonEmptyDistinct(order: seq<PurposeRestriction>, rv: Restrictions)
    requires (forall k | k in order :: k in rv.vendors) && Distinct(order)
    ensures Distinct(NonEmpty(order, rv))
  {
    hide Distinct;
    if order == [] {
      assert Distinct([]) by { NoneDistinct(); }
    } else {
      var rest := NonEmpty(order[1..], rv);
      DistinctTail(order);
      NonEmptyDistinct(order[1..], rv);
      NonEmptyMembers(order[1..], rv, order[0]);
      DistinctCons(order[0], rest);
      assert [] + rest == rest;
    }
  }

  lemma NoneDistinct()
    ensures Distinct([])
  {
  }

  lemma WidenedPositive(ids: set<nat>, gvl: set<nat>)
    requires 0 !in ids
    ensures 0 !in Widened(ids, gvl)
  {
    hide Widened, Joined;
    WidenedHas(ids, gvl);
  }

  lemma RecoveredVendors(rv: Restrictions, gvl: set<nat>, k: PurposeRestriction)
    requires rv.Valid() && k in Recovered(rv, gvl).vendors
    ensures k in rv.vendors && rv.vendors[k] != {} && k.IsValid()
    ensures Recovered(rv, gvl).vendors[k] == Widened(rv.vendors[k], gvl) != {} && 0 !in Recovered(rv, gvl).vendors[k]
  {
    RecoveredKeys(rv, gvl);
    hide Recovered, Widened, Distinct, NonEmpty;
    WidenedPositive(rv.vendors[k], gvl);
    WidenedIsExact(rv.vendors[k], gvl);
  }

  /** The restrictions recovered have the shape of restrictions, and each has vendors. */
  lemma RecoveredValid(rv: Restrictions, gvl: set<nat>)
    requires rv.Valid()
    ensures Recovered(rv, gvl).Valid() && |Recovered(rv, gvl).order| <= |rv.order|
    ensures forall k | k in Recovered(rv, gvl).vendors ::
      && k in rv.vendors && rv.vendors[k] != {}
      && Recovered(rv, gvl).vendors[k] == Widened(rv.vendors[k], gvl) != {}
  {
    hide Recovered, Widened, Distinct, NonEmpty;
    RecoveredKeys(rv, gvl);
    NonEmptyDistinct(rv.order, rv);
    NonEmptyAll(rv.order, rv);
    forall k
      ensures k in NonEmpty(rv.order, rv) <==> k in rv.order && rv.vendors[k] != {}
    {
      NonEmptyMembers(rv.order, rv, k);
    }
    forall k | k in Recovered(rv, gvl).vendors
      ensures k in rv.vendors && rv.vendors[k] != {} && k.IsValid() && 0 !in Recovered(rv, gvl).vendors[k]
      ensures Recovered(rv, gvl).vendors[k] == Widened(rv.vendors[k], gvl) != {}
    {
      RecoveredVendors(rv, gvl, k);
    }
  }

  predicate NoneEmpty(rv: Restrictions) {
    forall k | k in rv.vendors :: rv.vendors[k] != {}
  }

  lemma {:induction false} SameList(order: seq<PurposeRestriction>, rv: Restrictions, rv': Restrictions, gvl: set<nat>)
    requires forall k | k in order :: k in rv.vendors && k in rv'.vendors
    requires forall k | k in order :: Entries(rv'.vendors[k], gvl) == Entries(rv.vendors[k], gvl)
    ensures ListFits(order, rv', gvl) <==> ListFits(order, rv, gvl)
    ensures ListFits(order, rv, gvl) ==> ListBits(order, rv', gvl) == ListBits(order, rv, gvl)
  {
    hide Entries, Fits, RestrictionBits;
    if order != [] {
      assert order == [order[0]] + order[1..];
      SameList(order[1..], rv, rv', gvl);
    }
  }

  /** The recovered restrictions are encoded to the same bits exactly if no restriction was without vendors. */
  lemma SameRestrictions(rv: Restrictions, gvl: set<nat>)
    requires rv.Valid() && EncodeRestrictions(rv, gvl).Success?
    ensures EncodeRestrictions(Recovered(rv, gvl), gvl) == EncodeRestrictions(rv, gvl) <==> NoneEmpty(rv)
  {
    hide Recovered, Entries, Widened, Fits, ListFits, ListBits, IntBits;
    var rv' := Recovered(rv, gvl);
    RecoveredKeys(rv, gvl);
    NonEmptyAll(rv.order, rv);
    if NoneEmpty(rv) {
      forall k | k in rv.order
        ensures k in rv'.vendors && Entries(rv'.vendors[k], gvl) == Entries(rv.vendors[k], gvl)
      {
        SameEntries(rv.vendors[k], gvl);
      }
      SameList(rv.order, rv, rv', gvl);
    }
    if EncodeRestrictions(rv', gvl) == EncodeRestrictions(rv, gvl) {
      SameCount(rv, rv', gvl);
    }
  }

  lemma SameCount(rv: Restrictions, rv': Restrictions, gvl: set<nat>)
    requires EncodeRestrictions(rv, gvl).Success? && EncodeRestrictions(rv', gvl) == EncodeRestrictions(rv, gvl)
    ensures |rv'.order| == |rv.order|
  {
    hide ListFits, ListBits, IntBits;
    Pow2Values();
    var n, n' := IntBits(|rv.order|, 12), IntBits(|rv'.order|, 12);
    assert (n + ListBits(rv.order, rv, gvl))[..12] == n;
    assert (n' + ListBits(rv'.order, rv', gvl))[..12] == n';
    assert ValueOf(n) == |rv.order| && ValueOf(n') == |rv'.order|;
  }

  // ---------- Fields ----------

  lemma KeptFits(encoder: Encoder, w: nat, v: Value, gvl: set<nat>)
    requires Fitting(v, encoder)
    ensures Fitting(KeptAs(encoder, w, v, gvl), encoder)
  {
    hide Recovered;
    if v.Restricted? && v.rv.Valid() {
      RecoveredValid(v.rv, gvl);
    }
  }

  /** What the codec keeps of a value is a value that it keeps. */
  lemma KeptForGood(encoder: Encoder, w: nat, v: Value, gvl: set<nat>)
    requires Sized(encoder, w) && Fitting(v, encoder) && Encodable(encoder, w, v, gvl)
    ensures var kept := KeptAs(encoder, w, v, gvl);
      && Fitting(kept, encoder) && Encodable(encoder, w, kept, gvl) && Canonical(encoder, w, kept, gvl)
      && KeptAs(encoder, w, kept, gvl) == kept
  {
    hide Recovered, Widened, Widens, Starts, Isolated, Pow2;
    KeptFits(encoder, w, v, gvl);
    if encoder == RestrictionEncoder {
      RestrictionsForGood(v.rv, gvl);
    }
    KeptIsCanonical(encoder, w, KeptAs(encoder, w, v, gvl), gvl);
  }

  lemma RestrictionsForGood(rv: Restrictions, gvl: set<nat>)
    requires rv.Valid()
    ensures |Recovered(rv, gvl).order| <= |rv.order|
    ensures forall k | k in Recovered(rv, gvl).vendors ::
      var ids := Recovered(rv, gvl).vendors[k];
      && k in rv.vendors && ids != {} && !Widens(ids, gvl)
      && Starts(ids, gvl) == Starts(rv.vendors[k], gvl) && MaxId(ids) == MaxId(rv.vendors[k])
  {
    hide Recovered, Widened, Widens, Starts;
    RecoveredValid(rv, gvl);
    forall k | k in Recovered(rv, gvl).vendors
      ensures
        var ids := Recovered(rv, gvl).vendors[k];
        && !Widens(ids, gvl)
        && Starts(ids, gvl) == Starts(rv.vendors[k], gvl) && MaxId(ids) == MaxId(rv.vendors[k])
    {
      WidenedOnce(rv.vendors[k], gvl);
      SameStarts(rv.vendors[k], gvl);
      WidenedMax(rv.vendors[k], gvl);
    }
  }

  /** A value keeps its bits through a second pass; of restrictions, those with vendors. */
  predicate KeepsBits(v: Value) {
    v.Restricted? ==> NoneEmpty(v.rv)
  }

  lemma SameBits(encoder: Encoder, w: nat, v: Value, gvl: set<nat>)
    requires Sized(encoder, w) && Fitting(v, encoder) && EncodeAs(encoder, w, v, gvl).Success? && KeepsBits(v)
    ensures EncodeAs(encoder, w, KeptAs(encoder, w, v, gvl), gvl) == EncodeAs(encoder, w, v, gvl)
  {
    hide Recovered, EncodeRestrictions, EncodeVendors, IntBits, NoneEmpty;
    match encoder
    case FixedVectorEncoder => assert FixedBits(Within(v.ids, w), w) == FixedBits(v.ids, w);
    case RestrictionEncoder => SameRestrictions(v.rv, gvl);
    case _ =>
  }

  // ---------- The string ----------

  /** The two models are encoded alike. */
  ghost predicate Alike(m: Model, d: Model, f: Field, gvl: set<nat>) {
    f in m && f in d && EncodeField(d[f], f, Custom(d), gvl) == EncodeField(m[f], f, Custom(m), gvl)
  }

  lemma {:induction false} SameFields(m: Model, d: Model, fs: seq<Field>, gvl: set<nat>)
    requires forall f | f in fs :: Alike(m, d, f, gvl)
    ensures EncodeFields(d, fs, gvl) == EncodeFields(m, fs, gvl)
  {
    hide EncodeField, Custom;
    if fs != [] {
      assert fs == [fs[0]] + fs[1..];
      assert Alike(m, d, fs[0], gvl);
      SameFields(m, d, fs[1..], gvl);
    }
  }

  lemma {:induction false} SameParts(m: Model, d: Model, segments: seq<Segment>, gvl: set<nat>)
    requires IsVersion2(m) && IsVersion2(d) && forall f | f in FieldsOf(segments) :: Alike(m, d, f, gvl)
    ensures EncodeParts(d, segments, gvl) == EncodeParts(m, segments, gvl)
  {
    hide EncodeFields, FieldSequence, Alike, Base64.Encode;
    if segments != [] {
      assert forall f | f in FieldSequence(segments[0]) :: f in FieldSet(FieldSequence(segments[0]));
      SameFields(m, d, FieldSequence(segments[0]), gvl);
      SameParts(m, d, segments[1..], gvl);
    }
  }

  /** The width of a field is carried along with it. */
  lemma {:induction false} WidthCarried(segments: seq<Segment>, f: Field)
    requires f in FieldsOf(segments) && IsPublisherCustom(f)
    ensures NumCustomPurposes in FieldsOf(segments)
  {
    var fs := FieldSequence(segments[0]);
    if f in FieldSet(fs) {
      var i :| 0 <= i < |fs| && fs[i] == f;
      assert segments[0] == PublisherTC && fs[2] == NumCustomPurposes;
    } else {
      WidthCarried(segments[1..], f);
    }
  }

  lemma TransmittedTyped(m: Model, carried: set<Field>, gvl: set<nat>, t: Model)
    requires WellTyped(m) && WellTyped(t)
    ensures WellTyped(Transmitted(m, carried, gvl, t))
    ensures NumCustomPurposes in carried ==> Custom(Transmitted(m, carried, gvl, t)) == Custom(m)
  {
    hide KeptAs, EncoderOf, Width, Fitting;
    var d := Transmitted(m, carried, gvl, t);
    forall f: Field
      ensures f in d && Fitting(d[f], EncoderOf(f))
    {
      KeptFits(EncoderOf(f), Width(f, Custom(m)), m[f], gvl);
    }
    CustomKept(m, gvl);
  }

  lemma CustomKept(m: Model, gvl: set<nat>)
    requires WellTyped(m)
    ensures Kept(m[NumCustomPurposes], NumCustomPurposes, Custom(m), gvl) == m[NumCustomPurposes]
  {
  }

  lemma TransmittedAlike(m: Model, carried: set<Field>, gvl: set<nat>, t: Model, f: Field)
    requires WellTyped(m) && WellTyped(t) && f in carried && IsEncodable(m, f, gvl) && KeepsBits(m[f])
    requires IsPublisherCustom(f) ==> NumCustomPurposes in carried
    ensures Alike(m, Transmitted(m, carried, gvl, t), f, gvl)
  {
    hide EncodeAs, KeptAs, EncoderOf, Width, Fitting, Encodable, Custom, KeepsBits;
    var d := Transmitted(m, carried, gvl, t);
    TransmittedTyped(m, carried, gvl, t);
    WidthAgrees(f, m, d);
    if Skipped(f, Custom(m)) {
      SkippedIsEmpty(m, f, gvl);
      SkippedIsEmpty(d, f, gvl);
    } else {
      FieldEncodable(EncoderOf(f), Width(f, Custom(m)), m[f], gvl);
      SameBits(EncoderOf(f), Width(f, Custom(m)), m[f], gvl);
    }
  }

  lemma CoreFirst(segments: seq<Segment>)
    requires segments != [] && segments[0] == Core
    ensures Version in FieldsOf(segments)
  {
    assert FieldSequence(Core)[0] == Version;
  }

  lemma VersionKept(m: Model, gvl: set<nat>)
    requires IsVersion2(m)
    ensures Kept(m[Version], Version, Custom(m), gvl) == Int(2)
  {
  }

  lemma CountAt(rv: Restrictions, gvl: set<nat>, s: BitString, pos: nat)
    requires EncodeRestrictions(rv, gvl).Success? && At(s, pos, EncodeRestrictions(rv, gvl).value)
    ensures ReadInt(s, pos, 12) == Success(|rv.order|)
  {
    hide ListBits, ListFits, IntBits;
    Pow2Values();
    AtConcat(s, pos, IntBits(|rv.order|, 12), ListBits(rv.order, rv, gvl));
    IntRoundTrip(s, pos, |rv.order|, 12);
  }

  /** Where the restrictions begin in the bits of the fields, the number of them can be read. */
  lemma {:induction false} SameCountIn(m: Model, d: Model, fs: seq<Field>, gvl: set<nat>, s: BitString, pos: nat)
    requires WellTyped(m) && WellTyped(d) && PublisherRestrictions in fs
    requires forall f | f in fs && f != PublisherRestrictions :: Alike(m, d, f, gvl)
    requires EncodeFields(m, fs, gvl).Success? && At(s, pos, EncodeFields(m, fs, gvl).value)
    requires EncodeFields(d, fs, gvl).Success? && At(s, pos, EncodeFields(d, fs, gvl).value)
    ensures RestrictionCount(m) == RestrictionCount(d)
    decreases |fs|
  {
    hide EncodeAs, Custom, Fitting, WellTyped, At, RestrictionCount, EncoderOf, Width;
    var f, rest := fs[0], fs[1..];
    assert fs == [f] + rest;
    AtConcat(s, pos, EncodeField(m[f], f, Custom(m), gvl).value, EncodeFields(m, rest, gvl).value);
    AtConcat(s, pos, EncodeField(d[f], f, Custom(d), gvl).value, EncodeFields(d, rest, gvl).value);
    if f == PublisherRestrictions {
      CountInField(m, gvl, s, pos);
      CountInField(d, gvl, s, pos);
    } else {
      assert Alike(m, d, f, gvl);
      SameCountIn(m, d, rest, gvl, s, pos + |EncodeField(m[f], f, Custom(m), gvl).value|);
    }
  }

  ghost function RestrictionCount(m: Model): nat {
    if PublisherRestrictions in m && m[PublisherRestrictions].Restricted? then
      |m[PublisherRestrictions].rv.order|
    else 0
  }

  lemma CountInField(m: Model, gvl: set<nat>, s: BitString, pos: nat)
    requires WellTyped(m) && PublisherRestrictions in m
    requires var e := EncodeField(m[PublisherRestrictions], PublisherRestrictions, Custom(m), gvl);
      e.Success? && At(s, pos, e.value)
    ensures ReadInt(s, pos, 12) == Success(RestrictionCount(m))
  {
    hide EncodeRestrictions, ReadInt, At;
    CountAt(m[PublisherRestrictions].rv, gvl, s, pos);
  }

  /** The fields follow the type in the bits of an encoded segment. */
  lemma FieldsInSegment(m: Model, segment: Segment, gvl: set<nat>) returns (s: BitString)
    requires WellTyped(m) && EncodeSegment(m, segment, gvl).Success?
    ensures Base64.Decode(EncodeSegment(m, segment, gvl).value) == Success(s)
    ensures EncodeFields(m, FieldSequence(segment), gvl).Success?
    ensures At(s, |TypeBits(segment)|, EncodeFields(m, FieldSequence(segment), gvl).value)
  {
    hide EncodeFields, WellTyped, FieldSequence, TypeBits, Base64.Encode, Base64.Decode, At;
    var b := SegmentBits(m, segment, gvl).value;
    SegmentBitsStart(m, segment, gvl);
    Base64.DecodeEncode(b);
    s := b + Zeros(Base64.Padding(|b|));
    AtPrefix(b, Zeros(Base64.Padding(|b|)));
    AtConcat(s, 0, TypeBits(segment), EncodeFields(m, FieldSequence(segment), gvl).value);
  }

  lemma SameCountInSegment(m: Model, d: Model, segment: Segment, gvl: set<nat>)
    requires WellTyped(m) && WellTyped(d) && PublisherRestrictions in FieldSequence(segment)
    requires forall f | f in FieldSequence(segment) && f != PublisherRestrictions :: Alike(m, d, f, gvl)
    requires EncodeSegment(m, segment, gvl).Success? && EncodeSegment(d, segment, gvl) == EncodeSegment(m, segment, gvl)
    ensures RestrictionCount(m) == RestrictionCount(d)
  {
    hide EncodeSegment, EncodeFields, WellTyped, Alike, FieldSequence, TypeBits, RestrictionCount, Base64.Decode, At;
    var s := FieldsInSegment(m, segment, gvl);
    var s' := FieldsInSegment(d, segment, gvl);
    SameCountIn(m, d, FieldSequence(segment), gvl, s, |TypeBits(segment)|);
  }

  lemma {:induction false} SameCountInParts(m: Model, d: Model, segments: seq<Segment>, gvl: set<nat>)
    requires WellTyped(m) && WellTyped(d) && PublisherRestrictions in FieldsOf(segments)
    requires forall f | f in FieldsOf(segments) && f != PublisherRestrictions :: Alike(m, d, f, gvl)
    requires EncodeParts(m, segments, gvl).Success? && EncodeParts(d, segments, gvl) == EncodeParts(m, segments, gvl)
    ensures RestrictionCount(m) == RestrictionCount(d)
  {
    hide EncodeSegment, WellTyped, Alike, FieldSequence, RestrictionCount;
    var parts, parts' := EncodeParts(m, segments, gvl).value, EncodeParts(d, segments, gvl).value;
    assert parts[0] == parts'[0] && parts[1..] == parts'[1..];
    if PublisherRestrictions in FieldSet(FieldSequence(segments[0])) {
      SameCountInSegment(m, d, segments[0], gvl);
    } else {
      SameCountInParts(m, d, segments[1..], gvl);
    }
  }

  /** Equal strings have equal parts. */
  lemma SameStringParts(m: Model, d: Model, segments: seq<Segment>, gvl: set<nat>, text: string)
    requires WellTyped(m) && WellTyped(d) && segments != []
    requires EncodeTcString(m, segments, gvl) == Success(text) && EncodeTcString(d, segments, gvl) == Success(text)
    ensures EncodeParts(d, segments, gvl) == EncodeParts(m, segments, gvl)
  {
    hide EncodeParts, WellTyped;
    PartsHaveNoDot(m, segments, gvl);
    PartsHaveNoDot(d, segments, gvl);
    SplitJoin(EncodeParts(m, segments, gvl).value, '.');
    SplitJoin(EncodeParts(d, segments, gvl).value, '.');
  }

  lemma RecoveredCount(rv: Restrictions, gvl: set<nat>)
    requires rv.Valid() && |Recovered(rv, gvl).order| == |rv.order|
    ensures NoneEmpty(rv)
  {
    RecoveredKeys(rv, gvl);
    hide Recovered;
    NonEmptyAll(rv.order, rv);
  }

  lemma CountKept(m: Model, gvl: set<nat>, carried: set<Field>, t: Model)
    requires WellTyped(m) && WellTyped(t) && PublisherRestrictions in carried
    requires RestrictionCount(Transmitted(m, carried, gvl, t)) == RestrictionCount(m)
    ensures KeepsBits(m[PublisherRestrictions])
  {
    hide Recovered, NoneEmpty;
    var v := m[PublisherRestrictions];
    assert Transmitted(m, carried, gvl, t)[PublisherRestrictions] == Restricted(Recovered(v.rv, gvl));
    RecoveredCount(v.rv, gvl);
  }

  /** What was decoded is encoded to the very same string exactly if it carries no restriction without vendors. */
  lemma SecondPass(m: Model, segments: seq<Segment>, gvl: set<nat>, text: string, t: Model, d: Model)
    requires WellTyped(m) && WellTyped(t)
    requires EncodeTcString(m, segments, gvl) == Success(text) && DecodeTcString(text, t) == Success(d)
    ensures WellTyped(d)
    ensures EncodeTcString(d, segments, gvl) == Success(text) <==>
      (PublisherRestrictions in FieldsOf(segments) ==> KeepsBits(m[PublisherRestrictions]))
  {
    hide EncodeParts, DecodeTcString, FieldsOf, Fitting, KeptAs, Alike, EncoderOf, Width, KeepsBits, Transmitted;
    hide RestrictionCount;
    TcStringRoundTrip(m, segments, gvl, t);
    PartsEncodable(m, segments, gvl);
    TransmittedTyped(m, FieldsOf(segments), gvl, t);
    CarriedAlike(m, segments, gvl, t);
    DecodedVersion(m, segments, gvl, t);
    if PublisherRestrictions in FieldsOf(segments) ==> KeepsBits(m[PublisherRestrictions]) {
      SameParts(m, d, segments, gvl);
    } else if EncodeTcString(d, segments, gvl) == Success(text) {
      SameStringParts(m, d, segments, gvl, text);
      SameCountInParts(m, d, segments, gvl);
      CountKept(m, gvl, FieldsOf(segments), t);
    }
  }

  lemma CarriedAlike(m: Model, segments: seq<Segment>, gvl: set<nat>, t: Model)
    requires WellTyped(m) && WellTyped(t) && forall f | f in FieldsOf(segments) :: IsEncodable(m, f, gvl)
    ensures forall f | f in FieldsOf(segments) && (f == PublisherRestrictions ==> KeepsBits(m[f])) ::
      Alike(m, Transmitted(m, FieldsOf(segments), gvl, t), f, gvl)
  {
    hide FieldsOf, Alike, KeepsBits, Transmitted, Fitting, Encodable;
    forall f | f in FieldsOf(segments) && (f == PublisherRestrictions ==> KeepsBits(m[f]))
      ensures Alike(m, Transmitted(m, FieldsOf(segments), gvl, t), f, gvl)
    {
      if IsPublisherCustom(f) {
        WidthCarried(segments, f);
      }
      OnlyRestrictions(m, f);
      TransmittedAlike(m, FieldsOf(segments), gvl, t, f);
    }
  }

  lemma DecodedVersion(m: Model, segments: seq<Segment>, gvl: set<nat>, t: Model)
    requires WellTyped(m) && WellTyped(t) && segments != [] && IsVersion2(m) && (segments[0] == Core || IsVersion2(t))
    ensures IsVersion2(Transmitted(m, FieldsOf(segments), gvl, t))
  {
    hide KeptAs, FieldsOf;
    VersionKept(m, gvl);
    if segments[0] == Core {
      CoreFirst(segments);
    }
  }

  lemma OnlyRestrictions(m: Model, f: Field)
    requires WellTyped(m) && (f == PublisherRestrictions ==> KeepsBits(m[f]))
    ensures KeepsBits(m[f])
  {
  }
}
