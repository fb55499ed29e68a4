/**
  Where everything stands in the bits of a consent string of version 2, at the offsets and widths of "Transparency and
  Consent String with Global Vendor & CMP List Formats".
 */
module TcfLayout {
  import opened Outcomes
  import opened Sequences
  import opened TcfBits
  import opened TcfVector
  import opened TcfVendors
  import opened TcfRestrictions
  import opened TcfFields
  import opened TcfSegments
  import Base64 = TcfBase64Url

  // ---------- What stands at an offset ----------

  /** A number of `w` bits. */
  predicate IntAt(s: BitString, pos: nat, w: nat, n: int) {
    pos + w <= |s| && ValueOf(s[pos..pos + w]) == n
  }

  predicate FlagAt(s: BitString, pos: nat, b: bool) {
    pos < |s| && s[pos] == b
  }

  /** The letters "A" to "Z", in either case, are the numbers 0 to 25. */
  predicate LetterAt(s: BitString, pos: nat, c: char) {
    if 'a' <= c <= 'z' then IntAt(s, pos, 6, (c - 'a') as int)
    else 'A' <= c <= 'Z' && IntAt(s, pos, 6, (c - 'A') as int)
  }

  predicate LettersAt(s: BitString, pos: nat, code: string) {
    |code| >= 2 && LetterAt(s, pos, code[0]) && LetterAt(s, pos + 6, code[1])
  }

  /** One bit for each of the ids from 1 to `w`. */
  predicate IdsAt(s: BitString, pos: nat, w: nat, ids: set<nat>) {
    pos + w <= |s| && forall x: nat | 1 <= x <= w :: x in ids <==> s[pos + x - 1]
  }

  /** Range entries up to `end`: a flag that tells a range from a single id, the first id, and a range's last. */
  predicate EntriesAt(s: BitString, pos: nat, es: seq<Entry>, end: nat)
    decreases |es|
  {
    if es == [] then pos == end
    else
      && FlagAt(s, pos, es[0].first != es[0].last)
      && IntAt(s, pos + 1, 16, es[0].first)
      && if es[0].first == es[0].last then EntriesAt(s, pos + 17, es[1..], end)
         else IntAt(s, pos + 17, 16, es[0].last) && EntriesAt(s, pos + 33, es[1..], end)
  }

  /** The greatest id, the form bit, and the ids either as the maximal ranges of them or as one bit each. */
  ghost predicate VendorsAt(s: BitString, pos: nat, ids: set<nat>, end: nat) {
    var maxId := MaxId(ids);
    var runs := Runs(ids, maxId);
    && IntAt(s, pos, 16, maxId)
    && FlagAt(s, pos + 16, maxId > 45 && 29 + 33 * |runs| - 16 * Singles(runs) <= 17 + maxId + 15 + Singles(runs))
    && if s[pos + 16] then IntAt(s, pos + 17, 12, |runs|) && EntriesAt(s, pos + 29, runs, end)
       else IdsAt(s, pos + 17, maxId, ids) && end == pos + 17 + maxId
  }

  /** For each restriction the purpose, the type, the number of its entries and these. */
  ghost predicate RestrictionListAt(
    s: BitString, pos: nat, order: seq<PurposeRestriction>, rv: Restrictions, gvl: set<nat>, end: nat)
    decreases |order|
  {
    if order == [] then pos == end
    else
      && order[0] in rv.vendors
      && var es := Entries(rv.vendors[order[0]], gvl);
      && IntAt(s, pos, 6, order[0].purposeId)
      && IntAt(s, pos + 6, 2, order[0].restrictionType)
      && IntAt(s, pos + 8, 12, |es|)
      && exists next :: EntriesAt(s, pos + 20, es, next) && RestrictionListAt(s, next, order[1..], rv, gvl, end)
  }

  ghost predicate RestrictionsAt(s: BitString, pos: nat, rv: Restrictions, gvl: set<nat>, end: nat) {
    IntAt(s, pos, 12, |rv.order|) && RestrictionListAt(s, pos + 12, rv.order, rv, gvl, end)
  }

  /** Only zeros follow, up to a multiple of 24 bits. */
  predicate PaddedFrom(s: BitString, end: nat) {
    end <= |s| < end + 24 && |s| % 24 == 0 && forall i | end <= i < |s| :: !s[i]
  }

  // ---------- The values of a model ----------

  function IntOf(m: Model, f: Field): int {
    if f in m && m[f].Int? then m[f].n else -1
  }

  /** Milliseconds, rounded to tenths of a second, halves up. */
  function TenthsOf(m: Model, f: Field): int {
    if f in m && m[f].Date? then (m[f].ms + 50) / 100 else -1
  }

  function BoolOf(m: Model, f: Field): bool {
    f in m && m[f].Bool? && m[f].b
  }

  function CodeOf(m: Model, f: Field): string {
    if f in m && m[f].Lang? then m[f].code else ""
  }

  function IdsOf(m: Model, f: Field): set<nat> {
    if f in m && m[f].Ids? then m[f].ids else {}
  }

  function RestrictionsOf(m: Model): Restrictions {
    if PublisherRestrictions in m && m[PublisherRestrictions].Restricted? then m[PublisherRestrictions].rv
    else NoRestrictions
  }

  // ---------- The encoders ----------

  lemma IntBitsAt(s: BitString, pos: nat, n: nat, w: nat)
    requires w > 0 && n < Pow2(w) && At(s, pos, IntBits(n, w))
    ensures IntAt(s, pos, w, n)
  {
    assert s[pos..pos + w] == IntBits(n, w);
  }

  lemma {:induction false} EntriesLayout(s: BitString, pos: nat, es: seq<Entry>)
    requires AllFit(es) && At(s, pos, EntriesBits(es))
    ensures EntriesAt(s, pos, es, pos + |EntriesBits(es)|)
    decreases |es|
  {
    hide At, IntBits, IntAt;
    if es != [] {
      EntryLayout(s, pos, es[0], EntriesBits(es[1..]));
      EntriesLayout(s, pos + |EntryBits(es[0])|, es[1..]);
    }
  }

  lemma EntryLayout(s: BitString, pos: nat, e: Entry, rest: BitString)
    requires e.Fits() && At(s, pos, EntryBits(e) + rest)
    ensures FlagAt(s, pos, e.first != e.last) && IntAt(s, pos + 1, 16, e.first)
    ensures e.first != e.last ==> IntAt(s, pos + 17, 16, e.last)
    ensures |EntryBits(e)| == (if e.first != e.last then 33 else 17) && At(s, pos + |EntryBits(e)|, rest)
  {
    hide IntBits, IntAt;
    Pow2Values();
    var flag, first := EncodeBool(e.first != e.last), IntBits(e.first, 16);
    var last := if e.first != e.last then IntBits(e.last, 16) else [];
    AtConcat(s, pos, EntryBits(e), rest);
    AtConcat(s, pos, flag + first, last);
    AtConcat(s, pos, flag, first);
    OneAt(s, pos, e.first != e.last);
    IntBitsAt(s, pos + 1, e.first, 16);
    if e.first != e.last {
      IntBitsAt(s, pos + 17, e.last, 16);
    }
  }

  /** The form bit is set exactly above id 45, when ranges cost at most 15 bits, and one per single id, more. */
  lemma VendorsLayout(s: BitString, pos: nat, ids: set<nat>)
    requires 0 !in ids && EncodeVendors(ids).Success? && At(s, pos, EncodeVendors(ids).value)
    ensures VendorsAt(s, pos, ids, pos + |EncodeVendors(ids).value|)
  {
    hide IntBits, IntAt, FixedBits, EntriesBits, EntriesAt, IdsAt, FlagAt, Runs, RangeChosen, At, MaxId, Singles;
    Pow2Values();
    var maxId := MaxId(ids);
    var chosen := RangeChosen(ids, maxId);
    var rest := if chosen then EncodeEntries(Runs(ids, maxId)).value else FixedBits(ids, maxId);
    assert EncodeVendors(ids).value == IntBits(maxId, 16) + [chosen] + rest;
    FormMeaning(ids);
    AtConcat(s, pos, IntBits(maxId, 16) + [chosen], rest);
    AtConcat(s, pos, IntBits(maxId, 16), [chosen]);
    IntBitsAt(s, pos, maxId, 16);
    OneAt(s, pos + 16, chosen);
    assert pos + 16 < |s| && s[pos + 16] == chosen by { FlagMeaning(s, pos + 16, chosen); }
    if chosen {
      CountedLayout(s, pos + 17, Runs(ids, maxId));
    } else {
      FixedLayout(s, pos + 17, ids, maxId);
    }
  }

  lemma FlagMeaning(s: BitString, pos: nat, b: bool)
    requires FlagAt(s, pos, b)
    ensures pos < |s| && s[pos] == b
  {
  }

  lemma CountedLayout(s: BitString, pos: nat, es: seq<Entry>)
    requires EncodeEntries(es).Success? && At(s, pos, EncodeEntries(es).value)
    ensures IntAt(s, pos, 12, |es|) && EntriesAt(s, pos + 12, es, pos + |EncodeEntries(es).value|)
  {
    hide IntBits, IntAt, EntriesBits, EntriesAt, At;
    Pow2Values();
    AtConcat(s, pos, IntBits(|es|, 12), EntriesBits(es));
    IntBitsAt(s, pos, |es|, 12);
    EntriesLayout(s, pos + 12, es);
  }

  lemma OneAt(s: BitString, pos: nat, b: bool)
    requires At(s, pos, [b])
    ensures FlagAt(s, pos, b)
  {
    assert s[pos + 0] == [b][0];
  }

  lemma FixedLayout(s: BitString, pos: nat, ids: set<nat>, w: nat)
    requires At(s, pos, FixedBits(ids, w))
    ensures IdsAt(s, pos, w, ids)
  {
    forall x: nat | 1 <= x <= w
      ensures x in ids <==> s[pos + x - 1]
    {
      assert s[pos + (x - 1)] == FixedBits(ids, w)[x - 1];
    }
  }

  lemma FormMeaning(ids: set<nat>)
    requires 0 !in ids
    ensures var maxId := MaxId(ids);
      var runs := Runs(ids, maxId);
      RangeChosen(ids, maxId) <==>
        maxId > 45 && 29 + 33 * |runs| - 16 * Singles(runs) <= 17 + maxId + 15 + Singles(runs)
  {
    if MaxId(ids) > 45 {
      FormChoice(ids, MaxId(ids));
    }
  }

  lemma {:induction false} RestrictionListLayout(
    s: BitString, pos: nat, order: seq<PurposeRestriction>, rv: Restrictions, gvl: set<nat>)
    requires ListFits(order, rv, gvl) && At(s, pos, ListBits(order, rv, gvl))
    ensures RestrictionListAt(s, pos, order, rv, gvl, pos + |ListBits(order, rv, gvl)|)
    decreases |order|
  {
    hide At, IntBits, IntAt, EntriesAt, Entries, RestrictionBits, Fits;
    if order != [] {
      var es := Entries(rv.vendors[order[0]], gvl);
      var rest := ListBits(order[1..], rv, gvl);
      RestrictionLayout(s, pos, order[0], es, rest);
      RestrictionListLayout(s, pos + |RestrictionBits(order[0], es)|, order[1..], rv, gvl);
    }
  }

  lemma RestrictionLayout(s: BitString, pos: nat, k: PurposeRestriction, es: seq<Entry>, rest: BitString)
    requires Fits(k, es) && At(s, pos, RestrictionBits(k, es) + rest)
    ensures IntAt(s, pos, 6, k.purposeId) && IntAt(s, pos + 6, 2, k.restrictionType) && IntAt(s, pos + 8, 12, |es|)
    ensures var end := pos + |RestrictionBits(k, es)|; EntriesAt(s, pos + 20, es, end) && At(s, end, rest)
  {
    hide At, IntBits, IntAt, EntriesAt, EntriesBits;
    Pow2Values();
    var purpose, kind := IntBits(k.purposeId, 6), IntBits(k.restrictionType, 2);
    var count, entries := IntBits(|es|, 12), EntriesBits(es);
    AtConcat(s, pos, RestrictionBits(k, es), rest);
    AtConcat(s, pos, purpose + kind, count + entries);
    AtConcat(s, pos, purpose, kind);
    AtConcat(s, pos + 8, count, entries);
    IntBitsAt(s, pos, k.purposeId, 6);
    IntBitsAt(s, pos + 6, k.restrictionType, 2);
    IntBitsAt(s, pos + 8, |es|, 12);
    EntriesLayout(s, pos + 20, es);
  }

  lemma RestrictionsLayout(s: BitString, pos: nat, rv: Restrictions, gvl: set<nat>)
    requires EncodeRestrictions(rv, gvl).Success? && At(s, pos, EncodeRestrictions(rv, gvl).value)
    ensures RestrictionsAt(s, pos, rv, gvl, pos + |EncodeRestrictions(rv, gvl).value|)
  {
    hide At, IntBits, IntAt, ListFits, ListBits, RestrictionListAt;
    Pow2Values();
    AtConcat(s, pos, IntBits(|rv.order|, 12), ListBits(rv.order, rv, gvl));
    IntBitsAt(s, pos, |rv.order|, 12);
    RestrictionListLayout(s, pos + 12, rv.order, rv, gvl);
  }

  // ---------- Field by field ----------

  /** The fields of a segment from the `i`-th on stand at `pos` and end at `end`. */
  ghost predicate Tail(m: Model, segment: Segment, i: nat, gvl: set<nat>, s: BitString, pos: nat, end: nat) {
    && i <= |FieldSequence(segment)|
    && WellTyped(m)
    && var e := EncodeFields(m, FieldSequence(segment)[i..], gvl);
    && e.Success? && At(s, pos, e.value) && pos + |e.value| == end
  }

  lemma Next(m: Model, segment: Segment, i: nat, f: Field, gvl: set<nat>, s: BitString, pos: nat, end: nat)
    requires i < |FieldSequence(segment)| && FieldSequence(segment)[i] == f && Tail(m, segment, i, gvl, s, pos, end)
    ensures f in m && Fitting(m[f], EncoderOf(f))
    ensures var e := EncodeField(m[f], f, Custom(m), gvl);
      e.Success? && At(s, pos, e.value) && Tail(m, segment, i + 1, gvl, s, pos + |e.value|, end)
  {
    hide At, EncodeField, Fitting, EncoderOf, Custom, FieldSequence;
    var rest := FieldSequence(segment)[i..];
    assert rest[0] == f && rest[1..] == FieldSequence(segment)[i + 1..];
    AtConcat(s, pos, EncodeField(m[f], f, Custom(m), gvl).value, EncodeFields(m, rest[1..], gvl).value);
  }

  lemma NextInt(m: Model, segment: Segment, i: nat, f: Field, w: nat, gvl: set<nat>, s: BitString, pos: nat, end: nat)
    requires i < |FieldSequence(segment)| && FieldSequence(segment)[i] == f && Tail(m, segment, i, gvl, s, pos, end)
    requires EncoderOf(f) == IntEncoder && Width(f, Custom(m)) == w
    ensures f in m && m[f].Int? && IntAt(s, pos, w, m[f].n) && Tail(m, segment, i + 1, gvl, s, pos + w, end)
  {
    hide Tail, FieldSequence, Width, EncoderOf, Custom, At, IntAt, IntBits;
    Next(m, segment, i, f, gvl, s, pos, end);
    IntBitsAt(s, pos, m[f].n, w);
  }

  /** Milliseconds are rounded to tenths of a second, halves up. */
  lemma NextDate(m: Model, segment: Segment, i: nat, f: Field, gvl: set<nat>, s: BitString, pos: nat, end: nat)
    requires i < |FieldSequence(segment)| && FieldSequence(segment)[i] == f && Tail(m, segment, i, gvl, s, pos, end)
    requires EncoderOf(f) == DateEncoder && Width(f, Custom(m)) == 36
    ensures f in m && m[f].Date? && IntAt(s, pos, 36, (m[f].ms + 50) / 100)
    ensures Tail(m, segment, i + 1, gvl, s, pos + 36, end)
  {
    hide Tail, FieldSequence, Width, EncoderOf, Custom, At, IntAt, IntBits;
    Next(m, segment, i, f, gvl, s, pos, end);
    IntBitsAt(s, pos, Deciseconds(m[f].ms), 36);
  }

  lemma NextFlag(m: Model, segment: Segment, i: nat, f: Field, gvl: set<nat>, s: BitString, pos: nat, end: nat)
    requires i < |FieldSequence(segment)| && FieldSequence(segment)[i] == f && Tail(m, segment, i, gvl, s, pos, end)
    requires EncoderOf(f) == BooleanEncoder
    ensures f in m && m[f].Bool? && FlagAt(s, pos, m[f].b) && Tail(m, segment, i + 1, gvl, s, pos + 1, end)
  {
    hide Tail, FieldSequence, Width, EncoderOf, Custom, At, FlagAt;
    Next(m, segment, i, f, gvl, s, pos, end);
    OneAt(s, pos, m[f].b);
  }

  lemma NextLetters(m: Model, segment: Segment, i: nat, f: Field, gvl: set<nat>, s: BitString, pos: nat, end: nat)
    requires i < |FieldSequence(segment)| && FieldSequence(segment)[i] == f && Tail(m, segment, i, gvl, s, pos, end)
    requires EncoderOf(f) == LangEncoder
    ensures f in m && m[f].Lang? && LettersAt(s, pos, m[f].code) && Tail(m, segment, i + 1, gvl, s, pos + 12, end)
  {
    hide Tail, FieldSequence, EncoderOf, Custom, Width, LettersAt, EncodeLang, At;
    Next(m, segment, i, f, gvl, s, pos, end);
    LettersLayout(s, pos, m[f].code);
  }

  lemma LettersLayout(s: BitString, pos: nat, code: string)
    requires EncodeLang(code, 12).Success? && At(s, pos, EncodeLang(code, 12).value)
    ensures LettersAt(s, pos, code)
  {
    hide At, IntBits, IntAt;
    Pow2Values();
    var a, b := (Upper(code[0]) as int) - 65, (Upper(code[1]) as int) - 65;
    AtConcat(s, pos, IntBits(a, 6), IntBits(b, 6));
    IntBitsAt(s, pos, a, 6);
    IntBitsAt(s, pos + 6, b, 6);
  }

  lemma NextIds(m: Model, segment: Segment, i: nat, f: Field, w: nat, gvl: set<nat>, s: BitString, pos: nat, end: nat)
    requires i < |FieldSequence(segment)| && FieldSequence(segment)[i] == f && Tail(m, segment, i, gvl, s, pos, end)
    requires EncoderOf(f) == FixedVectorEncoder && Width(f, Custom(m)) == w
    ensures f in m && m[f].Ids? && IdsAt(s, pos, w, m[f].ids) && Tail(m, segment, i + 1, gvl, s, pos + w, end)
  {
    hide Tail, FieldSequence, Width, EncoderOf, Custom, At, FixedBits, IdsAt;
    Next(m, segment, i, f, gvl, s, pos, end);
    FixedLayout(s, pos, m[f].ids, w);
  }

  lemma NextVendors(m: Model, segment: Segment, i: nat, f: Field, gvl: set<nat>, s: BitString, pos: nat, end: nat)
    returns (next: nat)
    requires i < |FieldSequence(segment)| && FieldSequence(segment)[i] == f && Tail(m, segment, i, gvl, s, pos, end)
    requires EncoderOf(f) == VendorVectorEncoder
    ensures f in m && m[f].Ids? && VendorsAt(s, pos, m[f].ids, next) && Tail(m, segment, i + 1, gvl, s, next, end)
  {
    hide Tail, FieldSequence, Width, EncoderOf, Custom, At, EncodeVendors, VendorsAt;
    Next(m, segment, i, f, gvl, s, pos, end);
    VendorsLayout(s, pos, m[f].ids);
    next := pos + |EncodeVendors(m[f].ids).value|;
  }

  lemma NextRestrictions(m: Model, segment: Segment, i: nat, f: Field, gvl: set<nat>, s: BitString, pos: nat, end: nat)
    returns (next: nat)
    requires i < |FieldSequence(segment)| && FieldSequence(segment)[i] == f && Tail(m, segment, i, gvl, s, pos, end)
    requires EncoderOf(f) == RestrictionEncoder
    ensures f in m && m[f].Restricted? && RestrictionsAt(s, pos, m[f].rv, gvl, next)
    ensures Tail(m, segment, i + 1, gvl, s, next, end)
  {
    hide Tail, FieldSequence, Width, EncoderOf, Custom, At, EncodeRestrictions, RestrictionsAt;
    Next(m, segment, i, f, gvl, s, pos, end);
    RestrictionsLayout(s, pos, m[f].rv, gvl);
    next := pos + |EncodeRestrictions(m[f].rv, gvl).value|;
  }

  lemma NothingNext(m: Model, segment: Segment, gvl: set<nat>, s: BitString, pos: nat, end: nat)
    requires Tail(m, segment, |FieldSequence(segment)|, gvl, s, pos, end)
    ensures pos == end
  {
  }

  /** The bits of an encoded segment: its type, its fields and the padding. */
  lemma SegmentBody(m: Model, segment: Segment, gvl: set<nat>) returns (s: BitString, end: nat)
    requires WellTyped(m) && EncodeSegment(m, segment, gvl).Success?
    ensures Base64.Decode(EncodeSegment(m, segment, gvl).value) == Success(s)
    ensures segment != Core ==> SegmentId(segment) < 8 && IntAt(s, 0, 3, SegmentId(segment))
    ensures IsVersion2(m)
    ensures Tail(m, segment, 0, gvl, s, if segment == Core then 0 else 3, end) && PaddedFrom(s, end)
  {
    hide IntBits, EncodeFields, FieldSequence, Base64.Encode, Base64.Decode, At, IntAt;
    Pow2Values();
    var b := SegmentBits(m, segment, gvl).value;
    var fields := EncodeFields(m, FieldSequence(segment), gvl).value;
    SegmentBitsStart(m, segment, gvl);
    Base64.DecodeEncode(b);
    s, end := b + Zeros(Base64.Padding(|b|)), |b|;
    AtPrefix(b, Zeros(Base64.Padding(|b|)));
    AtConcat(s, 0, TypeBits(segment), fields);
    if segment != Core {
      IntBitsAt(s, 0, SegmentId(segment), 3);
    }
    assert FieldSequence(segment)[0..] == FieldSequence(segment);
    ZerosAreZero(Base64.Padding(|b|));
  }

  lemma {:induction false} ZerosAreZero(n: nat)
    ensures forall i | 0 <= i < n :: !Zeros(n)[i]
  {
    if n > 0 {
      ZerosAreZero(n - 1);
    }
  }

  // ---------- The segments ----------

  ghost predicate CoreStartsWith(m: Model, s: BitString) {
    && IntAt(s, 0, 6, 2)
    && IntAt(s, 6, 36, TenthsOf(m, Created))
    && IntAt(s, 42, 36, TenthsOf(m, LastUpdated))
    && IntAt(s, 78, 12, IntOf(m, CmpId))
    && IntAt(s, 90, 12, IntOf(m, CmpVersion))
    && IntAt(s, 102, 6, IntOf(m, ConsentScreen))
    && LettersAt(s, 108, CodeOf(m, ConsentLanguage))
    && IntAt(s, 120, 12, IntOf(m, VendorListVersion))
    && IntAt(s, 132, 6, IntOf(m, PolicyVersion))
  }

  ghost predicate CoreGoesOnWith(m: Model, s: BitString) {
    && FlagAt(s, 138, BoolOf(m, IsServiceSpecific))
    && FlagAt(s, 139, BoolOf(m, UseNonStandardTexts))
    && IdsAt(s, 140, 12, IdsOf(m, SpecialFeatureOptins))
    && IdsAt(s, 152, 24, IdsOf(m, PurposeConsents))
    && IdsAt(s, 176, 24, IdsOf(m, PurposeLegitimateInterests))
    && FlagAt(s, 200, BoolOf(m, PurposeOneTreatment))
    && LettersAt(s, 201, CodeOf(m, PublisherCountryCode))
  }

  lemma CoreFields()
    ensures var fs := FieldSequence(Core);
      && |fs| == 19
      && fs[0] == Version && fs[1] == Created && fs[2] == LastUpdated && fs[3] == CmpId && fs[4] == CmpVersion
      && fs[5] == ConsentScreen && fs[6] == ConsentLanguage && fs[7] == VendorListVersion && fs[8] == PolicyVersion
      && fs[9] == IsServiceSpecific && fs[10] == UseNonStandardTexts && fs[11] == SpecialFeatureOptins
      && fs[12] == PurposeConsents && fs[13] == PurposeLegitimateInterests && fs[14] == PurposeOneTreatment
      && fs[15] == PublisherCountryCode && fs[16] == VendorConsents && fs[17] == VendorLegitimateInterests
      && fs[18] == PublisherRestrictions
  {
  }

  lemma CoreStart(m: Model, gvl: set<nat>, s: BitString, end: nat)
    requires Tail(m, Core, 0, gvl, s, 0, end) && IsVersion2(m)
    ensures CoreStartsWith(m, s) && Tail(m, Core, 9, gvl, s, 138, end)
  {
    hide Tail, IntAt, LettersAt, FieldSequence;
    CoreFields();
    CoreIsVersion2(m, gvl, s, end);
    NextInt(m, Core, 0, Version, 6, gvl, s, 0, end);
    NextDate(m, Core, 1, Created, gvl, s, 6, end);
    NextDate(m, Core, 2, LastUpdated, gvl, s, 42, end);
    NextInt(m, Core, 3, CmpId, 12, gvl, s, 78, end);
    NextInt(m, Core, 4, CmpVersion, 12, gvl, s, 90, end);
    NextInt(m, Core, 5, ConsentScreen, 6, gvl, s, 102, end);
    NextLetters(m, Core, 6, ConsentLanguage, gvl, s, 108, end);
    NextInt(m, Core, 7, VendorListVersion, 12, gvl, s, 120, end);
    NextInt(m, Core, 8, PolicyVersion, 6, gvl, s, 132, end);
  }

  lemma CoreGoesOn(m: Model, gvl: set<nat>, s: BitString, end: nat)
    requires Tail(m, Core, 9, gvl, s, 138, end)
    ensures CoreGoesOnWith(m, s) && Tail(m, Core, 16, gvl, s, 213, end)
  {
    hide Tail, IntAt, LettersAt, FlagAt, IdsAt, FieldSequence;
    CoreFields();
    NextFlag(m, Core, 9, IsServiceSpecific, gvl, s, 138, end);
    NextFlag(m, Core, 10, UseNonStandardTexts, gvl, s, 139, end);
    NextIds(m, Core, 11, SpecialFeatureOptins, 12, gvl, s, 140, end);
    NextIds(m, Core, 12, PurposeConsents, 24, gvl, s, 152, end);
    NextIds(m, Core, 13, PurposeLegitimateInterests, 24, gvl, s, 176, end);
    NextFlag(m, Core, 14, PurposeOneTreatment, gvl, s, 200, end);
    NextLetters(m, Core, 15, PublisherCountryCode, gvl, s, 201, end);
  }

  /**
    The bits of the core: nine fields in the first 138 bits, seven up to bit 213, and then one behind the other the
    vendors consented to, those with a legitimate interest and the restrictions, which end before the padding.
   */
  lemma CoreLayout(m: Model, gvl: set<nat>) returns (s: BitString, interests: nat, restrictions: nat, end: nat)
    requires WellTyped(m) && EncodeSegment(m, Core, gvl).Success?
    ensures Base64.Decode(EncodeSegment(m, Core, gvl).value) == Success(s)
    ensures CoreStartsWith(m, s) && CoreGoesOnWith(m, s)
    ensures VendorsAt(s, 213, IdsOf(m, VendorConsents), interests)
    ensures VendorsAt(s, interests, IdsOf(m, VendorLegitimateInterests), restrictions)
    ensures RestrictionsAt(s, restrictions, RestrictionsOf(m), gvl, end) && PaddedFrom(s, end)
  {
    hide Tail, CoreStartsWith, CoreGoesOnWith, VendorsAt, RestrictionsAt, PaddedFrom, EncodeSegment, Base64.Decode;
    hide FieldSequence;
    CoreFields();
    s, end := SegmentBody(m, Core, gvl);
    CoreStart(m, gvl, s, end);
    CoreGoesOn(m, gvl, s, end);
    interests := NextVendors(m, Core, 16, VendorConsents, gvl, s, 213, end);
    restrictions := NextVendors(m, Core, 17, VendorLegitimateInterests, gvl, s, interests, end);
    var last := NextRestrictions(m, Core, 18, PublisherRestrictions, gvl, s, restrictions, end);
    NothingNext(m, Core, gvl, s, last, end);
  }

  /** The publisher's segment: its type 3 and five fields, the third of which is the width of the last two. */
  lemma PublisherLayout(m: Model, gvl: set<nat>) returns (s: BitString, end: nat)
    requires WellTyped(m) && EncodeSegment(m, PublisherTC, gvl).Success?
    ensures Base64.Decode(EncodeSegment(m, PublisherTC, gvl).value) == Success(s)
    ensures IntAt(s, 0, 3, 3)
    ensures IdsAt(s, 3, 24, IdsOf(m, PublisherConsents))
    ensures IdsAt(s, 27, 24, IdsOf(m, PublisherLegitimateInterests))
    ensures IntAt(s, 51, 6, IntOf(m, NumCustomPurposes)) && 0 <= IntOf(m, NumCustomPurposes)
    ensures var n := IntOf(m, NumCustomPurposes);
      && IdsAt(s, 57, n, IdsOf(m, PublisherCustomConsents))
      && IdsAt(s, 57 + n, n, IdsOf(m, PublisherCustomLegitimateInterests))
      && end == 57 + 2 * n && PaddedFrom(s, end)
  {
    hide Tail, IntAt, IdsAt, PaddedFrom, EncodeSegment, Base64.Decode;
    s, end := SegmentBody(m, PublisherTC, gvl);
    CustomMeaning(m);
    var n := Custom(m);
    NextIds(m, PublisherTC, 0, PublisherConsents, 24, gvl, s, 3, end);
    NextIds(m, PublisherTC, 1, PublisherLegitimateInterests, 24, gvl, s, 27, end);
    NextInt(m, PublisherTC, 2, NumCustomPurposes, 6, gvl, s, 51, end);
    NextIds(m, PublisherTC, 3, PublisherCustomConsents, n, gvl, s, 57, end);
    NextIds(m, PublisherTC, 4, PublisherCustomLegitimateInterests, n, gvl, s, 57 + n, end);
    NothingNext(m, PublisherTC, gvl, s, 57 + n + n, end);
  }

  lemma CustomMeaning(m: Model)
    requires WellTyped(m)
    ensures Custom(m) == IntOf(m, NumCustomPurposes)
  {
  }

  /** The segment of the vendors disclosed has type 1. */
  lemma DisclosedLayout(m: Model, gvl: set<nat>) returns (s: BitString, end: nat)
    requires WellTyped(m) && EncodeSegment(m, VendorsDisclosedSegment, gvl).Success?
    ensures Base64.Decode(EncodeSegment(m, VendorsDisclosedSegment, gvl).value) == Success(s)
    ensures IntAt(s, 0, 3, 1) && VendorsAt(s, 3, IdsOf(m, VendorsDisclosed), end) && PaddedFrom(s, end)
  {
    hide Tail, IntAt, VendorsAt, PaddedFrom, EncodeSegment, Base64.Decode;
    s, end := SegmentBody(m, VendorsDisclosedSegment, gvl);
    var last := NextVendors(m, VendorsDisclosedSegment, 0, VendorsDisclosed, gvl, s, 3, end);
    NothingNext(m, VendorsDisclosedSegment, gvl, s, last, end);
  }

  /** The segment of the vendors allowed has type 2. */
  lemma AllowedLayout(m: Model, gvl: set<nat>) returns (s: BitString, end: nat)
    requires WellTyped(m) && EncodeSegment(m, VendorsAllowedSegment, gvl).Success?
    ensures Base64.Decode(EncodeSegment(m, VendorsAllowedSegment, gvl).value) == Success(s)
    ensures IntAt(s, 0, 3, 2) && VendorsAt(s, 3, IdsOf(m, VendorsAllowed), end) && PaddedFrom(s, end)
  {
    hide Tail, IntAt, VendorsAt, PaddedFrom, EncodeSegment, Base64.Decode;
    s, end := SegmentBody(m, VendorsAllowedSegment, gvl);
    var last := NextVendors(m, VendorsAllowedSegment, 0, VendorsAllowed, gvl, s, 3, end);
    NothingNext(m, VendorsAllowedSegment, gvl, s, last, end);
  }

  lemma CoreIsVersion2(m: Model, gvl: set<nat>, s: BitString, end: nat)
    requires Tail(m, Core, 0, gvl, s, 0, end) && IsVersion2(m)
    ensures IntOf(m, Version) == 2
  {
  }

  // ---------- The text ----------

  /** The letter of section 5 of RFC 4648 for a number of six bits. */
  predicate IsLetterFor(c: char, v: nat) {
    && (v < 26 ==> c == 'A' + v as char)
    && (26 <= v < 52 ==> c == 'a' + (v - 26) as char)
    && (52 <= v < 62 ==> c == '0' + (v - 52) as char)
    && (v == 62 ==> c == '-')
    && (v == 63 ==> c == '_')
    && v < 64
  }

  /** Each character of a text stands for six bits. */
  lemma {:induction false} LettersOfBits(text: string, k: nat)
    requires Base64.Decode(text).Success? && k < |text|
    ensures var s := Base64.Decode(text).value;
      |s| == 6 * |text| && IsLetterFor(text[k], ValueOf(s[6 * k..6 * k + 6]))
    decreases k
  {
    hide IsLetterFor, ValueOf;
    var vs := Base64.Values(text);
    var head, rest := Base64.IndexBits(vs[0]), Base64.BitsOf(vs[1..]);
    assert Base64.BitsOf(vs) == head + rest;
    if k == 0 {
      assert (head + rest)[0..6] == head;
      LetterOfIndex(text[0]);
    } else {
      assert text == [text[0]] + text[1..];
      LettersOfBits(text[1..], k - 1);
      Shifted(head, rest, 6 * (k - 1));
    }
  }

  lemma LetterOfIndex(c: char)
    requires Base64.CharValue(c).Some?
    ensures IsLetterFor(c, Base64.CharValue(c).value)
  {
  }

  lemma Shifted(head: BitString, rest: BitString, i: nat)
    requires |head| == 6 && i + 6 <= |rest|
    ensures (head + rest)[i + 6..i + 12] == rest[i..i + 6]
  {
  }

  /** The text of a core begins with "C". */
  lemma CoreBeginsWithC(m: Model, gvl: set<nat>)
    requires WellTyped(m) && EncodeSegment(m, Core, gvl).Success?
    ensures var text := EncodeSegment(m, Core, gvl).value; text != "" && text[0] == 'C'
  {
    hide EncodeSegment;
    var text := EncodeSegment(m, Core, gvl).value;
    var s, a, b, end := CoreLayout(m, gvl);
    hide VendorsAt, RestrictionsAt, CoreGoesOnWith;
    LettersOfBits(text, 0);
  }
}
