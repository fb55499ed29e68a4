/**
  What decoding reads out of any consent string, whoever wrote it: at the offsets and widths of "Transparency and
  Consent String with Global Vendor & CMP List Formats", and from vendor entries in any order and form.
 */
module TcfReading {
  import opened Outcomes
  import opened Sequences
  import opened TcfBits
  import opened TcfVector
  import opened TcfVendors
  import opened TcfRestrictions
  import opened TcfFields
  import opened TcfSegments
  import opened TcfLayout
  import Base64 = TcfBase64Url

  // ---------- Numbers ----------

  lemma ReadIntMeaning(s: BitString, pos: nat, w: nat)
    requires w > 0
    ensures ReadInt(s, pos, w).Success? <==> pos + w <= |s|
    ensures ReadInt(s, pos, w).Success? ==> IntAt(s, pos, w, ReadInt(s, pos, w).value)
    ensures ReadInt(s, pos, w).Failure? ==> ReadInt(s, pos, w).error == DecodingError
  {
  }

  // ---------- Vendors ----------

  /** The flag, and outside of the bits none. */
  predicate Flagged(s: BitString, pos: nat) {
    pos < |s| && s[pos]
  }

  /** Entries of positive ids: flagged ones are ranges, which may be empty, and the others single ids. */
  ghost predicate ReadEntriesAt(s: BitString, pos: nat, es: seq<Entry>, end: nat)
    decreases |es|
  {
    if es == [] then pos == end
    else
      && es[0].first > 0 && IntAt(s, pos + 1, 16, es[0].first)
      && if Flagged(s, pos) then IntAt(s, pos + 17, 16, es[0].last) && ReadEntriesAt(s, pos + 33, es[1..], end)
         else es[0].last == es[0].first && ReadEntriesAt(s, pos + 17, es[1..], end)
  }

  /** A greatest id, a form bit, and then entries or as many bits as the greatest id says. */
  ghost predicate VendorsReadAs(s: BitString, ids: set<nat>, end: nat) {
    && 17 <= |s|
    && var maxId := ValueOf(s[0..16]);
    if s[16] then
      exists es :: IntAt(s, 17, 12, |es|) && ReadEntriesAt(s, 29, es, end) && ids == Covered(es)
    else
      && IdsAt(s, 17, maxId, ids) && end == 17 + maxId
      && forall x | x in ids :: 1 <= x <= maxId
  }

  lemma {:induction false} RangesRead(e: BitString, pos: nat, n: nat, ids: set<nat>)
    ensures DecodeRanges(e, pos, n, ids).Success? ==>
      exists es :: |es| == n && ReadEntriesAt(e, pos, es, DecodeRanges(e, pos, n, ids).value.1)
        && DecodeRanges(e, pos, n, ids).value.0 == ids + Covered(es)
    decreases n
  {
    hide IntAt, ReadInt, Covered;
    var r := DecodeRanges(e, pos, n, ids);
    if r.Success? {
      if n == 0 {
        NothingCovered();
        assert ids + {} == ids;
        assert ReadEntriesAt(e, pos, [], pos);
      } else {
        ReadIntMeaning(e, pos + 1, 16);
        ReadIntMeaning(e, pos + 17, 16);
        FlagRead(e, pos);
        var first := ReadInt(e, pos + 1, 16).value;
        var last := if ReadBool(e, pos) then ReadInt(e, pos + 17, 16).value else first;
        var next := if ReadBool(e, pos) then pos + 33 else pos + 17;
        SingleInterval(first);
        RangesRead(e, next, n - 1, ids + Interval(first, last));
        var rest :| |rest| == n - 1 && ReadEntriesAt(e, next, rest, r.value.1)
          && r.value.0 == ids + Interval(first, last) + Covered(rest);
        var es := [Entry(first, last)] + rest;
        CoveredCons(Entry(first, last), rest);
        assert es[1..] == rest;
        assert ReadEntriesAt(e, pos, es, r.value.1);
      }
    }
  }

  lemma NothingCovered()
    ensures Covered([]) == {}
  {
  }

  lemma CoveredCons(e: Entry, es: seq<Entry>)
    ensures Covered([e] + es) == Interval(e.first, e.last) + Covered(es)
  {
    assert ([e] + es)[1..] == es;
  }

  lemma SingleInterval(x: nat)
    ensures Interval(x, x) == {x}
  {
  }

  lemma FlagRead(e: BitString, pos: nat)
    ensures ReadBool(e, pos) <==> Flagged(e, pos)
  {
  }

  lemma {:induction false} RangesRead2(e: BitString, pos: nat, ids: set<nat>, es: seq<Entry>, end: nat)
    requires ReadEntriesAt(e, pos, es, end)
    ensures DecodeRanges(e, pos, |es|, ids) == Success((ids + Covered(es), end))
    decreases |es|
  {
    hide ReadInt, Covered;
    if es == [] {
      NothingCovered();
      assert ids + {} == ids;
    } else {
      ReadIntMeaning(e, pos + 1, 16);
      ReadIntMeaning(e, pos + 17, 16);
      FlagRead(e, pos);
      SingleInterval(es[0].first);
      assert es == [es[0]] + es[1..];
      CoveredCons(es[0], es[1..]);
      RangesRead2(e, if Flagged(e, pos) then pos + 33 else pos + 17, ids + es[0].Ids(), es[1..], end);
      assert ids + es[0].Ids() + Covered(es[1..]) == ids + Covered(es);
    }
  }

  /** Decoding vendors accepts exactly what can be read in this way, and gives the ids read and the bits taken. */
  lemma VendorsReading(e: BitString, ids: set<nat>, end: nat)
    ensures DecodeVendors(e) == Success((ids, end)) <==> VendorsReadAs(e, ids, end)
  {
    hide DecodeRanges, ReadEntriesAt, Covered;
    HeaderRead(e);
    if 17 <= |e| {
      var maxId := ValueOf(e[0..16]);
      if e[16] {
        ReadIntMeaning(e, 17, 12);
        if ReadInt(e, 17, 12).Success? {
          var n := ReadInt(e, 17, 12).value;
          RangesRead(e, 29, n, {});
          if DecodeVendors(e) == Success((ids, end)) {
            var es :| |es| == n && ReadEntriesAt(e, 29, es, end) && ids == {} + Covered(es);
          }
        }
        if VendorsReadAs(e, ids, end) {
          var es :| IntAt(e, 17, 12, |es|) && ReadEntriesAt(e, 29, es, end) && ids == Covered(es);
          RangesRead2(e, 29, {}, es, end);
          assert {} + Covered(es) == Covered(es);
        }
      } else {
        FixedRead(e, 17, maxId, ids);
      }
    }
  }

  lemma HeaderRead(e: BitString)
    ensures |e| < 17 ==> DecodeVendors(e).Failure?
    ensures |e| >= 17 ==>
      ReadInt(e, 0, 16) == Success(ValueOf(e[0..16])) && ReadInt(e, 16, 1) == Success(if e[16] then 1 else 0)
  {
    if |e| >= 17 {
      assert e[16..17] == [e[16]];
      assert e[16..17][..0] == [];
    }
  }

  lemma FixedRead(s: BitString, pos: nat, w: nat, ids: set<nat>)
    requires pos <= |s|
    ensures DecodeFixed(Substr(s, pos, w), w) == Success(ids) <==>
      IdsAt(s, pos, w, ids) && forall x | x in ids :: 1 <= x <= w
  {
    if pos + w <= |s| {
      var b := Substr(s, pos, w);
      forall x: nat
        ensures x in SetBits(b) <==> 1 <= x <= w && s[pos + x - 1]
      {
        if 1 <= x <= w {
          assert b[x - 1] == s[pos + (x - 1)];
        }
      }
      if IdsAt(s, pos, w, ids) && forall x | x in ids :: 1 <= x <= w {
        assert ids == SetBits(b);
      }
    }
  }

  // ---------- Restrictions ----------

  /** Entries of which a flagged one does not end before it begins. */
  ghost predicate ReadRangesAt(s: BitString, pos: nat, es: seq<Entry>, end: nat)
    decreases |es|
  {
    if es == [] then pos == end
    else
      && es[0].first <= es[0].last && IntAt(s, pos + 1, 16, es[0].first)
      && if Flagged(s, pos) then IntAt(s, pos + 17, 16, es[0].last) && ReadRangesAt(s, pos + 33, es[1..], end)
         else es[0].last == es[0].first && ReadRangesAt(s, pos + 17, es[1..], end)
  }

  /** One restriction: purpose, type, number of entries and entries, of which none can belong to an invalid one. */
  ghost predicate RestrictionAt(s: BitString, pos: nat, k: PurposeRestriction, es: seq<Entry>, end: nat) {
    && IntAt(s, pos, 6, k.purposeId) && IntAt(s, pos + 6, 2, k.restrictionType) && IntAt(s, pos + 8, 12, |es|)
    && ReadRangesAt(s, pos + 20, es, end)
    && (es != [] ==> k.purposeId > 0 && k.restrictionType <= 2)
  }

  /** `n` restrictions one behind the other, whose ids are added. */
  ghost predicate AddedAt(s: BitString, pos: nat, n: nat, rv: Restrictions, result: Restrictions, end: nat)
    decreases n
  {
    if n == 0 then result == rv && end == pos
    else
      exists k: PurposeRestriction, es: seq<Entry>, next: nat | RestrictionAt(s, pos, k, es, next) ::
        AddedAt(s, next, n - 1, WithIds(rv, k, Covered(es)), result, end)
  }

  lemma IntRead(s: BitString, pos: nat, w: nat)
    requires w > 0
    ensures ReadInt(s, pos, w) == if pos + w <= |s| then Success(ValueOf(s[pos..pos + w])) else Failure(DecodingError)
  {
  }

  lemma {:induction false} EntriesIntoRead(s: BitString, pos: nat, n: nat, k: PurposeRestriction, rv: Restrictions)
    requires DecodeEntriesInto(s, pos, n, k, rv).Success?
    ensures n > 0 ==> k.IsValid()
    ensures exists es: seq<Entry> | ReadRangesAt(s, pos, es, DecodeEntriesInto(s, pos, n, k, rv).value.1) ::
      |es| == n && DecodeEntriesInto(s, pos, n, k, rv).value.0 == WithIds(rv, k, Covered(es))
    decreases n
  {
    hide IntAt, ReadInt, ReadBool, Covered, WithIds;
    var r := DecodeEntriesInto(s, pos, n, k, rv).value;
    if n == 0 {
      NothingCovered();
      WithNoIds(rv, k);
      assert ReadRangesAt(s, pos, [], pos);
    } else {
      ReadIntMeaning(s, pos + 1, 16);
      ReadIntMeaning(s, pos + 17, 16);
      FlagRead(s, pos);
      var first := ReadInt(s, pos + 1, 16).value;
      var last := if ReadBool(s, pos) then ReadInt(s, pos + 17, 16).value else first;
      var next := if ReadBool(s, pos) then pos + 33 else pos + 17;
      var e := Entry(first, last);
      WithSomeIds(rv, k, e);
      EntriesIntoRead(s, next, n - 1, k, rv.AddIds(k, e.Ids()));
      var rest: seq<Entry> :| ReadRangesAt(s, next, rest, r.1) && |rest| == n - 1
        && r.0 == WithIds(rv.AddIds(k, e.Ids()), k, Covered(rest));
      var es := [e] + rest;
      assert es[1..] == rest;
      CoveredCons(e, rest);
      WithIdsTwice(rv, k, e.Ids(), Covered(rest));
      assert ReadRangesAt(s, pos, es, r.1);
    }
  }

  lemma {:induction false} EntriesIntoDecoded(
    s: BitString, pos: nat, es: seq<Entry>, k: PurposeRestriction, rv: Restrictions, end: nat)
    requires ReadRangesAt(s, pos, es, end) && (es != [] ==> k.IsValid())
    ensures DecodeEntriesInto(s, pos, |es|, k, rv) == Success((WithIds(rv, k, Covered(es)), end))
    decreases |es|
  {
    hide ReadInt, ReadBool, Covered, WithIds;
    if es == [] {
      NothingCovered();
      WithNoIds(rv, k);
    } else {
      ReadIntMeaning(s, pos + 1, 16);
      ReadIntMeaning(s, pos + 17, 16);
      FlagRead(s, pos);
      assert es == [es[0]] + es[1..];
      CoveredCons(es[0], es[1..]);
      WithSomeIds(rv, k, es[0]);
      EntriesIntoDecoded(
        s, if Flagged(s, pos) then pos + 33 else pos + 17, es[1..], k, rv.AddIds(k, es[0].Ids()), end);
      WithIdsTwice(rv, k, es[0].Ids(), Covered(es[1..]));
    }
  }

  lemma {:induction false} ListRead(s: BitString, pos: nat, n: nat, rv: Restrictions)
    requires DecodeList(s, pos, n, rv).Success?
    ensures AddedAt(s, pos, n, rv, DecodeList(s, pos, n, rv).value.0, DecodeList(s, pos, n, rv).value.1)
    decreases n
  {
    hide DecodeEntriesInto, ReadRangesAt, ReadInt, IntAt, Covered, WithIds;
    if n > 0 {
      ReadIntMeaning(s, pos, 6);
      ReadIntMeaning(s, pos + 6, 2);
      ReadIntMeaning(s, pos + 8, 12);
      var k := PurposeRestriction(ReadInt(s, pos, 6).value, ReadInt(s, pos + 6, 2).value);
      var count := ReadInt(s, pos + 8, 12).value;
      var next := DecodeEntriesInto(s, pos + 20, count, k, rv).value;
      EntriesIntoRead(s, pos + 20, count, k, rv);
      var es: seq<Entry> :| ReadRangesAt(s, pos + 20, es, next.1) && |es| == count
        && next.0 == WithIds(rv, k, Covered(es));
      assert RestrictionAt(s, pos, k, es, next.1);
      ListRead(s, next.1, n - 1, next.0);
    }
  }

  lemma RestrictionDecoded(
    s: BitString, pos: nat, k: PurposeRestriction, es: seq<Entry>, next: nat, rv: Restrictions)
    requires RestrictionAt(s, pos, k, es, next)
    ensures ReadInt(s, pos, 6) == Success(k.purposeId) && ReadInt(s, pos + 6, 2) == Success(k.restrictionType)
    ensures ReadInt(s, pos + 8, 12) == Success(|es|)
    ensures DecodeEntriesInto(s, pos + 20, |es|, k, rv) == Success((WithIds(rv, k, Covered(es)), next))
  {
    hide DecodeEntriesInto, ReadRangesAt, ReadInt, Covered, WithIds;
    IntRead(s, pos, 6);
    IntRead(s, pos + 6, 2);
    IntRead(s, pos + 8, 12);
    EntriesIntoDecoded(s, pos + 20, es, k, rv, next);
  }

  lemma {:induction false} ListDecoded(s: BitString, pos: nat, n: nat, rv: Restrictions, result: Restrictions, end: nat)
    requires AddedAt(s, pos, n, rv, result, end)
    ensures DecodeList(s, pos, n, rv) == Success((result, end))
    decreases n
  {
    hide DecodeEntriesInto, RestrictionAt, ReadInt, Covered, WithIds;
    if n > 0 {
      var k: PurposeRestriction, es: seq<Entry>, next: nat :| RestrictionAt(s, pos, k, es, next)
        && AddedAt(s, next, n - 1, WithIds(rv, k, Covered(es)), result, end);
      RestrictionDecoded(s, pos, k, es, next, rv);
      ListDecoded(s, next, n - 1, WithIds(rv, k, Covered(es)), result, end);
    }
  }

  ghost predicate RestrictionsReadAs(s: BitString, result: Restrictions, end: nat) {
    12 <= |s| && AddedAt(s, 12, ValueOf(s[0..12]), NoRestrictions, result, end)
  }

  /** Decoding restrictions accepts exactly what can be read in this way. */
  lemma RestrictionsReading(s: BitString, result: Restrictions, end: nat)
    ensures DecodeRestrictions(s) == Success((result, end)) <==> RestrictionsReadAs(s, result, end)
  {
    hide DecodeList, AddedAt, ReadInt;
    IntRead(s, 0, 12);
    if 12 <= |s| {
      var n := ValueOf(s[0..12]);
      if DecodeList(s, 12, n, NoRestrictions).Success? {
        ListRead(s, 12, n, NoRestrictions);
      }
      if AddedAt(s, 12, n, NoRestrictions, result, end) {
        ListDecoded(s, 12, n, NoRestrictions, result, end);
      }
    }
  }

  // ---------- Field by field ----------

  /** What is decoded from the `i`-th field of a segment on, at `pos`, into `t`, is `d`. */
  ghost predicate ReadTail(t: Model, segment: Segment, i: nat, s: BitString, pos: nat, d: Model) {
    i <= |FieldSequence(segment)| && DecodeFields(t, FieldSequence(segment)[i..], s, pos) == Success(d)
  }

  /** No field stands in a segment twice. */
  lemma FieldOnce(segment: Segment, i: nat)
    requires i < |FieldSequence(segment)|
    ensures FieldSequence(segment)[i] !in FieldSequence(segment)[i + 1..]
  {
  }

  /** Decoding other fields leaves a field as it is. */
  lemma {:induction false} DecodeKeeps(t: Model, fs: seq<Field>, s: BitString, pos: nat, d: Model, f: Field)
    requires DecodeFields(t, fs, s, pos) == Success(d) && f !in fs && f in t
    ensures f in d && d[f] == t[f]
    decreases |fs|
  {
    hide DecodeField;
    if fs != [] {
      assert forall g | g in fs[1..] :: g in fs;
      if Skipped(fs[0], Custom(t)) {
        DecodeKeeps(t, fs[1..], s, pos, d, f);
      } else {
        var next := DecodeField(fs[0], Custom(t), s, pos).value;
        SetKeeps(t, fs[0], next.0, f);
        DecodeKeeps(SetField(t, fs[0], next.0).value, fs[1..], s, next.1, d, f);
      }
    }
  }

  lemma SetKeeps(t: Model, f: Field, v: Value, g: Field)
    requires SetField(t, f, v).Success? && g != f && g in t
    ensures g in SetField(t, f, v).value && SetField(t, f, v).value[g] == t[g]
  {
  }

  /** The field read next, as the setter leaves it, is the one of the decoded model. */
  lemma ReadNext(t: Model, segment: Segment, i: nat, f: Field, s: BitString, pos: nat, d: Model)
    returns (v: Value, t': Model, next: nat)
    requires i < |FieldSequence(segment)| && FieldSequence(segment)[i] == f && ReadTail(t, segment, i, s, pos, d)
    requires !Skipped(f, Custom(t))
    ensures DecodeField(f, Custom(t), s, pos) == Success((v, next)) && SetField(t, f, v) == Success(t')
    ensures f in d && f in t' && d[f] == t'[f] && ReadTail(t', segment, i + 1, s, next, d)
  {
    hide FieldSequence, DecodeField, Custom;
    var fs := FieldSequence(segment);
    assert fs[i..][0] == f && fs[i..][1..] == fs[i + 1..];
    var read := DecodeField(f, Custom(t), s, pos).value;
    v, next := read.0, read.1;
    t' := SetField(t, f, v).value;
    FieldOnce(segment, i);
    DecodeKeeps(t', fs[i + 1..], s, next, d, f);
  }

  lemma ReadNextInt(t: Model, segment: Segment, i: nat, f: Field, w: nat, s: BitString, pos: nat, d: Model)
    returns (t': Model)
    requires i < |FieldSequence(segment)| && FieldSequence(segment)[i] == f && ReadTail(t, segment, i, s, pos, d)
    requires EncoderOf(f) == IntEncoder && Width(f, Custom(t)) == w > 0 && !Skipped(f, Custom(t))
    ensures IntAt(s, pos, w, IntOf(d, f)) && ReadTail(t', segment, i + 1, s, pos + w, d)
    ensures f == CmpId ==> IntOf(d, f) > 1
    ensures f == NumCustomPurposes ==> Custom(t') == IntOf(d, f)
  {
    hide FieldSequence, ReadTail, EncoderOf, Width, IntAt, ReadInt;
    var v, next;
    v, t', next := ReadNext(t, segment, i, f, s, pos, d);
    ReadIntMeaning(s, pos, w);
    CountryIsNoInt(f);
  }

  lemma CountryIsNoInt(f: Field)
    ensures f == PublisherCountryCode ==> EncoderOf(f) == LangEncoder
  {
  }

  lemma ReadNextDate(t: Model, segment: Segment, i: nat, f: Field, s: BitString, pos: nat, d: Model)
    returns (t': Model)
    requires i < |FieldSequence(segment)| && FieldSequence(segment)[i] == f && ReadTail(t, segment, i, s, pos, d)
    requires EncoderOf(f) == DateEncoder && Width(f, Custom(t)) == 36 && !Skipped(f, Custom(t))
    ensures f in d && d[f].Date? && d[f].ms % 100 == 0 && IntAt(s, pos, 36, d[f].ms / 100)
    ensures ReadTail(t', segment, i + 1, s, pos + 36, d)
  {
    hide FieldSequence, ReadTail, EncoderOf, Width, IntAt;
    var v, next;
    v, t', next := ReadNext(t, segment, i, f, s, pos, d);
    ReadIntMeaning(s, pos, 36);
    CountryIsNoInt(f);
  }

  lemma ReadNextFlag(t: Model, segment: Segment, i: nat, f: Field, s: BitString, pos: nat, d: Model)
    returns (t': Model)
    requires i < |FieldSequence(segment)| && FieldSequence(segment)[i] == f && ReadTail(t, segment, i, s, pos, d)
    requires EncoderOf(f) == BooleanEncoder && !Skipped(f, Custom(t))
    ensures (BoolOf(d, f) <==> Flagged(s, pos)) && ReadTail(t', segment, i + 1, s, pos + 1, d)
  {
    hide FieldSequence, ReadTail, EncoderOf, Width, ReadBool;
    var v, next;
    v, t', next := ReadNext(t, segment, i, f, s, pos, d);
    FlagRead(s, pos);
    CountryIsNoInt(f);
  }

  lemma ReadNextIds(t: Model, segment: Segment, i: nat, f: Field, w: nat, s: BitString, pos: nat, d: Model)
    returns (t': Model)
    requires i < |FieldSequence(segment)| && FieldSequence(segment)[i] == f && ReadTail(t, segment, i, s, pos, d)
    requires EncoderOf(f) == FixedVectorEncoder && Width(f, Custom(t)) == w > 0 && !Skipped(f, Custom(t))
    ensures IdsAt(s, pos, w, IdsOf(d, f)) && (forall x | x in IdsOf(d, f) :: 1 <= x <= w)
    ensures ReadTail(t', segment, i + 1, s, pos + w, d) && Custom(t') == Custom(t)
  {
    hide FieldSequence, ReadTail, EncoderOf, Width, DecodeFixed, IdsAt;
    var v, next;
    v, t', next := ReadNext(t, segment, i, f, s, pos, d);
    CountryIsNoInt(f);
    assert pos + w <= |s| by { LongEnough(s, pos, w); }
    FixedRead(s, pos, w, v.ids);
    IntIsNoVector(f);
  }

  lemma IntIsNoVector(f: Field)
    ensures f == NumCustomPurposes ==> EncoderOf(f) == IntEncoder
  {
  }

  lemma LongEnough(s: BitString, pos: nat, w: nat)
    requires w > 0 && DecodeFixed(Substr(s, pos, w), w).Success?
    ensures pos + w <= |s|
  {
  }

  /** Two numbers of six bits, which stand for the characters from "A" on. */
  predicate CodeReadAt(s: BitString, pos: nat, code: string) {
    |code| == 2 && IntAt(s, pos, 6, code[0] as int - 65) && IntAt(s, pos + 6, 6, code[1] as int - 65)
  }

  lemma CodeRead(s: BitString, pos: nat)
    requires DecodeLang(Substr(s, pos, 12), 12).Success?
    ensures CodeReadAt(s, pos, DecodeLang(Substr(s, pos, 12), 12).value)
  {
    var b := s[pos..pos + 12];
    assert Substr(s, pos, 12) == b;
    assert b[..6] == s[pos..pos + 6] && b[6..] == s[pos + 6..pos + 12];
    Pow2Values();
  }

  lemma ReadNextLanguage(t: Model, segment: Segment, i: nat, s: BitString, pos: nat, d: Model) returns (t': Model)
    requires i < |FieldSequence(segment)| && FieldSequence(segment)[i] == ConsentLanguage
    requires ReadTail(t, segment, i, s, pos, d)
    ensures CodeReadAt(s, pos, CodeOf(d, ConsentLanguage)) && ReadTail(t', segment, i + 1, s, pos + 12, d)
  {
    hide FieldSequence, ReadTail, DecodeLang, CodeReadAt;
    var v, next;
    v, t', next := ReadNext(t, segment, i, ConsentLanguage, s, pos, d);
    CodeRead(s, pos);
  }

  /** The country is refused unless the characters are between "A" and "z", and is kept in upper case. */
  lemma ReadNextCountry(t: Model, segment: Segment, i: nat, s: BitString, pos: nat, d: Model)
    returns (t': Model, code: string)
    requires i < |FieldSequence(segment)| && FieldSequence(segment)[i] == PublisherCountryCode
    requires ReadTail(t, segment, i, s, pos, d)
    ensures CodeReadAt(s, pos, code) && 'A' <= code[0] <= 'z' && 'A' <= code[1] <= 'z'
    ensures CodeOf(d, PublisherCountryCode) == [Upper(code[0]), Upper(code[1])]
    ensures ReadTail(t', segment, i + 1, s, pos + 12, d)
  {
    hide FieldSequence, ReadTail, DecodeLang;
    var v, next;
    v, t', next := ReadNext(t, segment, i, PublisherCountryCode, s, pos, d);
    CodeRead(s, pos);
    code := v.code;
  }

  lemma ReadNextVendors(t: Model, segment: Segment, i: nat, f: Field, s: BitString, pos: nat, d: Model)
    returns (t': Model, next: nat)
    requires i < |FieldSequence(segment)| && FieldSequence(segment)[i] == f && ReadTail(t, segment, i, s, pos, d)
    requires EncoderOf(f) == VendorVectorEncoder && !Skipped(f, Custom(t))
    ensures VendorsReadAs(Rest(s, pos), IdsOf(d, f), next) && ReadTail(t', segment, i + 1, s, pos + next, d)
  {
    hide FieldSequence, ReadTail, EncoderOf, Width, DecodeVendors, VendorsReadAs;
    var v, end;
    v, t', end := ReadNext(t, segment, i, f, s, pos, d);
    next := end - pos;
    CountryIsNoInt(f);
    VendorsReading(Rest(s, pos), v.ids, next);
  }

  lemma ReadNextRestrictions(t: Model, segment: Segment, i: nat, s: BitString, pos: nat, d: Model)
    returns (t': Model, next: nat)
    requires i < |FieldSequence(segment)| && FieldSequence(segment)[i] == PublisherRestrictions
    requires ReadTail(t, segment, i, s, pos, d)
    ensures RestrictionsReadAs(Rest(s, pos), RestrictionsOf(d), next)
  {
    hide FieldSequence, ReadTail, DecodeRestrictions, RestrictionsReadAs;
    var v, end;
    v, t', end := ReadNext(t, segment, i, PublisherRestrictions, s, pos, d);
    next := end - pos;
    RestrictionsReading(Rest(s, pos), v.rv, next);
  }

  // ---------- The segments ----------

  ghost predicate CoreReadStart(s: BitString, d: Model) {
    && IntAt(s, 0, 6, 2)
    && Created in d && d[Created].Date? && d[Created].ms % 100 == 0 && IntAt(s, 6, 36, d[Created].ms / 100)
    && LastUpdated in d && d[LastUpdated].Date? && d[LastUpdated].ms % 100 == 0
    && IntAt(s, 42, 36, d[LastUpdated].ms / 100)
    && IntAt(s, 78, 12, IntOf(d, CmpId)) && IntOf(d, CmpId) > 1
    && IntAt(s, 90, 12, IntOf(d, CmpVersion))
    && IntAt(s, 102, 6, IntOf(d, ConsentScreen))
    && CodeReadAt(s, 108, CodeOf(d, ConsentLanguage))
    && IntAt(s, 120, 12, IntOf(d, VendorListVersion))
    && IntAt(s, 132, 6, IntOf(d, PolicyVersion))
  }

  ghost predicate CoreReadOn(s: BitString, d: Model, code: string) {
    && (BoolOf(d, IsServiceSpecific) <==> Flagged(s, 138))
    && (BoolOf(d, UseNonStandardTexts) <==> Flagged(s, 139))
    && IdsAt(s, 140, 12, IdsOf(d, SpecialFeatureOptins))
    && IdsAt(s, 152, 24, IdsOf(d, PurposeConsents))
    && IdsAt(s, 176, 24, IdsOf(d, PurposeLegitimateInterests))
    && (BoolOf(d, PurposeOneTreatment) <==> Flagged(s, 200))
    && CodeReadAt(s, 201, code) && 'A' <= code[0] <= 'z' && 'A' <= code[1] <= 'z'
    && CodeOf(d, PublisherCountryCode) == [Upper(code[0]), Upper(code[1])]
  }

  lemma CoreShapes(custom: nat)
    ensures EncoderOf(Version) == EncoderOf(CmpId) == EncoderOf(CmpVersion) == EncoderOf(ConsentScreen) == IntEncoder
    ensures EncoderOf(VendorListVersion) == EncoderOf(PolicyVersion) == IntEncoder
    ensures EncoderOf(Created) == EncoderOf(LastUpdated) == DateEncoder
    ensures EncoderOf(IsServiceSpecific) == EncoderOf(UseNonStandardTexts) == BooleanEncoder
    ensures EncoderOf(PurposeOneTreatment) == BooleanEncoder
    ensures EncoderOf(SpecialFeatureOptins) == EncoderOf(PurposeConsents) == FixedVectorEncoder
    ensures EncoderOf(PurposeLegitimateInterests) == FixedVectorEncoder
    ensures EncoderOf(VendorConsents) == EncoderOf(VendorLegitimateInterests) == VendorVectorEncoder
    ensures Width(Version, custom) == Width(ConsentScreen, custom) == Width(PolicyVersion, custom) == 6
    ensures Width(CmpId, custom) == Width(CmpVersion, custom) == Width(VendorListVersion, custom) == 12
    ensures Width(Created, custom) == Width(LastUpdated, custom) == 36
    ensures Width(SpecialFeatureOptins, custom) == 12
    ensures Width(PurposeConsents, custom) == Width(PurposeLegitimateInterests, custom) == 24
    ensures forall f: Field | !IsPublisherCustom(f) :: !Skipped(f, custom)
  {
  }

  lemma ReadCoreStart(t: Model, s: BitString, d: Model) returns (t': Model)
    requires ReadTail(t, Core, 0, s, 0, d)
    ensures IntAt(s, 0, 6, 2) ==> CoreReadStart(s, d)
    ensures ReadTail(t', Core, 9, s, 138, d)
  {
    hide ReadTail, IntAt, CodeReadAt, FieldSequence, EncoderOf, Width, Skipped, Custom;
    CoreFields();
    CoreShapes(Custom(t));
    t' := ReadNextInt(t, Core, 0, Version, 6, s, 0, d);
    CoreShapes(Custom(t'));
    t' := ReadNextDate(t', Core, 1, Created, s, 6, d);
    CoreShapes(Custom(t'));
    t' := ReadNextDate(t', Core, 2, LastUpdated, s, 42, d);
    CoreShapes(Custom(t'));
    t' := ReadNextInt(t', Core, 3, CmpId, 12, s, 78, d);
    CoreShapes(Custom(t'));
    t' := ReadNextInt(t', Core, 4, CmpVersion, 12, s, 90, d);
    CoreShapes(Custom(t'));
    t' := ReadNextInt(t', Core, 5, ConsentScreen, 6, s, 102, d);
    t' := ReadNextLanguage(t', Core, 6, s, 108, d);
    CoreShapes(Custom(t'));
    t' := ReadNextInt(t', Core, 7, VendorListVersion, 12, s, 120, d);
    CoreShapes(Custom(t'));
    t' := ReadNextInt(t', Core, 8, PolicyVersion, 6, s, 132, d);
  }

  lemma ReadCoreOn(t: Model, s: BitString, d: Model) returns (t': Model, code: string)
    requires ReadTail(t, Core, 9, s, 138, d)
    ensures CoreReadOn(s, d, code) && ReadTail(t', Core, 16, s, 213, d)
  {
    hide ReadTail, IdsAt, CodeReadAt, FieldSequence, Flagged, EncoderOf, Width, Skipped, Custom;
    CoreFields();
    CoreShapes(Custom(t));
    t' := ReadNextFlag(t, Core, 9, IsServiceSpecific, s, 138, d);
    CoreShapes(Custom(t'));
    t' := ReadNextFlag(t', Core, 10, UseNonStandardTexts, s, 139, d);
    CoreShapes(Custom(t'));
    t' := ReadNextIds(t', Core, 11, SpecialFeatureOptins, 12, s, 140, d);
    CoreShapes(Custom(t'));
    t' := ReadNextIds(t', Core, 12, PurposeConsents, 24, s, 152, d);
    CoreShapes(Custom(t'));
    t' := ReadNextIds(t', Core, 13, PurposeLegitimateInterests, 24, s, 176, d);
    CoreShapes(Custom(t'));
    t' := ReadNextFlag(t', Core, 14, PurposeOneTreatment, s, 200, d);
    t', code := ReadNextCountry(t', Core, 15, s, 201, d);
  }

  /**
    Whatever core is decoded, the model has from it what stands at these places: nine fields in the first 138 bits,
    seven up to bit 213, and then one behind the other the vendors consented to, those with a legitimate interest and
    the restrictions.
   */
  lemma CoreReading(text: string, t: Model, d: Model)
    returns (s: BitString, code: string, consents: nat, interests: nat, restrictions: nat)
    requires DecodeSegment(text, t, Core) == Success(d)
    ensures Base64.Decode(text) == Success(s) && CoreReadStart(s, d) && CoreReadOn(s, d, code)
    ensures VendorsReadAs(Rest(s, 213), IdsOf(d, VendorConsents), consents)
    ensures VendorsReadAs(Rest(s, 213 + consents), IdsOf(d, VendorLegitimateInterests), interests)
    ensures RestrictionsReadAs(Rest(s, 213 + consents + interests), RestrictionsOf(d), restrictions)
  {
    hide ReadTail, IntAt, CoreReadStart, CoreReadOn, VendorsReadAs, RestrictionsReadAs, FieldSequence, Base64.Decode;
    hide DecodeFields, ReadInt, EncoderOf, Width, Skipped, Custom, DecodeSegmentBits;
    CoreFields();
    s := Base64.Decode(text).value;
    ReadIntMeaning(s, 0, 6);
    var t' := t[Version := Int(2)];
    CoreTail(s, t, d);
    t' := ReadCoreStart(t', s, d);
    t', code := ReadCoreOn(t', s, d);
    consents, interests, restrictions := ReadCoreEnd(t', s, d);
  }

  lemma ReadCoreEnd(t: Model, s: BitString, d: Model) returns (consents: nat, interests: nat, restrictions: nat)
    requires ReadTail(t, Core, 16, s, 213, d)
    ensures VendorsReadAs(Rest(s, 213), IdsOf(d, VendorConsents), consents)
    ensures VendorsReadAs(Rest(s, 213 + consents), IdsOf(d, VendorLegitimateInterests), interests)
    ensures RestrictionsReadAs(Rest(s, 213 + consents + interests), RestrictionsOf(d), restrictions)
  {
    hide ReadTail, VendorsReadAs, RestrictionsReadAs, FieldSequence, EncoderOf, Width, Skipped, Custom;
    CoreFields();
    CoreShapes(Custom(t));
    var t';
    t', consents := ReadNextVendors(t, Core, 16, VendorConsents, s, 213, d);
    CoreShapes(Custom(t'));
    t', interests := ReadNextVendors(t', Core, 17, VendorLegitimateInterests, s, 213 + consents, d);
    t', restrictions := ReadNextRestrictions(t', Core, 18, s, 213 + consents + interests, d);
  }

  lemma CoreTail(s: BitString, t: Model, d: Model)
    requires DecodeSegmentBits(s, t, Core) == Success(d)
    ensures ReadTail(t[Version := Int(2)], Core, 0, s, 0, d) && ReadInt(s, 0, 6) == Success(2)
  {
    hide DecodeFields, ReadInt, FieldSequence;
    assert FieldSequence(Core)[0..] == FieldSequence(Core);
  }

  /** What is read of the publisher's segment; without custom purposes their two fields stay as they were. */
  lemma PublisherReading(text: string, t: Model, d: Model) returns (s: BitString)
    requires DecodeSegment(text, t, PublisherTC) == Success(d)
    ensures Base64.Decode(text) == Success(s)
    ensures IdsAt(s, 3, 24, IdsOf(d, PublisherConsents)) && IdsAt(s, 27, 24, IdsOf(d, PublisherLegitimateInterests))
    ensures IntAt(s, 51, 6, IntOf(d, NumCustomPurposes)) && IntOf(d, NumCustomPurposes) >= 0
    ensures var n := IntOf(d, NumCustomPurposes);
      n > 0 ==>
        && IdsAt(s, 57, n, IdsOf(d, PublisherCustomConsents))
        && IdsAt(s, 57 + n, n, IdsOf(d, PublisherCustomLegitimateInterests))
  {
    hide ReadTail, IntAt, IdsAt, FieldSequence, Base64.Decode, DecodeFields, ReadInt, EncoderOf, Width, Custom;
    PublisherFields();
    s := Base64.Decode(text).value;
    OtherTail(s, t, PublisherTC, d);
    PublisherShapes(Custom(t));
    var t' := ReadNextIds(t, PublisherTC, 0, PublisherConsents, 24, s, 3, d);
    t' := ReadNextIds(t', PublisherTC, 1, PublisherLegitimateInterests, 24, s, 27, d);
    t' := ReadNextInt(t', PublisherTC, 2, NumCustomPurposes, 6, s, 51, d);
    var n := Custom(t');
    PublisherShapes(n);
    if n > 0 {
      t' := ReadNextIds(t', PublisherTC, 3, PublisherCustomConsents, n, s, 57, d);
      t' := ReadNextIds(t', PublisherTC, 4, PublisherCustomLegitimateInterests, n, s, 57 + n, d);
    }
  }

  lemma PublisherFields()
    ensures var fs := FieldSequence(PublisherTC);
      && |fs| == 5 && fs[0] == PublisherConsents && fs[1] == PublisherLegitimateInterests && fs[2] == NumCustomPurposes
      && fs[3] == PublisherCustomConsents && fs[4] == PublisherCustomLegitimateInterests
  {
  }

  lemma PublisherShapes(custom: nat)
    ensures EncoderOf(PublisherConsents) == EncoderOf(PublisherLegitimateInterests) == FixedVectorEncoder
    ensures EncoderOf(PublisherCustomConsents) == FixedVectorEncoder
    ensures EncoderOf(PublisherCustomLegitimateInterests) == FixedVectorEncoder
    ensures EncoderOf(NumCustomPurposes) == IntEncoder
    ensures Width(PublisherConsents, custom) == Width(PublisherLegitimateInterests, custom) == 24
    ensures Width(NumCustomPurposes, custom) == 6
    ensures Width(PublisherCustomConsents, custom) == Width(PublisherCustomLegitimateInterests, custom) == custom
  {
  }

  lemma OtherTail(s: BitString, t: Model, segment: Segment, d: Model)
    requires DecodeSegmentBits(s, t, segment) == Success(d) && segment != Core
    ensures ReadTail(t, segment, 0, s, 3, d) && IsVersion2(t)
  {
    hide DecodeFields, FieldSequence;
    assert FieldSequence(segment)[0..] == FieldSequence(segment);
  }

  /** What is read of the two segments of vendors. */
  lemma VendorSegmentReading(text: string, t: Model, segment: Segment, d: Model) returns (s: BitString, end: nat)
    requires segment == VendorsDisclosedSegment || segment == VendorsAllowedSegment
    requires DecodeSegment(text, t, segment) == Success(d)
    ensures Base64.Decode(text) == Success(s)
    ensures VendorsReadAs(
      Rest(s, 3), IdsOf(d, if segment == VendorsDisclosedSegment then VendorsDisclosed else VendorsAllowed), end)
  {
    hide ReadTail, VendorsReadAs, Base64.Decode, DecodeFields;
    s := Base64.Decode(text).value;
    OtherTail(s, t, segment, d);
    var f := if segment == VendorsDisclosedSegment then VendorsDisclosed else VendorsAllowed;
    var t';
    t', end := ReadNextVendors(t, segment, 0, f, s, 3, d);
  }

  // ---------- The type of a segment ----------

  lemma FirstThreeOfSix(b: BitString)
    requires |b| == 6
    ensures ValueOf(b[..3]) == ValueOf(b) / 8
  {
    assert b[..5][..4] == b[..4] && b[..4][..3] == b[..3];
    assert ValueOf(b) == 2 * ValueOf(b[..5]) + if b[5] then 1 else 0;
    assert ValueOf(b[..5]) == 2 * ValueOf(b[..4]) + if b[4] then 1 else 0;
    assert ValueOf(b[..4]) == 2 * ValueOf(b[..3]) + if b[3] then 1 else 0;
  }

  /** The first letter of a segment tells its type: "A" to "H", "I" to "P", "Q" to "X", or "Y" to "f". */
  lemma TypeLetter(text: string, v: nat)
    requires text != "" && IsLetterFor(text[0], v)
    ensures SegmentType(text) == Success(
      if v < 8 then Some(Core)
      else if v < 16 then Some(VendorsDisclosedSegment)
      else if v < 24 then Some(VendorsAllowedSegment)
      else if v < 32 then Some(PublisherTC)
      else None)
  {
    hide IntAt, ValueOf;
    var first := text[..1];
    ValueOfLetter(text[0], v);
    OneLetter(first);
    var b := Base64.IndexBits(v);
    FirstThreeOfSix(b);
    IntRead(b, 0, 3);
    assert b[0..3] == b[..3];
  }

  lemma ValueOfLetter(c: char, v: nat)
    requires IsLetterFor(c, v)
    ensures Base64.CharValue(c) == Some(v)
  {
  }

  lemma OneLetter(text: string)
    requires |text| == 1 && Base64.CharValue(text[0]).Some?
    ensures Base64.Decode(text) == Success(Base64.IndexBits(Base64.CharValue(text[0]).value))
  {
    hide Base64.CharValue, Base64.IndexBits;
    assert Base64.IsBase64Url(text) by {
      assert text == [text[0]];
    }
    assert text[0..] == text;
    Base64.BitsFrom(text, 0);
    Base64.NoBits(text);
    assert Base64.IndexBits(Base64.CharValue(text[0]).value) + [] == Base64.IndexBits(Base64.CharValue(text[0]).value);
  }

  /** A part of an unknown type ends the decoding. */
  lemma UnknownType(parts: seq<string>, t: Model, v: nat)
    requires parts != [] && parts[0] != "" && IsLetterFor(parts[0][0], v) && v >= 32
    ensures DecodeParts(parts, t).Failure?
  {
    hide SegmentType;
    TypeLetter(parts[0], v);
  }
}
