/** `ze` and `bt`: segments of fields in Base64Url, joined by dots into the consent string. Version 2 only. */
module TcfSegments {
  import opened Outcomes
  import opened Sequences
  import opened TcfBits
  import opened TcfFields
  import TcfRestrictions
  import TcfVendors
  import Base64 = TcfBase64Url

  datatype Segment = Core | VendorsDisclosedSegment | VendorsAllowedSegment | PublisherTC

  /** `KEY_TO_ID`. */
  function SegmentId(segment: Segment): nat {
    match segment
    case Core => 0
    case VendorsDisclosedSegment => 1
    case VendorsAllowedSegment => 2
    case PublisherTC => 3
  }

  /** `ID_TO_KEY`. */
  function SegmentOf(id: nat): Option<Segment> {
    match id
    case 0 => Some(Core)
    case 1 => Some(VendorsDisclosedSegment)
    case 2 => Some(VendorsAllowedSegment)
    case 3 => Some(PublisherTC)
    case _ => None
  }

  /** The number of fields of a segment, for version 2. */
  function FieldCount(segment: Segment): nat {
    match segment
    case Core => 19
    case PublisherTC => 5
    case _ => 1
  }

  /** The fields of a segment by position, for version 2. */
  function FieldAt(segment: Segment, i: nat): Field {
    match segment
    case Core =>
      if i == 0 then Version
      else if i == 1 then Created
      else if i == 2 then LastUpdated
      else if i == 3 then CmpId
      else if i == 4 then CmpVersion
      else if i == 5 then ConsentScreen
      else if i == 6 then ConsentLanguage
      else if i == 7 then VendorListVersion
      else if i == 8 then PolicyVersion
      else if i == 9 then IsServiceSpecific
      else if i == 10 then UseNonStandardTexts
      else if i == 11 then SpecialFeatureOptins
      else if i == 12 then PurposeConsents
      else if i == 13 then PurposeLegitimateInterests
      else if i == 14 then PurposeOneTreatment
      else if i == 15 then PublisherCountryCode
      else if i == 16 then VendorConsents
      else if i == 17 then VendorLegitimateInterests
      else PublisherRestrictions
    case VendorsDisclosedSegment => VendorsDisclosed
    case VendorsAllowedSegment => VendorsAllowed
    case PublisherTC =>
      if i == 0 then PublisherConsents
      else if i == 1 then PublisherLegitimateInterests
      else if i == 2 then NumCustomPurposes
      else if i == 3 then PublisherCustomConsents
      else PublisherCustomLegitimateInterests
  }

  function FieldSequence(segment: Segment): (fs: seq<Field>)
    ensures |fs| == FieldCount(segment)
    ensures forall i: nat | i < |fs| :: fs[i] == FieldAt(segment, i)
  {
    seq(FieldCount(segment), i requires 0 <= i => FieldAt(segment, i))
  }

  predicate IsVersion2(t: Model) {
    Version in t && t[Version] == Int(2)
  }

  // ---------- One segment ----------

  /** The type of a segment, which the core does not have room for. */
  ghost function TypeBits(segment: Segment): BitString {
    Pow2Values();
    if segment == Core then [] else IntBits(SegmentId(segment), 3)
  }

  ghost function SegmentBits(m: Model, segment: Segment, gvl: set<nat>): Result<BitString, TcfError> {
    if !IsVersion2(m) then Failure(EncodingError)
    else
      var b :- EncodeFields(m, FieldSequence(segment), gvl);
      Success(TypeBits(segment) + b)
  }

  /** `ze.encode`. */
  ghost function EncodeSegment(m: Model, segment: Segment, gvl: set<nat>): Result<string, TcfError> {
    var b :- SegmentBits(m, segment, gvl);
    Base64.Encode(b)
  }

  /** `ze.decode`: the core brings its version, the other segments rely on the one already known. */
  ghost function DecodeSegment(text: string, t: Model, segment: Segment): Result<Model, TcfError>
  {
    var s :- Base64.Decode(text);
    DecodeSegmentBits(s, t, segment)
  }

  ghost function DecodeSegmentBits(s: BitString, t: Model, segment: Segment): Result<Model, TcfError>
  {
    if segment == Core then
      var version :- ReadInt(s, 0, 6);
      if version != 2 then Failure(OtherError)
      else DecodeFields(t[Version := Int(version)], FieldSequence(segment), s, 0)
    else if !IsVersion2(t) then Failure(OtherError)
    else DecodeFields(t, FieldSequence(segment), s, 3)
  }

  /** `bt.decode` on the first character of a segment: its first three bits name the type, if it is a known one. */
  ghost function SegmentType(text: string): Result<Option<Segment>, TcfError> {
    var bits :- Base64.Decode(if text == [] then [] else text[..1]);
    var id :- ReadInt(bits, 0, 3);
    Success(SegmentOf(id))
  }

  /** A segment of an unknown type is decoded to bits before the lack of a field sequence is noticed. */
  ghost function DecodeTyped(text: string, t: Model, segment: Option<Segment>): Result<Model, TcfError> {
    match segment
    case Some(known) => DecodeSegment(text, t, known)
    case None =>
      var _ :- Base64.Decode(text);
      Failure(OtherError)
  }

  // ---------- The first three bits ----------

  lemma VersionBits()
    ensures 2 < Pow2(6) && 0 < Pow2(3) && IntBits(2, 6)[..3] == IntBits(0, 3)
  {
    Pow2Values();
    var two: BitString := [false, false, false, false, true, false];
    var zero: BitString := [false, false, false];
    assert two[..5][..4] == zero + [false] && (zero + [false])[..3] == zero && zero[..2] == [false, false];
    assert ([false, false])[..1] == [false];
    assert ValueOf([false]) == 0;
    assert ValueOf([false, false]) == 0;
    assert ValueOf(zero) == 0;
    assert ValueOf(zero + [false]) == 0;
    assert ValueOf(two[..5]) == 1;
    assert ValueOf(two) == 2;
    ValueOfInjective(two, IntBits(2, 6));
    ValueOfInjective(zero, IntBits(0, 3));
  }

  /** An encoded segment starts with the three bits of its type; for the core these are the first of its version. */
  lemma SegmentBitsStart(m: Model, segment: Segment, gvl: set<nat>)
    requires WellTyped(m) && SegmentBits(m, segment, gvl).Success?
    ensures SegmentId(segment) < Pow2(3) && |SegmentBits(m, segment, gvl).value| >= 3
    ensures At(SegmentBits(m, segment, gvl).value, 0, IntBits(SegmentId(segment), 3))
  {
    hide EncodeField, IntBits;
    Pow2Values();
    var b := SegmentBits(m, segment, gvl).value;
    if segment == Core {
      VersionBits();
      var rest := EncodeFields(m, FieldSequence(Core)[1..], gvl).value;
      VersionField(m, gvl);
      assert b == IntBits(2, 6) + rest;
      AtPrefix(IntBits(2, 6), rest);
      assert IntBits(2, 6) == IntBits(0, 3) + IntBits(2, 6)[3..];
      AtConcat(b, 0, IntBits(0, 3), IntBits(2, 6)[3..]);
    } else {
      AtPrefix(IntBits(SegmentId(segment), 3), EncodeFields(m, FieldSequence(segment), gvl).value);
    }
  }

  lemma VersionField(m: Model, gvl: set<nat>)
    requires WellTyped(m) && IsVersion2(m)
    ensures 2 < Pow2(6) && EncodeField(m[Version], Version, Custom(m), gvl) == Success(IntBits(2, 6))
  {
    Pow2Values();
  }

  /** The first character of the text decodes to the first six bits. */
  lemma FirstCharacter(b: BitString)
    requires b != []
    ensures var text := Base64.Encode(b).value; text != [] && Base64.Decode(text[..1]).Success?
    ensures At(b + Zeros(Base64.Padding(|b|)), 0, Base64.Decode(Base64.Encode(b).value[..1]).value)
  {
    Base64.DecodeEncode(b);
    var text := Base64.Encode(b).value;
    assert text[..1] == [text[0]];
    var vs := Base64.Values(text);
    var first := Base64.IndexBits(vs[0]);
    assert Base64.Values(text[..1]) == [vs[0]];
    assert Base64.BitsOf([vs[0]]) == first + Base64.BitsOf([]);
    assert first + [] == first;
    AtPrefix(first, Base64.BitsOf(vs[1..]));
  }

  /** The type of every encoded segment is read off its first character. */
  lemma SegmentTypeRoundTrip(m: Model, segment: Segment, gvl: set<nat>)
    requires WellTyped(m) && EncodeSegment(m, segment, gvl).Success?
    ensures SegmentType(EncodeSegment(m, segment, gvl).value) == Success(Some(segment))
  {
    hide IntBits, EncodeFields, Base64.Encode, Base64.Decode;
    var b := SegmentBits(m, segment, gvl).value;
    SegmentBitsStart(m, segment, gvl);
    FirstCharacter(b);
    var padded := b + Zeros(Base64.Padding(|b|));
    var bits := Base64.Decode(Base64.Encode(b).value[..1]).value;
    SixBits(b);
    Pow2Values();
    assert At(bits, 0, IntBits(SegmentId(segment), 3)) by {
      forall i: nat | i < 3
        ensures bits[i] == IntBits(SegmentId(segment), 3)[i]
      {
        assert padded[0 + i] == bits[i] && padded[i] == b[0 + i];
      }
    }
    IntRoundTrip(bits, 0, SegmentId(segment), 3);
  }

  lemma SixBits(b: BitString)
    requires b != []
    ensures var text := Base64.Encode(b).value;
      text != [] && Base64.Decode(text[..1]).Success? && |Base64.Decode(text[..1]).value| == 6
  {
    FirstCharacter(b);
  }

  // ---------- Round trip of a segment ----------

  /** In every segment the number of custom purposes is read before the fields whose width it is. */
  lemma SequenceWidths(segment: Segment)
    ensures WidthsKnown(FieldSequence(segment), false)
  {
    var fs := FieldSequence(segment);
    if segment == PublisherTC {
      assert fs[0] == PublisherConsents && fs[1] == PublisherLegitimateInterests && fs[2] == NumCustomPurposes;
      WidthsFixed(fs[1..][1..][1..], true);
      assert WidthsKnown(fs[1..][1..], false);
      assert WidthsKnown(fs[1..], false);
    } else {
      WidthsFixed(fs, false);
    }
  }

  lemma CoreRoundTrip(m: Model, gvl: set<nat>, s: BitString, t: Model)
    requires WellTyped(m) && Total(t)
    requires SegmentBits(m, Core, gvl).Success? && At(s, 0, SegmentBits(m, Core, gvl).value)
    ensures DecodeSegmentBits(s, t, Core)
         == if CmpIdRefused(m) then Failure(TCModelError)
            else Success(Transmitted(m, FieldSet(FieldSequence(Core)), gvl, t))
  {
    hide IntBits, EncodeFields, DecodeFields, Transmitted, At, WidthsKnown;
    assert FieldSequence(Core)[3] == CmpId;
    CoreVersion(m, gvl, s);
    assert SegmentBits(m, Core, gvl).value == EncodeFields(m, FieldSequence(Core), gvl).value;
    SequenceWidths(Core);
    FieldsRoundTrip(m, FieldSequence(Core), gvl, s, 0, t[Version := Int(2)], false);
    TransmittedVersion(m, gvl, t);
  }

  lemma NoCmpId(segment: Segment)
    requires segment != Core
    ensures CmpId !in FieldSequence(segment)
  {
  }

  lemma OtherRoundTrip(m: Model, segment: Segment, gvl: set<nat>, s: BitString, t: Model)
    requires WellTyped(m) && segment != Core && Total(t) && IsVersion2(t)
    requires SegmentBits(m, segment, gvl).Success? && At(s, 0, SegmentBits(m, segment, gvl).value)
    ensures DecodeSegmentBits(s, t, segment) == Success(Transmitted(m, FieldSet(FieldSequence(segment)), gvl, t))
  {
    hide IntBits, EncodeFields, DecodeFields, Transmitted, At, WidthsKnown, FieldSequence, FieldSet;
    hide WellTyped, Total, CmpIdRefused;
    NoCmpId(segment);
    AtConcat(s, 0, TypeBits(segment), EncodeFields(m, FieldSequence(segment), gvl).value);
    SequenceWidths(segment);
    FieldsRoundTrip(m, FieldSequence(segment), gvl, s, 3, t, false);
  }

  /** Decoding an encoded segment recovers all of its fields, the padding notwithstanding. */
  lemma SegmentRoundTrip(m: Model, segment: Segment, gvl: set<nat>, t: Model)
    requires WellTyped(m) && EncodeSegment(m, segment, gvl).Success?
    requires Total(t) && (segment == Core || IsVersion2(t))
    ensures DecodeSegment(EncodeSegment(m, segment, gvl).value, t, segment)
         == if segment == Core && CmpIdRefused(m) then Failure(TCModelError)
            else Success(Transmitted(m, FieldSet(FieldSequence(segment)), gvl, t))
  {
    hide FieldSequence, SegmentBits, DecodeSegmentBits, Transmitted, Base64.Encode, Base64.Decode;
    var b := SegmentBits(m, segment, gvl).value;
    SegmentBitsStart(m, segment, gvl);
    Base64.DecodeEncode(b);
    AtPrefix(b, Zeros(Base64.Padding(|b|)));
    if segment == Core {
      CoreRoundTrip(m, gvl, b + Zeros(Base64.Padding(|b|)), t);
    } else {
      OtherRoundTrip(m, segment, gvl, b + Zeros(Base64.Padding(|b|)), t);
    }
  }

  lemma CoreVersion(m: Model, gvl: set<nat>, s: BitString)
    requires WellTyped(m) && SegmentBits(m, Core, gvl).Success? && At(s, 0, SegmentBits(m, Core, gvl).value)
    ensures ReadInt(s, 0, 6) == Success(2)
  {
    hide EncodeField, IntBits;
    VersionField(m, gvl);
    var rest := EncodeFields(m, FieldSequence(Core)[1..], gvl).value;
    assert SegmentBits(m, Core, gvl).value == IntBits(2, 6) + rest;
    AtConcat(s, 0, IntBits(2, 6), rest);
    IntRoundTrip(s, 0, 2, 6);
  }

  /** The version written beforehand is overwritten. */
  lemma TransmittedVersion(m: Model, gvl: set<nat>, t: Model)
    requires WellTyped(m) && IsVersion2(m) && Version in t
    ensures Transmitted(m, FieldSet(FieldSequence(Core)), gvl, t[Version := Int(2)])
         == Transmitted(m, FieldSet(FieldSequence(Core)), gvl, t)
  {
    hide Kept;
    assert FieldSequence(Core)[0] == Version;
  }

  // ---------- The consent string ----------

  ghost function EncodeParts(m: Model, segments: seq<Segment>, gvl: set<nat>): Result<seq<string>, TcfError> {
    if segments == [] then Success([])
    else
      var first :- EncodeSegment(m, segments[0], gvl);
      var rest :- EncodeParts(m, segments[1..], gvl);
      Success([first] + rest)
  }

  /** `bt.encode` of a model that has been through the pre-encoder. */
  ghost function EncodeTcString(m: Model, segments: seq<Segment>, gvl: set<nat>): Result<string, TcfError> {
    var parts :- EncodeParts(m, segments, gvl);
    Success(Join(parts, '.'))
  }

  ghost function DecodeParts(parts: seq<string>, t: Model): Result<Model, TcfError>
    decreases |parts|
  {
    if parts == [] then Success(t)
    else
      var segment :- SegmentType(parts[0]);
      var t' :- DecodeTyped(parts[0], t, segment);
      DecodeParts(parts[1..], t')
  }

  /** `bt.decode` into the model `t`. */
  ghost function DecodeTcString(text: string, t: Model): Result<Model, TcfError>
  {
    DecodeParts(Split(text, '.'), t)
  }

  /** The fields that some segment carries. */
  function FieldsOf(segments: seq<Segment>): set<Field> {
    if segments == [] then {} else FieldSet(FieldSequence(segments[0])) + FieldsOf(segments[1..])
  }

  /** A model that decoding can write into; anything but a core needs to know that the version is 2. */
  ghost predicate Receiving(t: Model, segments: seq<Segment>) {
    Total(t) && (segments != [] && segments[0] != Core ==> IsVersion2(t))
  }

  lemma StaysReceiving(m: Model, segment: Segment, gvl: set<nat>, t: Model, rest: seq<Segment>)
    requires WellTyped(m) && IsVersion2(m) && Receiving(t, [segment])
    ensures Receiving(Transmitted(m, FieldSet(FieldSequence(segment)), gvl, t), rest)
  {
    assert FieldSequence(Core)[0] == Version;
  }

  lemma {:induction false} PartsRoundTrip(m: Model, segments: seq<Segment>, gvl: set<nat>, t: Model)
    requires WellTyped(m) && EncodeParts(m, segments, gvl).Success? && Receiving(t, segments)
    ensures DecodeParts(EncodeParts(m, segments, gvl).value, t)
         == if Core in segments && CmpIdRefused(m) then Failure(TCModelError)
            else Success(Transmitted(m, FieldsOf(segments), gvl, t))
    decreases |segments|
  {
    hide SegmentBits, SegmentType, DecodeSegment, FieldSequence, Transmitted, Base64.Encode, WellTyped;
    if segments == [] {
      TransmittedNone(m, gvl, t);
    } else {
      var segment, rest := segments[0], segments[1..];
      assert segments == [segment] + rest;
      var b := SegmentBits(m, segment, gvl).value;
      SegmentTypeRoundTrip(m, segment, gvl);
      SegmentBitsStart(m, segment, gvl);
      Base64.DecodeEncode(b);
      SegmentRoundTrip(m, segment, gvl, t);
      VersionNeeded(m, segment, gvl);
      StaysReceiving(m, segment, gvl, t, rest);
      PartsRoundTrip(m, rest, gvl, Transmitted(m, FieldSet(FieldSequence(segment)), gvl, t));
      TransmittedTwice(m, FieldSet(FieldSequence(segment)), FieldsOf(rest), gvl, t);
    }
  }

  lemma VersionNeeded(m: Model, segment: Segment, gvl: set<nat>)
    requires WellTyped(m) && EncodeSegment(m, segment, gvl).Success?
    ensures IsVersion2(m)
  {
  }

  lemma {:induction false} PartsHaveNoDot(m: Model, segments: seq<Segment>, gvl: set<nat>)
    requires WellTyped(m) && EncodeParts(m, segments, gvl).Success?
    ensures |EncodeParts(m, segments, gvl).value| == |segments|
    ensures forall part | part in EncodeParts(m, segments, gvl).value :: '.' !in part
  {
    hide SegmentBits, Base64.Encode, WellTyped;
    if segments != [] {
      SegmentBitsStart(m, segments[0], gvl);
      Base64.DecodeEncode(SegmentBits(m, segments[0], gvl).value);
      PartsHaveNoDot(m, segments[1..], gvl);
    }
  }

  /** A segment other than the core cannot be read without knowing that the version is 2. */
  lemma WrongTarget(m: Model, segments: seq<Segment>, gvl: set<nat>, t: Model)
    requires WellTyped(m) && segments != [] && EncodeParts(m, segments, gvl).Success?
    requires segments[0] != Core && !IsVersion2(t)
    ensures DecodeParts(EncodeParts(m, segments, gvl).value, t) == Failure(OtherError)
  {
    hide SegmentBits, SegmentType, Base64.Encode, Base64.Decode, WellTyped;
    var b := SegmentBits(m, segments[0], gvl).value;
    SegmentTypeRoundTrip(m, segments[0], gvl);
    SegmentBitsStart(m, segments[0], gvl);
    Base64.DecodeEncode(b);
  }

  /** There is no empty consent string. */
  lemma NothingToDecode(t: Model)
    ensures DecodeTcString("", t) == Failure(DecodingError)
  {
    assert Split("", '.') == [""];
  }

  /**
    Decoding the consent string of a model recovers every field of every segment in it. It fails exactly without
    segments, without a core in front when the target is of another version, and on a CMP id that the setter refuses.
   */
  lemma TcStringRoundTrip(m: Model, segments: seq<Segment>, gvl: set<nat>, t: Model)
    requires WellTyped(m) && EncodeTcString(m, segments, gvl).Success? && Total(t)
    ensures DecodeTcString(EncodeTcString(m, segments, gvl).value, t)
         == if segments == [] then Failure(DecodingError)
            else if segments[0] != Core && !IsVersion2(t) then Failure(OtherError)
            else if Core in segments && CmpIdRefused(m) then Failure(TCModelError)
            else Success(Transmitted(m, FieldsOf(segments), gvl, t))
  {
    hide EncodeParts, DecodeParts, Transmitted, FieldsOf, WellTyped, Total, IsVersion2, CmpIdRefused;
    if segments == [] {
      NoParts(m, gvl);
      NothingToDecode(t);
    } else {
      PartsHaveNoDot(m, segments, gvl);
      SplitJoin(EncodeParts(m, segments, gvl).value, '.');
      if segments[0] != Core && !IsVersion2(t) {
        WrongTarget(m, segments, gvl, t);
      } else {
        PartsRoundTrip(m, segments, gvl, t);
      }
    }
  }

  lemma NoParts(m: Model, gvl: set<nat>)
    ensures EncodeTcString(m, [], gvl) == Success("")
  {
  }

  ghost predicate IsEncodable(m: Model, f: Field, gvl: set<nat>) {
    WellTyped(m) && Encodable(EncoderOf(f), Width(f, Custom(m)), m[f], gvl)
  }

  lemma {:induction false} FieldsEncodable(m: Model, fs: seq<Field>, gvl: set<nat>)
    requires WellTyped(m)
    ensures EncodeFields(m, fs, gvl).Success? <==> forall f | f in fs :: IsEncodable(m, f, gvl)
  {
    hide EncodeAs, Encodable, EncoderOf, Width, Fitting, Custom;
    if fs != [] {
      var f := fs[0];
      assert fs == [f] + fs[1..];
      FieldsEncodable(m, fs[1..], gvl);
      FieldEncodable(EncoderOf(f), Width(f, Custom(m)), m[f], gvl);
      assert f in m && (EncodeField(m[f], f, Custom(m), gvl).Success? <==> IsEncodable(m, f, gvl));
      assert forall g :: g in fs <==> g == f || g in fs[1..];
    }
  }

  lemma SegmentEncodable(m: Model, segment: Segment, gvl: set<nat>)
    requires WellTyped(m)
    ensures EncodeSegment(m, segment, gvl).Success? <==>
      IsVersion2(m) && forall f | f in FieldSet(FieldSequence(segment)) :: IsEncodable(m, f, gvl)
  {
    hide EncodeFields, IsEncodable, FieldSequence, WellTyped;
    FieldsEncodable(m, FieldSequence(segment), gvl);
    if SegmentBits(m, segment, gvl).Success? {
      SegmentBitsStart(m, segment, gvl);
    }
  }

  lemma {:induction false} PartsEncodable(m: Model, segments: seq<Segment>, gvl: set<nat>)
    requires WellTyped(m)
    ensures EncodeParts(m, segments, gvl).Success? <==>
      (segments == [] || IsVersion2(m)) && forall f | f in FieldsOf(segments) :: IsEncodable(m, f, gvl)
  {
    hide EncodeSegment, IsEncodable, FieldSequence, FieldSet, WellTyped;
    if segments != [] {
      SegmentEncodable(m, segments[0], gvl);
      PartsEncodable(m, segments[1..], gvl);
    }
  }

  /** A model can be encoded exactly when it is of version 2 and every field carried is within its limits. */
  lemma TcStringEncodable(m: Model, segments: seq<Segment>, gvl: set<nat>)
    requires WellTyped(m)
    ensures EncodeTcString(m, segments, gvl).Success? <==>
      (segments == [] || IsVersion2(m)) && forall f | f in FieldsOf(segments) :: IsEncodable(m, f, gvl)
  {
    hide EncodeParts, IsEncodable, FieldsOf, WellTyped;
    PartsEncodable(m, segments, gvl);
  }

  /** A new model: version 2, no custom purposes consented to. */
  ghost predicate IsFresh(t: Model) {
    WellTyped(t) && IsVersion2(t) && t[PublisherCustomConsents] == Ids({})
    && t[PublisherCustomLegitimateInterests] == Ids({})
  }

  /** `r` holds what the codec keeps of the field, which is the original exactly when that is canonical. */
  ghost predicate Recovers(m: Model, f: Field, gvl: set<nat>, r: Result<Model, TcfError>) {
    && WellTyped(m)
    && r.Success?
    && f in r.value
    && r.value[f] == Kept(m[f], f, Custom(m), gvl)
    && (r.value[f] == m[f] <==> Canonical(EncoderOf(f), Width(f, Custom(m)), m[f], gvl))
  }

  /** Decoding into a new model recovers every field that the string carries. */
  lemma FreshRoundTrip(m: Model, segments: seq<Segment>, gvl: set<nat>, text: string, t: Model)
    requires WellTyped(m) && IsFresh(t) && (Core in segments ==> !CmpIdRefused(m))
    requires EncodeTcString(m, segments, gvl) == Success(text)
    ensures forall f | f in FieldsOf(segments) :: Recovers(m, f, gvl, DecodeTcString(text, t))
  {
    hide EncodeParts, DecodeTcString, FieldsOf, KeptAs, Canonical, EncodeAs, EncoderOf, Width;
    TcStringRoundTrip(m, segments, gvl, t);
    PartsEncodable(m, segments, gvl);
    forall f | f in FieldsOf(segments)
      ensures Recovers(m, f, gvl, DecodeTcString(text, t))
    {
      NoFields();
      KeptIsCanonical(EncoderOf(f), Width(f, Custom(m)), m[f], gvl);
      if Skipped(f, Custom(m)) {
        NothingKept(m, f, gvl);
      }
    }
  }

  lemma NoFields()
    ensures FieldsOf([]) == {}
  {
  }

  // ---------- New models ----------

  /** The value of a field in a model made at the time `now`, but for its CMP id. */
  function InitialValue(f: Field, now: int, cmpId: nat): Value {
    match f
    case Version => Int(2)
    case PolicyVersion => Int(5)
    case CmpId => Int(cmpId)
    case IsServiceSpecific => Bool(true)
    case PublisherCountryCode => Lang("AA")
    case _ =>
      match EncoderOf(f)
      case IntEncoder => Int(0)
      case DateEncoder => Date(now)
      case BooleanEncoder => Bool(false)
      case LangEncoder => Lang("EN")
      case RestrictionEncoder => Restricted(TcfRestrictions.NoRestrictions)
      case _ => Ids({})
  }

  /** The model that the constructor makes, with its CMP id set to `cmpId`; the constructor leaves it 0. */
  function NewModel(now: int, cmpId: nat): Model {
    map f: Field | true :: InitialValue(f, now, cmpId)
  }

  lemma InitialValueShape(f: Field, now: int, cmpId: nat)
    requires cmpId < 4096
    ensures var v, w := InitialValue(f, now, cmpId), Width(f, 0);
      match EncoderOf(f)
      case IntEncoder => v.Int? && 0 <= v.n && ((w == 12 && v.n < 4096) || (w == 6 && v.n < 64))
      case DateEncoder => v == Date(now) && w == 36
      case BooleanEncoder => v.Bool?
      case LangEncoder => v == Lang("EN") || v == Lang("AA")
      case RestrictionEncoder => v == Restricted(TcfRestrictions.NoRestrictions)
      case _ => v == Ids({})
  {
  }

  lemma InitialValueEncodable(f: Field, now: int, cmpId: nat, gvl: set<nat>)
    requires cmpId < 4096 && 0 <= Deciseconds(now) < Pow2(36)
    ensures var v := InitialValue(f, now, cmpId);
      Fitting(v, EncoderOf(f)) && Encodable(EncoderOf(f), Width(f, 0), v, gvl)
  {
    hide TcfVendors.Isolated, Deciseconds, EncoderOf, Width, InitialValue, Pow2;
    InitialValueShape(f, now, cmpId);
    Pow2Values();
  }

  lemma NewModelFields(now: int, cmpId: nat)
    ensures var m := NewModel(now, cmpId);
      && (forall f: Field :: f in m && m[f] == InitialValue(f, now, cmpId))
      && IsVersion2(m) && m[CmpId] == Int(cmpId) && m[NumCustomPurposes] == Int(0)
      && m[PublisherCustomConsents] == m[PublisherCustomLegitimateInterests] == Ids({})
  {
  }

  /** A new model can be encoded, if the time is one that 36 bits hold. */
  lemma NewModelEncodable(now: int, cmpId: nat, segments: seq<Segment>, gvl: set<nat>)
    requires cmpId < 4096 && 0 <= Deciseconds(now) < Pow2(36)
    ensures var m := NewModel(now, cmpId);
      WellTyped(m) && IsFresh(m) && m[CmpId] == Int(cmpId) && EncodeTcString(m, segments, gvl).Success?
  {
    hide Encodable, EncodeTcString, FieldsOf, Fitting, Width, NewModel, InitialValue, EncoderOf;
    var m := NewModel(now, cmpId);
    NewModelFields(now, cmpId);
    forall f: Field
      ensures f in m && Fitting(m[f], EncoderOf(f)) && Encodable(EncoderOf(f), Width(f, 0), m[f], gvl)
    {
      InitialValueEncodable(f, now, cmpId, gvl);
    }
    assert Custom(m) == 0;
    TcStringEncodable(m, segments, gvl);
  }

  /** Once its CMP id is set, a new model is encoded, and decoding recovers every field carried. */
  lemma EmptyModel(now: int, cmpId: nat, segments: seq<Segment>, gvl: set<nat>)
    requires 2 <= cmpId < 4096 && 0 <= Deciseconds(now) < Pow2(36)
    ensures var m := NewModel(now, cmpId);
      && EncodeTcString(m, segments, gvl).Success?
      && forall f | f in FieldsOf(segments) ::
           Recovers(m, f, gvl, DecodeTcString(EncodeTcString(m, segments, gvl).value, m))
  {
    hide NewModel, EncodeTcString, DecodeTcString, FieldsOf, Recovers, WellTyped;
    NewModelEncodable(now, cmpId, segments, gvl);
    var m := NewModel(now, cmpId);
    FreshRoundTrip(m, segments, gvl, EncodeTcString(m, segments, gvl).value, m);
  }

  /** Before that, its CMP id is 0, and it is encoded to a string that cannot be decoded. */
  lemma NewModelIsLost(now: int, segments: seq<Segment>, gvl: set<nat>)
    requires Core in segments && 0 <= Deciseconds(now) < Pow2(36)
    ensures var m := NewModel(now, 0);
      && EncodeTcString(m, segments, gvl).Success?
      && DecodeTcString(EncodeTcString(m, segments, gvl).value, m) == Failure(TCModelError)
  {
    hide NewModel, EncodeTcString, DecodeTcString, FieldsOf, Transmitted;
    NewModelEncodable(now, 0, segments, gvl);
    TcStringRoundTrip(NewModel(now, 0), segments, gvl, NewModel(now, 0));
  }

  lemma NothingKept(m: Model, f: Field, gvl: set<nat>)
    requires WellTyped(m) && Skipped(f, Custom(m))
    ensures Kept(m[f], f, Custom(m), gvl) == Ids({})
  {
  }

  // ---------- The loops ----------

  method EncodeSegmentText(m: Model, segment: Segment, gvl: set<nat>) returns (r: Result<string, TcfError>)
    requires WellTyped(m)
    ensures r.Success? <==> EncodeSegment(m, segment, gvl).Success?
    ensures r.Success? ==> r == EncodeSegment(m, segment, gvl)
    ensures r.Failure? ==> r.error == EncodingError
  {
    hide EncodeFields, FieldSequence;
    if !IsVersion2(m) {
      return Failure(EncodingError);
    }
    Pow2Values();
    var s: BitString := [];
    if segment != Core {
      var typeBits := EncodeIntText(SegmentId(segment), 3);
      s := typeBits.value;
    }
    var fields :- EncodeFieldsText(m, FieldSequence(segment), gvl);
    r := Base64.EncodeText(s + fields);
  }

  method DecodeSegmentText(text: string, t: Model, segment: Segment) returns (r: Result<Model, TcfError>)
    ensures r == DecodeSegment(text, t, segment)
  {
    hide DecodeFields, Base64.Decode, FieldSequence, ReadInt;
    var s :- Base64.DecodeText(text);
    var model, start := t, 0;
    if segment == Core {
      var version :- ReadInt(s, 0, 6);
      model := t[Version := Int(version)];
      if version != 2 {
        return Failure(OtherError);
      }
    } else {
      start := 3;
      if !IsVersion2(t) {
        return Failure(OtherError);
      }
    }
    r := DecodeFieldsText(model, FieldSequence(segment), s, start);
  }

  /** The loop of `bt.encode`: a dot after every segment but the last. */
  method EncodeTcStringText(m: Model, segments: seq<Segment>, gvl: set<nat>) returns (r: Result<string, TcfError>)
    requires WellTyped(m)
    ensures r.Success? <==> EncodeTcString(m, segments, gvl).Success?
    ensures r.Success? ==> r == EncodeTcString(m, segments, gvl)
    ensures r.Failure? ==> r.error == EncodingError
  {
    hide EncodeSegment, WellTyped;
    var text := "";
    for o := 0 to |segments|
      invariant EncodeParts(m, segments, gvl).Success? <==> EncodeParts(m, segments[o..], gvl).Success?
      invariant EncodeParts(m, segments, gvl).Success? ==>
        text + Join(EncodeParts(m, segments[o..], gvl).value, '.') == Join(EncodeParts(m, segments, gvl).value, '.')
    {
      assert segments[o..][1..] == segments[o + 1..] && segments[o..][0] == segments[o];
      var part :- EncodeSegmentText(m, segments[o], gvl);
      JoinStep(m, segments[o..], gvl, text, part);
      text := text + part + (if o < |segments| - 1 then "." else "");
    }
    assert text + [] == text;
    return Success(text);
  }

  /** Joining piece by piece: the first part, then its dot if more parts follow. */
  lemma JoinStep(m: Model, segments: seq<Segment>, gvl: set<nat>, text: string, part: string)
    requires segments != [] && EncodeSegment(m, segments[0], gvl) == Success(part)
    ensures EncodeParts(m, segments, gvl).Success? <==> EncodeParts(m, segments[1..], gvl).Success?
    ensures EncodeParts(m, segments, gvl).Success? ==>
      text + Join(EncodeParts(m, segments, gvl).value, '.')
      == text + part + (if |segments| > 1 then "." else "") + Join(EncodeParts(m, segments[1..], gvl).value, '.')
  {
    hide EncodeSegment;
    if EncodeParts(m, segments, gvl).Success? {
      var parts := EncodeParts(m, segments, gvl).value;
      assert parts[1..] == EncodeParts(m, segments[1..], gvl).value;
      if |segments| > 1 {
        PartsNonEmpty(m, segments[1..], gvl);
        ConcatAssociative(text, part + ".", Join(parts[1..], '.'));
        ConcatAssociative(text, part, ".");
      } else {
        assert parts == [part];
        assert text + part + "" + [] == text + part;
      }
    }
  }

  lemma PartsNonEmpty(m: Model, segments: seq<Segment>, gvl: set<nat>)
    requires segments != [] && EncodeParts(m, segments, gvl).Success?
    ensures EncodeParts(m, segments, gvl).value != []
  {
    hide EncodeSegment;
  }

  /** The loop of `bt.decode`. */
  method DecodeTcStringText(text: string, t: Model) returns (r: Result<Model, TcfError>)
    ensures r == DecodeTcString(text, t)
  {
    hide DecodeSegmentBits, Base64.Decode, ReadInt;
    var parts := Split(text, '.');
    var model := t;
    for i := 0 to |parts|
      invariant DecodeParts(parts, t) == DecodeParts(parts[i..], model)
    {
      assert parts[i..][1..] == parts[i + 1..] && parts[i..][0] == parts[i];
      var bits :- Base64.DecodeText(if parts[i] == [] then [] else parts[i][..1]);
      var id :- ReadInt(bits, 0, 3);
      var segment := SegmentOf(id);
      if segment.None? {
        var _ :- Base64.DecodeText(parts[i]);
        return Failure(OtherError);
      }
      model :- DecodeSegmentText(parts[i], model, segment.value);
    }
    return Success(model);
  }
}
