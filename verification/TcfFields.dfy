/** The fields of a TC model, their encoders (`Ke`) and bit widths (`S`), and the field loops of `ze`. */
module TcfFields {
  import opened Outcomes
  import opened Sequences
  import opened TcfBits
  import opened TcfVector
  import opened TcfVendors
  import opened TcfRestrictions

  datatype Field =
    | Version | Created | LastUpdated | CmpId | CmpVersion | ConsentScreen | ConsentLanguage | VendorListVersion
    | PolicyVersion | IsServiceSpecific | UseNonStandardTexts | SpecialFeatureOptins | PurposeConsents
    | PurposeLegitimateInterests | PurposeOneTreatment | PublisherCountryCode | VendorConsents
    | VendorLegitimateInterests | PublisherRestrictions | VendorsDisclosed | VendorsAllowed | PublisherConsents
    | PublisherLegitimateInterests | NumCustomPurposes | PublisherCustomConsents | PublisherCustomLegitimateInterests

  datatype Value =
    | Int(n: int)
    | Date(ms: int)
    | Bool(b: bool)
    | Lang(code: string)
    | Ids(ids: set<nat>)
    | Restricted(rv: Restrictions)

  datatype Encoder = IntEncoder | DateEncoder | BooleanEncoder | LangEncoder | FixedVectorEncoder
    | VendorVectorEncoder | RestrictionEncoder

  function EncoderOf(f: Field): Encoder {
    match f
    case Created | LastUpdated => DateEncoder
    case ConsentLanguage | PublisherCountryCode => LangEncoder
    case IsServiceSpecific | UseNonStandardTexts | PurposeOneTreatment => BooleanEncoder
    case SpecialFeatureOptins | PurposeConsents | PurposeLegitimateInterests | PublisherConsents => FixedVectorEncoder
    case PublisherLegitimateInterests | PublisherCustomConsents => FixedVectorEncoder
    case PublisherCustomLegitimateInterests => FixedVectorEncoder
    case VendorConsents | VendorLegitimateInterests | VendorsDisclosed | VendorsAllowed => VendorVectorEncoder
    case PublisherRestrictions => RestrictionEncoder
    case _ => IntEncoder
  }

  /** A model has a value of the right shape for every field; vectors hold positive ids only. */
  type Model = map<Field, Value>

  ghost predicate Fitting(v: Value, encoder: Encoder) {
    match encoder
    case IntEncoder => v.Int?
    case DateEncoder => v.Date?
    case BooleanEncoder => v.Bool?
    case LangEncoder => v.Lang?
    case FixedVectorEncoder => v.Ids? && 0 !in v.ids
    case VendorVectorEncoder => v.Ids? && 0 !in v.ids
    case RestrictionEncoder => v.Restricted? && v.rv.Valid()
  }

  ghost predicate WellTyped(m: Model) {
    (forall f: Field :: f in m && Fitting(m[f], EncoderOf(f))) && m[NumCustomPurposes].n >= 0
  }

  predicate IsPublisherCustom(f: Field) {
    f == PublisherCustomConsents || f == PublisherCustomLegitimateInterests
  }

  /** The language fields are twelve bits wide and the flags one. */
  predicate Sized(encoder: Encoder, w: nat) {
    (encoder == LangEncoder ==> w == 12) && (encoder == BooleanEncoder ==> w == 1)
  }

  /** `S[f]`, with the number of custom purposes for the two fields that have no fixed width. */
  function Width(f: Field, custom: nat): (w: nat)
    ensures Sized(EncoderOf(f), w)
  {
    match f
    case Version | ConsentScreen | PolicyVersion | NumCustomPurposes => 6
    case Created | LastUpdated => 36
    case IsServiceSpecific | UseNonStandardTexts | PurposeOneTreatment => 1
    case PurposeConsents | PurposeLegitimateInterests | PublisherConsents | PublisherLegitimateInterests => 24
    case PublisherCustomConsents | PublisherCustomLegitimateInterests => custom
    case _ => 12
  }

  /** `numCustomPurposes`. */
  function Custom(m: Model): nat {
    if NumCustomPurposes in m && m[NumCustomPurposes].Int? && m[NumCustomPurposes].n >= 0 then m[NumCustomPurposes].n
    else 0
  }

  // ---------- One field ----------

  /** A value of the wrong shape makes the encoder throw. */
  ghost function EncodeAs(encoder: Encoder, w: nat, v: Value, gvl: set<nat>): Result<BitString, TcfError> {
    match (encoder, v)
    case (IntEncoder, Int(n)) => EncodeInt(n, w)
    case (DateEncoder, Date(ms)) => EncodeDate(ms, w)
    case (BooleanEncoder, Bool(b)) => Success(EncodeBool(b))
    case (LangEncoder, Lang(code)) => EncodeLang(code, w)
    case (FixedVectorEncoder, Ids(ids)) => Success(FixedBits(ids, w))
    case (VendorVectorEncoder, Ids(ids)) => EncodeVendors(ids)
    case (RestrictionEncoder, Restricted(rv)) => EncodeRestrictions(rv, gvl)
    case _ => Failure(EncodingError)
  }

  /** The value at the cursor, and the cursor behind it. */
  ghost function DecodeAs(encoder: Encoder, w: nat, s: BitString, pos: nat): Result<(Value, nat), TcfError>
    requires Sized(encoder, w)
  {
    match encoder
    case IntEncoder =>
      var n :- ReadInt(s, pos, w);
      Success((Int(n), pos + w))
    case DateEncoder =>
      var ms :- DecodeDate(Substr(s, pos, w), w);
      Success((Date(ms), pos + w))
    case BooleanEncoder => Success((Bool(ReadBool(s, pos)), pos + w))
    case LangEncoder =>
      var code :- DecodeLang(Substr(s, pos, w), w);
      Success((Lang(code), pos + w))
    case FixedVectorEncoder =>
      var ids :- DecodeFixed(Substr(s, pos, w), w);
      Success((Ids(ids), pos + w))
    case VendorVectorEncoder =>
      var d :- DecodeVendors(Rest(s, pos));
      Success((Ids(d.0), pos + d.1))
    case RestrictionEncoder =>
      var d :- DecodeRestrictions(Rest(s, pos));
      Success((Restricted(d.0), pos + d.1))
  }

  /** What the codec keeps of a value: dates to the tenth of a second, two upper-case letters, ids within the width. */
  ghost function KeptAs(encoder: Encoder, w: nat, v: Value, gvl: set<nat>): Value {
    match (encoder, v)
    case (DateEncoder, Date(ms)) => Date(Deciseconds(ms) * 100)
    case (LangEncoder, Lang(code)) => if |code| < 2 then v else Lang([Upper(code[0]), Upper(code[1])])
    case (FixedVectorEncoder, Ids(ids)) => Ids(Within(ids, w))
    case (RestrictionEncoder, Restricted(rv)) => if rv.Valid() then Restricted(Recovered(rv, gvl)) else v
    case _ => v
  }

  ghost function EncodeField(v: Value, f: Field, custom: nat, gvl: set<nat>): Result<BitString, TcfError> {
    EncodeAs(EncoderOf(f), Width(f, custom), v, gvl)
  }

  ghost function DecodeField(f: Field, custom: nat, s: BitString, pos: nat): Result<(Value, nat), TcfError> {
    DecodeAs(EncoderOf(f), Width(f, custom), s, pos)
  }

  ghost function Kept(v: Value, f: Field, custom: nat, gvl: set<nat>): Value {
    KeptAs(EncoderOf(f), Width(f, custom), v, gvl)
  }

  /** Decoding an encoded value at the cursor gives what is kept of it, whatever follows. */
  lemma FieldRoundTrip(encoder: Encoder, w: nat, v: Value, gvl: set<nat>, s: BitString, pos: nat)
    requires Sized(encoder, w) && Fitting(v, encoder) && EncodeAs(encoder, w, v, gvl).Success?
    requires At(s, pos, EncodeAs(encoder, w, v, gvl).value)
    ensures DecodeAs(encoder, w, s, pos)
         == Success((KeptAs(encoder, w, v, gvl), pos + |EncodeAs(encoder, w, v, gvl).value|))
  {
    hide IntBits, FixedBits, EncodeVendors, EncodeRestrictions, DecodeVendors, DecodeRestrictions, ReadBool, Recovered;
    hide At;
    var x := EncodeAs(encoder, w, v, gvl).value;
    match (encoder, v)
    case (IntEncoder, Int(n)) => IntRoundTrip(s, pos, n, w);
    case (DateEncoder, Date(_)) => SubstrAt(s, pos, x);
    case (BooleanEncoder, Bool(b)) => BoolRoundTrip(s, pos, b);
    case (LangEncoder, Lang(code)) => LangRoundTrip(s, pos, code);
    case (FixedVectorEncoder, Ids(ids)) =>
      SubstrAt(s, pos, x);
      FixedRoundTrip(ids, w);
    case (VendorVectorEncoder, Ids(ids)) =>
      AtRest(s, pos, x);
      VendorsRoundTrip(ids, Rest(s, pos));
    case (RestrictionEncoder, Restricted(rv)) =>
      AtRest(s, pos, x);
      RestrictionsRoundTrip(rv, gvl, Rest(s, pos));
    case _ =>
  }

  /** The conditions under which an encodable value is kept unchanged. */
  ghost predicate Canonical(encoder: Encoder, w: nat, v: Value, gvl: set<nat>) {
    match (encoder, v)
    case (DateEncoder, Date(ms)) => ms % 100 == 0
    case (LangEncoder, Lang(code)) => |code| == 2 && Upper(code[0]) == code[0] && Upper(code[1]) == code[1]
    case (FixedVectorEncoder, Ids(ids)) => forall x | x in ids :: x <= w
    case (RestrictionEncoder, Restricted(rv)) =>
      forall k | k in rv.vendors :: rv.vendors[k] != {} && !Widens(rv.vendors[k], gvl)
    case _ => true
  }

  /** What a value of the right shape must be like to be encoded: integers in width, letters, vendor ids in 16 bits. */
  ghost predicate Encodable(encoder: Encoder, w: nat, v: Value, gvl: set<nat>) {
    match (encoder, v)
    case (IntEncoder, Int(n)) => 0 <= n < Pow2(w) && w > 0
    case (DateEncoder, Date(ms)) => 0 <= Deciseconds(ms) < Pow2(w) && w > 0
    case (LangEncoder, Lang(code)) => |code| >= 2 && IsLetter(code[0]) && IsLetter(code[1])
    case (VendorVectorEncoder, Ids(ids)) =>
      MaxId(ids) <= 65535 && !(MaxId(ids) >= 65533 && |ids| == 4096 && Isolated(ids))
    case (RestrictionEncoder, Restricted(rv)) =>
      |rv.order| < 4096 && forall k | k in rv.vendors ::
        k.purposeId < 64 && |Starts(rv.vendors[k], gvl)| < 4096 && forall x | x in rv.vendors[k] :: x <= 65535
    case _ => true
  }

  lemma FieldEncodable(encoder: Encoder, w: nat, v: Value, gvl: set<nat>)
    requires Sized(encoder, w) && Fitting(v, encoder)
    ensures EncodeAs(encoder, w, v, gvl).Success? <==> Encodable(encoder, w, v, gvl)
  {
    hide IntBits, FixedBits, EncodeVendors, Entries, Starts, Isolated, IsLetter;
    match (encoder, v)
    case (VendorVectorEncoder, Ids(ids)) => VendorsEncodable(ids);
    case (RestrictionEncoder, Restricted(rv)) =>
      forall k | k in rv.vendors
        ensures var ids := rv.vendors[k];
          && (AllFit(Entries(ids, gvl)) <==> forall x | x in ids :: x <= 65535)
          && |Entries(ids, gvl)| == |Starts(ids, gvl)|
      {
        EntriesFit(rv.vendors[k], gvl);
        EntryCount(rv.vendors[k], gvl);
      }
    case _ =>
  }

  lemma KeptIsCanonical(encoder: Encoder, w: nat, v: Value, gvl: set<nat>)
    requires Sized(encoder, w) && Fitting(v, encoder) && Encodable(encoder, w, v, gvl)
    ensures KeptAs(encoder, w, v, gvl) == v <==> Canonical(encoder, w, v, gvl)
  {
    hide Recovered, Widens, Isolated;
    match encoder
    case LangEncoder =>
      if |v.code| == 2 {
        assert v.code == [v.code[0], v.code[1]];
      }
    case FixedVectorEncoder =>
      if Canonical(encoder, w, v, gvl) {
        assert Within(v.ids, w) == v.ids;
      }
    case RestrictionEncoder => RecoveredIsSame(v.rv, gvl);
    case _ =>
  }

  // ---------- A sequence of fields ----------

  ghost function EncodeFields(m: Model, fs: seq<Field>, gvl: set<nat>): Result<BitString, TcfError> {
    if fs == [] then Success([])
    else if fs[0] !in m then Failure(EncodingError)
    else
      var b :- EncodeField(m[fs[0]], fs[0], Custom(m), gvl);
      var rest :- EncodeFields(m, fs[1..], gvl);
      Success(b + rest)
  }

  /** The setters that a decoded value can run into. */
  function SetField(t: Model, f: Field, v: Value): Result<Model, TcfError> {
    if f == CmpId && v.Int? && v.n <= 1 then Failure(TCModelError)
    else if f == PublisherCountryCode && v.Lang? then
      if |v.code| == 2 && 'A' <= v.code[0] <= 'z' && 'A' <= v.code[1] <= 'z' then
        Success(t[f := Lang([Upper(v.code[0]), Upper(v.code[1])])])
      else Failure(TCModelError)
    else Success(t[f := v])
  }

  /** The CMP id of the model is one that the setter refuses: 0, as in a new model, or 1. */
  predicate CmpIdRefused(m: Model) {
    CmpId in m && m[CmpId].Int? && m[CmpId].n <= 1
  }

  /** A field without width is not touched. */
  predicate Skipped(f: Field, custom: nat) {
    IsPublisherCustom(f) && custom == 0
  }

  ghost function DecodeFields(t: Model, fs: seq<Field>, s: BitString, pos: nat): Result<Model, TcfError>
    decreases |fs|
  {
    if fs == [] then Success(t)
    else if Skipped(fs[0], Custom(t)) then DecodeFields(t, fs[1..], s, pos)
    else
      var next :- DecodeField(fs[0], Custom(t), s, pos);
      var t' :- SetField(t, fs[0], next.0);
      DecodeFields(t', fs[1..], s, next.1)
  }

  /** Every field has some value. */
  ghost predicate Total(t: Model) {
    forall f: Field :: f in t
  }

  function FieldSet(fs: seq<Field>): set<Field> {
    set f | f in fs
  }

  /** The model `t` after the fields `carried` of `m` went through the codec into it. */
  ghost function Transmitted(m: Model, carried: set<Field>, gvl: set<nat>, t: Model): Model {
    map f | f in t :: if f in carried && f in m && !Skipped(f, Custom(m)) then Kept(m[f], f, Custom(m), gvl) else t[f]
  }

  lemma TransmittedOne(m: Model, f: Field, rest: seq<Field>, gvl: set<nat>, t: Model)
    requires f in m && Total(t)
    ensures var t' := if Skipped(f, Custom(m)) then t else t[f := Kept(m[f], f, Custom(m), gvl)];
      Transmitted(m, FieldSet([f] + rest), gvl, t) == Transmitted(m, FieldSet(rest), gvl, t')
  {
    hide Kept;
    assert FieldSet([f] + rest) == {f} + FieldSet(rest);
  }

  lemma TransmittedNone(m: Model, gvl: set<nat>, t: Model)
    ensures Transmitted(m, {}, gvl, t) == t && FieldSet([]) == {}
  {
  }

  lemma TransmittedTwice(m: Model, a: set<Field>, b: set<Field>, gvl: set<nat>, t: Model)
    ensures Transmitted(m, b, gvl, Transmitted(m, a, gvl, t)) == Transmitted(m, a + b, gvl, t)
  {
    hide Kept;
  }

  /** The fields of variable width come after the one that holds their width. */
  ghost predicate WidthsKnown(fs: seq<Field>, known: bool) {
    fs == [] || ((IsPublisherCustom(fs[0]) ==> known) && WidthsKnown(fs[1..], known || fs[0] == NumCustomPurposes))
  }

  lemma {:induction false} WidthsFixed(fs: seq<Field>, known: bool)
    requires known || forall f | f in fs :: !IsPublisherCustom(f)
    ensures WidthsKnown(fs, known)
  {
    if fs != [] {
      WidthsFixed(fs[1..], known || fs[0] == NumCustomPurposes);
    }
  }

  /** Setting what is kept of an encodable field succeeds, unless it is a CMP id below 2. */
  lemma SetKept(m: Model, f: Field, gvl: set<nat>, t: Model)
    requires WellTyped(m) && EncodeField(m[f], f, Custom(m), gvl).Success?
    ensures var v := Kept(m[f], f, Custom(m), gvl);
      SetField(t, f, v) == if f == CmpId && CmpIdRefused(m) then Failure(TCModelError) else Success(t[f := v])
  {
    hide IntBits, FixedBits, EncodeVendors, EncodeRestrictions, EncodeLang;
  }

  /** Decoding the encoded fields fails exactly on a CMP id below 2, and otherwise recovers all of them. */
  lemma {:induction false} FieldsRoundTrip(
    m: Model, fs: seq<Field>, gvl: set<nat>, s: BitString, pos: nat, t: Model, known: bool)
    requires WellTyped(m) && EncodeFields(m, fs, gvl).Success? && At(s, pos, EncodeFields(m, fs, gvl).value)
    requires Total(t) && WidthsKnown(fs, known) && (known ==> Custom(t) == Custom(m))
    ensures DecodeFields(t, fs, s, pos)
         == if CmpId in fs && CmpIdRefused(m) then Failure(TCModelError)
            else Success(Transmitted(m, FieldSet(fs), gvl, t))
    decreases |fs|
  {
    hide EncodeField, DecodeField, Kept, SetField, At, Transmitted, WellTyped, FieldSet, Custom, CmpIdRefused;
    if fs == [] {
      TransmittedNone(m, gvl, t);
    } else {
      var f, rest := fs[0], fs[1..];
      assert fs == [f] + rest;
      TransmittedOne(m, f, rest, gvl, t);
      var b := EncodeField(m[f], f, Custom(m), gvl).value;
      AtConcat(s, pos, b, EncodeFields(m, rest, gvl).value);
      WidthAgrees(f, m, t);
      if Skipped(f, Custom(t)) {
        SkippedIsEmpty(m, f, gvl);
        FieldsRoundTrip(m, rest, gvl, s, pos, t, known);
      } else {
        FieldRoundTripIn(m, f, gvl, s, pos, t);
        SetKept(m, f, gvl, t);
        if !(f == CmpId && CmpIdRefused(m)) {
          KeptCustom(m, f, gvl, t);
          var t' := t[f := Kept(m[f], f, Custom(m), gvl)];
          FieldsRoundTrip(m, rest, gvl, s, pos + |b|, t', known || f == NumCustomPurposes);
        }
      }
    }
  }

  lemma WidthAgrees(f: Field, m: Model, t: Model)
    requires IsPublisherCustom(f) ==> Custom(t) == Custom(m)
    ensures Width(f, Custom(t)) == Width(f, Custom(m)) && (Skipped(f, Custom(t)) <==> Skipped(f, Custom(m)))
  {
  }

  lemma SkippedIsEmpty(m: Model, f: Field, gvl: set<nat>)
    requires WellTyped(m) && Skipped(f, Custom(m))
    ensures EncodeField(m[f], f, Custom(m), gvl) == Success([])
  {
    hide IntBits, EncodeInt, EncodeLang, EncodeVendors, EncodeRestrictions;
  }

  lemma KeptCustom(m: Model, f: Field, gvl: set<nat>, t: Model)
    requires WellTyped(m) && Total(t)
    ensures var t' := t[f := Kept(m[f], f, Custom(m), gvl)];
      Total(t') && Custom(t') == Custom(if f == NumCustomPurposes then m else t)
  {
  }

  lemma FieldRoundTripIn(m: Model, f: Field, gvl: set<nat>, s: BitString, pos: nat, t: Model)
    requires WellTyped(m) && Width(f, Custom(t)) == Width(f, Custom(m))
    requires EncodeField(m[f], f, Custom(m), gvl).Success?
    requires At(s, pos, EncodeField(m[f], f, Custom(m), gvl).value)
    ensures DecodeField(f, Custom(t), s, pos)
         == Success((Kept(m[f], f, Custom(m), gvl), pos + |EncodeField(m[f], f, Custom(m), gvl).value|))
  {
    hide EncodeAs, DecodeAs, KeptAs, EncoderOf, Width, At, Custom;
    FieldRoundTrip(EncoderOf(f), Width(f, Custom(m)), m[f], gvl, s, pos);
    assert DecodeField(f, Custom(t), s, pos) == DecodeField(f, Custom(m), s, pos);
  }

  // ---------- The loops ----------

  /** The pre-encoder copies every vector before it is encoded. */
  method CloneVector(ids: set<nat>) returns (vector: Vector)
    requires 0 !in ids
    ensures fresh(vector) && vector.Valid() && vector.ids == ids
  {
    vector := new Vector.Clone(ids);
  }

  method EncodeFieldText(encoder: Encoder, w: nat, v: Value, gvl: set<nat>) returns (r: Result<BitString, TcfError>)
    requires Fitting(v, encoder)
    ensures r == EncodeAs(encoder, w, v, gvl)
  {
    hide IntBits, FixedBits, EncodeVendors, EncodeRestrictions;
    match (encoder, v)
    case (IntEncoder, Int(n)) => r := EncodeIntText(n, w);
    case (DateEncoder, Date(ms)) => r := EncodeIntText(Deciseconds(ms), w);
    case (BooleanEncoder, Bool(b)) => r := Success(EncodeBool(b));
    case (LangEncoder, Lang(code)) => r := EncodeLangText(code, w);
    case (FixedVectorEncoder, Ids(ids)) =>
      var vector := CloneVector(ids);
      var b := EncodeFixedText(vector, w);
      r := Success(b);
    case (VendorVectorEncoder, Ids(ids)) =>
      var vector := CloneVector(ids);
      r := EncodeVendorsText(vector);
    case (RestrictionEncoder, Restricted(rv)) => r := EncodeRestrictionsText(rv, gvl);
    case _ => r := Failure(EncodingError);
  }

  method DecodeFieldText(encoder: Encoder, w: nat, s: BitString, pos: nat) returns (r: Result<(Value, nat), TcfError>)
    requires Sized(encoder, w)
    ensures r == DecodeAs(encoder, w, s, pos)
  {
    hide ReadBool, DecodeVendors, DecodeRestrictions, SetBits;
    match encoder
    case IntEncoder =>
      var n :- ReadInt(s, pos, w);
      r := Success((Int(n), pos + w));
    case DateEncoder =>
      var ms :- DecodeDate(Substr(s, pos, w), w);
      r := Success((Date(ms), pos + w));
    case BooleanEncoder => r := Success((Bool(ReadBool(s, pos)), pos + w));
    case LangEncoder =>
      var code :- DecodeLang(Substr(s, pos, w), w);
      r := Success((Lang(code), pos + w));
    case FixedVectorEncoder =>
      var vector :- DecodeFixedText(Substr(s, pos, w), w);
      r := Success((Ids(vector.ids), pos + w));
    case VendorVectorEncoder =>
      var vector :- DecodeVendorsText(Rest(s, pos));
      r := Success((Ids(vector.ids), pos + vector.bitLength));
    case RestrictionEncoder =>
      var vector :- DecodeRestrictionsText(Rest(s, pos));
      r := Success((Restricted(vector.entries), pos + vector.bitLength));
  }

  /** The loop of `ze.encode`. */
  method EncodeFieldsText(m: Model, fs: seq<Field>, gvl: set<nat>) returns (r: Result<BitString, TcfError>)
    requires WellTyped(m)
    ensures r.Success? <==> EncodeFields(m, fs, gvl).Success?
    ensures r.Success? ==> r == EncodeFields(m, fs, gvl)
    ensures r.Failure? ==> r.error == EncodingError
  {
    hide EncodeAs, Custom, EncoderOf, Width, Fitting;
    var s: BitString := [];
    for i := 0 to |fs|
      invariant EncodeFields(m, fs, gvl).Success? <==> EncodeFields(m, fs[i..], gvl).Success?
      invariant EncodeFields(m, fs[i..], gvl).Success? ==>
        s + EncodeFields(m, fs[i..], gvl).value == EncodeFields(m, fs, gvl).value
    {
      assert fs[i..][1..] == fs[i + 1..] && fs[i..][0] == fs[i];
      var b := EncodeFieldText(EncoderOf(fs[i]), Width(fs[i], Custom(m)), m[fs[i]], gvl);
      if b.Failure? {
        return Failure(EncodingError);
      }
      if EncodeFields(m, fs[i..], gvl).Success? {
        ConcatAssociative(s, b.value, EncodeFields(m, fs[i + 1..], gvl).value);
      }
      s := s + b.value;
    }
    assert s + [] == s;
    return Success(s);
  }

  /** The loop of `ze.decode`: the cursor moves on by the field's width or by the length of the vector read. */
  method DecodeFieldsText(t: Model, fs: seq<Field>, s: BitString, start: nat) returns (r: Result<Model, TcfError>)
    ensures r == DecodeFields(t, fs, s, start)
  {
    hide DecodeAs, SetField, Custom, EncoderOf, Width;
    var model, pos := t, start;
    for i := 0 to |fs|
      invariant DecodeFields(t, fs, s, start) == DecodeFields(model, fs[i..], s, pos)
    {
      assert fs[i..][1..] == fs[i + 1..] && fs[i..][0] == fs[i];
      if !Skipped(fs[i], Custom(model)) {
        var next :- DecodeFieldText(EncoderOf(fs[i]), Width(fs[i], Custom(model)), s, pos);
        model :- SetField(model, fs[i], next.0);
        pos := next.1;
      }
    }
    return Success(model);
  }
}
