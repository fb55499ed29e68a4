/** `pe`: Base64Url text, the alphabet of section 5 of RFC 4648, zero-padded to whole 24-bit groups. */
module TcfBase64Url {
  import opened Outcomes
  import opened Sequences
  import opened TcfBits

  /** A dictionary index: the value of six bits. */
  type Index = v: nat | v < 64

  // ---------- The two dictionaries ----------

  /** `DICT[v]`: the table of section 5 of RFC 4648, by ranges. */
  function DictChar(v: Index): char {
    if v < 26 then 'A' + v as char
    else if v < 52 then 'a' + (v - 26) as char
    else if v < 62 then '0' + (v - 52) as char
    else if v == 62 then '-'
    else '_'
  }

  /** `REVERSE_DICT.get(c)`; its keys are the characters that the regular expression of `decode` admits. */
  function CharValue(c: char): Option<Index> {
    if 'A' <= c <= 'Z' then Some((c - 'A') as nat)
    else if 'a' <= c <= 'z' then Some((c - 'a') as nat + 26)
    else if '0' <= c <= '9' then Some((c - '0') as nat + 52)
    else if c == '-' then Some(62)
    else if c == '_' then Some(63)
    else None
  }

  predicate IsBase64Url(s: string) {
    forall c | c in s :: CharValue(c).Some?
  }

  /** The two dictionaries are mutually inverse, and no letter is the segment separator. */
  lemma DictInverse(v: Index, c: char)
    ensures CharValue(DictChar(v)) == Some(v)
    ensures CharValue(c).Some? ==> DictChar(CharValue(c).value) == c
    ensures DictChar(v) != '.'
  {
  }

  function Text(vs: seq<Index>): (s: string)
    ensures |s| == |vs|
  {
    if vs == [] then [] else [DictChar(vs[0])] + Text(vs[1..])
  }

  function Values(s: string): (vs: seq<Index>)
    requires IsBase64Url(s)
    ensures |vs| == |s|
  {
    if s == [] then [] else [CharValue(s[0]).value] + Values(s[1..])
  }

  lemma {:induction false} ValuesOfText(vs: seq<Index>)
    ensures IsBase64Url(Text(vs)) && Values(Text(vs)) == vs && '.' !in Text(vs)
  {
    if vs != [] {
      DictInverse(vs[0], '.');
      ValuesOfText(vs[1..]);
    }
  }

  lemma {:induction false} TextOfValues(s: string)
    requires IsBase64Url(s)
    ensures Text(Values(s)) == s
  {
    if s != [] {
      DictInverse(0, s[0]);
      TextOfValues(s[1..]);
    }
  }

  // ---------- Sextets ----------

  /** The value of a sextet. */
  function IndexOf(b: BitString): Index
    requires |b| == 6
  {
    Pow2Values();
    ValueOf(b)
  }

  ghost function IndexBits(v: Index): (b: BitString)
    ensures |b| == 6 && ValueOf(b) == v
  {
    Pow2Values();
    IntBits(v, 6)
  }

  /** The values of successive sextets, an incomplete last one being dropped. */
  function Indices(e: BitString): seq<Index> {
    if |e| < 6 then [] else [IndexOf(e[..6])] + Indices(e[6..])
  }

  ghost function BitsOf(vs: seq<Index>): (e: BitString)
    ensures |e| == 6 * |vs|
  {
    if vs == [] then [] else IndexBits(vs[0]) + BitsOf(vs[1..])
  }

  lemma {:induction false} IndicesOfBits(vs: seq<Index>)
    ensures Indices(BitsOf(vs)) == vs
  {
    if vs != [] {
      assert BitsOf(vs)[..6] == IndexBits(vs[0]) && BitsOf(vs)[6..] == BitsOf(vs[1..]);
      IndicesOfBits(vs[1..]);
    }
  }

  lemma {:induction false} BitsOfIndices(e: BitString, k: nat)
    requires |e| == 6 * k
    ensures BitsOf(Indices(e)) == e
  {
    if k > 0 {
      ValueOfInjective(IndexBits(IndexOf(e[..6])), e[..6]);
      BitsOfIndices(e[6..], k - 1);
    }
  }

  lemma {:induction false} BitsOfConcat(vs: seq<Index>, ws: seq<Index>)
    ensures BitsOf(vs + ws) == BitsOf(vs) + BitsOf(ws)
  {
    if vs == [] {
      assert vs + ws == ws;
    } else {
      assert (vs + ws)[1..] == vs[1..] + ws;
      BitsOfConcat(vs[1..], ws);
    }
  }

  // ---------- The codec ----------

  /** The number of 24-bit groups that `n` bits take up, and of zeros that fill the last one. */
  function Groups(n: nat): nat {
    (n + 23) / 24
  }

  function Padding(n: nat): (p: nat)
    ensures p < 24 && n + p == 24 * Groups(n)
  {
    24 * Groups(n) - n
  }

  /** `pe.encode`. */
  function Encode(e: BitString): Result<string, TcfError> {
    if e == [] then Failure(EncodingError) else Success(Text(Indices(e + Zeros(Padding(|e|)))))
  }

  /** `pe.decode`. */
  ghost function Decode(s: string): Result<BitString, TcfError> {
    if s != [] && IsBase64Url(s) then Success(BitsOf(Values(s))) else Failure(DecodingError)
  }

  /** Every non-empty bit string comes back followed by fewer than 24 zeros, up to a 24-bit boundary. */
  lemma DecodeEncode(e: BitString)
    requires e != []
    ensures Encode(e).Success? && Decode(Encode(e).value) == Success(e + Zeros(Padding(|e|)))
    ensures '.' !in Encode(e).value
  {
    var padded := e + Zeros(Padding(|e|));
    ValuesOfText(Indices(padded));
    BitsOfIndices(padded, 4 * Groups(|e|));
    assert Text(Indices(padded)) != [];
  }

  lemma {:induction false} ZeroIndices(k: nat)
    ensures BitsOf(seq(k, _ => 0)) == Zeros(6 * k)
  {
    var vs: seq<Index> := seq(k, _ => 0);
    if k > 0 {
      ZeroIndices(k - 1);
      assert vs[1..] == seq(k - 1, _ => 0);
      ZerosConcat(6, 6 * (k - 1));
      LeadingZeros(6, []);
      assert Zeros(6) + [] == Zeros(6);
      ValueOfInjective(IndexBits(0), Zeros(6));
    }
  }

  /** Every legal text comes back followed by the letter A up to whole four-letter groups. */
  lemma EncodeDecode(s: string)
    requires Decode(s).Success?
    ensures Encode(Decode(s).value) == Success(s + Text(seq((4 - |s| % 4) % 4, _ => 0)))
  {
    var zeros: seq<Index> := seq((4 - |s| % 4) % 4, _ => 0);
    assert Padding(6 * |s|) == 6 * |zeros|;
    ZeroIndices(|zeros|);
    BitsOfConcat(Values(s), zeros);
    IndicesOfBits(Values(s) + zeros);
    TextOfValues(s);
    TextConcat(Values(s), zeros);
  }

  lemma {:induction false} TextConcat(vs: seq<Index>, ws: seq<Index>)
    ensures Text(vs + ws) == Text(vs) + Text(ws)
  {
    if vs == [] {
      assert vs + ws == ws;
    } else {
      assert (vs + ws)[1..] == vs[1..] + ws;
      TextConcat(vs[1..], ws);
    }
  }

  // ---------- The loops ----------

  method EncodeText(bitField: BitString) returns (r: Result<string, TcfError>)
    ensures r == Encode(bitField)
  {
    if bitField == [] {
      return Failure(EncodingError);
    }
    var t := |bitField| % 24;
    var e := bitField + Zeros(if t != 0 then 24 - t else 0);
    assert |e| == |bitField| + Padding(|bitField|);
    var text := SextetText(e, 4 * Groups(|bitField|));
    return Success(text);
  }

  /** The loop of `encode` over the padded bits. */
  method SextetText(e: BitString, ghost k: nat) returns (text: string)
    requires |e| == 6 * k
    ensures text == Text(Indices(e))
  {
    text := "";
    var s := 0;
    ghost var left := k;
    while s < |e|
      invariant 0 <= s && s + 6 * left == |e|
      invariant text + Text(Indices(e[s..])) == Text(Indices(e))
      decreases left
    {
      assert e[s..][..6] == Substr(e, s, 6) && e[s..][6..] == e[s + 6..];
      text := text + [DictChar(IndexOf(Substr(e, s, 6)))];
      s := s + 6;
      left := left - 1;
    }
    assert text + [] == text;
  }

  method DecodeText(s: string) returns (r: Result<BitString, TcfError>)
    ensures r == Decode(s)
  {
    if s == [] || !IsBase64Url(s) {
      return Failure(DecodingError);
    }
    hide BitsOf, Values, ToBinary, Zeros, IndexBits, CharValue;
    var bits: BitString := [];
    assert s[0..] == s;
    for i := 0 to |s|
      invariant bits + BitsOf(Values(s[i..])) == BitsOf(Values(s))
    {
      var v := CharValue(s[i]).value;
      var digits := ToBinary(v);
      IndexDigits(v);
      BitsFrom(s, i);
      ConcatAssociative(bits, IndexBits(v), BitsOf(Values(s[i + 1..])));
      bits := bits + (Zeros(6 - |digits|) + digits);
    }
    NoBits(s);
    assert bits + [] == bits;
    return Success(bits);
  }

  lemma BitsFrom(s: string, i: nat)
    requires i < |s| && IsBase64Url(s)
    ensures BitsOf(Values(s[i..])) == IndexBits(CharValue(s[i]).value) + BitsOf(Values(s[i + 1..]))
  {
    hide IndexBits, CharValue;
    assert s[i..][0] == s[i] && s[i..][1..] == s[i + 1..];
    assert Values(s[i..])[1..] == Values(s[i + 1..]);
  }

  lemma NoBits(s: string)
    ensures IsBase64Url([]) && BitsOf(Values(s[|s|..])) == []
  {
    assert s[|s|..] == [];
  }

  lemma IndexDigits(v: Index)
    ensures |ToBinary(v)| <= 6 && Zeros(6 - |ToBinary(v)|) + ToBinary(v) == IndexBits(v)
  {
    Pow2Values();
    ToBinaryFits(v, 6);
    LeadingZeros(6 - |ToBinary(v)|, ToBinary(v));
    ValueOfInjective(Zeros(6 - |ToBinary(v)|) + ToBinary(v), IndexBits(v));
  }
}
