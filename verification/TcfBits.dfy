/**
  The scalar encoders of the TCF consent string: integers, booleans, dates, two-letter codes.
  A bit string is a sequence of booleans, `true` standing for the character '1'.
 */
module TcfBits {
  import opened Outcomes
  import opened Sequences

  type BitString = seq<bool>

  /** Which of the library's exceptions is thrown; `OtherError` is a plain Error or TypeError. */
  datatype TcfError = EncodingError | DecodingError | TCModelError | OtherError

  function Pow2(n: nat): (p: nat)
    ensures p > 0
  {
    if n == 0 then 1 else 2 * Pow2(n - 1)
  }

  lemma Pow2Values()
    ensures Pow2(2) == 4 && Pow2(3) == 8 && Pow2(6) == 64 && Pow2(12) == 4096 && Pow2(16) == 65536
  {
  }

  lemma {:induction false} Pow2Monotone(a: nat, b: nat)
    requires a <= b
    ensures Pow2(a) <= Pow2(b)
    decreases b
  {
    if a < b {
      Pow2Monotone(a, b - 1);
    }
  }

  function Zeros(n: nat): (z: BitString)
    ensures |z| == n
  {
    if n == 0 then [] else [false] + Zeros(n - 1)
  }

  lemma {:induction false} ZerosConcat(m: nat, n: nat)
    ensures Zeros(m) + Zeros(n) == Zeros(m + n)
  {
    if m > 0 {
      ZerosConcat(m - 1, n);
      assert Zeros(m) + Zeros(n) == [false] + (Zeros(m - 1) + Zeros(n));
    }
  }

  /** `parseInt(b, 2)` of a bit string: most significant bit first. */
  function ValueOf(b: BitString): (n: nat)
    ensures n < Pow2(|b|)
  {
    if b == [] then 0
    else 2 * ValueOf(b[..|b| - 1]) + (if b[|b| - 1] then 1 else 0)
  }

  /** The first bit counts most. */
  lemma {:induction false} FirstBitCountsMost(b: BitString)
    requires b != []
    ensures ValueOf(b) == (if b[0] then Pow2(|b| - 1) else 0) + ValueOf(b[1..])
  {
    if |b| > 1 {
      var init := b[..|b| - 1];
      FirstBitCountsMost(init);
      assert b[1..][..|b| - 2] == init[1..];
    }
  }

  /** `n.toString(2)`: no leading zero, except "0" itself. */
  function ToBinary(n: nat): (b: BitString)
    ensures |b| > 0 && ValueOf(b) == n
  {
    if n < 2 then [n == 1]
    else
      var high := ToBinary(n / 2);
      assert (high + [n % 2 == 1])[..|high|] == high;
      high + [n % 2 == 1]
  }

  lemma {:induction false} ToBinaryFits(n: nat, t: nat)
    requires t > 0
    ensures |ToBinary(n)| <= t <==> n < Pow2(t)
  {
    if n >= 2 {
      if t == 1 {
        assert |ToBinary(n / 2)| > 0;
      } else {
        ToBinaryFits(n / 2, t - 1);
      }
    }
  }

  /** Bit strings of one width are determined by their value. */
  lemma {:induction false} ValueOfInjective(a: BitString, b: BitString)
    requires |a| == |b| && ValueOf(a) == ValueOf(b)
    ensures a == b
  {
    if a != [] {
      var k := |a| - 1;
      ValueOfInjective(a[..k], b[..k]);
      assert a == a[..k] + [a[k]] && b == b[..k] + [b[k]];
    }
  }

  lemma {:induction false} LeadingZeros(k: nat, b: BitString)
    ensures ValueOf(Zeros(k) + b) == ValueOf(b)
  {
    if k > 0 {
      assert Zeros(k) + b == [false] + (Zeros(k - 1) + b);
      LeadingZero(Zeros(k - 1) + b);
      LeadingZeros(k - 1, b);
    } else {
      assert Zeros(0) + b == b;
    }
  }

  lemma {:induction false} LeadingZero(b: BitString)
    ensures ValueOf([false] + b) == ValueOf(b)
  {
    if b != [] {
      assert ([false] + b)[..|b|] == [false] + b[..|b| - 1];
      LeadingZero(b[..|b| - 1]);
    }
  }

  /** Left-padding `toString(2)` with zeros. */
  ghost function PaddedBinary(n: nat, t: nat): (b: BitString)
    requires t > 0 && n < Pow2(t)
    ensures |b| == t && ValueOf(b) == n
  {
    ToBinaryFits(n, t);
    LeadingZeros(t - |ToBinary(n)|, ToBinary(n));
    Zeros(t - |ToBinary(n)|) + ToBinary(n)
  }

  /** The one bit string of length `t` and value `n`. */
  ghost function IntBits(n: nat, t: nat): (b: BitString)
    requires t > 0 && n < Pow2(t)
    ensures |b| == t && ValueOf(b) == n
  {
    assert |PaddedBinary(n, t)| == t && ValueOf(PaddedBinary(n, t)) == n;
    var b: BitString :| |b| == t && ValueOf(b) == n;
    b
  }

  /** `L.encode` succeeds exactly on the integers that `t` bits can hold, `t` being at least 1. */
  ghost function EncodeInt(e: int, t: nat): (r: Result<BitString, TcfError>)
    ensures r.Success? ==> |r.value| == t && ValueOf(r.value) == e
  {
    if t > 0 && 0 <= e < Pow2(t) then Success(IntBits(e, t)) else Failure(EncodingError)
  }

  method EncodeIntText(e: int, t: nat) returns (r: Result<BitString, TcfError>)
    ensures r == EncodeInt(e, t)
  {
    if e < 0 {
      return Failure(EncodingError);
    }
    var i := ToBinary(e);
    if t > 0 {
      ToBinaryFits(e, t);
    }
    if |i| > t {
      return Failure(EncodingError);
    }
    LeadingZeros(t - |i|, i);
    ValueOfInjective(Zeros(t - |i|) + i, IntBits(e, t));
    return Success(Zeros(t - |i|) + i);
  }

  /** `L.decode`. */
  function DecodeInt(e: BitString, t: nat): Result<nat, TcfError> {
    if t != |e| then Failure(DecodingError) else Success(ValueOf(e))
  }

  /** An integer of `t` bits at the cursor `pos`. */
  function ReadInt(e: BitString, pos: nat, t: nat): Result<nat, TcfError> {
    DecodeInt(Substr(e, pos, t), t)
  }

  /** Reading an encoded integer at a cursor gives it back, whatever follows. */
  lemma IntRoundTrip(e: BitString, pos: nat, n: nat, t: nat)
    requires t > 0 && n < Pow2(t) && At(e, pos, IntBits(n, t))
    ensures ReadInt(e, pos, t) == Success(n)
  {
    SubstrAt(e, pos, IntBits(n, t));
  }

  /** `$.encode` and `$.decode`; decoding the empty string gives false. */
  function EncodeBool(b: bool): BitString {
    [b]
  }

  function DecodeBool(e: BitString): bool {
    e == [true]
  }

  function ReadBool(e: BitString, pos: nat): bool {
    DecodeBool(Substr(e, pos, 1))
  }

  lemma BoolRoundTrip(e: BitString, pos: nat, b: bool)
    requires At(e, pos, EncodeBool(b))
    ensures ReadBool(e, pos) == b
  {
    SubstrAt(e, pos, [b]);
  }

  // ---------- Dates: tenths of a second ----------

  /** `Math.round(ms / 100)`: halves round up. */
  function Deciseconds(ms: int): int {
    (ms + 50) / 100
  }

  ghost function EncodeDate(ms: int, t: nat): Result<BitString, TcfError> {
    EncodeInt(Deciseconds(ms), t)
  }

  function DecodeDate(e: BitString, t: nat): Result<int, TcfError> {
    var n :- DecodeInt(e, t);
    Success(n * 100)
  }

  // ---------- Two-letter codes ----------

  /** `toUpperCase` on the ASCII letters. */
  function Upper(c: char): char {
    if 'a' <= c <= 'z' then c - 'a' + 'A' else c
  }

  predicate IsLetter(c: char) {
    'A' <= Upper(c) <= 'Z'
  }

  ghost function EncodeLang(e: string, t: nat): (r: Result<BitString, TcfError>)
    ensures t == 12 ==> (r.Success? <==> |e| >= 2 && IsLetter(e[0]) && IsLetter(e[1]))
    ensures r.Success? ==> |r.value| == t
  {
    if |e| < 2 || !IsLetter(e[0]) || !IsLetter(e[1]) || t % 2 == 1 then Failure(EncodingError)
    else
      Pow2Values();
      var o :- EncodeInt((Upper(e[0]) as int) - 65, t / 2);
      var a :- EncodeInt((Upper(e[1]) as int) - 65, t / 2);
      Success(o + a)
  }

  method EncodeLangText(e: string, t: nat) returns (r: Result<BitString, TcfError>)
    ensures r == EncodeLang(e, t)
  {
    if |e| < 2 || !IsLetter(e[0]) || !IsLetter(e[1]) {
      return Failure(EncodingError);
    }
    if t % 2 == 1 {
      return Failure(EncodingError);
    }
    var o :- EncodeIntText((Upper(e[0]) as int) - 65, t / 2);
    var a :- EncodeIntText((Upper(e[1]) as int) - 65, t / 2);
    return Success(o + a);
  }

  function DecodeLang(e: BitString, t: nat): Result<string, TcfError>
    requires t <= 12
  {
    if t == |e| && |e| % 2 == 0 then
      var h := |e| / 2;
      Pow2Monotone(h, 6);
      Pow2Values();
      Success([(ValueOf(e[..h]) + 65) as char, (ValueOf(e[h..]) + 65) as char])
    else Failure(DecodingError)
  }

  /** The first two letters come back in upper case. */
  lemma LangRoundTrip(e: BitString, pos: nat, s: string)
    requires EncodeLang(s, 12).Success? && At(e, pos, EncodeLang(s, 12).value)
    ensures DecodeLang(Substr(e, pos, 12), 12) == Success([Upper(s[0]), Upper(s[1])])
  {
    var x := EncodeInt((Upper(s[0]) as int) - 65, 6).value;
    var y := EncodeInt((Upper(s[1]) as int) - 65, 6).value;
    assert EncodeLang(s, 12).value == x + y;
    SubstrAt(e, pos, x + y);
    assert (x + y)[..6] == x && (x + y)[6..] == y;
  }
}
