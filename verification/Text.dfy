/** The string operations of Python that the report's printer and parser use, and stable sorting. */
module Text {
  import opened Outcomes

  // ---------- Decimal numbers ----------

  predicate AllDigits(s: string) {
    forall i | 0 <= i < |s| :: '0' <= s[i] <= '9'
  }

  function ToDecimal(n: nat): (s: string)
    ensures s != [] && AllDigits(s)
  {
    var last := ['0' + (n % 10) as char];
    if n < 10 then last else ToDecimal(n / 10) + last
  }

  function DigitsValue(s: string): nat
    requires AllDigits(s)
  {
    if s == [] then 0 else 10 * DigitsValue(s[..|s| - 1]) + (s[|s| - 1] - '0') as nat
  }

  lemma {:induction false} DecimalRoundTrip(n: nat)
    ensures DigitsValue(ToDecimal(n)) == n
  {
    if n >= 10 {
      DecimalRoundTrip(n / 10);
      assert ToDecimal(n)[..|ToDecimal(n)| - 1] == ToDecimal(n / 10);
    }
  }

  /** `int(s)` on a word: an optional sign and ASCII digits. */
  function ParseInt(s: string): Option<int> {
    var negative := s != [] && s[0] == '-';
    var digits := if s != [] && (s[0] == '-' || s[0] == '+') then s[1..] else s;
    if digits == [] then None
    else if AllDigits(digits) then
      var n: int := DigitsValue(digits);
      Some(if negative then -n else n)
    else None
  }

  lemma ParseDecimal(n: nat)
    ensures ParseInt(ToDecimal(n)) == Some(n)
  {
    var s := ToDecimal(n);
    DecimalRoundTrip(n);
  }

  // ---------- White space ----------

  predicate IsSpace(c: char) {
    || '\t' <= c <= '\r'
    || '\U{1c}' <= c <= ' '
    || '\U{2000}' <= c <= '\U{200a}'
    || c in ['\U{85}', '\U{a0}', '\U{1680}', '\U{2028}', '\U{2029}', '\U{202f}', '\U{205f}', '\U{3000}']
  }

  function TrimStart(s: string): string {
    if s != [] && IsSpace(s[0]) then TrimStart(s[1..]) else s
  }

  function TrimEnd(s: string): string {
    if s != [] && IsSpace(s[|s| - 1]) then TrimEnd(s[..|s| - 1]) else s
  }

  /** `s.strip()`. */
  function Strip(s: string): string {
    TrimEnd(TrimStart(s))
  }

  /** Up to the first white space. */
  function TakeWord(s: string): string {
    if s == [] || IsSpace(s[0]) then [] else [s[0]] + TakeWord(s[1..])
  }

  /** `s.split()[0]`. */
  function FirstWord(s: string): Option<string> {
    var word := TakeWord(TrimStart(s));
    if word == [] then None else Some(word)
  }

  lemma {:induction false} TakeWordOf(word: string, rest: string)
    requires forall c | c in word :: !IsSpace(c)
    requires rest == [] || IsSpace(rest[0])
    ensures TakeWord(word + rest) == word
  {
    if word != [] {
      assert (word + rest)[1..] == word[1..] + rest;
      TakeWordOf(word[1..], rest);
    }
  }

  // ---------- Splitting on a separator ----------

  /** What follows the first occurrence of `sep`. */
  function AfterFirst(s: string, sep: string): Option<string> {
    if sep <= s then Some(s[|sep|..])
    else if s == [] then None
    else AfterFirst(s[1..], sep)
  }

  /** What precedes the first occurrence of `sep`, or all of `s`. */
  function BeforeFirst(s: string, sep: string): string {
    if s == [] || sep <= s then [] else [s[0]] + BeforeFirst(s[1..], sep)
  }

  /** `s.split(sep)[1]`. */
  function SecondPart(s: string, sep: string): Option<string> {
    match AfterFirst(s, sep)
    case Some(rest) => Some(BeforeFirst(rest, sep))
    case None => None
  }

  /** Text without the first character of the separator is passed over. */
  lemma {:induction false} BeforeFirstPasses(p: string, rest: string, sep: string)
    requires sep != [] && sep[0] !in p
    ensures BeforeFirst(p + rest, sep) == p + BeforeFirst(rest, sep)
  {
    if p == [] {
      assert p + rest == rest;
    } else {
      assert (p + rest)[1..] == p[1..] + rest;
      BeforeFirstPasses(p[1..], rest, sep);
    }
  }

  /** No occurrence of a separator that starts with `c, d` can start in `p`. */
  predicate Passes(p: string, c: char, d: char) {
    forall k: nat | k < |p| && p[k] == c :: k + 1 < |p| && p[k + 1] != d
  }

  lemma {:induction false} AfterFirstPasses(p: string, sep: string, rest: string)
    requires |sep| >= 2 && Passes(p, sep[0], sep[1])
    ensures AfterFirst(p + sep + rest, sep) == Some(rest)
  {
    if p == [] {
      assert p + sep + rest == sep + rest;
    } else {
      assert (p + sep + rest)[1..] == p[1..] + sep + rest;
      assert Passes(p[1..], sep[0], sep[1]);
      assert !(sep <= p + sep + rest) by {
        assert p[0] == sep[0] ==> (p + sep + rest)[1] == p[1] != sep[1];
      }
      AfterFirstPasses(p[1..], sep, rest);
    }
  }

  lemma {:induction false} AfterFirstChar(p: string, c: char, rest: string)
    requires c !in p
    ensures AfterFirst(p + [c] + rest, [c]) == Some(rest)
  {
    if p == [] {
      assert p + [c] + rest == [c] + rest;
    } else {
      assert (p + [c] + rest)[1..] == p[1..] + [c] + rest;
      assert (p + [c] + rest)[0] == p[0] && p[0] in p;
      AfterFirstChar(p[1..], c, rest);
    }
  }

  /** `s.rstrip(c)`. */
  function TrimEndOf(s: string, c: char): string {
    if s != [] && s[|s| - 1] == c then TrimEndOf(s[..|s| - 1], c) else s
  }

  /** `s.replace(part, "")`. */
  function RemoveAll(s: string, part: string): string
    requires part != ""
  {
    if s == "" then "" else if part <= s then RemoveAll(s[|part|..], part) else [s[0]] + RemoveAll(s[1..], part)
  }

  /** Removing a prefix leaves the name behind it, if and only if the name does not hold it again. */
  lemma RemovePrefix(part: string, name: string)
    requires part != ""
    ensures RemoveAll(part + name, part) == name <==> RemoveAll(name, part) == name
  {
    assert (part + name)[|part|..] == name;
  }

  // ---------- Stable sorting, largest key first ----------

  function InsertDescending<T>(x: T, xs: seq<T>, key: T -> int): (r: seq<T>)
    ensures multiset(r) == multiset([x]) + multiset(xs)
  {
    if xs == [] || key(x) >= key(xs[0]) then [x] + xs
    else
      assert xs == [xs[0]] + xs[1..];
      [xs[0]] + InsertDescending(x, xs[1..], key)
  }

  /** `sorted(xs, key=key, reverse=True)`: equal keys keep their order. */
  function SortDescending<T>(xs: seq<T>, key: T -> int): (r: seq<T>)
    ensures multiset(r) == multiset(xs)
  {
    if xs == [] then []
    else
      assert xs == [xs[0]] + xs[1..];
      InsertDescending(xs[0], SortDescending(xs[1..], key), key)
  }

  predicate Descending<T>(xs: seq<T>, key: T -> int) {
    forall i, j | 0 <= i < j < |xs| :: key(xs[i]) >= key(xs[j])
  }

  lemma {:induction false} InsertIsDescending<T>(x: T, xs: seq<T>, key: T -> int)
    requires Descending(xs, key)
    ensures Descending(InsertDescending(x, xs, key), key)
  {
    if xs != [] && key(x) < key(xs[0]) {
      InsertIsDescending(x, xs[1..], key);
      var r := InsertDescending(x, xs[1..], key);
      forall j | 0 <= j < |r|
        ensures key(xs[0]) >= key(r[j])
      {
        assert r[j] in multiset(r);
      }
    }
  }

  lemma {:induction false} SortIsDescending<T>(xs: seq<T>, key: T -> int)
    ensures Descending(SortDescending(xs, key), key)
  {
    if xs != [] {
      SortIsDescending(xs[1..], key);
      InsertIsDescending(xs[0], SortDescending(xs[1..], key), key);
    }
  }

  /** The elements with one key, in order. */
  function WithKey<T>(xs: seq<T>, key: T -> int, k: int): seq<T> {
    if xs == [] then [] else (if key(xs[0]) == k then [xs[0]] else []) + WithKey(xs[1..], key, k)
  }

  lemma {:induction false} InsertIsStable<T>(x: T, xs: seq<T>, key: T -> int, k: int)
    ensures WithKey(InsertDescending(x, xs, key), key, k) == WithKey([x] + xs, key, k)
  {
    assert ([x] + xs)[1..] == xs;
    if xs != [] && key(x) < key(xs[0]) {
      var r := InsertDescending(x, xs[1..], key);
      InsertIsStable(x, xs[1..], key, k);
      assert ([xs[0]] + r)[1..] == r && ([x] + xs[1..])[1..] == xs[1..];
    }
  }

  lemma {:induction false} SortIsStable<T>(xs: seq<T>, key: T -> int, k: int)
    ensures WithKey(SortDescending(xs, key), key, k) == WithKey(xs, key, k)
  {
    if xs != [] {
      SortIsStable(xs[1..], key, k);
      var r := SortDescending(xs[1..], key);
      InsertIsStable(xs[0], r, key, k);
      assert ([xs[0]] + r)[1..] == r;
    }
  }

  lemma SameMembers<T>(xs: seq<T>, ys: seq<T>, x: T)
    requires multiset(xs) == multiset(ys)
    ensures x in xs <==> x in ys
  {
    assert x in xs <==> x in multiset(xs);
    assert x in ys <==> x in multiset(ys);
  }
}
