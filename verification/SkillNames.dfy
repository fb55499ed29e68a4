/** Skill names: the slugifier and the validator. */
module SkillNames {
  import opened Outcomes

  const MAX_SKILL_NAME_LEN := 64

  /** The length of a string in UTF-8 bytes. */
  function Utf8Length(s: string): (n: nat)
    ensures n >= |s|
  {
    if s == [] then 0
    else
      var c := s[0];
      (if c < '\U{80}' then 1 else if c < '\U{800}' then 2 else if c < '\U{10000}' then 3 else 4) + Utf8Length(s[1..])
  }

  // ---------- The validator ----------

  datatype NameError = EmptyName | NameTooLong | HyphenAtEdge | BadCharacter

  predicate IsNameChar(c: char) {
    'a' <= c <= 'z' || '0' <= c <= '9' || c == '-'
  }

  /** `validate_name`. */
  function ValidateName(name: string): Result<(), NameError> {
    if name == [] then Failure(EmptyName)
    else if Utf8Length(name) > MAX_SKILL_NAME_LEN then Failure(NameTooLong)
    else if name[0] == '-' || name[|name| - 1] == '-' then Failure(HyphenAtEdge)
    else if exists i | 0 <= i < |name| :: !IsNameChar(name[i]) then Failure(BadCharacter)
    else Success(())
  }

  /** Which names are refused, and for what: the first of these that is wrong. */
  lemma ValidateMeaning(name: string)
    ensures ValidateName(name) == Failure(EmptyName) <==> name == ""
    ensures ValidateName(name) == Failure(NameTooLong) <==> Utf8Length(name) > 64
    ensures ValidateName(name) == Failure(HyphenAtEdge) <==>
      name != "" && Utf8Length(name) <= 64 && (name[0] == '-' || name[|name| - 1] == '-')
    ensures ValidateName(name).Success? <==>
      && name != "" && |name| <= 64 && name[0] != '-' && name[|name| - 1] != '-'
      && forall c | c in name :: 'a' <= c <= 'z' || '0' <= c <= '9' || c == '-'
  {
    if forall i | 0 <= i < |name| :: IsNameChar(name[i]) {
      AsciiLength(name);
    }
    assert (forall i | 0 <= i < |name| :: IsNameChar(name[i])) <==> forall c | c in name :: IsNameChar(c);
  }

  // ---------- The slugifier ----------

  predicate IsAlphanumeric(c: char) {
    'a' <= c <= 'z' || 'A' <= c <= 'Z' || '0' <= c <= '9'
  }

  function Lower(c: char): char {
    if 'A' <= c <= 'Z' then c - 'A' + 'a' else c
  }

  /** `input.replace('&', "-and-")`. */
  function Expand(s: string): string {
    if s == [] then [] else (if s[0] == '&' then "-and-" else [s[0]]) + Expand(s[1..])
  }

  /** The slug so far; a dash is added only after something other than a dash. */
  function Extend(slug: string, c: char): string {
    if IsAlphanumeric(c) then slug + [Lower(c)]
    else if (c == ' ' || c == '-') && slug != [] && slug[|slug| - 1] != '-' then slug + ['-']
    else slug
  }

  function Scan(s: string): string {
    if s == [] then [] else Extend(Scan(s[..|s| - 1]), s[|s| - 1])
  }

  function DropDashes(s: string): string {
    if s != [] && s[|s| - 1] == '-' then DropDashes(s[..|s| - 1]) else s
  }

  function DropDash(s: string): string {
    if s != [] && s[|s| - 1] == '-' then s[..|s| - 1] else s
  }

  function Truncate(s: string): string {
    if |s| > MAX_SKILL_NAME_LEN then DropDashes(s[..MAX_SKILL_NAME_LEN]) else s
  }

  function Slugify(input: string): Option<string> {
    var slug := Truncate(DropDash(Scan(Expand(input))));
    if slug == [] then None else Some(slug)
  }

  /** `slugify_skill_name`: the slug is ASCII, so its length in bytes is its length. */
  method SlugifySkillName(input: string) returns (r: Option<string>)
    ensures r == Slugify(input)
  {
    var expanded := Expand(input);
    var slug := "";
    var lastWasDash := true;
    for i := 0 to |expanded|
      invariant slug == Scan(expanded[..i])
      invariant lastWasDash <==> slug == [] || slug[|slug| - 1] == '-'
    {
      assert expanded[..i + 1][..i] == expanded[..i];
      var ch := expanded[i];
      if IsAlphanumeric(ch) {
        lastWasDash := false;
        slug := slug + [Lower(ch)];
      } else if ch == ' ' || ch == '-' {
        if !lastWasDash {
          lastWasDash := true;
          slug := slug + ['-'];
        }
      }
    }
    assert expanded[..|expanded|] == expanded;
    if slug != [] && slug[|slug| - 1] == '-' {
      slug := slug[..|slug| - 1];
    }
    if |slug| > MAX_SKILL_NAME_LEN {
      slug := slug[..MAX_SKILL_NAME_LEN];
      ghost var cut := slug;
      while slug != [] && slug[|slug| - 1] == '-'
        invariant DropDashes(slug) == DropDashes(cut)
        decreases |slug|
      {
        slug := slug[..|slug| - 1];
      }
    }
    return if slug == [] then None else Some(slug);
  }

  // ---------- Properties ----------

  predicate NoDoubleHyphen(s: string) {
    forall i: nat | i + 1 < |s| && s[i] == '-' :: s[i + 1] != '-'
  }

  /** Name characters only, not starting with a hyphen, no double hyphen. */
  predicate IsSlugPrefix(s: string) {
    (s != [] ==> s[0] != '-') && NoDoubleHyphen(s) && forall i | 0 <= i < |s| :: IsNameChar(s[i])
  }

  lemma {:induction false} ScanIsSlug(s: string)
    ensures IsSlugPrefix(Scan(s))
  {
    if s != [] {
      ScanIsSlug(s[..|s| - 1]);
      var slug, c := Scan(s[..|s| - 1]), s[|s| - 1];
      forall i: nat | i + 1 < |Scan(s)| && Scan(s)[i] == '-'
        ensures Scan(s)[i + 1] != '-'
      {
        if i + 1 < |slug| {
          assert slug[i] == '-';
        }
      }
    }
  }

  lemma {:induction false} DropDashesMeaning(s: string)
    requires IsSlugPrefix(s)
    ensures var r := DropDashes(s);
      r <= s && IsSlugPrefix(r) && (r != [] ==> r[|r| - 1] != '-') && (s != [] ==> r != []) && |s| <= |r| + 1
  {
    if s != [] && s[|s| - 1] == '-' {
      var init := s[..|s| - 1];
      assert init != [];
      assert init[|init| - 1] == s[|s| - 2] != '-';
    }
  }

  lemma {:induction false} AsciiLength(s: string)
    requires forall i | 0 <= i < |s| :: IsNameChar(s[i])
    ensures Utf8Length(s) == |s|
  {
    if s != [] {
      AsciiLength(s[1..]);
    }
  }

  /** A normal form: valid as a name and without a double hyphen. */
  predicate IsNormal(name: string) {
    ValidateName(name).Success? && NoDoubleHyphen(name)
  }

  lemma SlugifyIsNormal(input: string)
    requires Slugify(input).Some?
    ensures IsNormal(Slugify(input).value)
  {
    var slug := Scan(Expand(input));
    ScanIsSlug(Expand(input));
    var trimmed := DropDash(slug);
    assert IsSlugPrefix(trimmed);
    assert trimmed != [] ==> trimmed[|trimmed| - 1] != '-' by {
      if slug != [] && slug[|slug| - 1] == '-' && |slug| > 1 {
        assert slug[|slug| - 2] != '-';
      }
    }
    if |trimmed| > MAX_SKILL_NAME_LEN {
      assert IsSlugPrefix(trimmed[..MAX_SKILL_NAME_LEN]);
      DropDashesMeaning(trimmed[..MAX_SKILL_NAME_LEN]);
    }
    AsciiLength(Slugify(input).value);
  }

  lemma {:induction false} ExpandNormal(s: string)
    requires forall i | 0 <= i < |s| :: IsNameChar(s[i])
    ensures Expand(s) == s
  {
    if s != [] {
      ExpandNormal(s[1..]);
    }
  }

  lemma {:induction false} ScanFixed(s: string)
    requires IsSlugPrefix(s)
    ensures Scan(s) == s
  {
    if s != [] {
      var init := s[..|s| - 1];
      ScanFixed(init);
      assert s == init + [s[|s| - 1]];
      assert init != [] && init[|init| - 1] == '-' ==> s[|s| - 1] != '-';
    }
  }

  /** The normal names are exactly the fixed points of the slugifier. */
  lemma SlugifyFixed(name: string)
    ensures Slugify(name) == Some(name) <==> IsNormal(name)
  {
    if IsNormal(name) {
      assert IsSlugPrefix(name);
      ExpandNormal(name);
      ScanFixed(name);
      AsciiLength(name);
    }
    if Slugify(name) == Some(name) {
      SlugifyIsNormal(name);
    }
  }

  /** Something to keep: an ASCII letter or digit, or an ampersand. */
  predicate HasContent(s: string) {
    exists i :: 0 <= i < |s| && (IsAlphanumeric(s[i]) || s[i] == '&')
  }

  predicate HasAlphanumeric(s: string) {
    exists i :: 0 <= i < |s| && IsAlphanumeric(s[i])
  }

  lemma {:induction false} ExpandContent(s: string)
    ensures HasContent(s) <==> HasAlphanumeric(Expand(s))
  {
    if s != [] {
      var c, rest := s[0], s[1..];
      ExpandContent(rest);
      assert s == [c] + rest;
      assert HasContent(s) <==> IsAlphanumeric(c) || c == '&' || HasContent(rest);
      var head := if c == '&' then "-and-" else [c];
      assert Expand(s) == head + Expand(rest);
      if c == '&' {
        assert Expand(s)[1] == 'a';
      } else if IsAlphanumeric(c) {
        assert Expand(s)[0] == c;
      } else {
        assert head == [c];
        if i :| 0 <= i < |Expand(rest)| && IsAlphanumeric(Expand(rest)[i]) {
          assert Expand(s)[1 + i] == Expand(rest)[i];
        }
        if i :| 0 <= i < |Expand(s)| && IsAlphanumeric(Expand(s)[i]) {
          assert Expand(s)[i] == Expand(rest)[i - 1];
        }
      }
    }
  }

  lemma {:induction false} ScanContent(s: string)
    ensures Scan(s) != [] <==> HasAlphanumeric(s)
  {
    if s != [] {
      var init, c := s[..|s| - 1], s[|s| - 1];
      ScanContent(init);
      assert s == init + [c];
      if i :| 0 <= i < |init| && IsAlphanumeric(init[i]) {
        assert s[i] == init[i];
      }
      if i :| 0 <= i < |s| && IsAlphanumeric(s[i]) {
        if i < |init| {
          assert init[i] == s[i];
        }
      }
    }
  }

  /** There is a slug exactly when the input has a letter, a digit or an ampersand. */
  lemma SlugifySome(input: string)
    ensures Slugify(input).Some? <==> HasContent(input)
  {
    hide Scan, Expand, HasContent, HasAlphanumeric;
    var slug := Scan(Expand(input));
    ExpandContent(input);
    ScanContent(Expand(input));
    ScanIsSlug(Expand(input));
    assert slug != [] <==> HasContent(input);
    var trimmed := DropDash(slug);
    SlugPrefix(slug, |trimmed|);
    assert slug != [] ==> trimmed != [];
    if |trimmed| > MAX_SKILL_NAME_LEN {
      SlugPrefix(trimmed, MAX_SKILL_NAME_LEN);
      DropDashesMeaning(trimmed[..MAX_SKILL_NAME_LEN]);
    }
  }

  lemma SlugPrefix(s: string, k: nat)
    requires IsSlugPrefix(s) && k <= |s|
    ensures IsSlugPrefix(s[..k])
  {
  }

  /** The letters and digits of a text, in lower case. */
  function Letters(s: string): string {
    if s == [] then []
    else Letters(s[..|s| - 1]) + if IsAlphanumeric(s[|s| - 1]) then [Lower(s[|s| - 1])] else []
  }

  lemma {:induction false} ScanLetters(s: string)
    ensures Letters(Scan(s)) == Letters(s)
  {
    if s != [] {
      var init, c := s[..|s| - 1], s[|s| - 1];
      ScanLetters(init);
      var slug := Scan(init);
      if Extend(slug, c) != slug {
        assert Extend(slug, c)[..|slug|] == slug;
        assert Lower(Lower(c)) == Lower(c);
      }
      assert Letters(slug) + [] == Letters(slug);
    }
  }

  lemma {:induction false} LettersPrefix(s: string, t: string)
    requires s <= t
    ensures Letters(s) <= Letters(t)
  {
    if |s| < |t| {
      LettersPrefix(s, t[..|t| - 1]);
    } else {
      assert s == t;
    }
  }

  /** The slug spells the letters and digits of the input in order; only the truncation can lose some at the end. */
  lemma SlugifyLetters(input: string)
    requires Slugify(input).Some?
    ensures Letters(Slugify(input).value) <= Letters(Expand(input))
    ensures |DropDash(Scan(Expand(input)))| <= MAX_SKILL_NAME_LEN ==>
      Letters(Slugify(input).value) == Letters(Expand(input))
  {
    var slug, result := Scan(Expand(input)), Slugify(input).value;
    ScanIsSlug(Expand(input));
    ScanLetters(Expand(input));
    var trimmed := DropDash(slug);
    assert IsSlugPrefix(trimmed);
    if |trimmed| > MAX_SKILL_NAME_LEN {
      assert IsSlugPrefix(trimmed[..MAX_SKILL_NAME_LEN]);
      DropDashesMeaning(trimmed[..MAX_SKILL_NAME_LEN]);
    }
    LettersPrefix(result, slug);
    assert Letters(trimmed) + [] == Letters(trimmed);
  }
}
