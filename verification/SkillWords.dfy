/** What a slug is made of: the words of the input, cleaned and joined by single hyphens. */
module SkillWords {
  import opened Outcomes
  import opened Sequences
  import opened SkillNames

  // ---------- The ampersand ----------

  /** Every ampersand becomes "-and-", and nothing else changes. */
  lemma {:induction false} ExpandMeaning(a: string, b: string)
    ensures Expand(a + b) == Expand(a) + Expand(b)
    ensures Expand("&") == "-and-"
    ensures '&' !in a ==> Expand(a) == a
  {
    assert "&"[1..] == "";
    if a == "" {
      assert a + b == b;
    } else {
      assert (a + b)[1..] == a[1..] + b;
      ExpandMeaning(a[1..], b);
      ConcatAssociative(if a[0] == '&' then "-and-" else [a[0]], Expand(a[1..]), Expand(b));
    }
  }

  // ---------- Words ----------

  /** Spaces separate like hyphens. */
  function Dashed(s: string): string {
    if s == "" then "" else Dashed(s[..|s| - 1]) + (if s[|s| - 1] == ' ' then "-" else [s[|s| - 1]])
  }

  /** The ASCII letters, in lower case, and digits of a piece. */
  function Clean(s: string): string {
    if s == "" then ""
    else
      var c := s[|s| - 1];
      Clean(s[..|s| - 1]) +
      if 'a' <= c <= 'z' || '0' <= c <= '9' then [c] else if 'A' <= c <= 'Z' then [c - 'A' + 'a'] else []
  }

  /** The pieces that have something left once they are clean. */
  function Words(pieces: seq<string>): seq<string> {
    if pieces == [] then []
    else
      var word := Clean(pieces[|pieces| - 1]);
      Words(pieces[..|pieces| - 1]) + if word == "" then [] else [word]
  }

  function WordsOf(s: string): seq<string> {
    Words(Split(Dashed(s), '-'))
  }

  // ---------- One more character ----------

  /** One more character in front of the pieces, and one more behind them. */
  function InFront(x: char, c: char, parts: seq<string>): seq<string>
    requires parts != []
  {
    if x == c then [[]] + parts else [[x] + parts[0]] + parts[1..]
  }

  function Behind(parts: seq<string>, c: char, d: char): seq<string>
    requires parts != []
  {
    if d == c then parts + [[]] else parts[..|parts| - 1] + [parts[|parts| - 1] + [d]]
  }

  lemma BothEnds(x: char, c: char, parts: seq<string>, d: char)
    requires parts != []
    ensures InFront(x, c, Behind(parts, c, d)) == Behind(InFront(x, c, parts), c, d)
  {
    var n := |parts| - 1;
    if x == c {
      assert ([[]] + parts)[..n + 1] == [[]] + parts[..n];
    } else if n == 0 {
      assert parts == [parts[0]];
      assert [x] + (parts[0] + [d]) == [x] + parts[0] + [d];
    } else {
      assert Behind(parts, c, d)[0] == parts[0];
    }
  }

  lemma {:induction false} SplitSnoc(s: string, c: char, d: char)
    ensures Split(s + [d], c) == Behind(Split(s, c), c, d)
  {
    hide Split, InFront, Behind;
    if s == "" {
      assert s + [d] == [d];
      SplitOne(c, d);
    } else {
      SplitFront(s, c);
      SplitFront(s + [d], c);
      assert (s + [d])[1..] == s[1..] + [d];
      SplitSnoc(s[1..], c, d);
      BothEnds(s[0], c, Split(s[1..], c), d);
    }
  }

  lemma SplitOne(c: char, d: char)
    ensures Split([d], c) == Behind(Split("", c), c, d)
  {
    var nothing: seq<string> := [""];
    SplitFront([d], c);
    assert [d][1..] == "" && Split("", c) == nothing;
    assert [d] + "" == [d] && "" + [d] == [d];
    assert nothing[1..] == [] && nothing[..0] == [];
  }

  lemma SplitFront(s: string, c: char)
    requires s != ""
    ensures Split(s, c) == InFront(s[0], c, Split(s[1..], c))
  {
  }

  lemma {:induction false} JoinSnoc(words: seq<string>, word: string, c: char)
    ensures Join(words + [word], c) == (if words == [] then "" else Join(words, c) + [c]) + word
  {
    if words == [] {
      assert words + [word] == [word];
    } else {
      var rest := words[1..];
      assert (words + [word])[1..] == rest + [word];
      JoinSnoc(rest, word, c);
      if rest == [] {
        assert words == [words[0]];
      } else {
        ConcatAssociative(words[0] + [c], Join(rest, c), [c]);
        ConcatAssociative(words[0] + [c], Join(rest, c) + [c], word);
      }
    }
  }

  /** What the scan has written: the words so far, and after them a hyphen or the beginning of the next word. */
  ghost predicate Written(slug: string, pieces: seq<string>) {
    && pieces != []
    && var words, word := Words(pieces[..|pieces| - 1]), Clean(pieces[|pieces| - 1]);
    if word == "" then slug == Join(words, '-') + (if words == [] then "" else "-")
    else slug == Join(words + [word], '-')
  }

  lemma CleanLast(s: string)
    ensures Clean(s) != "" ==> Clean(s)[|Clean(s)| - 1] != '-'
    decreases |s|
  {
    if s != "" {
      CleanLast(s[..|s| - 1]);
    }
  }

  lemma CleanSnoc(s: string, c: char)
    ensures Clean(s + [c]) == Clean(s) + if IsAlphanumeric(c) then [Lower(c)] else []
  {
    assert (s + [c])[..|s|] == s;
  }

  lemma WordsSnoc(pieces: seq<string>, piece: string)
    ensures Words(pieces + [piece]) == Words(pieces) + if Clean(piece) == "" then [] else [Clean(piece)]
  {
    assert (pieces + [piece])[..|pieces|] == pieces;
  }

  lemma {:induction false} WordsNonEmpty(pieces: seq<string>)
    ensures forall word | word in Words(pieces) :: word != "" && word[|word| - 1] != '-'
  {
    if pieces != [] {
      WordsNonEmpty(pieces[..|pieces| - 1]);
      CleanLast(pieces[|pieces| - 1]);
    }
  }

  /** Joined words end as the last of them does. */
  lemma JoinLast(words: seq<string>)
    requires words != [] && forall word | word in words :: word != "" && word[|word| - 1] != '-'
    ensures Join(words, '-') != "" && Join(words, '-')[|Join(words, '-')| - 1] != '-'
  {
    var init, last := words[..|words| - 1], words[|words| - 1];
    assert words == init + [last];
    JoinSnoc(init, last, '-');
  }

  lemma ExtendSeparator(slug: string, c: char)
    requires c == ' ' || c == '-'
    ensures Extend(slug, c) == if slug == "" || slug[|slug| - 1] == '-' then slug else slug + "-"
  {
  }

  lemma WrittenSeparator(slug: string, pieces: seq<string>, c: char)
    requires Written(slug, pieces) && (c == ' ' || c == '-')
    ensures Written(Extend(slug, c), pieces + [[]])
  {
    hide Join, Extend, Words, Clean;
    var n := |pieces| - 1;
    var words, word := Words(pieces[..n]), Clean(pieces[n]);
    assert (pieces + [[]])[..n + 1] == pieces && pieces == pieces[..n] + [pieces[n]];
    NothingClean();
    ExtendSeparator(slug, c);
    WordsSnoc(pieces[..n], pieces[n]);
    if word == "" {
      SeparatorAgain(slug, words);
      assert words + [] == words;
    } else {
      WordsNonEmpty(pieces);
      JoinLast(Words(pieces));
    }
  }

  lemma SeparatorAgain(slug: string, words: seq<string>)
    requires slug == Join(words, '-') + (if words == [] then "" else "-")
    ensures slug == "" || slug[|slug| - 1] == '-'
  {
  }

  lemma NothingClean()
    ensures Clean([]) == ""
  {
  }

  lemma NothingJoined()
    ensures Join([], '-') == ""
  {
  }

  lemma WrittenOther(slug: string, pieces: seq<string>, c: char)
    requires Written(slug, pieces) && c != ' ' && c != '-'
    ensures var n := |pieces| - 1; Written(Extend(slug, c), pieces[..n] + [pieces[n] + [c]])
  {
    hide Join;
    var n := |pieces| - 1;
    var words, word := Words(pieces[..n]), Clean(pieces[n]);
    var next := pieces[..n] + [pieces[n] + [c]];
    assert next[..n] == pieces[..n];
    CleanSnoc(pieces[n], c);
    NothingJoined();
    if IsAlphanumeric(c) {
      JoinSnoc(words, word, '-');
      JoinSnoc(words, word + [Lower(c)], '-');
      ConcatAssociative(if words == [] then "" else Join(words, '-') + "-", word, [Lower(c)]);
      assert "" + [Lower(c)] == [Lower(c)];
    } else {
      assert word + [] == word;
    }
  }

  lemma {:induction false} ScanWrites(s: string)
    ensures Written(Scan(s), Split(Dashed(s), '-'))
  {
    hide Written, Extend, Split;
    if s == "" {
      assert Written("", [""]) by { NothingWritten(); }
      SplitWhole("", '-');
    } else {
      var init, c := s[..|s| - 1], s[|s| - 1];
      ScanWrites(init);
      SplitSnoc(Dashed(init), '-', if c == ' ' then '-' else c);
      if c == ' ' || c == '-' {
        WrittenSeparator(Scan(init), Split(Dashed(init), '-'), c);
      } else {
        WrittenOther(Scan(init), Split(Dashed(init), '-'), c);
      }
    }
  }

  lemma NothingWritten()
    ensures Written("", [""])
  {
    assert [""][..0] == [];
    assert "" + "" == "";
  }

  /** Without a hyphen at its end, what the scan writes is the words joined by hyphens. */
  lemma ScanWords(s: string)
    ensures DropDash(Scan(s)) == Join(WordsOf(s), '-')
  {
    hide Join, Split, Scan, Words, Clean, DropDash;
    var pieces := Split(Dashed(s), '-');
    var n := |pieces| - 1;
    var words, word := Words(pieces[..n]), Clean(pieces[n]);
    ScanWrites(s);
    assert pieces == pieces[..n] + [pieces[n]];
    WordsSnoc(pieces[..n], pieces[n]);
    NothingJoined();
    if word == "" {
      assert words + [] == words;
      DropOneDash(Join(words, '-'));
      assert Join(words, '-') + "" == Join(words, '-');
    } else {
      WordsNonEmpty(pieces);
      JoinLast(words + [word]);
      DropNoDash(Scan(s));
    }
  }

  lemma DropOneDash(s: string)
    ensures DropDash(s + "-") == s && DropDash("") == ""
  {
    assert (s + "-")[..|s|] == s;
  }

  lemma DropNoDash(s: string)
    requires s != "" && s[|s| - 1] != '-'
    ensures DropDash(s) == s
  {
  }

  /**
    The slug of an input is its words, cleaned, joined by single hyphens: all of them if they have at most 64
    characters, and otherwise the first 64 characters up to the last that is not a hyphen.
   */
  lemma SlugIsWords(input: string)
    ensures var words := Join(WordsOf(Expand(input)), '-');
      match Slugify(input)
      case None => words == ""
      case Some(slug) =>
        && slug != "" && slug <= words
        && (|words| <= 64 ==> slug == words)
        && (|words| > 64 ==>
              |slug| <= 64 && slug[|slug| - 1] != '-' && forall i | |slug| <= i < 64 :: words[i] == '-')
  {
    hide Join, Scan, Expand, WordsOf;
    var slug := Scan(Expand(input));
    var words := Join(WordsOf(Expand(input)), '-');
    ScanWords(Expand(input));
    ScanIsSlug(Expand(input));
    SlugPrefix(slug, |words|);
    if |words| > 64 {
      SlugPrefix(words, 64);
      DropDashesMeaning(words[..64]);
      DroppedAreDashes(words[..64]);
    }
  }

  lemma {:induction false} DroppedAreDashes(s: string)
    ensures DropDashes(s) <= s && forall i | |DropDashes(s)| <= i < |s| :: s[i] == '-'
  {
    if s != "" && s[|s| - 1] == '-' {
      DroppedAreDashes(s[..|s| - 1]);
    }
  }
}
