/** The frontmatter of a skill file: finding the closing `---` line by trying to parse up to each candidate. */
module Frontmatter {
  import opened Outcomes
  import opened SkillNames

  const MAX_SKILL_FILE_SIZE := 100 * 1024

  datatype FrontmatterError = TooLarge | NoOpener | NoCloser | InvalidYaml

  /** What the YAML parser makes of a prefix: its first document may be missing, or not be metadata. */
  datatype Parse<M> = NoDocument | Rejected | Accepted(metadata: M)

  predicate IsWhite(c: char) {
    '\t' <= c <= '\r' || c in [' ', '\U{85}', '\U{a0}', '\U{1680}', '\U{2028}', '\U{2029}', '\U{202f}', '\U{205f}',
      '\U{3000}'] || '\U{2000}' <= c <= '\U{200a}'
  }

  function TrimStart(s: string): string {
    if s != [] && IsWhite(s[0]) then TrimStart(s[1..]) else s
  }

  // ---------- Candidates ----------

  /** The end of the line that starts at `start`, if it consists of `---` only. */
  function CloserEnd(s: string, start: nat): Option<nat> {
    if start + 3 > |s| || s[start..start + 3] != "---" then None
    else if start + 3 == |s| then Some(start + 3)
    else if s[start + 3] == '\n' then Some(start + 4)
    else if start + 4 < |s| && s[start + 3] == '\r' && s[start + 4] == '\n' then Some(start + 5)
    else None
  }

  /** The candidates that lie behind the first `n` characters' line breaks, in order. */
  function Candidates(s: string, n: nat): seq<nat>
    requires n <= |s|
  {
    if n == 0 then []
    else
      var before := Candidates(s, n - 1);
      if s[n - 1] == '\n' && CloserEnd(s, n).Some? then before + [CloserEnd(s, n).value] else before
  }

  method FindCandidates(s: string) returns (candidates: seq<nat>)
    ensures candidates == Candidates(s, |s|)
  {
    candidates := [];
    for i := 0 to |s|
      invariant candidates == Candidates(s, i)
    {
      if s[i] != '\n' {
        continue;
      }
      var lineStart := i + 1;
      if lineStart + 3 > |s| {
        continue;
      }
      if s[lineStart..lineStart + 3] != "---" {
        continue;
      }
      var afterDashes := lineStart + 3;
      var end;
      if afterDashes == |s| {
        end := afterDashes;
      } else if s[afterDashes] == '\n' {
        end := afterDashes + 1;
      } else if afterDashes + 1 < |s| && s[afterDashes] == '\r' && s[afterDashes + 1] == '\n' {
        end := afterDashes + 2;
      } else {
        continue;
      }
      candidates := candidates + [end];
    }
  }

  /** A closing line, wherever it starts after the opener, ends at `end`. */
  predicate IsCloser(s: string, start: nat, end: nat) {
    0 < start <= |s| && s[start - 1] == '\n' && CloserEnd(s, start) == Some(end)
  }

  /** A closing line is `---` and a line break of either kind, or `---` at the end of the text. */
  lemma CloserMeaning(s: string, start: nat, end: nat)
    ensures IsCloser(s, start, end) <==>
      && 0 < start <= end <= |s| && s[start - 1] == '\n'
      && (s[start..end] == "---\n" || s[start..end] == "---\r\n" || (s[start..end] == "---" && end == |s|))
  {
    if 0 < start <= end <= |s| {
      var line := s[start..end];
      if |line| >= 3 {
        assert line[..3] == s[start..start + 3];
        assert line == line[..3] + line[3..];
      }
    }
  }

  /** The candidates are the ends of the closing lines, in order, each behind the one before. */
  lemma {:induction false} CandidatesMeaning(s: string, n: nat)
    requires n <= |s|
    ensures forall end :: end in Candidates(s, n) <==> exists start: nat :: start <= n && IsCloser(s, start, end)
    ensures Within(Candidates(s, n), |s|)
    ensures forall i, j | 0 <= i < j < |Candidates(s, n)| :: Candidates(s, n)[i] < Candidates(s, n)[j]
  {
    if n > 0 {
      CandidatesMeaning(s, n - 1);
      var before := Candidates(s, n - 1);
      if s[n - 1] == '\n' && CloserEnd(s, n).Some? {
        assert IsCloser(s, n, CloserEnd(s, n).value);
        forall i | 0 <= i < |before|
          ensures before[i] < CloserEnd(s, n).value
        {
          assert before[i] in before;
          var start: nat :| start <= n - 1 && IsCloser(s, start, before[i]);
        }
      }
    }
  }

  // ---------- Extraction ----------

  predicate Within(candidates: seq<nat>, n: nat) {
    forall i | 0 <= i < |candidates| :: candidates[i] <= n
  }

  /** The first candidate whose prefix is accepted. */
  function FirstAccepted<M>(s: string, candidates: seq<nat>, parse: string -> Parse<M>): (r: Option<(M, nat)>)
    requires Within(candidates, |s|)
    ensures r.Some? ==> r.value.1 <= |s|
  {
    if candidates == [] then None
    else
      match parse(s[..candidates[0]])
      case Accepted(metadata) => Some((metadata, candidates[0]))
      case _ => FirstAccepted(s, candidates[1..], parse)
  }

  /** `extract_frontmatter` on trimmed content. */
  function ExtractTrimmed<M>(s: string, parse: string -> Parse<M>): Result<(M, string), FrontmatterError> {
    CandidatesMeaning(s, |s|);
    var candidates := Candidates(s, |s|);
    if !("---" <= s) then Failure(NoOpener)
    else if candidates == [] then Failure(NoCloser)
    else
      match FirstAccepted(s, candidates, parse)
      case Some((metadata, end)) => Success((metadata, s[end..]))
      case None => Failure(InvalidYaml)
  }

  /** `extract_skill_frontmatter`. */
  function Extract<M>(content: string, parse: string -> Parse<M>): Result<(M, string), FrontmatterError> {
    if Utf8Length(content) > MAX_SKILL_FILE_SIZE then Failure(TooLarge)
    else ExtractTrimmed(TrimStart(content), parse)
  }

  method ExtractSkillFrontmatter<M>(content: string, parse: string -> Parse<M>)
    returns (r: Result<(M, string), FrontmatterError>)
    ensures r == Extract(content, parse)
  {
    if Utf8Length(content) > MAX_SKILL_FILE_SIZE {
      return Failure(TooLarge);
    }
    var s := TrimStart(content);
    if !("---" <= s) {
      return Failure(NoOpener);
    }
    var candidates := FindCandidates(s);
    if candidates == [] {
      return Failure(NoCloser);
    }
    CandidatesMeaning(s, |s|);
    for k := 0 to |candidates|
      invariant FirstAccepted(s, candidates, parse) == FirstAccepted(s, candidates[k..], parse)
    {
      assert candidates[k] in candidates;
      assert candidates[k..][0] == candidates[k] && candidates[k..][1..] == candidates[k + 1..];
      var document := parse(s[..candidates[k]]);
      if document.Accepted? {
        return Success((document.metadata, s[candidates[k]..]));
      }
    }
    return Failure(InvalidYaml);
  }

  // ---------- Properties ----------

  lemma {:induction false} TrimmedWhite(white: string, s: string)
    requires (forall c | c in white :: IsWhite(c)) && (s == "" || !IsWhite(s[0]))
    ensures TrimStart(white + s) == s
  {
    if white == "" {
      assert white + s == s;
    } else {
      assert (white + s)[1..] == white[1..] + s;
      TrimmedWhite(white[1..], s);
    }
  }

  /** White space before the frontmatter does not matter, but it counts for the limit of 100 KB. */
  lemma LeadingWhite<M>(white: string, s: string, parse: string -> Parse<M>)
    requires (forall c | c in white :: IsWhite(c)) && (s == "" || !IsWhite(s[0]))
    ensures Extract(white + s, parse)
         == if Utf8Length(white + s) > 102400 then Failure(TooLarge) else ExtractTrimmed(s, parse)
  {
    TrimmedWhite(white, s);
  }

  /** The line that ends at `end` closes the frontmatter: it is the first whose prefix is accepted. */
  ghost predicate Closes<M>(s: string, end: nat, parse: string -> Parse<M>) {
    && end <= |s|
    && (exists start: nat :: IsCloser(s, start, end))
    && parse(s[..end]).Accepted?
    && (forall start: nat, e: nat | IsCloser(s, start, e) && e < end :: !parse(s[..e]).Accepted?)
  }

  lemma {:induction false} FirstAcceptedMeaning<M>(s: string, candidates: seq<nat>, parse: string -> Parse<M>)
    requires Within(candidates, |s|)
    requires forall i, j | 0 <= i < j < |candidates| :: candidates[i] < candidates[j]
    ensures match FirstAccepted(s, candidates, parse)
      case Some((metadata, end)) =>
        && end in candidates && parse(s[..end]) == Accepted(metadata)
        && (forall e | e in candidates && e < end :: !parse(s[..e]).Accepted?)
      case None => forall e | e in candidates :: !parse(s[..e]).Accepted?
  {
    if candidates != [] {
      assert candidates == [candidates[0]] + candidates[1..];
      FirstAcceptedMeaning(s, candidates[1..], parse);
    }
  }

  /**
    Extraction succeeds exactly if some closing line is accepted, and then with the first such line: the prefix up to
    and including it gives the metadata, and the rest is the body.
   */
  lemma ExtractMeaning<M>(s: string, parse: string -> Parse<M>, metadata: M, body: string)
    ensures ExtractTrimmed(s, parse) == Success((metadata, body)) <==>
      && "---" <= s
      && exists end: nat :: Closes(s, end, parse) && parse(s[..end]) == Accepted(metadata) && body == s[end..]
  {
    CandidatesMeaning(s, |s|);
    var candidates := Candidates(s, |s|);
    FirstAcceptedMeaning(s, candidates, parse);
    CloserIsCandidate(s);
    match FirstAccepted(s, candidates, parse)
    case Some((m, end)) => assert Closes(s, end, parse);
    case None =>
  }

  lemma CloserIsCandidate(s: string)
    ensures forall start: nat, end: nat | IsCloser(s, start, end) :: end in Candidates(s, |s|)
  {
    CandidatesMeaning(s, |s|);
  }

  /** The errors, in the order in which they are looked for. */
  lemma ExtractErrors<M>(s: string, parse: string -> Parse<M>)
    ensures ExtractTrimmed(s, parse) == Failure(NoOpener) <==> !("---" <= s)
    ensures ExtractTrimmed(s, parse) == Failure(NoCloser) <==>
      "---" <= s && forall start: nat, end: nat :: !IsCloser(s, start, end)
    ensures ExtractTrimmed(s, parse) == Failure(InvalidYaml) <==>
      && "---" <= s
      && (exists start: nat, end: nat :: IsCloser(s, start, end))
      && (forall start: nat, end: nat | IsCloser(s, start, end) :: end <= |s| && !parse(s[..end]).Accepted?)
  {
    CandidatesMeaning(s, |s|);
    CloserIsCandidate(s);
    var candidates := Candidates(s, |s|);
    FirstAcceptedMeaning(s, candidates, parse);
    if candidates != [] {
      assert candidates[0] in candidates;
    }
  }

  /** Up to a line break, closing lines do not depend on what follows. */
  lemma CloserStable(s: string, end: nat, tail: string, start: nat, e: nat)
    requires 0 < end <= |s| && s[end - 1] == '\n' && e <= end
    ensures IsCloser(s[..end] + tail, start, e) <==> IsCloser(s, start, e)
  {
    var s' := s[..end] + tail;
    assert forall i | 0 <= i < end :: s'[i] == s[i];
    if start + 3 <= end {
      assert s'[start..start + 3] == s[start..start + 3];
    }
  }

  /**
    Replacing everything after the accepted closing line, if that ends in a line break, changes the body only, as long
    as the file stays within the size limit.
   */
  lemma BodyReplaced<M>(s: string, end: nat, tail: string, parse: string -> Parse<M>)
    requires "---" <= s && Closes(s, end, parse) && end > 0 && s[end - 1] == '\n'
    requires Utf8Length(s[..end] + tail) <= MAX_SKILL_FILE_SIZE
    ensures Extract(s[..end] + tail, parse) == Success((parse(s[..end]).metadata, tail))
    ensures ExtractTrimmed(s, parse) == Success((parse(s[..end]).metadata, s[end..]))
  {
    var s' := s[..end] + tail;
    var start: nat :| IsCloser(s, start, end);
    assert end >= 4 && s[0] == '-' && s'[..3] == s[..3];
    assert s'[..end] == s[..end] && s'[end..] == tail;
    CloserStable(s, end, tail, start, end);
    forall start: nat, e: nat | IsCloser(s', start, e) && e < end
      ensures !parse(s'[..e]).Accepted?
    {
      CloserStable(s, end, tail, start, e);
      assert s'[..e] == s[..e];
    }
    assert Closes(s', end, parse);
    assert TrimStart(s') == s';
    ExtractMeaning(s', parse, parse(s[..end]).metadata, tail);
    ExtractMeaning(s, parse, parse(s[..end]).metadata, s[end..]);
  }
}
