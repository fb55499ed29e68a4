/** `select_search_candidates`: choosing candidates while reserving room for each retrieval channel. */
module CandidateSelection {

  datatype Search = SemanticQuery | ErrorPattern | TitleKeywords | PopularArea | AreaLabel {
    /** Searches by area say nothing about how well the text matches. */
    predicate ByText() {
      this != AreaLabel && this != PopularArea
    }
  }

  datatype Candidate = Candidate(key: string, matched: set<Search>)

  const CHANNELS: seq<Search> := [SemanticQuery, ErrorPattern, TitleKeywords, PopularArea, AreaLabel]

  function Max(a: int, b: int): int {
    if a > b then a else b
  }

  function Quota(channel: Search, limit: int): int {
    match channel
    case SemanticQuery => Max(2, limit / 3)
    case ErrorPattern => Max(1, limit / 10)
    case TitleKeywords => Max(1, limit / 6)
    case PopularArea => Max(1, limit / 5)
    case AreaLabel => Max(1, limit / 6)
  }

  function Matching(candidates: seq<Candidate>, channel: Search): seq<Candidate> {
    if candidates == [] then []
    else
      var last := candidates[|candidates| - 1];
      Matching(candidates[..|candidates| - 1], channel) + (if channel in last.matched then [last] else [])
  }

  /** `matching[:quota]`. */
  function Reserved(candidates: seq<Candidate>, channel: Search, limit: int): seq<Candidate> {
    var matching := Matching(candidates, channel);
    matching[..if Quota(channel, limit) < |matching| then Quota(channel, limit) else |matching|]
  }

  function Keys(cs: seq<Candidate>): set<string> {
    set c | c in cs :: c.key
  }

  function Members(cs: seq<Candidate>): set<Candidate> {
    set c | c in cs
  }

  /** `add`: a candidate with a new key is taken while there is room. */
  function Add(selected: seq<Candidate>, c: Candidate, limit: int): seq<Candidate> {
    if c.key !in Keys(selected) && |selected| < limit then selected + [c] else selected
  }

  function AddAll(selected: seq<Candidate>, cs: seq<Candidate>, limit: int): seq<Candidate> {
    if cs == [] then selected else Add(AddAll(selected, cs[..|cs| - 1], limit), cs[|cs| - 1], limit)
  }

  /** The selection after the first `n` channels. */
  function AfterChannels(candidates: seq<Candidate>, limit: int, n: nat): seq<Candidate>
    requires n <= 5
  {
    if n == 0 then []
    else AddAll(AfterChannels(candidates, limit, n - 1), Reserved(candidates, CHANNELS[n - 1], limit), limit)
  }

  function Select(candidates: seq<Candidate>, limit: int): seq<Candidate> {
    AddAll(AfterChannels(candidates, limit, 5), candidates, limit)
  }

  method SelectSearchCandidates(candidates: seq<Candidate>, limit: int) returns (selected: seq<Candidate>)
    ensures selected == Select(candidates, limit)
  {
    hide AddAll, Matching, Keys;
    assert Keys([]) == {} by {
      KeysNone();
    }
    selected := [];
    var keys: set<string> := {};
    for n := 0 to 5
      invariant selected == AfterChannels(candidates, limit, n) && keys == Keys(selected)
    {
      var channel := CHANNELS[n];
      var matching := FindMatching(candidates, channel);
      var quota := Quota(channel, limit);
      selected, keys := AddEach(selected, keys, matching[..if quota < |matching| then quota else |matching|], limit);
    }
    selected, keys := AddEach(selected, keys, candidates, limit);
  }

  method FindMatching(candidates: seq<Candidate>, channel: Search) returns (matching: seq<Candidate>)
    ensures matching == Matching(candidates, channel)
  {
    matching := [];
    for i := 0 to |candidates|
      invariant matching == Matching(candidates[..i], channel)
    {
      assert candidates[..i + 1][..i] == candidates[..i];
      if channel in candidates[i].matched {
        matching := matching + [candidates[i]];
      }
    }
    assert candidates[..|candidates|] == candidates;
  }

  method AddEach(selected: seq<Candidate>, keys: set<string>, cs: seq<Candidate>, limit: int)
    returns (selected': seq<Candidate>, keys': set<string>)
    requires keys == Keys(selected)
    ensures selected' == AddAll(selected, cs, limit) && keys' == Keys(selected')
  {
    selected', keys' := selected, keys;
    for i := 0 to |cs|
      invariant selected' == AddAll(selected, cs[..i], limit) && keys' == Keys(selected')
    {
      assert cs[..i + 1][..i] == cs[..i];
      if cs[i].key !in keys' && |selected'| < limit {
        KeysAppend(selected', cs[i]);
        selected' := selected' + [cs[i]];
        keys' := keys' + {cs[i].key};
      }
    }
    assert cs[..|cs|] == cs;
  }

  lemma KeysNone()
    ensures Keys([]) == {}
  {
  }

  lemma KeysAppend(cs: seq<Candidate>, c: Candidate)
    ensures Keys(cs + [c]) == Keys(cs) + {c.key}
  {
    forall x | x in cs + [c]
      ensures x in cs || x == c
    {
    }
    assert c in cs + [c];
    assert forall x | x in cs :: x in cs + [c];
  }

  /** No key twice, within the limit, nothing from elsewhere. */
  predicate Proper(selected: seq<Candidate>, pool: set<Candidate>, limit: int) {
    && |Keys(selected)| == |selected|
    && |selected| <= Max(limit, 0)
    && forall c | c in selected :: c in pool
  }

  /** Adding keeps what was selected, and takes every new key unless the limit is reached. */
  lemma {:induction false} AddAllMeaning(selected: seq<Candidate>, cs: seq<Candidate>, limit: int, pool: set<Candidate>)
    requires Proper(selected, pool, limit) && forall c | c in cs :: c in pool
    ensures var r := AddAll(selected, cs, limit);
      && Proper(r, pool, limit) && selected <= r
      && |r| <= |selected| + |cs|
      && (Keys(cs) <= Keys(r) || |r| >= limit)
      && Keys(r) <= Keys(selected) + Keys(cs)
  {
    if cs == [] {
      assert Keys(cs) == {};
    } else {
      var init, c := cs[..|cs| - 1], cs[|cs| - 1];
      assert cs == init + [c];
      AddAllMeaning(selected, init, limit, pool);
      KeysAppend(init, c);
      KeysAppend(AddAll(selected, init, limit), c);
    }
  }

  lemma {:induction false} MatchingMeaning(candidates: seq<Candidate>, channel: Search)
    ensures forall c :: c in Matching(candidates, channel) <==> c in candidates && channel in c.matched
  {
    if candidates != [] {
      var init, last := candidates[..|candidates| - 1], candidates[|candidates| - 1];
      MatchingMeaning(init, channel);
      assert candidates == init + [last];
    }
  }

  lemma ReservedMeaning(candidates: seq<Candidate>, channel: Search, limit: int)
    ensures |Reserved(candidates, channel, limit)| <= Quota(channel, limit) && Quota(channel, limit) >= 1
    ensures forall c | c in Reserved(candidates, channel, limit) :: c in candidates && channel in c.matched
  {
    MatchingMeaning(candidates, channel);
  }

  function QuotaSum(limit: int, n: nat): int
    requires n <= 5
  {
    if n == 0 then 0 else QuotaSum(limit, n - 1) + Quota(CHANNELS[n - 1], limit)
  }

  /** The quotas fit the limit exactly from 6 on. */
  lemma QuotasFit(limit: int)
    ensures QuotaSum(limit, 5) <= limit <==> limit >= 6
  {
    var c := CHANNELS;
    assert c[0] == SemanticQuery && c[1] == ErrorPattern && c[2] == TitleKeywords && c[3] == PopularArea;
    assert QuotaSum(limit, 1) == Quota(c[0], limit);
    assert QuotaSum(limit, 3) == QuotaSum(limit, 1) + Quota(c[1], limit) + Quota(c[2], limit);
    assert QuotaSum(limit, 5) == QuotaSum(limit, 3) + Quota(c[3], limit) + Quota(c[4], limit);
    assert QuotaSum(limit, 5) == Quota(SemanticQuery, limit) + Quota(ErrorPattern, limit) + Quota(TitleKeywords, limit)
      + Quota(PopularArea, limit) + Quota(AreaLabel, limit);
  }

  lemma {:induction false} ChannelsMeaning(candidates: seq<Candidate>, limit: int, n: nat)
    requires n <= 5
    ensures var r := AfterChannels(candidates, limit, n);
      && Proper(r, Members(candidates), limit)
      && |r| <= QuotaSum(limit, n)
      && Keys(r) <= Keys(candidates)
      && (QuotaSum(limit, n) <= limit ==>
            forall k: nat | k < n :: Keys(Reserved(candidates, CHANNELS[k], limit)) <= Keys(r))
  {
    hide Matching, AddAll, Reserved, Quota;
    var pool := Members(candidates);
    if n == 0 {
      assert Keys([]) == {};
    } else {
      ChannelsMeaning(candidates, limit, n - 1);
      var before := AfterChannels(candidates, limit, n - 1);
      var reserved := Reserved(candidates, CHANNELS[n - 1], limit);
      ReservedMeaning(candidates, CHANNELS[n - 1], limit);
      AddAllMeaning(before, reserved, limit, pool);
      KeysMonotone(before, AddAll(before, reserved, limit));
      if QuotaSum(limit, n) <= limit {
        KeysAll(before, reserved, limit, pool);
      }
      assert Keys(reserved) <= Keys(candidates);
    }
  }

  lemma KeysMonotone(a: seq<Candidate>, b: seq<Candidate>)
    requires a <= b
    ensures Keys(a) <= Keys(b)
  {
    forall c | c in a
      ensures c in b
    {
      var i :| 0 <= i < |a| && a[i] == c;
      assert b[i] == c;
    }
  }

  /** If even all of `cs` fit, all of their keys are taken. */
  lemma {:induction false} KeysAll(selected: seq<Candidate>, cs: seq<Candidate>, limit: int, pool: set<Candidate>)
    requires Proper(selected, pool, limit) && forall c | c in cs :: c in pool
    requires |selected| + |cs| <= limit
    ensures Keys(cs) <= Keys(AddAll(selected, cs, limit))
  {
    if cs != [] {
      var init, c := cs[..|cs| - 1], cs[|cs| - 1];
      assert cs == init + [c];
      KeysAll(selected, init, limit, pool);
      AddAllMeaning(selected, init, limit, pool);
      KeysAppend(init, c);
      KeysAppend(AddAll(selected, init, limit), c);
    }
  }

  function Min(a: int, b: int): int {
    if a < b then a else b
  }

  /** Every channel keeps its first candidates, up to its quota. */
  predicate HonoursQuotas(selected: seq<Candidate>, candidates: seq<Candidate>, limit: int) {
    forall channel: Search :: Keys(Reserved(candidates, channel, limit)) <= Keys(selected)
  }

  /**
    The selection has no key twice and nothing but candidates, and it is as long as the limit and the number of
    different keys allow. From limit 6 on every channel's reserved candidates are in it.
   */
  lemma SelectionMeaning(candidates: seq<Candidate>, limit: int)
    ensures var r := Select(candidates, limit);
      && Proper(r, Members(candidates), limit)
      && |r| == Min(Max(limit, 0), |Keys(candidates)|)
      && (limit >= 6 ==> HonoursQuotas(r, candidates, limit))
  {
    hide Matching, AddAll, AfterChannels, Reserved, Proper;
    var before := AfterChannels(candidates, limit, 5);
    var r := Select(candidates, limit);
    ChannelsMeaning(candidates, limit, 5);
    AddAllMeaning(before, candidates, limit, Members(candidates));
    SelectionLength(r, before, candidates, limit);
    QuotasFit(limit);
    KeysMonotone(before, r);
    if limit >= 6 {
      forall channel: Search
        ensures Keys(Reserved(candidates, channel, limit)) <= Keys(r)
      {
        var k: nat :| k < 5 && CHANNELS[k] == channel by { ChannelListed(channel); }
        assert Keys(Reserved(candidates, CHANNELS[k], limit)) <= Keys(before);
      }
    }
  }

  /** Candidates with different keys are kept themselves, not just their keys. */
  lemma ReservedSelected(candidates: seq<Candidate>, limit: int, channel: Search)
    requires limit >= 6 && forall a, b | a in candidates && b in candidates && a.key == b.key :: a == b
    ensures forall c | c in Reserved(candidates, channel, limit) :: c in Select(candidates, limit)
  {
    hide Reserved, Select;
    var r := Select(candidates, limit);
    SelectionMeaning(candidates, limit);
    ReservedMeaning(candidates, channel, limit);
    forall c | c in Reserved(candidates, channel, limit)
      ensures c in r
    {
      assert c.key in Keys(Reserved(candidates, channel, limit));
      var c' :| c' in r && c'.key == c.key;
      assert c' in Members(r);
    }
  }

  // ---------- The order of the selection ----------

  /** The first candidate of every key. */
  function FirstOfKeys(cs: seq<Candidate>): seq<Candidate> {
    if cs == [] then []
    else
      var before, last := FirstOfKeys(cs[..|cs| - 1]), cs[|cs| - 1];
      if exists c :: c in before && c.key == last.key then before else before + [last]
  }

  function Take<T>(xs: seq<T>, n: int): seq<T> {
    if n <= 0 then [] else if n < |xs| then xs[..n] else xs
  }

  lemma {:induction false} MatchingConcat(a: seq<Candidate>, b: seq<Candidate>, channel: Search)
    ensures Matching(a + b, channel) == Matching(a, channel) + Matching(b, channel)
    ensures Matching([], channel) == []
    ensures |b| == 1 ==> Matching(b, channel) == if channel in b[0].matched then b else []
  {
    if b == [] {
      assert a + b == a;
    } else {
      assert (a + b)[..|a + b| - 1] == a + b[..|b| - 1];
      MatchingConcat(a, b[..|b| - 1], channel);
    }
  }

  lemma {:induction false} AddAllConcat(selected: seq<Candidate>, a: seq<Candidate>, b: seq<Candidate>, limit: int)
    ensures AddAll(selected, a + b, limit) == AddAll(AddAll(selected, a, limit), b, limit)
  {
    if b == [] {
      assert a + b == a;
    } else {
      assert (a + b)[..|a + b| - 1] == a + b[..|b| - 1];
      AddAllConcat(selected, a, b[..|b| - 1], limit);
    }
  }

  /** Adding from nothing takes the first candidate of every key, up to the limit. */
  lemma {:induction false} AddAllTakes(cs: seq<Candidate>, limit: int)
    ensures AddAll([], cs, limit) == Take(FirstOfKeys(cs), limit)
  {
    if cs != [] {
      AddAllTakes(cs[..|cs| - 1], limit);
      TakeOneMore(FirstOfKeys(cs[..|cs| - 1]), cs[|cs| - 1], limit);
    }
  }

  lemma TakeOneMore(firsts: seq<Candidate>, c: Candidate, limit: int)
    ensures var next := if exists x :: x in firsts && x.key == c.key then firsts else firsts + [c];
      Add(Take(firsts, limit), c, limit) == Take(next, limit)
  {
    var taken := Take(firsts, limit);
    if |taken| < limit {
      assert taken == firsts;
      assert c.key in Keys(firsts) <==> exists x :: x in firsts && x.key == c.key;
    }
  }

  /**
    The selection is the first candidate of every key, up to the limit, of this list: the share of each channel in turn,
    and then all candidates.
   */
  lemma SelectionOrder(candidates: seq<Candidate>, limit: int)
    ensures Select(candidates, limit) == Take(FirstOfKeys(
      Take(Matching(candidates, SemanticQuery), Max(2, limit / 3))
      + Take(Matching(candidates, ErrorPattern), Max(1, limit / 10))
      + Take(Matching(candidates, TitleKeywords), Max(1, limit / 6))
      + Take(Matching(candidates, PopularArea), Max(1, limit / 5))
      + Take(Matching(candidates, AreaLabel), Max(1, limit / 6))
      + candidates), limit)
  {
    hide AddAll, Matching, FirstOfKeys;
    var r1 := Take(Matching(candidates, SemanticQuery), Max(2, limit / 3));
    var r2 := Take(Matching(candidates, ErrorPattern), Max(1, limit / 10));
    var r3 := Take(Matching(candidates, TitleKeywords), Max(1, limit / 6));
    var r4 := Take(Matching(candidates, PopularArea), Max(1, limit / 5));
    var r5 := Take(Matching(candidates, AreaLabel), Max(1, limit / 6));
    ChannelsInTurn(candidates, limit);
    NothingAdded(limit);
    AddAllConcat([], r1, r2, limit);
    AddAllConcat([], r1 + r2, r3, limit);
    AddAllConcat([], r1 + r2 + r3, r4, limit);
    AddAllConcat([], r1 + r2 + r3 + r4, r5, limit);
    AddAllConcat([], r1 + r2 + r3 + r4 + r5, candidates, limit);
    AddAllTakes(r1 + r2 + r3 + r4 + r5 + candidates, limit);
  }

  lemma NothingAdded(limit: int)
    ensures AddAll([], [], limit) == []
  {
  }

  lemma ChannelsInTurn(candidates: seq<Candidate>, limit: int)
    ensures
      var s1 := AddAll([], Take(Matching(candidates, SemanticQuery), Max(2, limit / 3)), limit);
      var s2 := AddAll(s1, Take(Matching(candidates, ErrorPattern), Max(1, limit / 10)), limit);
      var s3 := AddAll(s2, Take(Matching(candidates, TitleKeywords), Max(1, limit / 6)), limit);
      var s4 := AddAll(s3, Take(Matching(candidates, PopularArea), Max(1, limit / 5)), limit);
      var s5 := AddAll(s4, Take(Matching(candidates, AreaLabel), Max(1, limit / 6)), limit);
      Select(candidates, limit) == AddAll(s5, candidates, limit)
  {
    hide AddAll, Matching, AfterChannels;
    NothingSelected(candidates, limit);
    NextChannel(candidates, limit, 1, SemanticQuery, Max(2, limit / 3));
    NextChannel(candidates, limit, 2, ErrorPattern, Max(1, limit / 10));
    NextChannel(candidates, limit, 3, TitleKeywords, Max(1, limit / 6));
    NextChannel(candidates, limit, 4, PopularArea, Max(1, limit / 5));
    NextChannel(candidates, limit, 5, AreaLabel, Max(1, limit / 6));
  }

  lemma NothingSelected(candidates: seq<Candidate>, limit: int)
    ensures AfterChannels(candidates, limit, 0) == []
  {
  }

  lemma NextChannel(candidates: seq<Candidate>, limit: int, n: nat, channel: Search, share: int)
    requires 0 < n <= 5 && CHANNELS[n - 1] == channel && Quota(channel, limit) == share
    ensures AfterChannels(candidates, limit, n)
         == AddAll(AfterChannels(candidates, limit, n - 1), Take(Matching(candidates, channel), share), limit)
  {
    hide AddAll, Matching;
    var matching := Matching(candidates, channel);
    assert Reserved(candidates, channel, limit) == Take(matching, share);
  }

  lemma ChannelListed(channel: Search)
    ensures exists k: nat :: k < 5 && CHANNELS[k] == channel
  {
    assert CHANNELS[0] == SemanticQuery && CHANNELS[1] == ErrorPattern && CHANNELS[2] == TitleKeywords;
    assert CHANNELS[3] == PopularArea && CHANNELS[4] == AreaLabel;
  }

  lemma SelectionLength(r: seq<Candidate>, before: seq<Candidate>, candidates: seq<Candidate>, limit: int)
    requires Proper(r, Members(candidates), limit) && Keys(before) <= Keys(candidates)
    requires Keys(candidates) <= Keys(r) || |r| >= limit
    requires Keys(r) <= Keys(before) + Keys(candidates)
    ensures |r| == Min(Max(limit, 0), |Keys(candidates)|)
  {
    assert Keys(r) <= Keys(candidates);
    SubsetSize(Keys(r), Keys(candidates));
  }

  lemma {:induction false} SubsetSize(a: set<string>, b: set<string>)
    requires a <= b
    ensures |a| <= |b| && (|a| == |b| <==> a == b)
  {
    assert b == a + (b - a);
    assert |b| == |a| + |b - a|;
  }

  lemma MatchingAppend(cs: seq<Candidate>, c: Candidate, channel: Search)
    ensures Matching(cs + [c], channel) == Matching(cs, channel) + (if channel in c.matched then [c] else [])
  {
    assert (cs + [c])[..|cs|] == cs;
  }

  /** Six candidates, two of which match semantically and each other one a channel of its own. */
  function Six(): seq<Candidate> {
    [Candidate("a", {SemanticQuery})] + [Candidate("b", {SemanticQuery})] + [Candidate("c", {ErrorPattern})]
    + [Candidate("d", {TitleKeywords})] + [Candidate("e", {PopularArea})] + [Candidate("f", {AreaLabel})]
  }

  lemma SixMatching(channel: Search)
    ensures Matching(Six(), channel) == match channel
      case SemanticQuery => [Candidate("a", {SemanticQuery}), Candidate("b", {SemanticQuery})]
      case ErrorPattern => [Candidate("c", {ErrorPattern})]
      case TitleKeywords => [Candidate("d", {TitleKeywords})]
      case PopularArea => [Candidate("e", {PopularArea})]
      case AreaLabel => [Candidate("f", {AreaLabel})]
  {
    var c1 := [Candidate("a", {SemanticQuery})];
    var c2 := c1 + [Candidate("b", {SemanticQuery})];
    var c3 := c2 + [Candidate("c", {ErrorPattern})];
    var c4 := c3 + [Candidate("d", {TitleKeywords})];
    var c5 := c4 + [Candidate("e", {PopularArea})];
    assert c1 == [] + c1;
    MatchingAppend([], c1[0], channel);
    MatchingAppend(c1, Candidate("b", {SemanticQuery}), channel);
    MatchingAppend(c2, Candidate("c", {ErrorPattern}), channel);
    MatchingAppend(c3, Candidate("d", {TitleKeywords}), channel);
    MatchingAppend(c4, Candidate("e", {PopularArea}), channel);
    MatchingAppend(c5, Candidate("f", {AreaLabel}), channel);
  }

  /** Below limit 6 the reservation can fail: the five channels then reserve six candidates with different keys. */
  lemma QuotasNotHonoured(limit: int)
    requires limit < 6
    ensures !HonoursQuotas(Select(Six(), limit), Six(), limit)
  {
    hide Select, Matching, Six;
    var r := Select(Six(), limit);
    SelectionMeaning(Six(), limit);
    if HonoursQuotas(r, Six(), limit) {
      forall channel {
        SixMatching(channel);
      }
      var semantic := Reserved(Six(), SemanticQuery, limit);
      assert semantic[0] in semantic && semantic[1] in semantic;
      var error, title := Reserved(Six(), ErrorPattern, limit), Reserved(Six(), TitleKeywords, limit);
      var popular, area := Reserved(Six(), PopularArea, limit), Reserved(Six(), AreaLabel, limit);
      assert error[0] in error && title[0] in title && popular[0] in popular && area[0] in area;
      var six := {"a", "b", "c", "d", "e", "f"};
      assert six <= Keys(r);
      SubsetSize(six, Keys(r));
      assert false;
    }
  }
}
