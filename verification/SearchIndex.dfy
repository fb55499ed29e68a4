/** `search_for_similar_issues`: merging the results of the queries into one index of candidates. */
module SearchIndex {
  import opened Sequences
  import opened Outcomes
  import opened Keyed
  import opened CandidateSelection

  /** A query that failed has no results. */
  datatype Query = Query(search: Search, results: seq<nat>)

  /** One result: the search, the rank in its results and the issue. */
  datatype Hit = Hit(search: Search, rank: nat, number: nat)

  datatype Entry = Entry(number: nat, matched: seq<Search>, bestRank: nat)

  function NumberOf(e: Entry): int {
    e.number
  }

  const NO_RANK := 1000
  const PER_PAGE := 50

  // ---------- The merge ----------

  function Merged(e: Entry, h: Hit): Entry {
    Entry(
      e.number,
      if h.search in e.matched then e.matched else e.matched + [h.search],
      if h.search.ByText() && h.rank < e.bestRank then h.rank else e.bestRank)
  }

  /** The entry of an issue seen for the first time. */
  function FirstEntry(h: Hit): Entry {
    Entry(h.number, [h.search], if h.search.ByText() then h.rank else NO_RANK)
  }

  /** The dictionary of issues seen, in order of insertion. */
  function Merge(index: seq<Entry>, h: Hit): seq<Entry> {
    Upsert(index, NumberOf, FirstEntry(h), (e: Entry) => Merged(e, h))
  }

  function MergeAll(hits: seq<Hit>, self: nat): seq<Entry> {
    if hits == [] then []
    else
      var before, h := MergeAll(hits[..|hits| - 1], self), hits[|hits| - 1];
      if h.number == self then before else Merge(before, h)
  }

  function HitsOf(q: Query): (hits: seq<Hit>)
    ensures |hits| == |q.results|
  {
    seq(|q.results|, i requires 0 <= i < |q.results| => Hit(q.search, i, q.results[i]))
  }

  function AllHits(queries: seq<Query>): seq<Hit> {
    if queries == [] then [] else AllHits(queries[..|queries| - 1]) + HitsOf(queries[|queries| - 1])
  }

  lemma HitStep(q: Query, i: nat)
    requires i < |q.results|
    ensures HitsOf(q)[..i + 1] == HitsOf(q)[..i] + [Hit(q.search, i, q.results[i])]
    ensures HitsOf(q)[..|q.results|] == HitsOf(q)
  {
  }

  lemma MergeOne(hits: seq<Hit>, h: Hit, self: nat)
    ensures MergeAll(hits + [h], self)
         == if h.number == self then MergeAll(hits, self) else Merge(MergeAll(hits, self), h)
  {
    assert (hits + [h])[..|hits|] == hits;
  }

  /** The merge loop, for the new issue `self`. */
  method MergeResults(queries: seq<Query>, self: nat) returns (index: seq<Entry>)
    ensures index == MergeAll(AllHits(queries), self)
  {
    hide Merge;
    index := [];
    ghost var hits: seq<Hit> := [];
    for q := 0 to |queries|
      invariant hits == AllHits(queries[..q]) && index == MergeAll(hits, self)
    {
      assert queries[..q + 1][..q] == queries[..q];
      index := MergeQuery(index, queries[q], hits, self);
      hits := hits + HitsOf(queries[q]);
    }
    assert queries[..|queries|] == queries;
  }

  /** The loop over the results of one query; `hits` are those of the queries before. */
  method MergeQuery(before: seq<Entry>, query: Query, ghost hits: seq<Hit>, self: nat) returns (index: seq<Entry>)
    requires before == MergeAll(hits, self)
    ensures index == MergeAll(hits + HitsOf(query), self)
  {
    hide Merge, MergeAll, HitsOf;
    index := before;
    assert hits + [] == hits;
    for rank := 0 to |query.results|
      invariant index == MergeAll(hits + HitsOf(query)[..rank], self)
    {
      var number := query.results[rank];
      HitStep(query, rank);
      MergeOne(hits + HitsOf(query)[..rank], Hit(query.search, rank, number), self);
      ConcatAssociative(hits, HitsOf(query)[..rank], [Hit(query.search, rank, number)]);
      if number != self {
        index := Merge(index, Hit(query.search, rank, number));
      }
    }
    assert HitsOf(query)[..|query.results|] == HitsOf(query);
  }

  // ---------- The declarative form ----------

  predicate NoRepeats(searches: seq<Search>) {
    forall i, j | 0 <= i < j < |searches| :: searches[i] != searches[j]
  }

  /** The entry says what all the hits of its issue say together. */
  predicate Summarizes(e: Entry, hits: seq<Hit>) {
    && NoRepeats(e.matched)
    && (forall s :: s in e.matched <==> exists h :: h in hits && h.number == e.number && h.search == s)
    && (forall h | h in hits && h.number == e.number && IsTextSearch(h.search) :: e.bestRank <= h.rank)
    && (e.bestRank == 1000
        || exists h :: h in hits && h.number == e.number && IsTextSearch(h.search) && h.rank == e.bestRank)
    && (e.bestRank == 1000 ==> forall h | h in hits && h.number == e.number :: !IsTextSearch(h.search))
  }

  /** The searches whose order says how well the text matches. */
  predicate IsTextSearch(search: Search) {
    search == SemanticQuery || search == ErrorPattern || search == TitleKeywords
  }

  lemma MergeFind(index: seq<Entry>, h: Hit, number: nat)
    ensures Find(Merge(index, h), NumberOf, number)
      == if number != h.number then Find(index, NumberOf, number)
         else match Find(index, NumberOf, number)
           case Some(e) => Some(Merged(e, h))
           case None => Some(FirstEntry(h))
  {
    UpsertFind(index, NumberOf, FirstEntry(h), (e: Entry) => Merged(e, h), number);
  }

  /** One more hit keeps the summary right. */
  lemma SummaryStep(e: Entry, hits: seq<Hit>, h: Hit)
    requires Summarizes(e, hits) && h.rank < NO_RANK
    ensures Summarizes(if h.number == e.number then Merged(e, h) else e, hits + [h])
  {
    var all := hits + [h];
    assert forall x :: x in all <==> x in hits || x == h;
    if h.number == e.number {
      var e' := Merged(e, h);
      if e'.bestRank != NO_RANK && e'.bestRank == e.bestRank {
        var x :| x in hits && x.number == e.number && x.search.ByText() && x.rank == e.bestRank;
        assert x in all;
      } else if e'.bestRank != NO_RANK {
        assert h in all;
      }
    } else if e.bestRank != NO_RANK {
      var x :| x in hits && x.number == e.number && x.search.ByText() && x.rank == e.bestRank;
      assert x in all;
    }
  }

  lemma FirstSummary(hits: seq<Hit>, h: Hit)
    requires (forall x | x in hits :: x.number != h.number) && h.rank < NO_RANK
    ensures Summarizes(FirstEntry(h), hits + [h])
  {
    assert forall x :: x in hits + [h] <==> x in hits || x == h;
  }

  lemma {:induction false} IndexOf(hits: seq<Hit>, self: nat, number: nat)
    requires forall h | h in hits :: h.rank < NO_RANK
    ensures var r := Find(MergeAll(hits, self), NumberOf, number);
      if number != self && exists h :: h in hits && h.number == number
      then r.Some? && r.value.number == number && Summarizes(r.value, hits)
      else r.None?
  {
    if hits != [] {
      var before, h := hits[..|hits| - 1], hits[|hits| - 1];
      assert hits == before + [h];
      IndexOf(before, self, number);
      MergeFind(MergeAll(before, self), h, number);
      var r := Find(MergeAll(before, self), NumberOf, number);
      if r.Some? {
        SummaryStep(r.value, before, h);
      } else if h.number == number && number != self {
        FirstSummary(before, h);
      }
    }
  }

  lemma {:induction false} MergeAllUnique(hits: seq<Hit>, self: nat)
    ensures Unique(MergeAll(hits, self), NumberOf)
  {
    if hits != [] {
      MergeAllUnique(hits[..|hits| - 1], self);
      var h := hits[|hits| - 1];
      UpsertUnique(MergeAll(hits[..|hits| - 1], self), NumberOf, FirstEntry(h), (e: Entry) => Merged(e, h));
    }
  }

  lemma {:induction false} AllHitsRanks(queries: seq<Query>)
    requires forall q | q in queries :: |q.results| <= PER_PAGE
    ensures forall h | h in AllHits(queries) :: h.rank < NO_RANK
  {
    if queries != [] {
      AllHitsRanks(queries[..|queries| - 1]);
    }
  }

  /**
    After any queries of at most a page each, the index has every issue found except the new one, once, with the
    searches that found it without repetition and with its best rank in a text search, or 1000 if there was none.
   */
  lemma IndexMeaning(queries: seq<Query>, self: nat)
    requires forall q | q in queries :: |q.results| <= PER_PAGE
    ensures var index, hits := MergeAll(AllHits(queries), self), AllHits(queries);
      && (forall i, j | 0 <= i < j < |index| :: index[i].number != index[j].number)
      && (forall e | e in index ::
            e.number != self && Summarizes(e, hits) && exists h :: h in hits && h.number == e.number)
      && (forall h | h in hits && h.number != self :: exists e :: e in index && e.number == h.number)
  {
    hide AllHits, MergeAll, Summarizes;
    var index, hits := MergeAll(AllHits(queries), self), AllHits(queries);
    AllHitsRanks(queries);
    MergeAllUnique(hits, self);
    forall e | e in index
      ensures e.number != self && Summarizes(e, hits) && exists h :: h in hits && h.number == e.number
    {
      FindMember(index, NumberOf, e);
      IndexOf(hits, self, e.number);
    }
    forall h | h in hits && h.number != self
      ensures exists e :: e in index && e.number == h.number
    {
      IndexOf(hits, self, h.number);
      FindMember(index, NumberOf, Find(index, NumberOf, h.number).value);
    }
  }

  /** The issues but the new one, in the order in which they were first found. */
  function Found(hits: seq<Hit>, self: nat): seq<int> {
    if hits == [] then []
    else
      var before, h := Found(hits[..|hits| - 1], self), hits[|hits| - 1];
      if h.number == self || h.number in before then before else before + [h.number]
  }

  /** The searches that found an issue, in the order in which they first did. */
  function FoundBy(hits: seq<Hit>, number: nat): seq<Search> {
    if hits == [] then []
    else
      var before, h := FoundBy(hits[..|hits| - 1], number), hits[|hits| - 1];
      if h.number != number || h.search in before then before else before + [h.search]
  }

  /** The index keeps the order in which issues were found, and each entry that of its searches. */
  lemma {:induction false} IndexOrder(hits: seq<Hit>, self: nat, number: nat)
    ensures KeysOf(MergeAll(hits, self), NumberOf) == Found(hits, self)
    ensures number != self ==>
      match Find(MergeAll(hits, self), NumberOf, number)
      case Some(e) => e.matched == FoundBy(hits, number) && e.number == number
      case None => FoundBy(hits, number) == []
  {
    hide KeysOf, Find;
    if hits == [] {
      NothingFound(number);
    } else {
      var before, h := hits[..|hits| - 1], hits[|hits| - 1];
      IndexOrder(before, self, number);
      UpsertKeys(MergeAll(before, self), NumberOf, FirstEntry(h), (e: Entry) => Merged(e, h));
      MergeFind(MergeAll(before, self), h, number);
    }
  }

  lemma NothingFound(number: nat)
    ensures KeysOf([], NumberOf) == [] && Find([], NumberOf, number) == None
  {
  }

  /** What a hit is: an issue at some rank of the results of some query. */
  lemma {:induction false} HitMeaning(queries: seq<Query>, h: Hit)
    ensures h in AllHits(queries) <==>
      exists q :: q in queries && q.search == h.search && h.rank < |q.results| && q.results[h.rank] == h.number
  {
    if queries != [] {
      var before, q := queries[..|queries| - 1], queries[|queries| - 1];
      assert queries == before + [q];
      HitMeaning(before, h);
      if h in HitsOf(q) {
        var i :| 0 <= i < |HitsOf(q)| && HitsOf(q)[i] == h;
      }
      if q.search == h.search && h.rank < |q.results| && q.results[h.rank] == h.number {
        assert HitsOf(q)[h.rank] == h;
      }
    }
  }
}
