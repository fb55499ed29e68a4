/** `PendingDiff`: the excerpts shown of a diff are its hunks and the revealed ranges, sorted and merged. */
module DiffExcerpts {
  import opened Sequences

  /** A place in the buffer, ordered by row and then by column. */
  datatype Point = Point(row: nat, column: nat) {
    predicate Le(q: Point) {
      row < q.row || (row == q.row && column <= q.column)
    }
  }

  datatype Range = Range(start: Point, end: Point) {
    /** Both ends count. */
    predicate Has(p: Point) {
      start.Le(p) && p.Le(end)
    }

    predicate Inside(r: Range) {
      r.start.Le(start) && end.Le(r.end)
    }
  }

  function MaxPoint(p: Point, q: Point): Point {
    if p.Le(q) then q else p
  }

  /** The sort key `(range.start, Reverse(range.end))`. */
  predicate KeyLe(a: Range, b: Range) {
    if a.start == b.start then b.end.Le(a.end) else a.start.Le(b.start)
  }

  predicate SortedByKey(rs: seq<Range>) {
    forall i, j | 0 <= i < j < |rs| :: KeyLe(rs[i], rs[j])
  }

  predicate Proper(rs: seq<Range>) {
    forall r | r in rs :: r.start.Le(r.end)
  }

  // ---------- Merging ----------

  /** The merge of `cur` with the ranges that follow it. */
  function MergeFrom(cur: Range, rest: seq<Range>): seq<Range>
    decreases |rest|
  {
    if rest == [] then [cur]
    else if rest[0].start.Le(cur.end) then MergeFrom(Range(cur.start, MaxPoint(cur.end, rest[0].end)), rest[1..])
    else [cur] + MergeFrom(rest[0], rest[1..])
  }

  function Merge(rs: seq<Range>): seq<Range> {
    if rs == [] then [] else MergeFrom(rs[0], rs[1..])
  }

  /** One step of the merge, told by the index of the next range. */
  lemma MergeStep(range: Range, ranges: seq<Range>, i: nat)
    requires i <= |ranges|
    ensures i == |ranges| ==> MergeFrom(range, ranges[i..]) == [range] && Merge(ranges[i..]) == []
    ensures i < |ranges| ==>
      var next := ranges[i];
      && Merge(ranges[i..]) == MergeFrom(next, ranges[i + 1..])
      && MergeFrom(range, ranges[i..]) ==
         if next.start.Le(range.end) then
           MergeFrom(Range(range.start, MaxPoint(range.end, next.end)), ranges[i + 1..])
         else [range] + Merge(ranges[i..])
  {
    if i < |ranges| {
      assert ranges[i..][0] == ranges[i] && ranges[i..][1..] == ranges[i + 1..];
    }
  }

  /** The loops over the sorted ranges. */
  method MergeLoop(ranges: seq<Range>) returns (merged: seq<Range>)
    ensures merged == Merge(ranges)
  {
    hide MergeFrom, Point.Le, MaxPoint;
    merged := [];
    var i := 0;
    assert ranges[0..] == ranges;
    while i < |ranges|
      invariant 0 <= i <= |ranges|
      invariant merged + Merge(ranges[i..]) == Merge(ranges)
    {
      var range := ranges[i];
      MergeStep(range, ranges, i);
      i := i + 1;
      while i < |ranges|
        invariant 0 <= i <= |ranges|
        invariant merged + MergeFrom(range, ranges[i..]) == Merge(ranges)
      {
        MergeStep(range, ranges, i);
        var next := ranges[i];
        if next.start.Le(range.end) {
          range := Range(range.start, MaxPoint(range.end, next.end));
          i := i + 1;
        } else {
          break;
        }
      }
      MergeStep(range, ranges, i);
      ConcatAssociative(merged, [range], Merge(ranges[i..]));
      merged := merged + [range];
    }
    assert Merge(ranges[i..]) == [];
    assert merged + [] == merged;
  }

  // ---------- Sorting ----------

  lemma KeyTotal(a: Range, b: Range)
    ensures KeyLe(a, b) || KeyLe(b, a)
  {
  }

  lemma KeyTransitive(a: Range, b: Range, c: Range)
    requires KeyLe(a, b) && KeyLe(b, c)
    ensures KeyLe(a, c)
  {
  }

  lemma InsertKeepsSorted(sorted: seq<Range>, k: nat, r: Range)
    requires SortedByKey(sorted) && k <= |sorted|
    requires k > 0 ==> KeyLe(sorted[k - 1], r)
    requires k < |sorted| ==> KeyLe(r, sorted[k])
    ensures SortedByKey(sorted[..k] + [r] + sorted[k..])
  {
    hide KeyLe;
    forall i: nat | i < |sorted|
      ensures if i < k then KeyLe(sorted[i], r) else KeyLe(r, sorted[i])
    {
      if i < k - 1 {
        KeyTransitive(sorted[i], sorted[k - 1], r);
      } else if i > k {
        KeyTransitive(r, sorted[k], sorted[i]);
      }
    }
  }

  method SortByKey(rs: seq<Range>) returns (sorted: seq<Range>)
    ensures SortedByKey(sorted) && multiset(sorted) == multiset(rs)
  {
    hide KeyLe;
    sorted := [];
    for n := 0 to |rs|
      invariant SortedByKey(sorted) && multiset(sorted) == multiset(rs[..n])
    {
      assert rs[..n + 1] == rs[..n] + [rs[n]];
      var k := |sorted|;
      while k > 0 && !KeyLe(sorted[k - 1], rs[n])
        invariant 0 <= k <= |sorted|
        invariant k < |sorted| ==> KeyLe(rs[n], sorted[k])
      {
        KeyTotal(sorted[k - 1], rs[n]);
        k := k - 1;
      }
      assert sorted == sorted[..k] + sorted[k..];
      InsertKeepsSorted(sorted, k, rs[n]);
      sorted := sorted[..k] + [rs[n]] + sorted[k..];
    }
    assert rs[..|rs|] == rs;
  }

  lemma SortedHead(rs: seq<Range>)
    requires SortedByKey(rs) && rs != []
    ensures SortedByKey(rs[1..]) && rs == [rs[0]] + rs[1..]
    ensures forall r | r in rs :: KeyLe(rs[0], r) && rs[0].start.Le(r.start)
  {
  }

  lemma KeyAntisymmetric(a: Range, b: Range)
    requires KeyLe(a, b) && KeyLe(b, a)
    ensures a == b
  {
  }

  /** Ranges with equal keys are equal, so there is one sorted order, whether or not the sort is stable. */
  lemma {:induction false} SortedUnique(a: seq<Range>, b: seq<Range>)
    requires SortedByKey(a) && SortedByKey(b) && multiset(a) == multiset(b)
    ensures a == b
  {
    hide SortedByKey, KeyLe;
    assert |multiset(a)| == |a| && |multiset(b)| == |b|;
    if a != [] {
      assert a[0] in multiset(b) && b[0] in multiset(a);
      SortedHead(a);
      SortedHead(b);
      KeyAntisymmetric(a[0], b[0]);
      assert multiset(a[1..]) == multiset(a) - multiset{a[0]} == multiset(b[1..]);
      SortedUnique(a[1..], b[1..]);
    }
  }

  // ---------- Properties ----------

  /** Sorted, with a gap between any two. */
  predicate Separated(rs: seq<Range>) {
    forall i, j | 0 <= i < j < |rs| :: !rs[j].start.Le(rs[i].end)
  }

  predicate Covers(rs: seq<Range>, p: Point) {
    exists r :: r in rs && r.Has(p)
  }

  lemma {:induction false} MergeSeparated(cur: Range, rest: seq<Range>)
    requires cur.start.Le(cur.end) && Proper(rest) && SortedByKey(rest)
    requires forall r | r in rest :: cur.start.Le(r.start)
    ensures var out := MergeFrom(cur, rest);
      Proper(out) && Separated(out) && forall r | r in out :: cur.start.Le(r.start)
    decreases |rest|
  {
    if rest != [] {
      assert rest[0] in rest;
      assert forall r | r in rest[1..] :: r in rest;
      if rest[0].start.Le(cur.end) {
        MergeSeparated(Range(cur.start, MaxPoint(cur.end, rest[0].end)), rest[1..]);
      } else {
        MergeSeparated(rest[0], rest[1..]);
        var tail := MergeFrom(rest[0], rest[1..]);
        forall j | 0 <= j < |tail|
          ensures !tail[j].start.Le(cur.end)
        {
          assert tail[j] in tail;
        }
      }
    }
  }

  lemma {:induction false} MergeCovers(cur: Range, rest: seq<Range>, p: Point)
    requires cur.start.Le(cur.end) && Proper(rest) && SortedByKey(rest)
    requires forall r | r in rest :: cur.start.Le(r.start)
    ensures Covers(MergeFrom(cur, rest), p) <==> cur.Has(p) || Covers(rest, p)
    decreases |rest|
  {
    if rest == [] {
      assert cur in [cur];
    } else {
      var first, tail := rest[0], rest[1..];
      assert first in rest;
      assert rest == [first] + tail;
      assert Covers(rest, p) <==> first.Has(p) || Covers(tail, p);
      if first.start.Le(cur.end) {
        MergeCovers(Range(cur.start, MaxPoint(cur.end, first.end)), tail, p);
      } else {
        MergeCovers(first, tail, p);
        var out := MergeFrom(first, tail);
        assert forall r :: r in [cur] + out <==> r == cur || r in out;
      }
    }
  }

  lemma {:induction false} MergeEndpoints(cur: Range, rest: seq<Range>, r: Range)
    requires r in MergeFrom(cur, rest)
    ensures r.start == cur.start || exists a :: a in rest && a.start == r.start
    ensures r.end == cur.end || exists a :: a in rest && a.end == r.end
    decreases |rest|
  {
    if rest != [] {
      assert rest == [rest[0]] + rest[1..];
      if rest[0].start.Le(cur.end) {
        MergeEndpoints(Range(cur.start, MaxPoint(cur.end, rest[0].end)), rest[1..], r);
      } else if r != cur {
        MergeEndpoints(rest[0], rest[1..], r);
      }
    }
  }

  /** Separated ranges that share a point are the same. */
  lemma SharedPoint(out: seq<Range>, a: Range, b: Range, p: Point)
    requires Separated(out) && a in out && b in out && a.Has(p) && b.Has(p)
    ensures a == b
  {
  }

  predicate InsideOne(r: Range, out: seq<Range>) {
    exists o :: o in out && r.Inside(o)
  }

  /** If every range lies inside one of the separated `out`, then so does every merged range. */
  lemma {:induction false} MergeInside(cur: Range, rest: seq<Range>, out: seq<Range>)
    requires cur.start.Le(cur.end) && Proper(rest) && SortedByKey(rest) && Separated(out)
    requires forall r | r in rest :: cur.start.Le(r.start)
    requires InsideOne(cur, out) && forall r | r in rest :: InsideOne(r, out)
    ensures forall r | r in MergeFrom(cur, rest) :: InsideOne(r, out)
    decreases |rest|
  {
    if rest != [] {
      var first, tail := rest[0], rest[1..];
      assert first in rest && forall r | r in tail :: r in rest;
      if first.start.Le(cur.end) {
        var o :| o in out && cur.Inside(o);
        var o' :| o' in out && first.Inside(o');
        SharedPoint(out, o, o', first.start);
        var joined := Range(cur.start, MaxPoint(cur.end, first.end));
        assert joined.Inside(o);
        MergeInside(joined, tail, out);
      } else {
        MergeInside(first, tail, out);
      }
    }
  }

  lemma InsideJoined(r: Range, joined: Range, out: seq<Range>)
    requires r.Inside(joined) && InsideOne(joined, out)
    ensures InsideOne(r, out)
  {
    var o :| o in out && joined.Inside(o);
    assert r.Inside(o);
  }

  lemma InsideLater(r: Range, first: Range, out: seq<Range>)
    requires InsideOne(r, out)
    ensures InsideOne(r, [first] + out)
  {
    var o :| o in out && r.Inside(o);
    assert o in [first] + out;
  }

  lemma {:induction false} InputInside(cur: Range, rest: seq<Range>, r: Range)
    requires r == cur || r in rest
    requires SortedByKey(rest) && forall a | a in rest :: cur.start.Le(a.start)
    ensures InsideOne(r, MergeFrom(cur, rest))
    decreases |rest|
  {
    if rest == [] {
      assert cur in [cur] && cur.Inside(cur);
    } else {
      var first, tail := rest[0], rest[1..];
      SortedHead(rest);
      if first.start.Le(cur.end) {
        var joined := Range(cur.start, MaxPoint(cur.end, first.end));
        if r == cur || r == first {
          InputInside(joined, tail, joined);
          InsideJoined(r, joined, MergeFrom(cur, rest));
        } else {
          InputInside(joined, tail, r);
        }
      } else if r == cur {
        assert cur in MergeFrom(cur, rest) && cur.Inside(cur);
      } else {
        InputInside(first, tail, r);
        InsideLater(r, cur, MergeFrom(first, tail));
      }
    }
  }

  /** `sorted` is the sorted list of the ranges. */
  predicate IsSortOf(sorted: seq<Range>, ranges: seq<Range>) {
    SortedByKey(sorted) && multiset(sorted) == multiset(ranges)
  }

  lemma SortMembers(sorted: seq<Range>, ranges: seq<Range>)
    requires multiset(sorted) == multiset(ranges)
    ensures forall r :: r in sorted <==> r in ranges
  {
    forall r
      ensures r in sorted <==> r in ranges
    {
      assert r in sorted <==> r in multiset(sorted);
      assert r in ranges <==> r in multiset(ranges);
    }
  }

  /** What the excerpts `out` of proper ranges are. */
  ghost predicate AreExcerpts(out: seq<Range>, ranges: seq<Range>) {
    && Proper(out) && Separated(out)
    && (forall p :: Covers(out, p) <==> Covers(ranges, p))
    && (forall r | r in out ::
          (exists a :: a in ranges && a.start == r.start) && (exists b :: b in ranges && b.end == r.end))
    && (forall r | r in ranges :: InsideOne(r, out))
  }

  lemma NothingCovered()
    ensures Separated([]) && forall p :: !Covers([], p)
  {
  }

  lemma CoversHead(sorted: seq<Range>, ranges: seq<Range>)
    requires sorted != [] && forall r :: r in sorted <==> r in ranges
    ensures forall p :: Covers(ranges, p) <==> sorted[0].Has(p) || Covers(sorted[1..], p)
  {
    hide Range.Has;
    assert forall r :: r in sorted <==> r == sorted[0] || r in sorted[1..];
  }

  /** The merge is sorted and separated, covers the same points, and takes its endpoints from the input. */
  lemma MergeMeaning(sorted: seq<Range>, ranges: seq<Range>)
    requires IsSortOf(sorted, ranges) && Proper(ranges)
    ensures AreExcerpts(Merge(sorted), ranges)
  {
    hide MergeFrom, SortedByKey, Separated, Covers, InsideOne, Point.Le;
    SortMembers(sorted, ranges);
    var out := Merge(sorted);
    if sorted == [] {
      assert ranges == [] by {
        assert |multiset(ranges)| == |ranges|;
      }
      NothingCovered();
    } else {
      var cur, rest := sorted[0], sorted[1..];
      SortedHead(sorted);
      assert cur in sorted;
      CoversHead(sorted, ranges);
      MergeSeparated(cur, rest);
      forall p
        ensures Covers(out, p) <==> Covers(ranges, p)
      {
        MergeCovers(cur, rest, p);
      }
      forall r | r in out
        ensures (exists a :: a in ranges && a.start == r.start) && (exists b :: b in ranges && b.end == r.end)
      {
        MergeEndpoints(cur, rest, r);
      }
      forall r | r in ranges
        ensures InsideOne(r, out)
      {
        InputInside(cur, rest, r);
      }
    }
  }

  /** More ranges never split an excerpt: each old one lies inside one new one. */
  lemma MergeGrows(before: seq<Range>, rangesBefore: seq<Range>, after: seq<Range>, rangesAfter: seq<Range>)
    requires IsSortOf(before, rangesBefore) && IsSortOf(after, rangesAfter) && Proper(rangesAfter)
    requires forall r | r in rangesBefore :: r in rangesAfter
    ensures forall r | r in Merge(before) :: InsideOne(r, Merge(after))
  {
    MergeMeaning(after, rangesAfter);
    SortMembers(before, rangesBefore);
    if before != [] {
      assert before[0] in before && forall r | r in before[1..] :: r in before;
      MergeInside(before[0], before[1..], Merge(after));
    }
  }

  // ---------- The diff ----------

  class PendingDiff {
    var hunks: seq<Range>
    var revealed: seq<Range>

    function Ranges(): seq<Range>
      reads this
    {
      hunks + revealed
    }

    /** The result is the merge of every sorted order of the ranges, of which there is one. */
    method ExcerptRanges() returns (merged: seq<Range>)
      ensures forall sorted | IsSortOf(sorted, Ranges()) :: merged == Merge(sorted)
      ensures Proper(Ranges()) ==> AreExcerpts(merged, Ranges())
    {
      var sorted := SortByKey(hunks + revealed);
      merged := MergeLoop(sorted);
      forall s | IsSortOf(s, Ranges())
        ensures s == sorted
      {
        SortedUnique(s, sorted);
      }
      if Proper(Ranges()) {
        MergeMeaning(sorted, Ranges());
      }
    }

    /** Revealing a range keeps every excerpt inside one of the new ones. */
    method RevealRange(range: Range) returns (merged: seq<Range>)
      modifies this`revealed
      ensures revealed == old(revealed) + [range]
      ensures forall sorted | IsSortOf(sorted, Ranges()) :: merged == Merge(sorted)
      ensures Proper(Ranges()) ==> AreExcerpts(merged, Ranges())
      ensures Proper(Ranges()) ==> InsideOne(range, merged)
      ensures Proper(Ranges()) ==>
        forall sorted | IsSortOf(sorted, old(Ranges())) :: forall r | r in Merge(sorted) :: InsideOne(r, merged)
    {
      revealed := revealed + [range];
      merged := ExcerptRanges();
      if Proper(Ranges()) {
        assert range in Ranges();
        var sorted := SortByKey(Ranges());
        forall s | IsSortOf(s, old(Ranges()))
          ensures forall r | r in Merge(s) :: InsideOne(r, merged)
        {
          MergeGrows(s, old(Ranges()), sorted, Ranges());
        }
      }
    }
  }
}
