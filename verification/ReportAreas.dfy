/** The order in which the parsed report lists the areas of an issue. */
module ReportAreas {
  import opened Keyed
  import opened Sequences
  import opened Text
  import opened DuplicateReport
  import opened ReportRoundTrip

  function InfoNumber(info: Info): int {
    info.number
  }

  function Itself(area: string): string {
    area
  }

  /** Area names are trimmed, not empty, and listed once. */
  predicate Tidy(infos: seq<Info>) {
    forall info | info in infos ::
      && Unique(info.areas, Itself)
      && forall area | area in info.areas :: area != "" && Strip(area) == area
  }

  /** Those of the areas that come back for the issue. */
  function Listed(areas: seq<string>, info: Info): seq<string> {
    if areas == [] then []
    else
      var last := areas[|areas| - 1];
      Listed(areas[..|areas| - 1], info) + if last in info.areas && last != UNLABELED then [last] else []
  }

  // ---------- Every pair of an area and an issue stands once ----------

  predicate DistinctPairs(ps: seq<(string, Info)>) {
    forall i, j | 0 <= i < j < |ps| :: ps[i].0 == ps[j].0 ==> ps[i].1.number != ps[j].1.number
  }

  lemma {:induction false} PairsOfAt(areas: seq<string>, info: Info)
    ensures |PairsOf(areas, info)| == |areas|
    ensures forall i | 0 <= i < |areas| :: PairsOf(areas, info)[i] == (areas[i], info)
  {
    if areas != [] {
      PairsOfAt(areas[..|areas| - 1], info);
    }
  }

  lemma {:induction false} PairsDistinct(infos: seq<Info>)
    requires Unique(infos, InfoNumber) && Tidy(infos)
    ensures DistinctPairs(Pairs(infos))
  {
    if infos != [] {
      var init, last := infos[..|infos| - 1], infos[|infos| - 1];
      assert infos == init + [last];
      PairsDistinct(init);
      var a, b := Pairs(init), PairsOf(last.areas, last);
      PairsOfAt(last.areas, last);
      forall i | 0 <= i < |a|
        ensures a[i].1.number != last.number
      {
        PairsMember(init, a[i].0, a[i].1);
        assert a[i] in a;
        var k :| 0 <= k < |init| && init[k] == a[i].1;
        assert infos[k] == init[k];
      }
    }
  }

  lemma {:induction false} InfosUnique(ps: seq<(string, Info)>, area: string)
    requires DistinctPairs(ps)
    ensures Unique(InfosOf(ps, area), InfoNumber)
  {
    if ps != [] {
      var init, last := ps[..|ps| - 1], ps[|ps| - 1];
      InfosUnique(init, area);
      var before := InfosOf(init, area);
      forall i | 0 <= i < |before| && last.0 == area
        ensures before[i].number != last.1.number
      {
        InfosOfMember(init, area, before[i]);
        var k :| 0 <= k < |init| && init[k] == (area, before[i]);
        assert ps[k] == init[k];
      }
    }
  }

  // ---------- The hits of an issue, section by section ----------

  lemma {:induction false} AreasForConcat(a: seq<Hit>, b: seq<Hit>, number: int)
    ensures AreasFor(a + b, number) == AreasFor(a, number) + AreasFor(b, number)
  {
    if b == [] {
      assert a + b == a;
      assert AreasFor(a, number) + [] == AreasFor(a, number);
    } else {
      var init, h := b[..|b| - 1], b[|b| - 1];
      assert (a + b)[..|a + b| - 1] == a + init;
      AreasForConcat(a, init, number);
      var last := if h.number == number && h.area != UNLABELED then [h.area] else [];
      ConcatAssociative(AreasFor(a, number), AreasFor(init, number), last);
    }
  }

  /** A section shows an issue at most once. */
  lemma {:induction false} AreasOfItems(area: string, infos: seq<Info>, number: int)
    requires Unique(infos, InfoNumber)
    ensures AreasFor(ItemHits(area, infos), number)
         == if area != UNLABELED && (exists info :: info in infos && info.number == number) then [area] else []
  {
    if infos != [] {
      var init, last := infos[..|infos| - 1], infos[|infos| - 1];
      assert infos == init + [last];
      AreasOfItems(area, init, number);
      assert ItemHits(area, infos)[..|ItemHits(area, infos)| - 1] == ItemHits(area, init);
    }
  }

  lemma {:induction false} AreasOfSections(infos: seq<Info>, areas: seq<string>, info: Info)
    requires Unique(infos, InfoNumber) && Tidy(infos) && info in infos
    requires forall area | area in areas :: area != "" && Strip(area) == area
    ensures AreasFor(SectionHits(Pairs(infos), areas), info.number) == Listed(areas, info)
  {
    hide Pairs, SortedInfos, Strip, ItemHits, AreasFor, Unique, Tidy;
    if areas == [] {
      NoAreas(info.number);
    } else {
      var ps := Pairs(infos);
      var init, area := areas[..|areas| - 1], areas[|areas| - 1];
      assert areas == init + [area];
      assert forall x | x in init :: x in areas;
      AreasOfSections(infos, init, info);
      var items := ItemHits(area, SortedInfos(ps, area));
      assert SectionHits(ps, areas) == SectionHits(ps, init) + items;
      AreasForConcat(SectionHits(ps, init), items, info.number);
      SectionOfIssue(infos, area, info);
    }
  }

  lemma NoAreas(number: int)
    ensures AreasFor([], number) == []
  {
  }

  lemma SectionOfIssue(infos: seq<Info>, area: string, info: Info)
    requires Unique(infos, InfoNumber) && Tidy(infos) && info in infos
    ensures AreasFor(ItemHits(area, SortedInfos(Pairs(infos), area)), info.number)
         == if area in info.areas && area != UNLABELED then [area] else []
  {
    hide Pairs, ItemHits, AreasFor, Tidy, InfosOf, SortDescending, DistinctPairs;
    var ps := Pairs(infos);
    var sorted := SortedInfos(ps, area);
    PairsDistinct(infos);
    InfosUnique(ps, area);
    UniquePermuted(InfosOf(ps, area), sorted, InfoNumber);
    AreasOfItems(area, sorted, info.number);
    SortedMembers(ps, area, info);
    PairsMember(infos, area, info);
    forall x | x in sorted && x.number == info.number
      ensures x == info
    {
      SortedMembers(ps, area, x);
      PairsMember(infos, area, x);
    }
  }

  // ---------- The areas of the report ----------

  lemma {:induction false} AreaOrderUnique(ps: seq<(string, Info)>)
    ensures Unique(AreaOrder(ps), Itself)
  {
    if ps != [] {
      AreaOrderUnique(ps[..|ps| - 1]);
    }
  }

  lemma SortedAreasMeaning(ps: seq<(string, Info)>)
    ensures Unique(SortedAreas(ps), Itself) && Descending(SortedAreas(ps), area => TotalOf(ps, area))
  {
    hide TotalOf, AreaOrder, SortDescending;
    AreaOrderUnique(ps);
    SortIsDescending(AreaOrder(ps), area => TotalOf(ps, area));
    UniquePermuted(AreaOrder(ps), SortedAreas(ps), Itself);
  }

  lemma {:induction false} ListedKeepsOrder(areas: seq<string>, info: Info, total: string -> int)
    requires Unique(areas, Itself) && Descending(areas, total)
    ensures Unique(Listed(areas, info), Itself) && Descending(Listed(areas, info), total)
    ensures forall area :: area in Listed(areas, info) <==> area in areas && area in info.areas && area != UNLABELED
  {
    if areas != [] {
      var init, last := areas[..|areas| - 1], areas[|areas| - 1];
      assert areas == init + [last];
      ListedKeepsOrder(init, info, total);
      var before := Listed(init, info);
      forall i | 0 <= i < |before|
        ensures before[i] != last && total(before[i]) >= total(last)
      {
        assert before[i] in before;
        var k :| 0 <= k < |init| && init[k] == before[i];
        assert areas[k] == init[k];
      }
    }
  }

  /**
    With tidy area names, a magnet has each readable area of its issue exactly once, in the order of the sections: by
    falling total of the area.
   */
  lemma AreasInOrder(infos: seq<Info>, m: Magnet, info: Info)
    requires Printable(infos) && Tidy(infos) && m in ParseBody(Join(BodyLines(infos), '\n'))
    requires info in infos && info.number == m.number
    ensures m.areas == Listed(SortedAreas(Pairs(infos)), info)
    ensures Unique(m.areas, Itself) && Descending(m.areas, area => TotalOf(Pairs(infos), area))
    ensures forall area :: area in m.areas <==> area in info.areas && area != UNLABELED
  {
    hide Pairs, SortedAreas, SectionHits, ParseBody, BodyLines, Listed, AreasFor, TotalOf, Strip, Unique, Descending;
    var ps := Pairs(infos);
    var areas := SortedAreas(ps);
    MagnetAreas(infos, m);
    NumbersUnique(infos);
    forall area | area in areas
      ensures area != "" && Strip(area) == area
    {
      AreaHasIssue(ps, area);
      var of :| (area, of) in ps;
      PairsMember(infos, area, of);
    }
    AreasOfSections(infos, areas, info);
    SortedAreasMeaning(ps);
    ListedKeepsOrder(areas, info, area => TotalOf(ps, area));
    forall area | area in info.areas
      ensures area in areas
    {
      PairsMember(infos, area, info);
      SortedMembers(ps, area, info);
    }
  }

  lemma NumbersUnique(infos: seq<Info>)
    requires Printable(infos)
    ensures Unique(infos, InfoNumber)
  {
  }
}
