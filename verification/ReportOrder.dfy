/** What is printed where in the report: its headings by falling total, and under each its issues by falling count. */
module ReportOrder {
  import opened Outcomes
  import opened Sequences
  import opened Text
  import opened DuplicateReport
  import opened ReportRoundTrip
  import opened ReportAreas

  // ---------- One element before another ----------

  ghost predicate Before<T(!new)>(xs: seq<T>, x: T, y: T) {
    exists i: nat, j: nat :: i < j < |xs| && xs[i] == x && xs[j] == y
  }

  lemma {:induction false} WithKeyMember<T>(xs: seq<T>, key: T -> int, k: int, x: T)
    ensures x in WithKey(xs, key, k) <==> x in xs && key(x) == k
  {
    if xs != [] {
      assert xs == [xs[0]] + xs[1..];
      WithKeyMember(xs[1..], key, k, x);
    }
  }

  lemma BeforeCons<T(!new)>(a: T, xs: seq<T>, x: T, y: T)
    ensures Before([a] + xs, x, y) <==> (a == x && y in xs) || Before(xs, x, y)
  {
    var all := [a] + xs;
    assert forall i | 0 <= i < |xs| :: all[i + 1] == xs[i];
    if i: nat, j: nat :| i < j < |all| && all[i] == x && all[j] == y {
      assert xs[j - 1] == y;
      if i > 0 {
        assert xs[i - 1] == x;
        assert Before(xs, x, y) by {
          var p: nat, q: nat := i - 1, j - 1;
          assert p < q < |xs| && xs[p] == x && xs[q] == y;
        }
      }
    }
    if a == x && y in xs {
      var j: nat :| j < |xs| && xs[j] == y;
      assert all[0] == x && all[j + 1] == y;
    }
    if i: nat, j: nat :| i < j < |xs| && xs[i] == x && xs[j] == y {
      assert all[i + 1] == x && all[j + 1] == y;
    }
  }

  /** Picking out the elements with one key keeps what stands before what. */
  lemma {:induction false} WithKeyBefore<T(!new)>(xs: seq<T>, key: T -> int, x: T, y: T)
    requires key(x) == key(y)
    ensures Before(WithKey(xs, key, key(x)), x, y) <==> Before(xs, x, y)
  {
    hide Before;
    if xs == [] {
      NothingBefore(x, y);
    } else {
      var rest, k := xs[1..], key(x);
      assert xs == [xs[0]] + rest;
      WithKeyBefore(rest, key, x, y);
      BeforeCons(xs[0], rest, x, y);
      BeforeCons(xs[0], WithKey(rest, key, k), x, y);
      WithKeyMember(rest, key, k, y);
      assert [] + WithKey(rest, key, k) == WithKey(rest, key, k);
    }
  }

  lemma NothingBefore<T(!new)>(x: T, y: T)
    ensures !Before([], x, y)
  {
  }

  // ---------- The issues of a section ----------

  /** Sorted by falling count, and by their places in the input where the counts are equal. */
  lemma SortedInfosMeaning(ps: seq<(string, Info)>, area: string, i: nat, j: nat)
    requires i < j < |SortedInfos(ps, area)|
    ensures var x, y := SortedInfos(ps, area)[i], SortedInfos(ps, area)[j];
      x.count >= y.count && (x.count == y.count ==> Before(InfosOf(ps, area), x, y))
  {
    hide InfosOf, SortDescending, WithKey;
    var infos, sorted := InfosOf(ps, area), SortedInfos(ps, area);
    var x, y := sorted[i], sorted[j];
    var key := (info: Info) => info.count;
    SortIsDescending(infos, key);
    if x.count == y.count {
      SortIsStable(infos, key, x.count);
      WithKeyBefore(sorted, key, x, y);
      WithKeyBefore(infos, key, x, y);
    }
  }

  lemma BeforeSnoc<T(!new)>(xs: seq<T>, a: T, x: T, y: T)
    ensures Before(xs + [a], x, y) <==> (a == y && x in xs) || Before(xs, x, y)
  {
    var all := xs + [a];
    if i: nat, j: nat :| i < j < |all| && all[i] == x && all[j] == y {
      assert xs[i] == x;
      if j < |xs| {
        assert xs[j] == y;
      }
    }
    if a == y && x in xs {
      var i: nat :| i < |xs| && xs[i] == x;
      assert all[i] == x && all[|xs|] == y;
    }
    if i: nat, j: nat :| i < j < |xs| && xs[i] == x && xs[j] == y {
      assert all[i] == x && all[j] == y;
    }
  }

  lemma {:induction false} InfosOfBefore(ps: seq<(string, Info)>, area: string, x: Info, y: Info)
    ensures Before(InfosOf(ps, area), x, y) <==> Before(ps, (area, x), (area, y))
  {
    hide Before;
    if ps == [] {
      NothingBefore(x, y);
      NothingBefore((area, x), (area, y));
    } else {
      var init, last := ps[..|ps| - 1], ps[|ps| - 1];
      assert ps == init + [last];
      InfosOfBefore(init, area, x, y);
      BeforeSnoc(init, last, (area, x), (area, y));
      BeforeSnoc(InfosOf(init, area), last.1, x, y);
      InfosOfMember(init, area, x);
      assert InfosOf(init, area) + [] == InfosOf(init, area);
    }
  }

  lemma {:induction false} PairsOfBefore(areas: seq<string>, info: Info, p: (string, Info), q: (string, Info))
    requires Before(PairsOf(areas, info), p, q)
    ensures p.1 == info && q.1 == info
  {
    var ps := PairsOf(areas, info);
    var i: nat, j: nat :| i < j < |ps| && ps[i] == p && ps[j] == q;
    PairsOfMember(areas, info, p.0, p.1);
    PairsOfMember(areas, info, q.0, q.1);
    assert ps[i] in ps && ps[j] in ps;
  }

  lemma BeforeConcat<T(!new)>(a: seq<T>, b: seq<T>, x: T, y: T)
    requires Before(a + b, x, y)
    ensures Before(a, x, y) || Before(b, x, y) || (x in a && y in b)
  {
    var all := a + b;
    var i: nat, j: nat :| i < j < |all| && all[i] == x && all[j] == y;
    if |a| <= i {
      var p: nat, q: nat := i - |a|, j - |a|;
      assert b[p] == x && b[q] == y;
    } else if j < |a| {
      assert a[i] == x && a[j] == y;
    } else {
      assert a[i] == x && b[j - |a|] == y;
    }
  }

  /** The pairs stand in the order of the issues. */
  lemma {:induction false} PairsBefore(infos: seq<Info>, p: (string, Info), q: (string, Info))
    requires Before(Pairs(infos), p, q)
    ensures p.1 == q.1 || Before(infos, p.1, q.1)
  {
    hide Before;
    if infos == [] {
      NothingBefore(p, q);
    } else {
      var init, last := infos[..|infos| - 1], infos[|infos| - 1];
      assert infos == init + [last];
      var a, b := Pairs(init), PairsOf(last.areas, last);
      BeforeConcat(a, b, p, q);
      BeforeSnoc(init, last, p.1, q.1);
      if Before(a, p, q) {
        PairsBefore(init, p, q);
      } else if Before(b, p, q) {
        PairsOfBefore(last.areas, last, p, q);
      } else {
        PairsMember(init, p.0, p.1);
        PairsOfMember(last.areas, last, q.0, q.1);
      }
    }
  }

  /** The order of a section's issues, told by the input alone. */
  ghost predicate InOrder(x: Info, y: Info, infos: seq<Info>) {
    x.count > y.count || (x.count == y.count && (x == y || Before(infos, x, y)))
  }

  lemma SectionInOrder(infos: seq<Info>, area: string, i: nat, j: nat)
    requires i < j < |SortedInfos(Pairs(infos), area)|
    ensures InOrder(SortedInfos(Pairs(infos), area)[i], SortedInfos(Pairs(infos), area)[j], infos)
  {
    hide Pairs, SortedInfos, InfosOf;
    var ps := Pairs(infos);
    var x, y := SortedInfos(ps, area)[i], SortedInfos(ps, area)[j];
    SortedInfosMeaning(ps, area, i, j);
    if x.count == y.count {
      InfosOfBefore(ps, area, x, y);
      PairsBefore(infos, (area, x), (area, y));
    }
  }

  // ---------- The lines ----------

  /** A heading of the area. */
  predicate IsHeading(line: string) {
    "## " <= line
  }

  predicate IsItem(line: string) {
    "-" <= line && ParseItem(line).Some?
  }

  /** Within a section no item that comes later has a higher count, and equal counts keep the order of the input. */
  predicate ItemsInOrder(lines: seq<string>, infos: seq<Info>) {
    forall i, j | 0 <= i < j < |lines| && IsItem(lines[i]) && IsItem(lines[j])
      && (forall k | i < k < j :: !IsHeading(lines[k])) ::
      ItemsAgree(lines[i], lines[j], infos)
  }

  /** The first of two items has the higher count, or the same and the issue that stands first in the input. */
  predicate ItemsAgree(a: string, b: string, infos: seq<Info>) {
    match (ParseItem(a), ParseItem(b))
    case (Some((m, c)), Some((n, d))) => c > d || (c == d && (m == n || NumberBefore(infos, m, n)))
    case _ => true
  }

  predicate NumberBefore(infos: seq<Info>, m: int, n: int) {
    exists i, j :: 0 <= i < j < |infos| && infos[i].number == m && infos[j].number == n
  }

  lemma {:induction false} ItemLinesAt(infos: seq<Info>, i: nat)
    requires i < |infos|
    ensures |ItemLines(infos)| == |infos| && ItemLines(infos)[i] == ItemLine(infos[i])
  {
    hide ItemLine;
    if i < |infos| - 1 {
      ItemLinesAt(infos[..|infos| - 1], i);
    } else if |infos| > 1 {
      ItemLinesAt(infos[..|infos| - 1], 0);
    }
  }

  /** A section is a heading between empty lines and its items. */
  lemma SectionItems(infos: seq<Info>, area: string, i: nat, j: nat)
    requires i < j < |ItemLines(SortedInfos(Pairs(infos), area))|
    ensures var lines := ItemLines(SortedInfos(Pairs(infos), area)); ItemsAgree(lines[i], lines[j], infos)
  {
    hide Pairs, SortedInfos, ItemLine, ParseItem;
    var sorted := SortedInfos(Pairs(infos), area);
    ItemCounts(sorted);
    ItemLinesAt(sorted, i);
    ItemLinesAt(sorted, j);
    ItemRoundTrip(sorted[i]);
    ItemRoundTrip(sorted[j]);
    SectionInOrder(infos, area, i, j);
  }

  lemma {:induction false} ItemCounts(infos: seq<Info>)
    ensures |ItemLines(infos)| == |infos|
  {
    hide ItemLine;
    if infos != [] {
      ItemCounts(infos[..|infos| - 1]);
    }
  }

  lemma HeaderIsNoItem(area: string)
    ensures HeaderLines(area) == ["", "## " + area, ""]
    ensures IsHeading("## " + area) && !IsItem("## " + area) && !IsItem("")
  {
    assert ("## " + area)[0] == '#';
  }

  lemma {:induction false} SectionsInOrder(infos: seq<Info>, before: seq<string>, areas: seq<string>)
    requires forall line | line in before :: !IsItem(line)
    ensures ItemsInOrder(before + SectionLines(Pairs(infos), areas), infos)
  {
    hide Pairs, SortedInfos, HeaderLines, ItemLines, IsItem, IsHeading, ItemsAgree;
    if areas == [] {
      assert before + [] == before;
      assert forall i | 0 <= i < |before| :: before[i] in before;
    } else {
      var init, area := areas[..|areas| - 1], areas[|areas| - 1];
      var ps := Pairs(infos);
      SectionsInOrder(infos, before, init);
      var lines, items := before + SectionLines(ps, init), ItemLines(SortedInfos(ps, area));
      SectionAppended(infos, lines, area, items);
      assert before + SectionLines(ps, areas) == lines + HeaderLines(area) + items;
    }
  }

  lemma SectionAppended(infos: seq<Info>, lines: seq<string>, area: string, items: seq<string>)
    requires ItemsInOrder(lines, infos) && items == ItemLines(SortedInfos(Pairs(infos), area))
    ensures ItemsInOrder(lines + HeaderLines(area) + items, infos)
  {
    hide Pairs, SortedInfos, HeaderLines, ItemLines, IsItem, IsHeading, ItemsAgree;
    HeaderIsNoItem(area);
    var all := lines + HeaderLines(area) + items;
    var n := |lines|;
    assert all[n] == "" && all[n + 1] == "## " + area && all[n + 2] == "";
    assert IsHeading(all[n + 1]);
    forall i, j | 0 <= i < j < |all| && IsItem(all[i]) && IsItem(all[j]) && (forall k | i < k < j :: !IsHeading(all[k]))
      ensures ItemsAgree(all[i], all[j], infos)
    {
      if j < n {
        assert forall k | i <= k <= j :: all[k] == lines[k];
      } else {
        assert j > n + 2;
        assert i > n + 1;
        assert all[i] == items[i - n - 3] && all[j] == items[j - n - 3];
        SectionItems(infos, area, i - n - 3, j - n - 3);
      }
    }
  }

  // ---------- The headings ----------

  /** How often the area is named. */
  function Times(areas: seq<string>, area: string): nat {
    if areas == [] then 0 else Times(areas[..|areas| - 1], area) + if areas[|areas| - 1] == area then 1 else 0
  }

  /** The counts of the issues with the area, together. */
  function Total(infos: seq<Info>, area: string): nat {
    if infos == [] then 0
    else
      var last := infos[|infos| - 1];
      Total(infos[..|infos| - 1], area) + last.count * Times(last.areas, area)
  }

  lemma {:induction false} TotalOfConcat(a: seq<(string, Info)>, b: seq<(string, Info)>, area: string)
    ensures TotalOf(a + b, area) == TotalOf(a, area) + TotalOf(b, area)
  {
    if b == [] {
      assert a + b == a;
    } else {
      assert (a + b)[..|a + b| - 1] == a + b[..|b| - 1];
      TotalOfConcat(a, b[..|b| - 1], area);
    }
  }

  lemma {:induction false} TotalOfOne(areas: seq<string>, info: Info, area: string)
    ensures TotalOf(PairsOf(areas, info), area) == info.count * Times(areas, area)
  {
    if areas != [] {
      var init, last := areas[..|areas| - 1], areas[|areas| - 1];
      TotalOfOne(init, info, area);
      var n := Times(init, area);
      assert info.count * (n + 1) == info.count * n + info.count;
      assert PairsOf(areas, info)[..|PairsOf(areas, info)| - 1] == PairsOf(init, info);
    }
  }

  lemma {:induction false} TotalMeaning(infos: seq<Info>, area: string)
    ensures TotalOf(Pairs(infos), area) == Total(infos, area)
  {
    if infos != [] {
      var init, last := infos[..|infos| - 1], infos[|infos| - 1];
      TotalMeaning(init, area);
      TotalOfConcat(Pairs(init), PairsOf(last.areas, last), area);
      TotalOfOne(last.areas, last, area);
    }
  }

  /** The areas of the headings, from top to bottom. */
  function Headings(lines: seq<string>): seq<string> {
    if lines == [] then []
    else
      var last := lines[|lines| - 1];
      Headings(lines[..|lines| - 1]) + if IsHeading(last) then [last[3..]] else []
  }

  lemma {:induction false} HeadingsConcat(a: seq<string>, b: seq<string>)
    ensures Headings(a + b) == Headings(a) + Headings(b)
  {
    if b == [] {
      assert a + b == a;
      assert Headings(a) + [] == Headings(a);
    } else {
      var init, last := b[..|b| - 1], b[|b| - 1];
      assert (a + b)[..|a + b| - 1] == a + init;
      HeadingsConcat(a, init);
      ConcatAssociative(Headings(a), Headings(init), if IsHeading(last) then [last[3..]] else []);
    }
  }

  lemma {:induction false} NoHeadings(lines: seq<string>)
    requires forall line | line in lines :: !IsHeading(line)
    ensures Headings(lines) == []
  {
    hide IsHeading;
    if lines != [] {
      assert lines == lines[..|lines| - 1] + [lines[|lines| - 1]];
      NoHeadings(lines[..|lines| - 1]);
    }
  }

  lemma ItemsHaveNoHeading(infos: seq<Info>)
    ensures forall line | line in ItemLines(infos) :: !IsHeading(line)
  {
    hide ItemLine, ItemLines, ParseItem;
    forall line | line in ItemLines(infos)
      ensures !IsHeading(line)
    {
      var i :| 0 <= i < |ItemLines(infos)| && ItemLines(infos)[i] == line;
      ItemCounts(infos);
      ItemLinesAt(infos, i);
      ItemRoundTrip(infos[i]);
    }
  }

  lemma HeaderHeading(area: string)
    ensures Headings(HeaderLines(area)) == [area]
  {
    var lines := HeaderLines(area);
    HeaderIsNoItem(area);
    assert lines[..2][..1] == [""] && lines[..2] == ["", "## " + area] && lines == lines[..2] + [""];
    assert ("## " + area)[3..] == area;
    assert Headings([""]) == [] by { NoHeadings([""]); }
    assert Headings(lines[..2]) == [area];
    assert !IsHeading("");
  }

  lemma {:induction false} SectionHeadings(ps: seq<(string, Info)>, areas: seq<string>)
    ensures Headings(SectionLines(ps, areas)) == areas
  {
    hide HeaderLines, ItemLines, SortedInfos, IsHeading, Headings;
    if areas == [] {
      NoHeadings([]);
    } else {
      var init, area := areas[..|areas| - 1], areas[|areas| - 1];
      SectionHeadings(ps, init);
      HeadingsConcat(SectionLines(ps, init) + HeaderLines(area), ItemLines(SortedInfos(ps, area)));
      HeadingsConcat(SectionLines(ps, init), HeaderLines(area));
      HeaderHeading(area);
      ItemsHaveNoHeading(SortedInfos(ps, area));
      NoHeadings(ItemLines(SortedInfos(ps, area)));
      assert areas == init + [area];
      assert areas + [] == areas;
    }
  }

  // ---------- The printed report ----------

  lemma IntroIsNothing()
    ensures !IsItem(INTRO) && !IsHeading(INTRO)
  {
    assert INTRO[0] == 'T';
  }

  /** The text of an item, from the source's format. */
  lemma ItemText(info: Info)
    ensures ItemLine(info)
         == "-   [" + (if info.count < 10 then " " else "") + ToDecimal(info.count) + " dupes] "
            + ("https:" + "//github.com" + "/zed-industries" + "/zed" + "/issues/" + ToDecimal(info.number))
  {
    ConcatAssociative(REPOSITORY, "/issues/", ToDecimal(info.number));
  }

  /**
    In the printed text the headings stand by falling total, each area once, and from one heading to the next the items
    stand by falling count, those with one count in the order of the input.
   */
  lemma PrintedInOrder(infos: seq<Info>)
    requires Printable(infos)
    ensures var lines := Split(Join(BodyLines(infos), '\n'), '\n');
      && ItemsInOrder(lines, infos)
      && (forall i, j | 0 <= i < j < |Headings(lines)| ::
            && Headings(lines)[i] != Headings(lines)[j]
            && Total(infos, Headings(lines)[i]) >= Total(infos, Headings(lines)[j]))
      && (forall area :: area in Headings(lines) <==> exists info :: info in infos && area in info.areas)
  {
    hide Pairs, SortedAreas, SectionLines, ItemsInOrder, Headings, IsHeading, IsItem, TotalOf, Total;
    var ps := Pairs(infos);
    var areas := SortedAreas(ps);
    PrintedLines(infos);
    IntroIsNothing();
    SectionsInOrder(infos, [INTRO], areas);
    NoHeadings([INTRO]);
    HeadingsConcat([INTRO], SectionLines(ps, areas));
    SectionHeadings(ps, areas);
    assert [] + areas == areas;
    AreasFall(infos);
    AreasListed(infos);
  }

  lemma AreasFall(infos: seq<Info>)
    ensures var areas := SortedAreas(Pairs(infos));
      forall i, j | 0 <= i < j < |areas| :: areas[i] != areas[j] && Total(infos, areas[i]) >= Total(infos, areas[j])
  {
    hide Pairs, TotalOf, Total, AreaOrder, SortDescending;
    var ps := Pairs(infos);
    var areas := SortedAreas(ps);
    SortedAreasMeaning(ps);
    forall area {
      TotalMeaning(infos, area);
    }
  }

  lemma AreasListed(infos: seq<Info>)
    ensures forall area :: area in SortedAreas(Pairs(infos)) <==> exists info :: info in infos && area in info.areas
  {
    hide Pairs, SortedAreas, SortedInfos;
    forall area
      ensures area in SortedAreas(Pairs(infos)) <==> exists info :: info in infos && area in info.areas
    {
      if area in SortedAreas(Pairs(infos)) {
        AreaHasIssue(Pairs(infos), area);
        var info :| (area, info) in Pairs(infos);
        PairsMember(infos, area, info);
      }
      if info :| info in infos && area in info.areas {
        PairsMember(infos, area, info);
        SortedMembers(Pairs(infos), area, info);
      }
    }
  }
}
