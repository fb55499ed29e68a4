/**
  The report of frequently duplicated issues: one script prints it as Markdown, another parses it back. `hits` are
  the (area, number, count) triples that the parser reads off the item lines.
 */
module DuplicateReport {
  import opened Outcomes
  import opened Sequences
  import opened Text

  const UNLABELED := "(unlabeled)"
  const AREA := "area:"
  const HOST := "https:" + "//github.com"
  const REPOSITORY := HOST + "/zed-industries" + "/zed"
  const ISSUES := "/issues/"
  const INTRO := "These are the issues that are " + "frequently re-reported. " + "The list is generated regularly "
    + "by running a script."

  datatype Info = Info(number: nat, areas: seq<string>, count: nat)

  // ---------- Extraction ----------

  /** A duplicate event, `None` standing for one without a readable issue; `closed` is the state of the duplicate. */
  datatype DuplicateEvent = DuplicateEvent(number: nat, closed: bool)

  function ClosedDuplicates(events: seq<Option<DuplicateEvent>>): (numbers: set<nat>)
    ensures forall n :: n in numbers <==> Some(DuplicateEvent(n, true)) in events
  {
    if events == [] then {}
    else
      var e := events[|events| - 1];
      assert events == events[..|events| - 1] + [e];
      ClosedDuplicates(events[..|events| - 1]) + if e.Some? && e.value.closed then {e.value.number} else {}
  }

  /** The names in the area labels, in order. */
  function AreaNames(labels: seq<string>): seq<string> {
    if labels == [] then []
    else
      var last := labels[|labels| - 1];
      AreaNames(labels[..|labels| - 1]) + if AREA <= last then [RemoveAll(last, AREA)] else []
  }

  /** `extract_duplicate_info`: an issue counts from two different closed duplicates on. */
  method ExtractInfo(number: nat, labels: seq<string>, events: seq<Option<DuplicateEvent>>)
    returns (info: Option<Info>)
    ensures var seen, areas := ClosedDuplicates(events), AreaNames(labels);
      info == if |seen| < 2 then None else Some(Info(number, if areas == [] then [UNLABELED] else areas, |seen|))
  {
    var seen: set<nat> := {};
    for i := 0 to |events|
      invariant seen == ClosedDuplicates(events[..i])
    {
      assert events[..i + 1][..i] == events[..i];
      if events[i].Some? && events[i].value.closed {
        seen := seen + {events[i].value.number};
      }
    }
    assert events[..|events|] == events;
    if |seen| < 2 {
      return None;
    }
    var areas := [];
    for i := 0 to |labels|
      invariant areas == AreaNames(labels[..i])
    {
      assert labels[..i + 1][..i] == labels[..i];
      if AREA <= labels[i] {
        areas := areas + [RemoveAll(labels[i], AREA)];
      }
    }
    assert labels[..|labels|] == labels;
    return Some(Info(number, if areas == [] then [UNLABELED] else areas, |seen|));
  }

  /** The names come from the area labels alone, in their order, each without its prefix. */
  lemma {:induction false} AreaNamesMeaning(a: seq<string>, b: seq<string>, name: string)
    ensures AreaNames(a + b) == AreaNames(a) + AreaNames(b) && AreaNames([]) == []
    ensures |b| == 1 && !("area:" <= b[0]) ==> AreaNames(b) == []
    ensures |b| == 1 && b[0] == "area:" + name ==>
      |AreaNames(b)| == 1 && (AreaNames(b)[0] == name <==> RemoveAll(name, "area:") == name)
  {
    hide RemoveAll;
    if b == [] {
      assert a + b == a;
    } else {
      assert (a + b)[..|a + b| - 1] == a + b[..|b| - 1];
      AreaNamesMeaning(a, b[..|b| - 1], name);
      RemovePrefix("area:", name);
    }
  }

  // ---------- Printing ----------

  function PairsOf(areas: seq<string>, info: Info): seq<(string, Info)> {
    if areas == [] then [] else PairsOf(areas[..|areas| - 1], info) + [(areas[|areas| - 1], info)]
  }

  /** Every issue with every one of its areas, in order. */
  function Pairs(infos: seq<Info>): seq<(string, Info)> {
    if infos == [] then []
    else Pairs(infos[..|infos| - 1]) + PairsOf(infos[|infos| - 1].areas, infos[|infos| - 1])
  }

  /** The areas in order of first appearance. */
  function AreaOrder(ps: seq<(string, Info)>): seq<string> {
    if ps == [] then []
    else
      var before, area := AreaOrder(ps[..|ps| - 1]), ps[|ps| - 1].0;
      if area in before then before else before + [area]
  }

  /** `by_area[area]` and `area_totals[area]`. */
  function InfosOf(ps: seq<(string, Info)>, area: string): seq<Info> {
    if ps == [] then []
    else InfosOf(ps[..|ps| - 1], area) + if ps[|ps| - 1].0 == area then [ps[|ps| - 1].1] else []
  }

  function TotalOf(ps: seq<(string, Info)>, area: string): nat {
    if ps == [] then 0
    else TotalOf(ps[..|ps| - 1], area) + if ps[|ps| - 1].0 == area then ps[|ps| - 1].1.count else 0
  }

  function SortedAreas(ps: seq<(string, Info)>): seq<string> {
    SortDescending(AreaOrder(ps), area => TotalOf(ps, area))
  }

  function SortedInfos(ps: seq<(string, Info)>, area: string): seq<Info> {
    SortDescending(InfosOf(ps, area), (info: Info) => info.count)
  }

  function Url(number: nat): string {
    REPOSITORY + ISSUES + ToDecimal(number)
  }

  /** The padding of `{count:2d}`. */
  function Pad(count: nat): string {
    if count < 10 then " " else ""
  }

  /** `f"-   [{count:2d} dupes] {url}"`. */
  function ItemLine(info: Info): string {
    "-   [" + Pad(info.count) + ToDecimal(info.count) + " dupes] " + Url(info.number)
  }

  function ItemLines(infos: seq<Info>): seq<string> {
    if infos == [] then [] else ItemLines(infos[..|infos| - 1]) + [ItemLine(infos[|infos| - 1])]
  }

  function HeaderLines(area: string): seq<string> {
    ["", "## " + area, ""]
  }

  function SectionLines(ps: seq<(string, Info)>, areas: seq<string>): seq<string> {
    if areas == [] then []
    else
      var area := areas[|areas| - 1];
      SectionLines(ps, areas[..|areas| - 1]) + HeaderLines(area) + ItemLines(SortedInfos(ps, area))
  }

  function BodyLines(infos: seq<Info>): seq<string> {
    [INTRO] + SectionLines(Pairs(infos), SortedAreas(Pairs(infos)))
  }

  /** The dictionary of issues by area and the counter of totals agree with the pairs seen. */
  ghost predicate Indexed(
    ps: seq<(string, Info)>, byArea: map<string, seq<Info>>, totals: map<string, nat>, order: seq<string>)
  {
    && order == AreaOrder(ps)
    && (forall area :: area in order <==> area in byArea)
    && (forall area :: area in order <==> area in totals)
    && (forall area :: InfosOf(ps, area) == if area in byArea then byArea[area] else [])
    && (forall area :: TotalOf(ps, area) == if area in totals then totals[area] else 0)
  }

  lemma IndexEmpty()
    ensures Indexed([], map[], map[], [])
  {
  }

  lemma IndexStep(
    ps: seq<(string, Info)>, byArea: map<string, seq<Info>>, totals: map<string, nat>, order: seq<string>,
    area: string, info: Info)
    requires Indexed(ps, byArea, totals, order)
    ensures Indexed(
        ps + [(area, info)],
        byArea[area := (if area in byArea then byArea[area] else []) + [info]],
        totals[area := (if area in totals then totals[area] else 0) + info.count],
        if area in totals then order else order + [area])
  {
    hide AreaOrder, InfosOf, TotalOf;
    var ps' := ps + [(area, info)];
    PairStep(ps, area, info, area);
    forall x
      ensures InfosOf(ps', x) == if x == area then InfosOf(ps, x) + [info] else InfosOf(ps, x)
      ensures TotalOf(ps', x) == if x == area then TotalOf(ps, x) + info.count else TotalOf(ps, x)
    {
      PairStep(ps, area, info, x);
    }
  }

  lemma PairStep(ps: seq<(string, Info)>, area: string, info: Info, x: string)
    ensures var ps' := ps + [(area, info)];
      && AreaOrder(ps') == (if area in AreaOrder(ps) then AreaOrder(ps) else AreaOrder(ps) + [area])
      && InfosOf(ps', x) == (if x == area then InfosOf(ps, x) + [info] else InfosOf(ps, x))
      && TotalOf(ps', x) == (if x == area then TotalOf(ps, x) + info.count else TotalOf(ps, x))
  {
    var ps' := ps + [(area, info)];
    assert ps'[..|ps'| - 1] == ps;
    assert InfosOf(ps, x) + [] == InfosOf(ps, x);
  }

  /** The first loop of `build_markdown_body`. */
  method GroupByArea(infos: seq<Info>)
    returns (byArea: map<string, seq<Info>>, totals: map<string, nat>, order: seq<string>)
    ensures Indexed(Pairs(infos), byArea, totals, order)
  {
    hide Indexed;
    byArea, totals, order := map[], map[], [];
    IndexEmpty();
    ghost var ps: seq<(string, Info)> := [];
    for i := 0 to |infos|
      invariant ps == Pairs(infos[..i]) && Indexed(ps, byArea, totals, order)
    {
      var info := infos[i];
      assert infos[..i + 1][..i] == infos[..i];
      ghost var before := ps;
      for j := 0 to |info.areas|
        invariant ps == before + PairsOf(info.areas[..j], info) && Indexed(ps, byArea, totals, order)
      {
        var area := info.areas[j];
        assert info.areas[..j + 1][..j] == info.areas[..j];
        ConcatAssociative(before, PairsOf(info.areas[..j], info), [(area, info)]);
        IndexStep(ps, byArea, totals, order, area, info);
        ps := ps + [(area, info)];
        byArea := byArea[area := (if area in byArea then byArea[area] else []) + [info]];
        if area !in totals {
          order := order + [area];
        }
        totals := totals[area := (if area in totals then totals[area] else 0) + info.count];
      }
      assert info.areas[..|info.areas|] == info.areas;
    }
    assert infos[..|infos|] == infos;
  }

  method FormatItems(issues: seq<Info>) returns (lines: seq<string>)
    ensures lines == ItemLines(issues)
  {
    lines := [];
    for j := 0 to |issues|
      invariant lines == ItemLines(issues[..j])
    {
      assert issues[..j + 1][..j] == issues[..j];
      lines := lines + [ItemLine(issues[j])];
    }
    assert issues[..|issues|] == issues;
  }

  /** `build_markdown_body`. */
  method BuildMarkdownBody(infos: seq<Info>) returns (body: string)
    ensures body == Join(BodyLines(infos), '\n')
  {
    hide AreaOrder, InfosOf, TotalOf, SortDescending, ItemLines;
    ghost var ps := Pairs(infos);
    var byArea, totals, order := GroupByArea(infos);
    var total := (area: string) => if area in totals then totals[area] else 0;
    var areas := SortDescending(order, total);
    SortSameKey(order, total, area => TotalOf(ps, area));
    var lines := [INTRO];
    for i := 0 to |areas|
      invariant lines == [INTRO] + SectionLines(ps, areas[..i])
    {
      var area := areas[i];
      assert areas[..i + 1][..i] == areas[..i];
      var issues := SortDescending(if area in byArea then byArea[area] else [], (info: Info) => info.count);
      assert issues == SortedInfos(ps, area);
      var items := FormatItems(issues);
      ConcatAssociative([INTRO], SectionLines(ps, areas[..i]), HeaderLines(area));
      ConcatAssociative([INTRO], SectionLines(ps, areas[..i]) + HeaderLines(area), items);
      lines := lines + HeaderLines(area) + items;
    }
    assert areas[..|areas|] == areas;
    body := Join(lines, '\n');
  }

  lemma {:induction false} SortSameKey<T(!new)>(xs: seq<T>, f: T -> int, g: T -> int)
    requires forall x :: f(x) == g(x)
    ensures SortDescending(xs, f) == SortDescending(xs, g)
  {
    if xs != [] {
      SortSameKey(xs[1..], f, g);
      InsertSameKey(xs[0], SortDescending(xs[1..], f), f, g);
    }
  }

  lemma {:induction false} InsertSameKey<T(!new)>(x: T, xs: seq<T>, f: T -> int, g: T -> int)
    requires forall x :: f(x) == g(x)
    ensures InsertDescending(x, xs, f) == InsertDescending(x, xs, g)
  {
    if xs != [] {
      InsertSameKey(x, xs[1..], f, g);
    }
  }
}
