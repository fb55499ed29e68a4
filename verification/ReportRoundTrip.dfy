/** The parser of the duplicate report, and the round trip from the issues printed to the magnets parsed. */
module ReportRoundTrip {
  import opened Outcomes
  import opened Keyed
  import opened Sequences
  import opened Text
  import opened DuplicateReport

  datatype Magnet = Magnet(number: int, areas: seq<string>, count: int)

  function NumberOf(m: Magnet): int {
    m.number
  }

  /** What the parser reads off one item line under an area heading. */
  datatype Hit = Hit(area: string, number: int, count: int)

  // ---------- Parsing ----------

  /** The numbers of an item line; any failure makes the parser skip the line. */
  function ParseItem(line: string): Option<(int, int)> {
    match (SecondPart(line, "["), SecondPart(line, ISSUES))
    case (Some(a), Some(b)) =>
      (match (FirstWord(a), FirstWord(b))
       case (Some(count), Some(number)) =>
         (match (ParseInt(count), ParseInt(TrimEndOf(number, ')')))
          case (Some(c), Some(n)) => Some((n, c))
          case _ => None)
       case _ => None)
    case _ => None
  }

  /** An issue seen again gets another area; "(unlabeled)" is not one. */
  function AddHit(ms: seq<Magnet>, h: Hit): seq<Magnet> {
    var area := if h.area == UNLABELED then [] else [h.area];
    Upsert(ms, NumberOf, Magnet(h.number, area, h.count), (m: Magnet) => m.(areas := m.areas + area))
  }

  /** The area in force, empty before the first heading, and the magnets so far. */
  datatype State = State(area: string, magnets: seq<Magnet>)

  function ParseLine(st: State, line: string): State {
    if "## " <= line then st.(area := Strip(line[3..]))
    else if st.area == "" || !("-" <= line) then st
    else
      match ParseItem(line)
      case Some((number, count)) => st.(magnets := AddHit(st.magnets, Hit(st.area, number, count)))
      case None => st
  }

  function ParseLines(st: State, lines: seq<string>): State {
    if lines == [] then st else ParseLine(ParseLines(st, lines[..|lines| - 1]), lines[|lines| - 1])
  }

  function ParseBody(body: string): seq<Magnet> {
    SortDescending(ParseLines(State("", []), Split(body, '\n')).magnets, (m: Magnet) => m.count)
  }

  /** `parse_duplicate_magnets` on the text of the tracking issue. */
  method ParseDuplicateMagnets(body: string) returns (r: seq<Magnet>)
    ensures r == ParseBody(body)
  {
    hide ParseItem, Strip, AddHit, Split, SortDescending;
    var lines := Split(body, '\n');
    var area, magnets := "", [];
    for i := 0 to |lines|
      invariant State(area, magnets) == ParseLines(State("", []), lines[..i])
    {
      assert lines[..i + 1][..i] == lines[..i];
      var line := lines[i];
      if "## " <= line {
        area := Strip(line[3..]);
      } else if area != "" && "-" <= line {
        var item := ParseItem(line);
        if item.Some? {
          magnets := AddHit(magnets, Hit(area, item.value.0, item.value.1));
        }
      }
    }
    assert lines[..|lines|] == lines;
    return SortDescending(magnets, (m: Magnet) => m.count);
  }

  // ---------- One item line ----------

  lemma DecimalWord(n: nat)
    ensures forall c | c in ToDecimal(n) :: !IsSpace(c)
    ensures '[' !in ToDecimal(n) && '/' !in ToDecimal(n)
    ensures TrimEndOf(ToDecimal(n), ')') == ToDecimal(n)
  {
    var s := ToDecimal(n);
    assert '0' <= s[|s| - 1] <= '9';
  }

  /** The word that follows at most one space. */
  lemma PaddedWord(pad: string, word: string, tail: string)
    requires pad == "" || pad == " "
    requires word != [] && forall c | c in word :: !IsSpace(c)
    ensures FirstWord(pad + word + " " + tail) == Some(word)
  {
    assert word[0] in word;
    var rest := word + (" " + tail);
    assert pad + word + " " + tail == pad + rest;
    assert TrimStart(rest) == rest;
    assert TrimStart(pad + rest) == rest by {
      assert pad == " " ==> (pad + rest)[1..] == rest;
      assert pad == "" ==> pad + rest == rest;
    }
    TakeWordOf(word, " " + tail);
  }

  /** The count is the first word after the bracket, whatever the padding. */
  lemma CountPart(count: nat, rest: string)
    ensures var line := "-   [" + Pad(count) + ToDecimal(count) + " " + rest;
      && SecondPart(line, "[").Some?
      && FirstWord(SecondPart(line, "[").value) == Some(ToDecimal(count))
  {
    hide IsSpace, FirstWord;
    var a := Pad(count) + ToDecimal(count) + " ";
    var line := "-   [" + Pad(count) + ToDecimal(count) + " " + rest;
    assert line == "-   " + ['['] + (a + rest);
    AfterFirstChar("-   ", '[', a + rest);
    DecimalWord(count);
    BeforeFirstPasses(a, rest, "[");
    PaddedWord(Pad(count), ToDecimal(count), BeforeFirst(rest, "["));
  }

  lemma PassesConcat(p: string, q: string, c: char, d: char)
    requires Passes(p, c, d) && Passes(q, c, d)
    ensures Passes(p + q, c, d)
  {
  }

  /** The number is the word after the path of the issues, the first occurrence of which is the one printed. */
  lemma NumberPart(before: string, number: nat)
    requires Passes(before, '/', 'i')
    ensures SecondPart(before + ISSUES + ToDecimal(number), ISSUES) == Some(ToDecimal(number))
  {
    var n := ToDecimal(number);
    DecimalWord(number);
    AfterFirstPasses(before, ISSUES, n);
    BeforeFirstPasses(n, "", ISSUES);
    assert n + "" == n;
  }

  lemma NumberWord(number: nat)
    ensures FirstWord(ToDecimal(number)) == Some(ToDecimal(number))
  {
    hide IsSpace;
    var n := ToDecimal(number);
    DecimalWord(number);
    TakeWordOf(n, "");
    assert n + "" == n;
    assert n[0] in n;
  }

  lemma RepositoryPasses()
    ensures Passes("-   [", '/', 'i') && Passes(" dupes] " + REPOSITORY, '/', 'i')
  {
    PassesConcat("https:", "//github.com", '/', 'i');
    PassesConcat(HOST, "/zed-industries", '/', 'i');
    PassesConcat(HOST + "/zed-industries", "/zed", '/', 'i');
    PassesConcat(" dupes] ", REPOSITORY, '/', 'i');
  }

  lemma ItemCount(info: Info)
    ensures var line := ItemLine(info);
      SecondPart(line, "[").Some? && FirstWord(SecondPart(line, "[").value) == Some(ToDecimal(info.count))
  {
    hide SecondPart, FirstWord, Url;
    var start := "-   [" + Pad(info.count) + ToDecimal(info.count);
    CountPart(info.count, "dupes] " + Url(info.number));
    assert ItemLine(info) == start + " " + ("dupes] " + Url(info.number));
  }

  lemma ItemNumber(info: Info)
    ensures SecondPart(ItemLine(info), ISSUES) == Some(ToDecimal(info.number))
  {
    hide SecondPart, Passes;
    var pad, count := Pad(info.count), ToDecimal(info.count);
    var start := "-   [" + pad + count;
    RepositoryPasses();
    NoSlashPasses(pad, info.count);
    PassesConcat("-   [", pad, '/', 'i');
    PassesConcat("-   [" + pad, count, '/', 'i');
    PassesConcat(start, " dupes] " + REPOSITORY, '/', 'i');
    NumberPart(start + (" dupes] " + REPOSITORY), info.number);
    assert ItemLine(info) == start + (" dupes] " + REPOSITORY) + ISSUES + ToDecimal(info.number);
  }

  /** The parser reads the printer's items back. */
  lemma ItemRoundTrip(info: Info)
    ensures ParseItem(ItemLine(info)) == Some((info.number, info.count))
    ensures "-" <= ItemLine(info) && !("## " <= ItemLine(info)) && '\n' !in ItemLine(info)
  {
    hide SecondPart, FirstWord, ParseInt, TrimEndOf, Passes, IsSpace, ItemLine;
    ItemCount(info);
    ItemNumber(info);
    NumberWord(info.number);
    ParseDecimal(info.count);
    ParseDecimal(info.number);
    DecimalWord(info.number);
    NoNewline(info);
    ItemStart(info);
  }

  lemma ItemStart(info: Info)
    ensures ItemLine(info) != [] && ItemLine(info)[0] == '-'
  {
    assert ("-   [" + Pad(info.count) + ToDecimal(info.count) + " dupes] ")[0] == '-';
  }

  lemma NoSlashPasses(pad: string, count: nat)
    requires '/' !in pad
    ensures Passes(pad, '/', 'i') && Passes(ToDecimal(count), '/', 'i')
  {
  }

  lemma NoNewline(info: Info)
    ensures '\n' !in ItemLine(info)
  {
  }

  // ---------- Collecting hits ----------

  function FoldHits(ms: seq<Magnet>, hits: seq<Hit>): seq<Magnet> {
    if hits == [] then ms else AddHit(FoldHits(ms, hits[..|hits| - 1]), hits[|hits| - 1])
  }

  lemma {:induction false} FoldConcat(ms: seq<Magnet>, a: seq<Hit>, b: seq<Hit>)
    ensures FoldHits(ms, a + b) == FoldHits(FoldHits(ms, a), b)
  {
    if b == [] {
      assert a + b == a;
    } else {
      assert (a + b)[..|a + b| - 1] == a + b[..|b| - 1];
      FoldConcat(ms, a, b[..|b| - 1]);
    }
  }

  lemma AddHitFind(ms: seq<Magnet>, h: Hit, number: int)
    ensures var area := if h.area == UNLABELED then [] else [h.area];
      Find(AddHit(ms, h), NumberOf, number)
      == if number != h.number then Find(ms, NumberOf, number)
         else match Find(ms, NumberOf, number)
           case Some(m) => Some(m.(areas := m.areas + area))
           case None => Some(Magnet(number, area, h.count))
  {
    var area := if h.area == UNLABELED then [] else [h.area];
    UpsertFind(ms, NumberOf, Magnet(h.number, area, h.count), (m: Magnet) => m.(areas := m.areas + area), number);
  }

  lemma AddHitUnique(ms: seq<Magnet>, h: Hit)
    requires Unique(ms, NumberOf)
    ensures Unique(AddHit(ms, h), NumberOf)
  {
    var area := if h.area == UNLABELED then [] else [h.area];
    UpsertUnique(ms, NumberOf, Magnet(h.number, area, h.count), (m: Magnet) => m.(areas := m.areas + area));
  }

  lemma {:induction false} FoldUnique(hits: seq<Hit>)
    ensures Unique(FoldHits([], hits), NumberOf)
  {
    if hits != [] {
      FoldUnique(hits[..|hits| - 1]);
      AddHitUnique(FoldHits([], hits[..|hits| - 1]), hits[|hits| - 1]);
    }
  }

  /** The areas that the hits give to an issue. */
  function AreasFor(hits: seq<Hit>, number: int): seq<string> {
    if hits == [] then []
    else
      var h := hits[|hits| - 1];
      AreasFor(hits[..|hits| - 1], number) + if h.number == number && h.area != UNLABELED then [h.area] else []
  }

  /** The count in the first hit of an issue. */
  function CountFor(hits: seq<Hit>, number: int): Option<int> {
    if hits == [] then None
    else
      match CountFor(hits[..|hits| - 1], number)
      case Some(c) => Some(c)
      case None => if hits[|hits| - 1].number == number then Some(hits[|hits| - 1].count) else None
  }

  lemma {:induction false} FoldFind(hits: seq<Hit>, number: int)
    ensures Find(FoldHits([], hits), NumberOf, number) == match CountFor(hits, number)
      case Some(c) => Some(Magnet(number, AreasFor(hits, number), c))
      case None => None
    ensures CountFor(hits, number).None? ==> AreasFor(hits, number) == []
  {
    if hits != [] {
      var before := hits[..|hits| - 1];
      var h := hits[|hits| - 1];
      FoldFind(before, number);
      AddHitFind(FoldHits([], before), h, number);
      var area := if h.area == UNLABELED then [] else [h.area];
      assert AreasFor(before, number) + [] == AreasFor(before, number);
      assert [] + area == area;
    }
  }

  lemma {:induction false} ForMeaning(hits: seq<Hit>, number: int)
    ensures forall area :: area in AreasFor(hits, number) <==>
      area != UNLABELED && exists h :: h in hits && h.number == number && h.area == area
    ensures CountFor(hits, number).Some? <==> exists h :: h in hits && h.number == number
    ensures CountFor(hits, number).Some? ==>
      exists h :: h in hits && h.number == number && h.count == CountFor(hits, number).value
  {
    if hits != [] {
      ForMeaning(hits[..|hits| - 1], number);
      assert hits == hits[..|hits| - 1] + [hits[|hits| - 1]];
    }
  }

  // ---------- The lines of the report ----------

  lemma {:induction false} ParseConcat(st: State, a: seq<string>, b: seq<string>)
    ensures ParseLines(st, a + b) == ParseLines(ParseLines(st, a), b)
  {
    if b == [] {
      assert a + b == a;
    } else {
      assert (a + b)[..|a + b| - 1] == a + b[..|b| - 1];
      ParseConcat(st, a, b[..|b| - 1]);
    }
  }

  lemma ParseHeader(st: State, area: string)
    ensures ParseLines(st, HeaderLines(area)) == State(Strip(area), st.magnets)
  {
    var lines := HeaderLines(area);
    assert lines[..2][..1] == [""] && lines[..2] == ["", "## " + area] && lines == lines[..2] + [""];
    assert ParseLine(st, "") == st;
    assert ParseLines(st, [""]) == st;
    assert ("## " + area)[3..] == area && "## " <= "## " + area;
    assert ParseLines(st, lines[..2]) == State(Strip(area), st.magnets);
  }

  function ItemHits(area: string, infos: seq<Info>): seq<Hit> {
    if infos == [] then []
    else ItemHits(area, infos[..|infos| - 1]) + [Hit(area, infos[|infos| - 1].number, infos[|infos| - 1].count)]
  }

  lemma {:induction false} ParseItems(st: State, infos: seq<Info>)
    ensures ParseLines(st, ItemLines(infos))
         == if st.area == "" then st else State(st.area, FoldHits(st.magnets, ItemHits(st.area, infos)))
  {
    hide ParseItem, ItemLine;
    if infos != [] {
      ParseItems(st, infos[..|infos| - 1]);
      ItemRoundTrip(infos[|infos| - 1]);
    }
  }

  /** The hits of the sections; a heading without a name has none. */
  function SectionHits(ps: seq<(string, Info)>, areas: seq<string>): seq<Hit> {
    if areas == [] then []
    else
      var area := areas[|areas| - 1];
      var hits := if Strip(area) == "" then [] else ItemHits(Strip(area), SortedInfos(ps, area));
      SectionHits(ps, areas[..|areas| - 1]) + hits
  }

  lemma {:induction false} ParseSections(st: State, ps: seq<(string, Info)>, areas: seq<string>)
    ensures ParseLines(st, SectionLines(ps, areas)).magnets == FoldHits(st.magnets, SectionHits(ps, areas))
  {
    hide HeaderLines, ItemLines, ItemHits, SortedInfos;
    if areas != [] {
      var before, area := areas[..|areas| - 1], areas[|areas| - 1];
      var items := ItemLines(SortedInfos(ps, area));
      ParseSections(st, ps, before);
      var st' := ParseLines(st, SectionLines(ps, before));
      ParseConcat(st, SectionLines(ps, before) + HeaderLines(area), items);
      ParseConcat(st, SectionLines(ps, before), HeaderLines(area));
      ParseHeader(st', area);
      ParseItems(State(Strip(area), st'.magnets), SortedInfos(ps, area));
      if Strip(area) == "" {
        assert SectionHits(ps, before) + [] == SectionHits(ps, before);
      } else {
        FoldConcat(st.magnets, SectionHits(ps, before), ItemHits(Strip(area), SortedInfos(ps, area)));
      }
    }
  }

  // ---------- What the hits are ----------

  lemma {:induction false} PairsMember(infos: seq<Info>, area: string, info: Info)
    ensures (area, info) in Pairs(infos) <==> info in infos && area in info.areas
  {
    if infos != [] {
      var last := infos[|infos| - 1];
      PairsMember(infos[..|infos| - 1], area, info);
      PairsOfMember(last.areas, last, area, info);
      assert infos == infos[..|infos| - 1] + [last];
    }
  }

  lemma {:induction false} PairsOfMember(areas: seq<string>, of: Info, area: string, info: Info)
    ensures (area, info) in PairsOf(areas, of) <==> info == of && area in areas
  {
    if areas != [] {
      PairsOfMember(areas[..|areas| - 1], of, area, info);
      assert areas == areas[..|areas| - 1] + [areas[|areas| - 1]];
    }
  }

  lemma {:induction false} SortedMembers(ps: seq<(string, Info)>, area: string, info: Info)
    ensures info in SortedInfos(ps, area) <==> (area, info) in ps
    ensures (area, info) in ps ==> area in SortedAreas(ps)
  {
    InfosOfMember(ps, area, info);
    SameMembers(SortedInfos(ps, area), InfosOf(ps, area), info);
    SameMembers(SortedAreas(ps), AreaOrder(ps), area);
  }

  lemma {:induction false} InfosOfMember(ps: seq<(string, Info)>, area: string, info: Info)
    ensures info in InfosOf(ps, area) <==> (area, info) in ps
    ensures (area, info) in ps ==> area in AreaOrder(ps)
  {
    if ps != [] {
      InfosOfMember(ps[..|ps| - 1], area, info);
      assert ps == ps[..|ps| - 1] + [ps[|ps| - 1]];
    }
  }

  lemma {:induction false} ItemHitsMember(area: string, infos: seq<Info>, h: Hit)
    ensures h in ItemHits(area, infos) <==>
      h.area == area && exists info :: info in infos && h.number == info.number && h.count == info.count
  {
    if infos != [] {
      ItemHitsMember(area, infos[..|infos| - 1], h);
      assert infos == infos[..|infos| - 1] + [infos[|infos| - 1]];
    }
  }

  /** The hit stands for the issue under its area. */
  predicate Shows(h: Hit, area: string, info: Info) {
    h.area == Strip(area) != "" && h.number == info.number && h.count == info.count
  }

  lemma {:induction false} HitsAreShown(ps: seq<(string, Info)>, areas: seq<string>, h: Hit)
    requires h in SectionHits(ps, areas)
    ensures exists area, info :: area in areas && (area, info) in ps && Shows(h, area, info)
  {
    hide SortedInfos, SortedAreas;
    var before, area := areas[..|areas| - 1], areas[|areas| - 1];
    if h in SectionHits(ps, before) {
      HitsAreShown(ps, before, h);
    } else {
      ItemHitsMember(Strip(area), SortedInfos(ps, area), h);
      var info :| info in SortedInfos(ps, area) && h.number == info.number && h.count == info.count;
      SortedMembers(ps, area, info);
      assert area in areas && Shows(h, area, info);
    }
  }

  lemma {:induction false} ShownAreHits(ps: seq<(string, Info)>, areas: seq<string>, h: Hit, area: string, info: Info)
    requires area in areas && (area, info) in ps && Shows(h, area, info)
    ensures h in SectionHits(ps, areas)
  {
    hide SortedInfos, SortedAreas;
    var before, last := areas[..|areas| - 1], areas[|areas| - 1];
    if area == last {
      SortedMembers(ps, area, info);
      ItemHitsMember(Strip(area), SortedInfos(ps, area), h);
    } else {
      ShownAreHits(ps, before, h, area, info);
    }
  }

  /** The hits of the whole report: one for every area of every issue that has a name. */
  lemma ReportHits(infos: seq<Info>, h: Hit)
    ensures h in SectionHits(Pairs(infos), SortedAreas(Pairs(infos))) <==>
      exists area, info :: info in infos && area in info.areas && Shows(h, area, info)
  {
    hide Shows, SortedAreas, Pairs, SectionHits;
    var ps := Pairs(infos);
    if h in SectionHits(ps, SortedAreas(ps)) {
      HitsAreShown(ps, SortedAreas(ps), h);
      var area, info :| (area, info) in ps && Shows(h, area, info);
      PairsMember(infos, area, info);
    }
    if area, info :| info in infos && area in info.areas && Shows(h, area, info) {
      PairsMember(infos, area, info);
      SortedMembers(ps, area, info);
      ShownAreHits(ps, SortedAreas(ps), h, area, info);
    }
  }

  // ---------- The round trip ----------

  /** Issues have different numbers, and no area name has a line break. */
  predicate Printable(infos: seq<Info>) {
    && (forall i, j | 0 <= i < j < |infos| :: infos[i].number != infos[j].number)
    && (forall info | info in infos :: forall area | area in info.areas :: '\n' !in area)
  }

  /** The area names that come back. */
  function ReadableAreas(info: Info): set<string> {
    set area | area in info.areas && Strip(area) != "" && Strip(area) != UNLABELED :: Strip(area)
  }

  /** The issue appears under some heading with a name. */
  predicate IsListed(info: Info) {
    exists area :: area in info.areas && Strip(area) != ""
  }

  predicate Recovers(m: Magnet, info: Info) {
    m.number == info.number && m.count == info.count && (set area | area in m.areas) == ReadableAreas(info)
  }

  lemma SameNumber(infos: seq<Info>, a: Info, b: Info)
    requires Printable(infos) && a in infos && b in infos && a.number == b.number
    ensures a == b
  {
  }

  /** The hits of one issue give its count and its readable areas. */
  lemma HitsOfIssue(infos: seq<Info>, hits: seq<Hit>, info: Info)
    requires Printable(infos) && info in infos
    requires forall h :: h in hits <==>
      exists area, of :: of in infos && area in of.areas && Shows(h, area, of)
    ensures CountFor(hits, info.number).Some? <==> IsListed(info)
    ensures CountFor(hits, info.number).Some? ==> CountFor(hits, info.number).value == info.count
    ensures (set area | area in AreasFor(hits, info.number)) == ReadableAreas(info)
  {
    hide CountFor, AreasFor, Strip;
    ForMeaning(hits, info.number);
    forall h | h in hits && h.number == info.number
      ensures h.count == info.count && exists area :: area in info.areas && Shows(h, area, info)
    {
      var area, of :| of in infos && area in of.areas && Shows(h, area, of);
      SameNumber(infos, of, info);
    }
    forall area | area in info.areas && Strip(area) != ""
      ensures Hit(Strip(area), info.number, info.count) in hits
    {
      assert Shows(Hit(Strip(area), info.number, info.count), area, info);
    }
    forall name
      ensures name in AreasFor(hits, info.number) <==> name in ReadableAreas(info)
    {
      if name in AreasFor(hits, info.number) {
        var h :| h in hits && h.number == info.number && h.area == name;
        var area :| area in info.areas && Shows(h, area, info);
      }
      if name in ReadableAreas(info) {
        var area :| area in info.areas && Strip(area) == name;
        assert Hit(name, info.number, info.count) in hits;
      }
    }
  }

  lemma {:induction false} SectionsOneLine(ps: seq<(string, Info)>, areas: seq<string>)
    requires forall area | area in areas :: '\n' !in area
    ensures forall line | line in SectionLines(ps, areas) :: '\n' !in line
  {
    if areas != [] {
      var area := areas[|areas| - 1];
      SectionsOneLine(ps, areas[..|areas| - 1]);
      ItemsOneLine(SortedInfos(ps, area));
      assert '\n' !in "## " + area;
    }
  }

  lemma {:induction false} ItemsOneLine(infos: seq<Info>)
    ensures forall line | line in ItemLines(infos) :: '\n' !in line
  {
    hide ItemLine;
    if infos != [] {
      ItemsOneLine(infos[..|infos| - 1]);
      ItemRoundTrip(infos[|infos| - 1]);
    }
  }

  lemma IntroLine()
    ensures '\n' !in INTRO && ParseLine(State("", []), INTRO) == State("", [])
  {
    assert INTRO[0] == 'T';
    assert '\n' !in "These are the issues that are " && '\n' !in "frequently re-reported. ";
    assert '\n' !in "The list is generated regularly " && '\n' !in "by running a script.";
  }

  /** The lines of the text are those that were joined. */
  lemma PrintedLines(infos: seq<Info>)
    requires Printable(infos)
    ensures Split(Join(BodyLines(infos), '\n'), '\n') == BodyLines(infos)
  {
    hide Pairs, SortedAreas, SectionLines, ParseLine;
    var ps := Pairs(infos);
    var areas := SortedAreas(ps);
    forall area | area in areas
      ensures '\n' !in area
    {
      AreaHasIssue(ps, area);
      var info :| (area, info) in ps;
      PairsMember(infos, area, info);
    }
    SectionsOneLine(ps, areas);
    IntroLine();
    SplitJoin(BodyLines(infos), '\n');
  }

  /** Parsing the printed report collects exactly the hits of its sections. */
  lemma ParsePrinted(infos: seq<Info>)
    requires Printable(infos)
    ensures var ps := Pairs(infos);
      ParseBody(Join(BodyLines(infos), '\n'))
      == SortDescending(FoldHits([], SectionHits(ps, SortedAreas(ps))), (m: Magnet) => m.count)
  {
    hide Pairs, SortedAreas, SectionLines, SectionHits, SortDescending, ParseLine;
    var ps := Pairs(infos);
    var areas := SortedAreas(ps);
    PrintedLines(infos);
    IntroLine();
    ParseConcat(State("", []), [INTRO], SectionLines(ps, areas));
    assert [INTRO][..0] == [];
    assert ParseLines(State("", []), [INTRO]) == State("", []);
    ParseSections(State("", []), ps, areas);
  }

  lemma AreaHasIssue(ps: seq<(string, Info)>, area: string)
    requires area in SortedAreas(ps)
    ensures exists info :: (area, info) in ps
  {
    SameMembers(SortedAreas(ps), AreaOrder(ps), area);
    OrderedHasIssue(ps, area);
  }

  lemma {:induction false} OrderedHasIssue(ps: seq<(string, Info)>, area: string)
    requires area in AreaOrder(ps)
    ensures exists info :: (area, info) in ps
  {
    if area in AreaOrder(ps[..|ps| - 1]) {
      OrderedHasIssue(ps[..|ps| - 1], area);
      var info :| (area, info) in ps[..|ps| - 1];
    } else {
      assert (area, ps[|ps| - 1].1) in ps;
    }
  }

  /** The hits of the report of `infos`, under their abstract description. */
  ghost predicate AreHits(infos: seq<Info>, hits: seq<Hit>) {
    forall h :: h in hits <==> exists area, of :: of in infos && area in of.areas && Shows(h, area, of)
  }

  lemma MagnetIsIssue(infos: seq<Info>, hits: seq<Hit>, m: Magnet)
    requires Printable(infos) && AreHits(infos, hits) && m in FoldHits([], hits)
    ensures exists info :: info in infos && IsListed(info) && Recovers(m, info)
  {
    hide CountFor, AreasFor, Shows, FoldHits, IsListed, ReadableAreas;
    FoldUnique(hits);
    FindMember(FoldHits([], hits), NumberOf, m);
    FoldFind(hits, m.number);
    ForMeaning(hits, m.number);
    var h :| h in hits && h.number == m.number;
    var area, info :| info in infos && area in info.areas && Shows(h, area, info);
    assert h.number == info.number by {
      ShowsNumber(h, area, info);
    }
    HitsOfIssue(infos, hits, info);
  }

  lemma ShowsNumber(h: Hit, area: string, info: Info)
    requires Shows(h, area, info)
    ensures h.number == info.number
  {
  }

  lemma IssueHasMagnet(infos: seq<Info>, hits: seq<Hit>, info: Info) returns (m: Magnet)
    requires Printable(infos) && AreHits(infos, hits) && info in infos && IsListed(info)
    ensures m in FoldHits([], hits) && Recovers(m, info)
  {
    hide CountFor, AreasFor, Shows, FoldHits, IsListed, ReadableAreas;
    HitsOfIssue(infos, hits, info);
    FoldFind(hits, info.number);
    m := Magnet(info.number, AreasFor(hits, info.number), CountFor(hits, info.number).value);
    FoldUnique(hits);
    FindMember(FoldHits([], hits), NumberOf, m);
  }

  /**
    Parsing the printed report gives exactly one magnet for each listed issue, by falling count, with its number, its
    count and its readable areas, and nothing else.
   */
  lemma ReportRoundTrip(infos: seq<Info>)
    requires Printable(infos)
    ensures var ms := ParseBody(Join(BodyLines(infos), '\n'));
      && Descending(ms, (m: Magnet) => m.count)
      && (forall i, j | 0 <= i < j < |ms| :: ms[i].number != ms[j].number)
      && (forall m | m in ms :: exists info :: info in infos && IsListed(info) && Recovers(m, info))
      && (forall info | info in infos && IsListed(info) :: exists m :: m in ms && Recovers(m, info))
  {
    hide Pairs, SortedAreas, SectionHits, IsListed, Recovers, ParseBody, BodyLines, AreHits;
    ParsePrinted(infos);
    MagnetsUnique(infos);
    var hits := SectionHits(Pairs(infos), SortedAreas(Pairs(infos)));
    var found := FoldHits([], hits);
    var ms := ParseBody(Join(BodyLines(infos), '\n'));
    SortIsDescending(found, (m: Magnet) => m.count);
    AllHits(infos);
    forall m | m in ms
      ensures exists info :: info in infos && IsListed(info) && Recovers(m, info)
    {
      SameMembers(ms, found, m);
      MagnetIsIssue(infos, hits, m);
    }
    forall info | info in infos && IsListed(info)
      ensures exists m :: m in ms && Recovers(m, info)
    {
      var m := IssueHasMagnet(infos, hits, info);
      SameMembers(ms, found, m);
    }
  }

  lemma AllHits(infos: seq<Info>)
    ensures AreHits(infos, SectionHits(Pairs(infos), SortedAreas(Pairs(infos))))
  {
    hide Shows, SortedAreas, Pairs, SectionHits;
    var hits := SectionHits(Pairs(infos), SortedAreas(Pairs(infos)));
    forall h
      ensures h in hits <==> exists area, of :: of in infos && area in of.areas && Shows(h, area, of)
    {
      ReportHits(infos, h);
    }
  }

  /** No two magnets of a report have the same number. */
  lemma MagnetsUnique(infos: seq<Info>)
    requires Printable(infos)
    ensures var ms := ParseBody(Join(BodyLines(infos), '\n'));
      forall i, j | 0 <= i < j < |ms| :: ms[i].number != ms[j].number
  {
    hide Pairs, SortedAreas, SectionHits, ParseBody, BodyLines, SortDescending;
    ParsePrinted(infos);
    var found := FoldHits([], SectionHits(Pairs(infos), SortedAreas(Pairs(infos))));
    FoldUnique(SectionHits(Pairs(infos), SortedAreas(Pairs(infos))));
    UniquePermuted(found, SortDescending(found, (m: Magnet) => m.count), NumberOf);
  }

  /** The areas of a magnet, in the order of the sections that show its issue. */
  lemma MagnetAreas(infos: seq<Info>, m: Magnet)
    requires Printable(infos) && m in ParseBody(Join(BodyLines(infos), '\n'))
    ensures m.areas == AreasFor(SectionHits(Pairs(infos), SortedAreas(Pairs(infos))), m.number)
  {
    hide Pairs, SortedAreas, SectionHits, ParseBody, BodyLines, SortDescending, FoldHits, AreasFor, CountFor;
    ParsePrinted(infos);
    var hits := SectionHits(Pairs(infos), SortedAreas(Pairs(infos)));
    var found := FoldHits([], hits);
    SameMembers(ParseBody(Join(BodyLines(infos), '\n')), found, m);
    FoldUnique(hits);
    FindMember(found, NumberOf, m);
    FoldFind(hits, m.number);
  }

  /** Stripping keeps exactly the names without white space at either end. */
  lemma StripKeeps(s: string)
    ensures Strip(s) == s <==> s == "" || (!IsSpace(s[0]) && !IsSpace(s[|s| - 1]))
  {
    TrimStartShortens(s);
    TrimEndShortens(TrimStart(s));
  }

  lemma {:induction false} TrimStartShortens(s: string)
    ensures if s == "" || !IsSpace(s[0]) then TrimStart(s) == s else |TrimStart(s)| < |s|
  {
    if s != "" && IsSpace(s[0]) {
      TrimStartShortens(s[1..]);
    }
  }

  lemma {:induction false} TrimEndShortens(s: string)
    ensures if s == "" || !IsSpace(s[|s| - 1]) then TrimEnd(s) == s else |TrimEnd(s)| < |s|
  {
    if s != "" && IsSpace(s[|s| - 1]) {
      TrimEndShortens(s[..|s| - 1]);
    }
  }

  /** Of an issue whose area names are trimmed and not empty, all of them come back except "(unlabeled)". */
  lemma TrimmedAreas(info: Info)
    requires info.areas != []
    requires forall area | area in info.areas :: area != "" && !IsSpace(area[0]) && !IsSpace(area[|area| - 1])
    ensures IsListed(info) && ReadableAreas(info) == (set area | area in info.areas) - {UNLABELED}
  {
    hide Strip, IsSpace;
    assert info.areas[0] in info.areas;
    forall area | area in info.areas
      ensures Strip(area) == area
    {
      StripKeeps(area);
    }
    forall area | area in info.areas && area != UNLABELED
      ensures area in ReadableAreas(info)
    {
      assert Strip(area) == area;
    }
  }
}
