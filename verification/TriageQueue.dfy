/**
  The second-line triage queue: the window of creation days that makes an issue eligible, and the board kept equal to
  the eligible issues. Days are numbered so that day 0 is a Monday.
 */
module TriageQueue {
  import opened Sequences

  /** `isoweekday`: Monday is 1. */
  function IsoWeekday(day: int): (w: int)
    ensures 1 <= w <= 7
  {
    day % 7 + 1
  }

  predicate IsBusinessDay(day: int) {
    IsoWeekday(day) <= 5
  }

  // ---------- The window ----------

  /** The inclusive first and last creation day of the eligible issues. */
  function EligibilityWindow(today: int): (int, int) {
    var weekday := IsoWeekday(today);
    var day := if weekday >= 6 then today - (weekday - 5) else today;
    var w := if weekday >= 6 then 5 else weekday;
    var monday := day - (w - 1);
    (monday - 4, day - if w <= 2 then 4 else 2)
  }

  predicate Eligible(created: int, today: int) {
    EligibilityWindow(today).0 <= created <= EligibilityWindow(today).1
  }

  /** The day that `today` is evaluated as: itself, or the Friday before a weekend. */
  function EvaluatedDay(today: int): int {
    if IsoWeekday(today) >= 6 then today - (IsoWeekday(today) - 5) else today
  }

  /** The day after two business days from a creation day on: when the issue becomes eligible. */
  function FirstEligibleDay(created: int): int {
    match IsoWeekday(created)
    case 4 => created + 4
    case 5 => created + 4
    case 6 => created + 4
    case 7 => created + 3
    case _ => created + 2
  }

  /** The Sunday before the weekly reset that drops the issue. */
  function LastEligibleDay(created: int): int {
    var w := IsoWeekday(created);
    created + if w >= 4 then 14 - w else 7 - w
  }

  /** A day is written as its week and its weekday. */
  lemma WeekSplit(day: int) returns (week: int, w: int)
    ensures day == 7 * week + w - 1 && 1 <= w <= 7 && IsoWeekday(day) == w
  {
    week, w := day / 7, IsoWeekday(day);
  }

  lemma WeekdayOf(week: int, w: int)
    requires 1 <= w <= 7
    ensures IsoWeekday(7 * week + w - 1) == w
  {
  }

  /** Every creation day is eligible on one unbroken, non-empty block of days, and on no other. */
  lemma EligibleBlock(created: int, today: int)
    ensures Eligible(created, today) <==> FirstEligibleDay(created) <= today <= LastEligibleDay(created)
    ensures FirstEligibleDay(created) <= LastEligibleDay(created)
  {
    var week, w := WeekSplit(created);
    var week', w' := WeekSplit(today);
  }

  /** The window is never empty, and neither end ever moves back. */
  lemma WindowMonotone(today: int, later: int)
    requires today <= later
    ensures EligibilityWindow(today).0 <= EligibilityWindow(today).1
    ensures EligibilityWindow(today).0 <= EligibilityWindow(later).0
    ensures EligibilityWindow(today).1 <= EligibilityWindow(later).1
  {
    var week, w := WeekSplit(today);
    var week', w' := WeekSplit(later);
  }

  /** A weekend is evaluated as its Friday, and the window begins on the Thursday before the week evaluated. */
  lemma WindowStart(today: int)
    ensures EvaluatedDay(today) ==
      if IsoWeekday(today) == 6 then today - 1 else if IsoWeekday(today) == 7 then today - 2 else today
    ensures IsoWeekday(EligibilityWindow(today).0) == 4
    ensures 4 <= EvaluatedDay(today) - EligibilityWindow(today).0 <= 8
  {
    var week, w := WeekSplit(today);
    WeekdayOf(week - 1, 4);
  }

  /** A whole business day has passed between the creation day and the day evaluated. */
  ghost predicate BusinessDayElapsed(created: int, evaluated: int) {
    exists day :: created < day < evaluated && IsBusinessDay(day)
  }

  /** Created on the weekend, evaluated on the Tuesday after it. */
  predicate WeekendToTuesday(created: int, evaluated: int) {
    IsoWeekday(evaluated) == 2 && evaluated - 3 <= created <= evaluated - 2
  }

  /** The last business day before a business day. */
  lemma BusinessDayBefore(evaluated: int) returns (before: int)
    requires IsBusinessDay(evaluated)
    ensures before == if IsoWeekday(evaluated) == 1 then evaluated - 3 else evaluated - 1
    ensures IsBusinessDay(before) && forall day | before < day < evaluated :: !IsBusinessDay(day)
  {
    var week, w := WeekSplit(evaluated);
    before := if w == 1 then evaluated - 3 else evaluated - 1;
    if w == 1 {
      WeekdayOf(week - 1, 5);
      WeekdayOf(week - 1, 6);
      WeekdayOf(week - 1, 7);
    } else {
      WeekdayOf(week, w - 1);
    }
  }

  /**
    A creation day is inside the end of the window exactly when a whole business day has elapsed, except that an issue
    created on the weekend is not let in on Tuesday, although Monday has passed.
   */
  lemma WindowEnd(created: int, today: int)
    ensures created <= EligibilityWindow(today).1 <==>
      BusinessDayElapsed(created, EvaluatedDay(today)) && !WeekendToTuesday(created, EvaluatedDay(today))
  {
    var evaluated := EvaluatedDay(today);
    var week, w := WeekSplit(today);
    assert IsBusinessDay(evaluated) by {
      if w >= 6 {
        WeekdayOf(week, 5);
      }
    }
    var before := BusinessDayBefore(evaluated);
    assert BusinessDayElapsed(created, evaluated) <==> created < before;
  }

  /** Saturday the 5th is not eligible on Tuesday the 8th, although Monday the 7th lies between. */
  lemma WeekendIssueWaits()
    ensures BusinessDayElapsed(5, EvaluatedDay(8)) && !Eligible(5, 8)
  {
    assert 5 < 7 < 8 && IsBusinessDay(7);
  }

  // ---------- The board ----------

  datatype Item = Item(id: nat, content: string)

  function Contents(items: seq<Item>): set<string> {
    set item | item in items :: item.content
  }

  /** The items without those of the given ids, in order. */
  function Drop(items: seq<Item>, ids: set<nat>): seq<Item> {
    if items == [] then []
    else
      var last := items[|items| - 1];
      Drop(items[..|items| - 1], ids) + (if last.id in ids then [] else [last])
  }

  /** The ids of the items whose issue is not eligible. */
  function Expired(items: seq<Item>, eligible: set<string>): set<nat> {
    set item | item in items && item.content !in eligible :: item.id
  }

  /** The items for eligible issues that are not on the board, numbered from `id` on. */
  function Missing(eligible: seq<string>, onBoard: set<string>, id: nat): (missing: seq<Item>)
    ensures forall i | 0 <= i < |missing| :: missing[i].id == id + i
  {
    if eligible == [] then []
    else
      var before, content := Missing(eligible[..|eligible| - 1], onBoard, id), eligible[|eligible| - 1];
      before + (if content in onBoard then [] else [Item(id + |before|, content)])
  }

  class Board {
    var items: seq<Item>
    var nextId: nat

    ghost predicate Valid()
      reads this
    {
      && (forall item | item in items :: item.id < nextId)
      && UniqueIds(items)
    }

    method Add(content: string)
      modifies this
      ensures items == old(items) + [Item(old(nextId), content)] && nextId == old(nextId) + 1
    {
      items, nextId := items + [Item(nextId, content)], nextId + 1;
    }

    method Remove(id: nat)
      modifies this`items
      ensures items == Drop(old(items), {id})
    {
      var kept := [];
      for i := 0 to |items|
        invariant items == old(items) && kept == Drop(items[..i], {id})
      {
        assert items[..i + 1][..i] == items[..i];
        if items[i].id != id {
          kept := kept + [items[i]];
        }
      }
      assert items[..|items|] == items;
      items := kept;
    }

    /** The first loop of `sync_project`. */
    method AddMissing(eligible: seq<string>, onBoard: set<string>, dryRun: bool)
      modifies this
      ensures items == old(items) + if dryRun then [] else Missing(eligible, onBoard, old(nextId))
      ensures |items| - nextId == |old(items)| - old(nextId)
    {
      hide Missing;
      ghost var added: seq<Item> := [];
      MissingStep(eligible, 0, onBoard, nextId);
      for i := 0 to |eligible|
        invariant added == (if dryRun then [] else Missing(eligible[..i], onBoard, old(nextId)))
        invariant items == old(items) + added && nextId == old(nextId) + |added|
      {
        MissingStep(eligible, i, onBoard, old(nextId));
        if eligible[i] !in onBoard && !dryRun {
          ConcatAssociative(old(items), added, [Item(nextId, eligible[i])]);
          added := added + [Item(nextId, eligible[i])];
          Add(eligible[i]);
        }
      }
      assert eligible[..|eligible|] == eligible;
    }

    /** The second loop of `sync_project`, over the items that were there before. */
    method RemoveExpired(current: seq<Item>, eligible: set<string>, dryRun: bool)
      modifies this`items
      ensures items == if dryRun then old(items) else Drop(old(items), Expired(current, eligible))
    {
      DropNone(items);
      assert Expired(current[..0], eligible) == {};
      for i := 0 to |current|
        invariant dryRun ==> items == old(items)
        invariant !dryRun ==> items == Drop(old(items), Expired(current[..i], eligible))
      {
        ghost var before, after := Expired(current[..i], eligible), Expired(current[..i + 1], eligible);
        assert current[..i + 1] == current[..i] + [current[i]];
        ExpiredAppend(current[..i], current[i], eligible);
        if current[i].content !in eligible && !dryRun {
          DropTwice(old(items), before, {current[i].id});
          assert after == before + {current[i].id};
          Remove(current[i].id);
        } else if current[i].content in eligible {
          assert after == before;
        }
      }
      assert current[..|current|] == current;
    }

    /** `sync_project` with the eligible issues; a dry run changes nothing. */
    method Sync(eligible: seq<string>, dryRun: bool)
      requires Valid()
      modifies this
      ensures Valid()
      ensures dryRun ==> items == old(items)
      ensures !dryRun ==> items == Synced(old(items), eligible, old(nextId))
    {
      var current := items;
      var onBoard := Contents(current);
      AddMissing(eligible, onBoard, dryRun);
      RemoveExpired(current, Members(eligible), dryRun);
      if !dryRun {
        var added, expired := Missing(eligible, onBoard, old(nextId)), Expired(current, Members(eligible));
        DropConcat(current, added, expired);
        DropAbsent(added, expired);
        SyncedUnique(current, eligible, old(nextId));
      }
    }
  }

  /** The board after a sync: the items still eligible, then one for each eligible issue that was missing. */
  function Synced(items: seq<Item>, eligible: seq<string>, nextId: nat): seq<Item> {
    Drop(items, Expired(items, Members(eligible))) + Missing(eligible, Contents(items), nextId)
  }

  function Members(contents: seq<string>): set<string> {
    set c | c in contents
  }

  lemma ExpiredAppend(items: seq<Item>, item: Item, eligible: set<string>)
    ensures Expired(items + [item], eligible)
         == Expired(items, eligible) + if item.content in eligible then {} else {item.id}
  {
    assert forall x :: x in items + [item] <==> x in items || x == item;
  }

  lemma {:induction false} DropNone(items: seq<Item>)
    ensures Drop(items, {}) == items
  {
    if items != [] {
      DropNone(items[..|items| - 1]);
    }
  }

  lemma {:induction false} DropTwice(items: seq<Item>, a: set<nat>, b: set<nat>)
    ensures Drop(Drop(items, a), b) == Drop(items, a + b)
  {
    if items != [] {
      var init, last := items[..|items| - 1], items[|items| - 1];
      DropTwice(init, a, b);
      assert (Drop(init, a) + [last])[..|Drop(init, a)|] == Drop(init, a);
      assert Drop(init, a) + [] == Drop(init, a);
    }
  }

  lemma {:induction false} DropConcat(a: seq<Item>, b: seq<Item>, ids: set<nat>)
    ensures Drop(a + b, ids) == Drop(a, ids) + Drop(b, ids)
  {
    if b == [] {
      assert a + b == a;
    } else {
      assert (a + b)[..|a + b| - 1] == a + b[..|b| - 1];
      DropConcat(a, b[..|b| - 1], ids);
    }
  }

  lemma {:induction false} DropAbsent(items: seq<Item>, ids: set<nat>)
    requires forall i | 0 <= i < |items| :: items[i].id !in ids
    ensures Drop(items, ids) == items
  {
    if items != [] {
      var init, last := items[..|items| - 1], items[|items| - 1];
      DropAbsent(init, ids);
      assert items == init + [last];
    }
  }

  lemma MissingStep(eligible: seq<string>, i: nat, onBoard: set<string>, id: nat)
    ensures Missing(eligible[..0], onBoard, id) == []
    ensures i < |eligible| ==>
      var before := Missing(eligible[..i], onBoard, id);
      Missing(eligible[..i + 1], onBoard, id) ==
        if eligible[i] in onBoard then before else before + [Item(id + |before|, eligible[i])]
  {
    if i < |eligible| {
      assert eligible[..i + 1][..i] == eligible[..i];
      assert Missing(eligible[..i], onBoard, id) + [] == Missing(eligible[..i], onBoard, id);
    }
  }

  lemma {:induction false} MissingContents(eligible: seq<string>, onBoard: set<string>, id: nat)
    ensures Contents(Missing(eligible, onBoard, id)) == Members(eligible) - onBoard
  {
    hide Contents, Members;
    if eligible == [] {
      ContentsConcat([], []);
      MembersAppend([], "");
    } else {
      var init, last := eligible[..|eligible| - 1], eligible[|eligible| - 1];
      var before := Missing(init, onBoard, id);
      MissingContents(init, onBoard, id);
      assert eligible == init + [last];
      MembersAppend(init, last);
      if last in onBoard {
        assert Missing(eligible, onBoard, id) == before + [] == before;
      } else {
        ContentsConcat(before, [Item(id + |before|, last)]);
      }
    }
  }

  lemma MembersAppend(contents: seq<string>, c: string)
    ensures Members(contents + [c]) == Members(contents) + {c}
    ensures Members([]) == {}
  {
    assert forall x :: x in contents + [c] <==> x in contents || x == c;
  }

  lemma ContentsConcat(a: seq<Item>, b: seq<Item>)
    ensures Contents(a + b) == Contents(a) + Contents(b)
    ensures |b| == 1 ==> Contents(b) == {b[0].content}
    ensures Contents([]) == {}
  {
    assert forall x :: x in a + b <==> x in a || x in b;
  }

  lemma {:induction false} DropMember(items: seq<Item>, ids: set<nat>, item: Item)
    ensures item in Drop(items, ids) <==> item in items && item.id !in ids
  {
    if items != [] {
      DropMember(items[..|items| - 1], ids, item);
      assert items == items[..|items| - 1] + [items[|items| - 1]];
    }
  }

  /** The ids of the items differ. */
  predicate UniqueIds(items: seq<Item>) {
    forall i, j | 0 <= i < j < |items| :: items[i].id != items[j].id
  }

  lemma SyncedUnique(items: seq<Item>, eligible: seq<string>, nextId: nat)
    requires UniqueIds(items) && forall item | item in items :: item.id < nextId
    ensures UniqueIds(Synced(items, eligible, nextId))
    ensures forall item | item in Synced(items, eligible, nextId) ::
      item.id < nextId + |Missing(eligible, Contents(items), nextId)|
  {
    var kept, added := Drop(items, Expired(items, Members(eligible))), Missing(eligible, Contents(items), nextId);
    DropUnique(items, Expired(items, Members(eligible)), nextId);
    var synced: seq<Item> := kept + added;
    assert synced == Synced(items, eligible, nextId);
    forall i | 0 <= i < |synced|
      ensures synced[i].id < nextId + |added|
      ensures i < |kept| ==> synced[i] == kept[i] && kept[i].id < nextId
      ensures i >= |kept| ==> synced[i].id == nextId + (i - |kept|)
    {
    }
  }

  lemma {:induction false} DropUnique(items: seq<Item>, ids: set<nat>, bound: nat)
    requires UniqueIds(items) && forall i | 0 <= i < |items| :: items[i].id < bound
    ensures UniqueIds(Drop(items, ids))
    ensures forall item | item in Drop(items, ids) :: item in items
    ensures forall i | 0 <= i < |Drop(items, ids)| :: Drop(items, ids)[i].id < bound
  {
    if items != [] {
      var init, last := items[..|items| - 1], items[|items| - 1];
      DropUnique(init, ids, bound);
      forall i | 0 <= i < |Drop(init, ids)|
        ensures Drop(init, ids)[i].id != last.id
      {
        assert Drop(init, ids)[i] in init;
      }
    }
  }

  lemma SameId(items: seq<Item>, a: Item, b: Item)
    requires UniqueIds(items) && a in items && b in items && a.id == b.id
    ensures a == b
  {
  }

  /** After a sync the board holds exactly the eligible issues, and every item of an eligible issue has stayed. */
  lemma SyncedBoard(items: seq<Item>, eligible: seq<string>, nextId: nat)
    requires UniqueIds(items)
    ensures Contents(Synced(items, eligible, nextId)) == Members(eligible)
    ensures forall item | item in items && item.content in Members(eligible) :: item in Synced(items, eligible, nextId)
  {
    var expired := Expired(items, Members(eligible));
    var kept := Drop(items, expired);
    forall item
      ensures item in kept <==> item in items && item.content in Members(eligible)
    {
      DropMember(items, expired, item);
      if item in items && item.id in expired {
        var other :| other in items && other.content !in Members(eligible) && other.id == item.id;
        SameId(items, item, other);
      }
    }
    MissingContents(eligible, Contents(items), nextId);
    ContentsConcat(kept, Missing(eligible, Contents(items), nextId));
  }

  // ---------- One item for each issue ----------

  predicate OnePerIssue(items: seq<Item>) {
    forall i, j | 0 <= i < j < |items| :: items[i].content != items[j].content
  }

  predicate NoRepeats(contents: seq<string>) {
    forall i, j | 0 <= i < j < |contents| :: contents[i] != contents[j]
  }

  lemma OnePerIssueAppend(items: seq<Item>, item: Item)
    requires OnePerIssue(items) && item.content !in Contents(items)
    ensures OnePerIssue(items + [item])
  {
    forall i | 0 <= i < |items|
      ensures items[i].content != item.content
    {
      assert items[i] in items;
    }
  }

  lemma {:induction false} OnePerIssueConcat(a: seq<Item>, b: seq<Item>)
    requires OnePerIssue(a) && OnePerIssue(b) && Contents(a) !! Contents(b)
    ensures OnePerIssue(a + b)
  {
    hide Contents;
    if b == [] {
      assert a + b == a;
    } else {
      var init, last := b[..|b| - 1], b[|b| - 1];
      assert b == init + [last];
      ContentsConcat(init, [last]);
      OnePerIssueConcat(a, init);
      ContentsConcat(a, init);
      LastIsNew(b);
      OnePerIssueAppend(a + init, last);
      assert a + b == a + init + [last];
    }
  }

  lemma LastIsNew(items: seq<Item>)
    requires items != [] && OnePerIssue(items)
    ensures items[|items| - 1].content !in Contents(items[..|items| - 1])
  {
  }

  lemma {:induction false} OnePerIssueSize(items: seq<Item>)
    requires OnePerIssue(items)
    ensures |Contents(items)| == |items|
  {
    if items == [] {
      assert Contents(items) == {};
    } else {
      var init, last := items[..|items| - 1], items[|items| - 1];
      OnePerIssueSize(init);
      LastIsNew(items);
      assert items == init + [last];
      ContentsConcat(init, [last]);
    }
  }

  lemma {:induction false} NoRepeatsSize(contents: seq<string>)
    requires NoRepeats(contents)
    ensures |Members(contents)| == |contents|
  {
    hide Members;
    if contents == [] {
      MembersAppend([], "");
    } else {
      var init, last := contents[..|contents| - 1], contents[|contents| - 1];
      NoRepeatsSize(init);
      assert contents == init + [last];
      MembersAppend(init, last);
      IsNew(init, last);
    }
  }

  lemma IsNew(contents: seq<string>, c: string)
    requires forall i | 0 <= i < |contents| :: contents[i] != c
    ensures c !in Members(contents)
  {
  }

  lemma {:induction false} DropOnePerIssue(items: seq<Item>, ids: set<nat>)
    requires OnePerIssue(items)
    ensures OnePerIssue(Drop(items, ids)) && Contents(Drop(items, ids)) <= Contents(items)
  {
    if items != [] {
      var init, last := items[..|items| - 1], items[|items| - 1];
      DropOnePerIssue(init, ids);
      LastIsNew(items);
      assert items == init + [last];
      ContentsConcat(init, [last]);
      if last.id in ids {
        assert Drop(items, ids) == Drop(init, ids);
      } else {
        ContentsConcat(Drop(init, ids), [last]);
        OnePerIssueAppend(Drop(init, ids), last);
      }
    }
  }

  lemma {:induction false} MissingOnePerIssue(eligible: seq<string>, onBoard: set<string>, id: nat)
    requires NoRepeats(eligible)
    ensures OnePerIssue(Missing(eligible, onBoard, id))
  {
    if eligible != [] {
      var init, last := eligible[..|eligible| - 1], eligible[|eligible| - 1];
      var before := Missing(init, onBoard, id);
      MissingOnePerIssue(init, onBoard, id);
      MissingContents(init, onBoard, id);
      IsNew(init, last);
      if last in onBoard {
        assert Missing(eligible, onBoard, id) == before + [] == before;
      } else {
        OnePerIssueAppend(before, Item(id + |before|, last));
      }
    }
  }

  /** If no issue has two items, then after a sync each eligible issue, and nothing else, has exactly one. */
  lemma SyncedOnce(items: seq<Item>, eligible: seq<string>, nextId: nat)
    requires UniqueIds(items) && OnePerIssue(items) && NoRepeats(eligible)
    ensures var synced := Synced(items, eligible, nextId);
      OnePerIssue(synced) && Contents(synced) == Members(eligible) && |synced| == |eligible|
  {
    hide Drop, Missing, Contents, Members, Expired, OnePerIssue, UniqueIds, NoRepeats;
    var kept := Drop(items, Expired(items, Members(eligible)));
    var added := Missing(eligible, Contents(items), nextId);
    DropOnePerIssue(items, Expired(items, Members(eligible)));
    MissingOnePerIssue(eligible, Contents(items), nextId);
    MissingContents(eligible, Contents(items), nextId);
    OnePerIssueConcat(kept, added);
    SyncedBoard(items, eligible, nextId);
    OnePerIssueSize(kept + added);
    NoRepeatsSize(eligible);
  }

  /** Syncing a board that holds exactly the eligible issues changes nothing. */
  lemma SyncAgain(items: seq<Item>, eligible: seq<string>, nextId: nat)
    requires Contents(items) == Members(eligible)
    ensures Synced(items, eligible, nextId) == items
  {
    assert Expired(items, Members(eligible)) == {} by {
      forall item | item in items
        ensures item.content in Members(eligible)
      {
        assert item.content in Contents(items);
      }
    }
    DropNone(items);
    NoneMissing(eligible, Contents(items), nextId);
  }

  lemma {:induction false} NoneMissing(eligible: seq<string>, onBoard: set<string>, id: nat)
    requires forall c | c in eligible :: c in onBoard
    ensures Missing(eligible, onBoard, id) == []
  {
    if eligible != [] {
      NoneMissing(eligible[..|eligible| - 1], onBoard, id);
    }
  }
}
