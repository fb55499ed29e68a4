/**
  The triage state derived from an issue: its status, the time its aging is measured from, and whether it has aged.
  Times are in seconds.
 */
module TriageStatus {
  import opened Outcomes

  datatype User = User(login: string, kind: string)
  datatype Comment = Comment(user: User, body: string, createdAt: Option<int>)
  datatype Issue = Issue(
    closedAt: Option<int>,
    createdAt: int,
    reporter: string,
    assignees: seq<string>,
    labels: set<string>,
    comments: seq<Comment>)

  datatype Status =
    | NeedsLabels
    | NeedsReproAttempt
    | NeedsAsk
    | UserReplied
    | AwaitingUser
    | RespondedNoRepro
    | AwaitingExternalRepro
    | Reproducible
    | Handoff
    | HandoffIncomplete
    | ClaimedCommunity
    | Closed
    | Unknown

  datatype Rule = R0 | R1 | R2a | R2b | R2c | R3 | R4a | R4b | R4c | R5a | R5b | R6

  const CLAIMED := "state:claimed by community"
  const REPRODUCIBLE := "state:reproducible"
  const NEEDS_INFO := "state:needs info"
  const NEEDS_REPRO := "state:needs repro"
  const NEEDS_TRIAGE := "state:needs triage"

  const MEDIA := ["user-attachments/assets", ".png", ".jpg", ".jpeg", ".gif", ".mp4", ".webm", ".mov"]

  const DAY: int := 86400

  // ---------- Comments ----------

  predicate EndsWith(s: string, suffix: string) {
    |s| >= |suffix| && s[|s| - |suffix|..] == suffix
  }

  predicate Occurs(part: string, s: string) {
    part <= s || (s != [] && Occurs(part, s[1..]))
  }

  predicate IsBot(user: User) {
    user.kind == "Bot" || EndsWith(user.login, "[bot]")
  }

  predicate IsSubstantive(comment: Comment, staff: set<string>) {
    && comment.user.login in staff
    && !IsBot(comment.user)
    && (|comment.body| >= 50 || exists m | m in MEDIA :: Occurs(m, comment.body))
  }

  predicate IsOutsider(user: User, staff: set<string>) {
    user.login !in staff && !IsBot(user)
  }

  /** The last comment of those a predicate holds of. */
  function Last(comments: seq<Comment>, p: Comment -> bool): (last: Option<Comment>)
    ensures last.Some? ==> last.value in comments && p(last.value)
    ensures last.None? <==> forall c | c in comments :: !p(c)
  {
    if comments == [] then None
    else if p(comments[|comments| - 1]) then Some(comments[|comments| - 1])
    else
      assert comments == comments[..|comments| - 1] + [comments[|comments| - 1]];
      Last(comments[..|comments| - 1], p)
  }

  function LastSubstantive(comments: seq<Comment>, staff: set<string>): Option<Comment> {
    Last(comments, (c: Comment) => IsSubstantive(c, staff))
  }

  function LastOutsider(comments: seq<Comment>, staff: set<string>): Option<Comment> {
    Last(comments, (c: Comment) => IsOutsider(c.user, staff))
  }

  method FindSubstantive(comments: seq<Comment>, staff: set<string>) returns (found: Option<Comment>)
    ensures found == LastSubstantive(comments, staff)
  {
    found := None;
    for i := 0 to |comments|
      invariant found == LastSubstantive(comments[..i], staff)
    {
      assert comments[..i + 1][..i] == comments[..i];
      if IsSubstantive(comments[i], staff) {
        found := Some(comments[i]);
      }
    }
    assert comments[..|comments|] == comments;
  }

  method FindOutsider(comments: seq<Comment>, staff: set<string>) returns (found: Option<Comment>)
    ensures found == LastOutsider(comments, staff)
  {
    found := None;
    for i := 0 to |comments|
      invariant found == LastOutsider(comments[..i], staff)
    {
      assert comments[..i + 1][..i] == comments[..i];
      if IsOutsider(comments[i].user, staff) {
        found := Some(comments[i]);
      }
    }
    assert comments[..|comments|] == comments;
  }

  // ---------- The reporter's activity ----------

  /** The reporter did something at this time: opened the issue or commented on it. */
  ghost predicate ReporterActive(issue: Issue, time: int) {
    || time == issue.createdAt
    || exists c | c in issue.comments :: c.user.login == issue.reporter && c.createdAt == Some(time)
  }

  function Maximum(times: seq<int>): (m: int)
    requires times != []
    ensures m in times && forall t | t in times :: t <= m
  {
    if |times| == 1 then times[0]
    else
      var rest := Maximum(times[1..]);
      assert times == [times[0]] + times[1..];
      if times[0] >= rest then times[0] else rest
  }

  method LatestReporterActivity(issue: Issue) returns (latest: int)
    ensures ReporterActive(issue, latest) && forall t | ReporterActive(issue, t) :: t <= latest
  {
    var times := [issue.createdAt];
    for i := 0 to |issue.comments|
      invariant times != []
      invariant forall t :: t in times <==> ReporterActive(issue.(comments := issue.comments[..i]), t)
    {
      var c := issue.comments[i];
      ActiveAppend(issue, i);
      if c.user.login == issue.reporter && c.createdAt.Some? {
        times := times + [c.createdAt.value];
      }
    }
    assert issue.comments[..|issue.comments|] == issue.comments;
    assert issue.(comments := issue.comments) == issue;
    latest := Maximum(times);
  }

  lemma ActiveAppend(issue: Issue, i: nat)
    requires i < |issue.comments|
    ensures var c := issue.comments[i];
      forall t :: ReporterActive(issue.(comments := issue.comments[..i + 1]), t) <==>
        || ReporterActive(issue.(comments := issue.comments[..i]), t)
        || (c.user.login == issue.reporter && c.createdAt == Some(t))
  {
    assert issue.comments[..i + 1] == issue.comments[..i] + [issue.comments[i]];
  }

  /** A substantive comment of the staff after everything the reporter did. */
  ghost predicate StaffAnswered(issue: Issue, staff: set<string>) {
    exists c | c in issue.comments && c.createdAt.Some? && IsSubstantive(c, staff) ::
      forall t | ReporterActive(issue, t) :: t < c.createdAt.value
  }

  /** The search from the last comment back. */
  method FindAnswer(issue: Issue, staff: set<string>) returns (answered: bool)
    ensures answered <==> StaffAnswered(issue, staff)
  {
    var cutoff := LatestReporterActivity(issue);
    for i := |issue.comments| downto 0
      invariant forall k | i <= k < |issue.comments| ::
        var c := issue.comments[k];
        !(c.createdAt.Some? && c.createdAt.value > cutoff && IsSubstantive(c, staff))
    {
      var c := issue.comments[i];
      if c.createdAt.Some? && c.createdAt.value > cutoff && IsSubstantive(c, staff) {
        return true;
      }
    }
    return false;
  }

  // ---------- The status ----------

  /** The last comment is an outsider's, later than the last substantive one of the staff. */
  predicate RepliedAfter(comments: seq<Comment>, asked: Comment, staff: set<string>) {
    && comments != []
    && var last := comments[|comments| - 1];
    && IsOutsider(last.user, staff)
    && last.createdAt.Some? && asked.createdAt.Some?
    && last.createdAt.value > asked.createdAt.value
  }

  /** The status by the first rule that applies. */
  ghost function StatusOf(issue: Issue, staff: set<string>): (Status, Rule) {
    var asked := LastSubstantive(issue.comments, staff);
    if issue.closedAt.Some? then (Closed, R1)
    else if CLAIMED in issue.labels then (ClaimedCommunity, R0)
    else if REPRODUCIBLE in issue.labels then
      if issue.assignees != [] then (Reproducible, R2a)
      else if asked.Some? then (Handoff, R2b)
      else (HandoffIncomplete, R2c)
    else if NEEDS_INFO in issue.labels then
      if asked.None? then (NeedsAsk, R4c)
      else if RepliedAfter(issue.comments, asked.value, staff) then (UserReplied, R4b)
      else (AwaitingUser, R4a)
    else if NEEDS_REPRO in issue.labels then
      if StaffAnswered(issue, staff) then (RespondedNoRepro, R5b) else (NeedsReproAttempt, R5a)
    else if NEEDS_TRIAGE in issue.labels then (NeedsLabels, R3)
    else (Unknown, R6)
  }

  method DeriveStatus(issue: Issue, staff: set<string>) returns (status: Status, rule: Rule)
    ensures (status, rule) == StatusOf(issue, staff)
  {
    if issue.closedAt.Some? {
      return Closed, R1;
    }
    if CLAIMED in issue.labels {
      return ClaimedCommunity, R0;
    }
    if REPRODUCIBLE in issue.labels {
      if issue.assignees != [] {
        return Reproducible, R2a;
      }
      var substantive := FindSubstantive(issue.comments, staff);
      if substantive.Some? {
        return Handoff, R2b;
      }
      return HandoffIncomplete, R2c;
    }
    if NEEDS_INFO in issue.labels {
      var substantive := FindSubstantive(issue.comments, staff);
      if substantive.None? {
        return NeedsAsk, R4c;
      }
      if issue.comments != [] {
        var last := issue.comments[|issue.comments| - 1];
        if IsOutsider(last.user, staff) {
          var ct, st := last.createdAt, substantive.value.createdAt;
          if ct.Some? && st.Some? && ct.value > st.value {
            return UserReplied, R4b;
          }
        }
      }
      return AwaitingUser, R4a;
    }
    if NEEDS_REPRO in issue.labels {
      var answered := FindAnswer(issue, staff);
      if answered {
        return RespondedNoRepro, R5b;
      }
      return NeedsReproAttempt, R5a;
    }
    if NEEDS_TRIAGE in issue.labels {
      return NeedsLabels, R3;
    }
    return Unknown, R6;
  }

  // ---------- Staleness and age ----------

  predicate IsResting(status: Status) {
    status in {Reproducible, Handoff, Closed, RespondedNoRepro, ClaimedCommunity}
  }

  /** Aging is measured from `since`; nothing to measure when it is `None`. */
  ghost predicate IsStaleSince(issue: Issue, status: Status, staff: set<string>, since: Option<int>) {
    match status
    case NeedsLabels | NeedsAsk | HandoffIncomplete => since == Some(issue.createdAt)
    case NeedsReproAttempt =>
      since.Some? && ReporterActive(issue, since.value) && forall t | ReporterActive(issue, t) :: t <= since.value
    case AwaitingUser =>
      var asked := LastSubstantive(issue.comments, staff);
      since == if asked.Some? then asked.value.createdAt else Some(issue.createdAt)
    case UserReplied =>
      var reply := LastOutsider(issue.comments, staff);
      since == if reply.Some? then reply.value.createdAt else None
    case _ => since == None
  }

  method DeriveStaleSince(issue: Issue, status: Status, staff: set<string>) returns (since: Option<int>)
    ensures IsStaleSince(issue, status, staff, since)
  {
    if IsResting(status) || status == Unknown {
      return None;
    }
    if status == NeedsLabels {
      return Some(issue.createdAt);
    }
    if status == NeedsReproAttempt {
      var latest := LatestReporterActivity(issue);
      return Some(latest);
    }
    if status == NeedsAsk {
      return Some(issue.createdAt);
    }
    if status == AwaitingUser {
      var substantive := FindSubstantive(issue.comments, staff);
      return if substantive.Some? then substantive.value.createdAt else Some(issue.createdAt);
    }
    if status == UserReplied {
      var reply := FindOutsider(issue.comments, staff);
      return if reply.Some? then reply.value.createdAt else None;
    }
    if status == HandoffIncomplete {
      return Some(issue.createdAt);
    }
    return None;
  }

  /** The days after which a status has aged. */
  function Threshold(status: Status): Option<int> {
    match status
    case NeedsLabels => Some(7)
    case NeedsReproAttempt => Some(7)
    case AwaitingUser => Some(14)
    case UserReplied => Some(3)
    case _ => None
  }

  function DeriveAged(status: Status, since: Option<int>, now: int): bool {
    if status == HandoffIncomplete then true
    else if status == NeedsAsk then true
    else if IsResting(status) || status == Unknown then false
    else if since.None? then false
    else if Threshold(status).None? then false
    else now - since.value > Threshold(status).value * DAY
  }

  // ---------- Each status by its own condition ----------

  predicate StandsAt(part: string, s: string, i: nat) {
    i + |part| <= |s| && s[i..i + |part|] == part
  }

  lemma {:induction false} OccursMeaning(part: string, s: string)
    ensures Occurs(part, s) <==> exists i: nat :: StandsAt(part, s, i)
  {
    if part <= s {
      assert StandsAt(part, s, 0);
    } else if s != [] {
      OccursMeaning(part, s[1..]);
      if i: nat :| StandsAt(part, s, i) {
        assert i > 0 && s[i..i + |part|] == s[1..][i - 1..i - 1 + |part|];
        assert StandsAt(part, s[1..], i - 1);
      }
      if i: nat :| StandsAt(part, s[1..], i) {
        assert s[i + 1..i + 1 + |part|] == s[1..][i..i + |part|];
        assert StandsAt(part, s, i + 1);
      }
    } else {
      assert forall i: nat :: StandsAt(part, s, i) ==> i == 0;
    }
  }

  /** A comment of the staff, not of a bot, counts from 50 characters on, or with a picture, a film or an attachment. */
  lemma SubstantiveMeaning(comment: Comment, staff: set<string>)
    ensures IsSubstantive(comment, staff) <==>
      && comment.user.login in staff && comment.user.kind != "Bot" && !EndsWith(comment.user.login, "[bot]")
      && (|comment.body| >= 50
          || Occurs("user-attachments/assets", comment.body)
          || Occurs(".png", comment.body) || Occurs(".jpg", comment.body) || Occurs(".jpeg", comment.body)
          || Occurs(".gif", comment.body) || Occurs(".mp4", comment.body)
          || Occurs(".webm", comment.body) || Occurs(".mov", comment.body))
  {
    hide Occurs, EndsWith;
    var m := MEDIA;
    assert m[0] in m && m[1] in m && m[2] in m && m[3] in m && m[4] in m && m[5] in m && m[6] in m && m[7] in m;
  }

  /** An outsider is neither of the staff nor a bot. */
  lemma OutsiderMeaning(user: User, staff: set<string>)
    ensures IsOutsider(user, staff) <==> user.login !in staff && user.kind != "Bot" && !EndsWith(user.login, "[bot]")
  {
  }

  /** Some comment of the thread is a substantive one of the staff. */
  ghost predicate StaffSpoke(issue: Issue, staff: set<string>) {
    exists c :: c in issue.comments && IsSubstantive(c, staff)
  }

  /** A substantive staff comment is later than the issue and than everything the reporter wrote. */
  ghost predicate StaffHadTheLastWord(issue: Issue, staff: set<string>) {
    exists c :: c in issue.comments && IsSubstantive(c, staff) && c.createdAt.Some?
      && issue.createdAt < c.createdAt.value
      && forall r | r in issue.comments && r.user.login == issue.reporter && r.createdAt.Some? ::
           r.createdAt.value < c.createdAt.value
  }

  /** The last comment is an outsider's and later than the `a`-th, which is the last substantive one of the staff. */
  ghost predicate RepliedTo(issue: Issue, staff: set<string>, a: nat) {
    var n := |issue.comments|;
    && a < n && IsSubstantive(issue.comments[a], staff)
    && (forall k | a < k < n :: !IsSubstantive(issue.comments[k], staff))
    && IsOutsider(issue.comments[n - 1].user, staff)
    && Later(issue.comments[n - 1].createdAt, issue.comments[a].createdAt)
  }

  lemma StaffAnsweredMeaning(issue: Issue, staff: set<string>)
    ensures StaffAnswered(issue, staff) <==> StaffHadTheLastWord(issue, staff)
  {
    if StaffAnswered(issue, staff) {
      var c :| c in issue.comments && c.createdAt.Some? && IsSubstantive(c, staff)
        && forall t | ReporterActive(issue, t) :: t < c.createdAt.value;
      assert ReporterActive(issue, issue.createdAt);
      forall r | r in issue.comments && r.user.login == issue.reporter && r.createdAt.Some?
        ensures r.createdAt.value < c.createdAt.value
      {
        assert ReporterActive(issue, r.createdAt.value);
      }
    }
    if StaffHadTheLastWord(issue, staff) {
      var c :| c in issue.comments && IsSubstantive(c, staff) && c.createdAt.Some?
        && issue.createdAt < c.createdAt.value
        && forall r | r in issue.comments && r.user.login == issue.reporter && r.createdAt.Some? ::
             r.createdAt.value < c.createdAt.value;
      assert forall t | ReporterActive(issue, t) :: t < c.createdAt.value;
    }
  }

  /** The last comment that a predicate holds of, by its place. */
  lemma {:induction false} LastAt(comments: seq<Comment>, p: Comment -> bool) returns (a: nat)
    requires Last(comments, p).Some?
    ensures a < |comments| && p(comments[a]) && Last(comments, p) == Some(comments[a])
    ensures forall k | a < k < |comments| :: !p(comments[k])
  {
    if p(comments[|comments| - 1]) {
      a := |comments| - 1;
    } else {
      a := LastAt(comments[..|comments| - 1], p);
    }
  }

  lemma RepliedAt(issue: Issue, staff: set<string>)
    requires LastSubstantive(issue.comments, staff).Some?
    ensures RepliedAfter(issue.comments, LastSubstantive(issue.comments, staff).value, staff) <==>
      exists a: nat :: RepliedTo(issue, staff, a)
  {
    var asked := LastAt(issue.comments, (c: Comment) => IsSubstantive(c, staff));
    assert RepliedTo(issue, staff, asked) <==>
      RepliedAfter(issue.comments, LastSubstantive(issue.comments, staff).value, staff);
    forall a: nat | RepliedTo(issue, staff, a)
      ensures a == asked
    {
    }
  }

  lemma SpokeMeaning(issue: Issue, staff: set<string>)
    ensures StaffSpoke(issue, staff) <==> LastSubstantive(issue.comments, staff).Some?
  {
  }

  /** Closed, claimed, reproducible: whatever other labels there are. */
  lemma ReproducibleMeaning(issue: Issue, staff: set<string>)
    ensures var status := StatusOf(issue, staff);
      var isOpen := issue.closedAt.None?;
      var isClaimed := "state:claimed by community" in issue.labels;
      var isReproducible := isOpen && !isClaimed && "state:reproducible" in issue.labels;
      && (status.0 == Closed <==> issue.closedAt.Some?)
      && (status.0 == ClaimedCommunity <==> isOpen && isClaimed)
      && (status.0 == Reproducible <==> isReproducible && issue.assignees != [])
      && (status.0 == Handoff <==> isReproducible && issue.assignees == [] && StaffSpoke(issue, staff))
      && (status.0 == HandoffIncomplete <==> isReproducible && issue.assignees == [] && !StaffSpoke(issue, staff))
  {
    hide IsSubstantive, LastSubstantive, StaffSpoke, StaffAnswered, RepliedAfter;
    SpokeMeaning(issue, staff);
  }

  /** Needs info: neither closed, claimed nor reproducible. */
  lemma NeedsInfoMeaning(issue: Issue, staff: set<string>)
    ensures var status := StatusOf(issue, staff);
      var needsInfo := issue.closedAt.None? && "state:claimed by community" !in issue.labels
        && "state:reproducible" !in issue.labels && "state:needs info" in issue.labels;
      var replied := exists a: nat :: RepliedTo(issue, staff, a);
      && (status.0 == NeedsAsk <==> needsInfo && !StaffSpoke(issue, staff))
      && (status.0 == UserReplied <==> needsInfo && replied)
      && (status.0 == AwaitingUser <==> needsInfo && StaffSpoke(issue, staff) && !replied)
  {
    hide IsSubstantive, LastSubstantive, StaffSpoke, StaffAnswered, RepliedAfter, RepliedTo;
    SpokeMeaning(issue, staff);
    if LastSubstantive(issue.comments, staff).Some? {
      RepliedAt(issue, staff);
    } else if a: nat :| RepliedTo(issue, staff, a) {
      RepliedSpoke(issue, staff, a);
    }
  }

  lemma RepliedSpoke(issue: Issue, staff: set<string>, a: nat)
    requires RepliedTo(issue, staff, a)
    ensures StaffSpoke(issue, staff)
  {
    assert issue.comments[a] in issue.comments;
  }

  /** Needs repro, needs triage and unknown: with none of the labels before. */
  lemma NeedsReproMeaning(issue: Issue, staff: set<string>)
    ensures var status := StatusOf(issue, staff);
      var rest := issue.closedAt.None? && "state:claimed by community" !in issue.labels
        && "state:reproducible" !in issue.labels && "state:needs info" !in issue.labels;
      var needsRepro := rest && "state:needs repro" in issue.labels;
      && (status.0 == RespondedNoRepro <==> needsRepro && StaffHadTheLastWord(issue, staff))
      && (status.0 == NeedsReproAttempt <==> needsRepro && !StaffHadTheLastWord(issue, staff))
      && (status.0 == NeedsLabels <==> rest && !needsRepro && "state:needs triage" in issue.labels)
      && (status.0 == Unknown <==> rest && !needsRepro && "state:needs triage" !in issue.labels)
  {
    hide IsSubstantive, LastSubstantive, StaffAnswered, StaffHadTheLastWord, RepliedAfter;
    StaffAnsweredMeaning(issue, staff);
  }

  /** Every rule gives one status. */
  lemma RuleMeaning(issue: Issue, staff: set<string>)
    ensures var status := StatusOf(issue, staff);
      match status.0
      case Closed => status.1 == R1
      case ClaimedCommunity => status.1 == R0
      case Reproducible => status.1 == R2a
      case Handoff => status.1 == R2b
      case HandoffIncomplete => status.1 == R2c
      case NeedsLabels => status.1 == R3
      case AwaitingUser => status.1 == R4a
      case UserReplied => status.1 == R4b
      case NeedsAsk => status.1 == R4c
      case NeedsReproAttempt => status.1 == R5a
      case RespondedNoRepro => status.1 == R5b
      case Unknown => status.1 == R6
      case AwaitingExternalRepro => false
  {
    hide LastSubstantive, StaffAnswered, RepliedAfter;
  }

  /** What aging is measured from: the issue, the reporter's last act, the last question, or the last reply. */
  lemma StaleSinceMeaning(issue: Issue, staff: set<string>, since: Option<int>)
    requires IsStaleSince(issue, StatusOf(issue, staff).0, staff, since)
    ensures match StatusOf(issue, staff).0
      case NeedsLabels | NeedsAsk | HandoffIncomplete => since == Some(issue.createdAt)
      case NeedsReproAttempt =>
        && since.Some? && issue.createdAt <= since.value
        && (forall r | r in issue.comments && r.user.login == issue.reporter && r.createdAt.Some? ::
              r.createdAt.value <= since.value)
        && (since.value == issue.createdAt
            || exists r :: r in issue.comments && r.user.login == issue.reporter && r.createdAt == since)
      case AwaitingUser =>
        exists a: nat :: a < |issue.comments| && IsSubstantive(issue.comments[a], staff)
          && since == issue.comments[a].createdAt
          && forall k | a < k < |issue.comments| :: !IsSubstantive(issue.comments[k], staff)
      case UserReplied => since == issue.comments[|issue.comments| - 1].createdAt
      case _ => since == None
  {
    hide IsSubstantive;
    var status := StatusOf(issue, staff).0;
    if status == NeedsReproAttempt {
      assert ReporterActive(issue, issue.createdAt);
      forall r | r in issue.comments && r.user.login == issue.reporter && r.createdAt.Some?
        ensures r.createdAt.value <= since.value
      {
        assert ReporterActive(issue, r.createdAt.value);
      }
    } else if status == AwaitingUser {
      var a := LastAt(issue.comments, (c: Comment) => IsSubstantive(c, staff));
    }
  }

  /** The days after which an issue has aged. */
  lemma AgedMeaning(status: Status, since: int, now: int)
    ensures DeriveAged(status, Some(since), now) <==>
      || status in {HandoffIncomplete, NeedsAsk}
      || (status in {NeedsLabels, NeedsReproAttempt} && now - since > 7 * 86400)
      || (status == AwaitingUser && now - since > 14 * 86400)
      || (status == UserReplied && now - since > 3 * 86400)
    ensures DeriveAged(status, None, now) <==> status in {HandoffIncomplete, NeedsAsk}
  {
  }

  // ---------- What the derivation keeps ----------

  ghost predicate Dated(issue: Issue) {
    forall c | c in issue.comments :: c.createdAt.Some?
  }

  /**
    Of the statuses that are derived, exactly the resting ones and `Unknown` have no time to measure from; and a user's
    reply is measured from the last comment, which is later than the question.
   */
  lemma StaleSinceAbsent(issue: Issue, staff: set<string>, since: Option<int>)
    requires Dated(issue) && IsStaleSince(issue, StatusOf(issue, staff).0, staff, since)
    ensures since.None? <==> IsResting(StatusOf(issue, staff).0) || StatusOf(issue, staff).0 == Unknown
    ensures StatusOf(issue, staff).0 == UserReplied ==>
      && since == issue.comments[|issue.comments| - 1].createdAt
      && since.value > LastSubstantive(issue.comments, staff).value.createdAt.value
  {
  }

  /** An issue that nobody touches does not become young again, and one that is tracked ages on the second. */
  lemma AgedNeverReverts(issue: Issue, staff: set<string>, since: Option<int>, now: int, later: int)
    requires Dated(issue) && IsStaleSince(issue, StatusOf(issue, staff).0, staff, since)
    requires now <= later
    ensures var status := StatusOf(issue, staff).0;
      && (DeriveAged(status, since, now) ==> DeriveAged(status, since, later))
      && (DeriveAged(status, since, now) <==>
           || status in {HandoffIncomplete, NeedsAsk}
           || (!IsResting(status) && status != Unknown && since.value + Threshold(status).value * DAY < now))
  {
    StaleSinceAbsent(issue, staff, since);
  }

  // ---------- A needs-info issue as comments arrive ----------

  predicate AsksForInfo(issue: Issue) {
    issue.closedAt.None? && {CLAIMED, REPRODUCIBLE} !! issue.labels && NEEDS_INFO in issue.labels
  }

  /** What has to be remembered of the comments so far. */
  datatype Dialogue = Silent | Waiting(asked: Comment) | Answered(asked: Comment)

  function Listen(dialogue: Dialogue, comment: Comment, staff: set<string>): Dialogue {
    if IsSubstantive(comment, staff) then Waiting(comment)
    else if dialogue.Silent? then Silent
    else if IsOutsider(comment.user, staff) && Later(comment.createdAt, dialogue.asked.createdAt) then
      Answered(dialogue.asked)
    else Waiting(dialogue.asked)
  }

  predicate Later(a: Option<int>, b: Option<int>) {
    a.Some? && b.Some? && a.value > b.value
  }

  function Heard(comments: seq<Comment>, staff: set<string>): Dialogue {
    if comments == [] then Silent
    else Listen(Heard(comments[..|comments| - 1], staff), comments[|comments| - 1], staff)
  }

  function DialogueStatus(dialogue: Dialogue): (Status, Rule) {
    match dialogue
    case Silent => (NeedsAsk, R4c)
    case Waiting(_) => (AwaitingUser, R4a)
    case Answered(_) => (UserReplied, R4b)
  }

  lemma {:induction false} HeardLast(comments: seq<Comment>, staff: set<string>)
    ensures match LastSubstantive(comments, staff)
      case None => Heard(comments, staff) == Silent
      case Some(asked) =>
        Heard(comments, staff) == if RepliedAfter(comments, asked, staff) then Answered(asked) else Waiting(asked)
  {
    if comments != [] {
      HeardLast(comments[..|comments| - 1], staff);
    }
  }

  /** The status derived from the whole thread is the one of a reader that hears each comment once. */
  lemma DerivationIsIncremental(issue: Issue, staff: set<string>)
    requires AsksForInfo(issue)
    ensures StatusOf(issue, staff) == DialogueStatus(Heard(issue.comments, staff))
  {
    HeardLast(issue.comments, staff);
  }

  /** `NeedsAsk` lasts until the first substantive comment of the staff, and does not come back with later comments. */
  lemma AskedForGood(issue: Issue, more: seq<Comment>, staff: set<string>)
    requires AsksForInfo(issue)
    ensures StatusOf(issue, staff).0 == NeedsAsk <==> forall c | c in issue.comments :: !IsSubstantive(c, staff)
    ensures StatusOf(issue, staff).0 != NeedsAsk ==>
      StatusOf(issue.(comments := issue.comments + more), staff).0 != NeedsAsk
  {
    var asked := LastSubstantive(issue.comments, staff);
    assert asked.Some? ==> asked.value in issue.comments + more;
  }

  ghost predicate Chronological(comments: seq<Comment>) {
    && (forall c | c in comments :: c.createdAt.Some?)
    && forall i, j | 0 <= i <= j < |comments| :: comments[i].createdAt.value <= comments[j].createdAt.value
  }

  /**
    Once asked, the user has replied exactly when the last comment is an outsider's, unless that comment carries the
    time of the question itself.
   */
  lemma RepliedMeaning(issue: Issue, staff: set<string>)
    requires AsksForInfo(issue) && Chronological(issue.comments)
    requires StatusOf(issue, staff).0 != NeedsAsk
    ensures var last := issue.comments[|issue.comments| - 1];
      StatusOf(issue, staff).0 == UserReplied <==>
        && IsOutsider(last.user, staff)
        && last.createdAt != LastSubstantive(issue.comments, staff).value.createdAt
  {
    var asked := LastSubstantive(issue.comments, staff).value;
    var k :| 0 <= k < |issue.comments| && issue.comments[k] == asked;
    assert issue.comments[k].createdAt.value <= issue.comments[|issue.comments| - 1].createdAt.value;
  }

  /** A reply within the second of the question is not seen. */
  lemma ReplyInTheSameSecond(issue: Issue, staff: set<string>)
    requires AsksForInfo(issue) && |issue.comments| == 2
    requires IsSubstantive(issue.comments[0], staff) && IsOutsider(issue.comments[1].user, staff)
    requires issue.comments[0].createdAt == issue.comments[1].createdAt
    ensures StatusOf(issue, staff).0 == AwaitingUser
  {
    hide IsBot, Occurs;
    var question, reply := issue.comments[0], issue.comments[1];
    assert issue.comments[..1] == [question] && !IsSubstantive(reply, staff);
    assert LastSubstantive([question], staff) == Some(question);
    assert LastSubstantive(issue.comments, staff) == Some(question);
  }

  /** Such a thread. */
  lemma UnseenReply() returns (issue: Issue)
    ensures Chronological(issue.comments) && StatusOf(issue, {"ada"}).0 == AwaitingUser
    ensures issue.comments != [] && IsOutsider(issue.comments[|issue.comments| - 1].user, {"ada"})
  {
    hide StatusOf, Occurs;
    var question := Comment(User("ada", "User"), seq(50, i => 'a'), Some(0));
    var reply := Comment(User("bob", "User"), "yes", Some(0));
    issue := Issue(None, 0, "bob", [], {NEEDS_INFO}, [question, reply]);
    assert {CLAIMED, REPRODUCIBLE} !! issue.labels by {
      assert |NEEDS_INFO| < |REPRODUCIBLE| < |CLAIMED|;
    }
    ReplyInTheSameSecond(issue, {"ada"});
  }
}
