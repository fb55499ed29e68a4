/**
  The stale sweep of the Guild board for one issue and one guild assignee, as a protocol over a log of events.
  Times are integers of any unit, `day` of which make a day.
 */
module GuildSweep {
  import opened Outcomes

  const CHECK_IN_AFTER_DAYS := 14
  const AUTO_CLEAR_AFTER_DAYS := 7

  /** What happened on the issue. Check-ins are posted, and assignments cleared, by the sweep only. */
  datatype Event =
    | Assigned(at: int)
    | Reply(at: int)
    | OtherComment(at: int)
    | CheckIn(at: int)
    | Cleared(at: int)
    | Unassigned(at: int)
  {
    /** The assignee's own doing: being assigned, or a comment. */
    predicate IsActivity() {
      Assigned? || Reply?
    }
  }

  type Log = seq<Event>

  function Later(a: Option<int>, b: int): Option<int> {
    if a.None? || b > a.value then Some(b) else a
  }

  /** The latest assignment or comment of the assignee. */
  function LastActivity(log: Log): Option<int> {
    if log == [] then None
    else
      var e := log[|log| - 1];
      var before := LastActivity(log[..|log| - 1]);
      if e.IsActivity() then Later(before, e.at) else before
  }

  /** The latest check-in. */
  function LastCheckIn(log: Log): Option<int> {
    if log == [] then None
    else
      var e := log[|log| - 1];
      var before := LastCheckIn(log[..|log| - 1]);
      if e.CheckIn? then Later(before, e.at) else before
  }

  function LastAssignment(log: Log): Option<int> {
    if log == [] then None
    else
      var e := log[|log| - 1];
      var before := LastAssignment(log[..|log| - 1]);
      if e.Assigned? then Later(before, e.at) else before
  }

  predicate IsAssigned(log: Log) {
    log != [] &&
    var e := log[|log| - 1];
    e.Assigned? || (!e.Cleared? && !e.Unassigned? && IsAssigned(log[..|log| - 1]))
  }

  // ---------- One sweep ----------

  datatype Action = Wait | PostCheckIn | ClearAssignment

  /** What the sweep at `now` does, `day` being the length of a day. */
  function Decide(lastActivity: int, checkIn: Option<int>, now: int, day: nat): Action
    requires day > 0
  {
    if checkIn.None? || checkIn.value < lastActivity then
      if (now - lastActivity) / day < CHECK_IN_AFTER_DAYS then Wait else PostCheckIn
    else if (now - checkIn.value) / day < AUTO_CLEAR_AFTER_DAYS then Wait
    else ClearAssignment
  }

  /** Both times, or `None` where the source throws because there is no assignment event to start from. */
  method Survey(log: Log) returns (times: Option<(int, Option<int>)>)
    ensures times.None? <==> LastAssignment(log).None?
    ensures times.Some? ==> Some(times.value.0) == LastActivity(log) && times.value.1 == LastCheckIn(log)
  {
    var assignment := FindAssignment(log);
    if assignment.None? {
      return None;
    }
    var lastActivity := assignment.value;
    var checkIn := None;
    for i := 0 to |log|
      invariant checkIn == LastCheckIn(log[..i])
      invariant Some(lastActivity) == Latest(LastAssignment(log), LastActivity(log[..i]))
    {
      assert log[..i + 1][..i] == log[..i];
      var comment := log[i];
      if comment.CheckIn? {
        if checkIn.None? || comment.at > checkIn.value {
          checkIn := Some(comment.at);
        }
      } else if comment.Reply? {
        if comment.at > lastActivity {
          lastActivity := comment.at;
        }
      } else if comment.Assigned? {
        AssignmentCounted(log, i);
      }
    }
    assert log[..|log|] == log;
    ActivityCoversAssignment(log);
    return Some((lastActivity, checkIn));
  }

  /** `latest_assignment_time`. */
  method FindAssignment(log: Log) returns (latest: Option<int>)
    ensures latest == LastAssignment(log)
    ensures latest.None? <==> forall e | e in log :: !e.Assigned?
  {
    latest := None;
    for i := 0 to |log|
      invariant latest == LastAssignment(log[..i])
      invariant latest.None? <==> forall e | e in log[..i] :: !e.Assigned?
    {
      assert log[..i + 1] == log[..i] + [log[i]];
      if log[i].Assigned? {
        latest := Later(latest, log[i].at);
      }
    }
    assert log[..|log|] == log;
  }

  function Latest(a: Option<int>, b: Option<int>): Option<int> {
    if b.None? then a else Later(a, b.value)
  }

  lemma {:induction false} AssignmentCounted(log: Log, i: nat)
    requires i < |log| && log[i].Assigned?
    ensures LastAssignment(log).Some? && log[i].at <= LastAssignment(log).value
  {
    if i < |log| - 1 {
      AssignmentCounted(log[..|log| - 1], i);
    }
  }

  lemma {:induction false} ActivityCoversAssignment(log: Log)
    ensures LastAssignment(log).Some? ==>
      LastActivity(log).Some? && LastAssignment(log).value <= LastActivity(log).value
  {
    if log != [] {
      ActivityCoversAssignment(log[..|log| - 1]);
    }
  }

  // ---------- Runs ----------

  /** A step of a run; a sweep passes over an issue `blocked` by a closing PR, the hold label or its status. */
  datatype Step =
    | Assign(at: int)
    | Comment(at: int, byAssignee: bool)
    | Unassign(at: int)
    | Sweep(at: int, blocked: bool)

  function Perform(log: Log, step: Step, day: nat): Log
    requires day > 0
  {
    match step
    case Assign(at) => if IsAssigned(log) then log else log + [Assigned(at)]
    case Comment(at, byAssignee) => log + [if byAssignee then Reply(at) else OtherComment(at)]
    case Unassign(at) => if IsAssigned(log) then log + [Unassigned(at)] else log
    case Sweep(at, blocked) =>
      if blocked || !IsAssigned(log) || LastActivity(log).None? then log
      else
        match Decide(LastActivity(log).value, LastCheckIn(log), at, day)
        case Wait => log
        case PostCheckIn => log + [CheckIn(at)]
        case ClearAssignment => log + [Cleared(at)]
  }

  function Run(log: Log, steps: seq<Step>, day: nat): Log
    requires day > 0
    decreases |steps|
  {
    if steps == [] then log else Run(Perform(log, steps[0], day), steps[1..], day)
  }

  predicate Chronological(log: Log) {
    forall i, j | 0 <= i <= j < |log| :: log[i].at <= log[j].at
  }

  /** Steps at or after the time `now`, in order of time. */
  predicate InOrder(steps: seq<Step>, now: int) {
    steps == [] || (now <= steps[0].at && InOrder(steps[1..], steps[0].at))
  }

  lemma {:induction false} AssignedHasAssignment(log: Log)
    requires IsAssigned(log)
    ensures LastAssignment(log).Some?
  {
    if !log[|log| - 1].Assigned? {
      AssignedHasAssignment(log[..|log| - 1]);
    }
  }

  /** The issue as `run_stale` acts on it. */
  class Issue {
    var log: Log

    method Stale(now: int, blocked: bool, day: nat)
      requires day > 0
      modifies this
      ensures log == Perform(old(log), Sweep(now, blocked), day)
    {
      if !IsAssigned(log) || blocked {
        return;
      }
      AssignedHasAssignment(log);
      var times := Survey(log);
      var (lastActivity, checkIn) := times.value;
      if checkIn.None? || checkIn.value < lastActivity {
        if (now - lastActivity) / day < CHECK_IN_AFTER_DAYS {
          return;
        }
        log := log + [CheckIn(now)];
        return;
      }
      if (now - checkIn.value) / day < AUTO_CLEAR_AFTER_DAYS {
        return;
      }
      log := log + [Cleared(now)];
    }
  }

  // ---------- Safety ----------

  /** Each check-in comes at least 14 days after everything that the assignee did before. */
  predicate NudgesAreLate(log: Log, day: nat) {
    forall k, i | 0 <= k < i < |log| && log[k].IsActivity() && log[i].CheckIn? ::
      log[k].at + 14 * day <= log[i].at
  }

  predicate ActivityBetween(log: Log, i: nat, j: nat)
    requires j <= |log|
  {
    exists k :: i < k < j && log[k].IsActivity() && log[k].at > log[i].at
  }

  /** Between any two check-ins the assignee did something. */
  predicate NudgesAreAnswered(log: Log) {
    forall i: nat, j: nat | i < j < |log| && log[i].CheckIn? && log[j].CheckIn? :: ActivityBetween(log, i, j)
  }

  /** The clearing at `j` follows a check-in by at least 7 days, with nothing done by the assignee later than it. */
  predicate ClearedAfter(log: Log, i: nat, j: nat, day: nat)
    requires i < j < |log|
  {
    log[i].CheckIn? && log[i].at + 7 * day <= log[j].at && !ActivityBetween(log, i, j)
  }

  predicate ClearsAreDue(log: Log, day: nat) {
    forall j: nat | j < |log| && log[j].Cleared? :: exists i: nat :: i < j && ClearedAfter(log, i, j, day)
  }

  predicate Safe(log: Log, day: nat) {
    Chronological(log) && NudgesAreLate(log, day) && NudgesAreAnswered(log) && ClearsAreDue(log, day)
  }

  lemma {:induction false} LastActivityMeaning(log: Log)
    ensures forall k: nat | k < |log| && log[k].IsActivity() ::
      LastActivity(log).Some? && log[k].at <= LastActivity(log).value
    ensures LastActivity(log).Some? ==>
      exists k: nat :: k < |log| && log[k].IsActivity() && log[k].at == LastActivity(log).value
  {
    if log != [] {
      var init := log[..|log| - 1];
      LastActivityMeaning(init);
      assert forall k: nat | k < |init| :: init[k] == log[k];
      if LastActivity(log).Some? && LastActivity(log) == LastActivity(init) {
        var k: nat :| k < |init| && init[k].IsActivity() && init[k].at == LastActivity(init).value;
        assert log[k].IsActivity() && log[k].at == LastActivity(log).value;
      }
    }
  }

  lemma {:induction false} LastCheckInMeaning(log: Log)
    ensures forall k: nat | k < |log| && log[k].CheckIn? ::
      LastCheckIn(log).Some? && log[k].at <= LastCheckIn(log).value
    ensures LastCheckIn(log).Some? ==>
      exists k: nat :: k < |log| && log[k].CheckIn? && log[k].at == LastCheckIn(log).value
  {
    if log != [] {
      var init := log[..|log| - 1];
      LastCheckInMeaning(init);
      assert forall k: nat | k < |init| :: init[k] == log[k];
      if LastCheckIn(log).Some? && LastCheckIn(log) == LastCheckIn(init) {
        var k: nat :| k < |init| && init[k].CheckIn? && init[k].at == LastCheckIn(init).value;
        assert log[k].CheckIn? && log[k].at == LastCheckIn(log).value;
      }
    }
  }

  /** What lies between two events does not depend on what comes after. */
  lemma BetweenStable(log: Log, e: Event, i: nat, j: nat)
    requires j <= |log|
    ensures ActivityBetween(log + [e], i, j) <==> ActivityBetween(log, i, j)
  {
    assert forall k | 0 <= k < |log| :: (log + [e])[k] == log[k];
    if ActivityBetween(log, i, j) {
      var k :| i < k < j && log[k].IsActivity() && log[k].at > log[i].at;
      assert (log + [e])[k].IsActivity();
    }
  }

  lemma MultiplyMonotone(a: int, b: int, m: nat)
    requires a <= b
    ensures a * m <= b * m
  {
  }

  /** A days' difference of at least `n` is a difference in time of at least `n` days. */
  lemma DaysBetween(a: int, b: int, n: nat, day: nat)
    requires day > 0
    ensures (b - a) / day >= n <==> a + n * day <= b
  {
    var q, r := (b - a) / day, (b - a) % day;
    assert b - a == q * day + r;
    if q >= n {
      MultiplyMonotone(n, q, day);
    } else {
      MultiplyMonotone(q + 1, n, day);
    }
  }

  /** Appending an event keeps the log safe, if a check-in or a clearing is justified. */
  lemma SafeAppend(log: Log, e: Event, day: nat)
    requires Safe(log, day) && forall k | 0 <= k < |log| :: log[k].at <= e.at
    requires e.CheckIn? ==>
      forall k | 0 <= k < |log| && log[k].IsActivity() :: log[k].at + 14 * day <= e.at
    requires e.CheckIn? ==> forall i: nat | i < |log| && log[i].CheckIn? :: ActivityBetween(log, i, |log|)
    requires e.Cleared? ==> exists i: nat :: i < |log| && ClearedAfter(log + [e], i, |log|, day)
    ensures Safe(log + [e], day)
  {
    var log' := log + [e];
    assert forall k | 0 <= k < |log| :: log'[k] == log[k];
    forall i: nat, j: nat | i < j < |log'| && log'[i].CheckIn? && log'[j].CheckIn?
      ensures ActivityBetween(log', i, j)
    {
      BetweenStable(log, e, i, j);
    }
    forall j: nat | j < |log'| && log'[j].Cleared?
      ensures exists i: nat :: i < j && ClearedAfter(log', i, j, day)
    {
      if j < |log| {
        var i: nat :| i < j && ClearedAfter(log, i, j, day);
        BetweenStable(log, e, i, j);
        assert ClearedAfter(log', i, j, day);
      }
    }
  }

  lemma SafeCheckIn(log: Log, at: int, day: nat)
    requires day > 0 && Safe(log, day) && LastActivity(log).Some? && forall k | 0 <= k < |log| :: log[k].at <= at
    requires Decide(LastActivity(log).value, LastCheckIn(log), at, day) == PostCheckIn
    ensures Safe(log + [CheckIn(at)], day)
  {
    hide LastActivity, LastCheckIn;
    LastActivityMeaning(log);
    LastCheckInMeaning(log);
    var last, nudge := LastActivity(log).value, LastCheckIn(log);
    DaysBetween(last, at, 14, day);
    forall i: nat | i < |log| && log[i].CheckIn?
      ensures ActivityBetween(log, i, |log|)
    {
      var k: nat :| k < |log| && log[k].IsActivity() && log[k].at == last;
      assert log[i].at <= nudge.value < log[k].at;
      assert i < k;
    }
    SafeAppend(log, CheckIn(at), day);
  }

  lemma SafeClear(log: Log, at: int, day: nat)
    requires day > 0 && Safe(log, day) && LastActivity(log).Some? && forall k | 0 <= k < |log| :: log[k].at <= at
    requires Decide(LastActivity(log).value, LastCheckIn(log), at, day) == ClearAssignment
    ensures Safe(log + [Cleared(at)], day)
  {
    hide LastActivity, LastCheckIn, Safe;
    LastActivityMeaning(log);
    LastCheckInMeaning(log);
    var nudge := LastCheckIn(log).value;
    DaysBetween(nudge, at, 7, day);
    var i: nat :| i < |log| && log[i].CheckIn? && log[i].at == nudge;
    BetweenStable(log, Cleared(at), i, |log|);
    assert !ActivityBetween(log, i, |log|);
    assert ClearedAfter(log + [Cleared(at)], i, |log|, day);
    SafeAppend(log, Cleared(at), day);
  }

  lemma SafeStep(log: Log, step: Step, day: nat)
    requires day > 0 && Safe(log, day) && forall k | 0 <= k < |log| :: log[k].at <= step.at
    ensures Safe(Perform(log, step, day), day)
    ensures forall e | e in Perform(log, step, day) :: e in log || e.at == step.at
  {
    match step
    case Assign(at) => SafeAppend(log, Assigned(at), day);
    case Comment(at, byAssignee) => SafeAppend(log, if byAssignee then Reply(at) else OtherComment(at), day);
    case Unassign(at) => SafeAppend(log, Unassigned(at), day);
    case Sweep(at, blocked) =>
      if LastActivity(log).Some? {
        match Decide(LastActivity(log).value, LastCheckIn(log), at, day)
        case Wait =>
        case PostCheckIn => SafeCheckIn(log, at, day);
        case ClearAssignment => SafeClear(log, at, day);
      }
  }

  lemma {:induction false} RunKeepsSafe(log: Log, steps: seq<Step>, now: int, day: nat)
    requires day > 0 && Safe(log, day) && (forall e | e in log :: e.at <= now) && InOrder(steps, now)
    ensures Safe(Run(log, steps, day), day)
    decreases |steps|
  {
    if steps != [] {
      SafeStep(log, steps[0], day);
      RunKeepsSafe(Perform(log, steps[0], day), steps[1..], steps[0].at, day);
    }
  }

  /**
    Over every run from an issue without history: an assignment is cleared only after a check-in that came at least 14
    days after the assignee's last activity and got no later reply for 7 more days, and two check-ins always have
    activity of the assignee between them.
   */
  lemma SweepSafety(steps: seq<Step>, start: int, day: nat)
    requires day > 0 && InOrder(steps, start)
    ensures Safe(Run([], steps, day), day)
  {
    RunKeepsSafe([], steps, start, day);
  }

  // ---------- Progress ----------

  /** The assignee stays silent and assigned, and unblocked sweeps come at most `d` apart. */
  predicate Silent(steps: seq<Step>, now: int, lastSweep: int, d: int) {
    steps == [] ||
    match steps[0]
    case Comment(at, byAssignee) => now <= at && !byAssignee && Silent(steps[1..], at, lastSweep, d)
    case Sweep(at, blocked) => now <= at <= lastSweep + d && !blocked && Silent(steps[1..], at, at, d)
    case _ => false
  }

  /** The time of the last sweep, `before` if there is none. */
  function LastSweep(steps: seq<Step>, before: int): int {
    if steps == [] then before
    else LastSweep(steps[1..], if steps[0].Sweep? then steps[0].at else before)
  }

  /** The first clearing in the log at or after the index `from`. */
  predicate ClearedBy(log: Log, from: nat, limit: int) {
    exists k: nat :: from <= k < |log| && log[k].Cleared? && log[k].at <= limit
  }

  lemma {:induction false} RunExtends(log: Log, steps: seq<Step>, day: nat)
    requires day > 0
    ensures log <= Run(log, steps, day)
    decreases |steps|
  {
    if steps != [] {
      RunExtends(Perform(log, steps[0], day), steps[1..], day);
    }
  }

  /** Where a silent stint stands: no check-in is due yet, or one is out and not too late. */
  predicate InStint(log: Log, t0: int, lastSweep: int, d: int, day: nat) {
    && IsAssigned(log) && LastActivity(log) == Some(t0)
    && var c := LastCheckIn(log);
      if c.None? || c.value < t0 then lastSweep < t0 + 14 * day
      else c.value <= t0 + 14 * day + d && lastSweep < c.value + 7 * day
  }

  /** One step of a silent stint clears the assignment in time or leaves it in the stint. */
  lemma StintStep(log: Log, step: Step, t0: int, lastSweep: int, d: int, day: nat)
    requires day > 0 && d >= 0 && InStint(log, t0, lastSweep, d, day)
    requires match step
      case Comment(at, byAssignee) => !byAssignee
      case Sweep(at, blocked) => at <= lastSweep + d && !blocked
      case _ => false
    ensures var log' := Perform(log, step, day);
      if step.Sweep? && log' == log + [Cleared(step.at)] then step.at <= t0 + 21 * day + 2 * d
      else InStint(log', t0, if step.Sweep? then step.at else lastSweep, d, day)
  {
    var log' := Perform(log, step, day);
    assert |log'| > |log| ==> log'[..|log|] == log;
    if step.Sweep? {
      DaysBetween(t0, step.at, 14, day);
      if LastCheckIn(log).Some? {
        DaysBetween(LastCheckIn(log).value, step.at, 7, day);
      }
    }
  }

  lemma {:induction false} StintEnds(log: Log, steps: seq<Step>, t0: int, now: int, lastSweep: int, d: int, day: nat)
    requires day > 0 && d >= 0 && InStint(log, t0, lastSweep, d, day) && Silent(steps, now, lastSweep, d)
    ensures ClearedBy(Run(log, steps, day), |log|, t0 + 21 * day + 2 * d)
      || LastSweep(steps, lastSweep) < t0 + 21 * day + d
    decreases |steps|
  {
    if steps != [] {
      var step := steps[0];
      var log' := Perform(log, step, day);
      StintStep(log, step, t0, lastSweep, d, day);
      RunExtends(log', steps[1..], day);
      if step.Sweep? && log' == log + [Cleared(step.at)] {
        assert log'[|log|] == Cleared(step.at) && Run(log, steps, day)[|log|] == log'[|log|];
      } else {
        StintEnds(log', steps[1..], t0, step.at, if step.Sweep? then step.at else lastSweep, d, day);
      }
    }
  }

  /**
    If from its last activity on the assignee stays silent and sweeps come at most `d` apart, the assignment is cleared
    within 21 days plus 2d, as soon as there is a sweep 21 days plus d after the activity.
   */
  lemma SweepProgress(log: Log, steps: seq<Step>, t0: int, d: int, day: nat)
    requires day > 0 && d >= 0 && Safe(log, day) && log != [] && IsAssigned(log)
    requires log[|log| - 1].IsActivity() && log[|log| - 1].at == t0
    requires Silent(steps, t0, t0, d) && LastSweep(steps, t0) >= t0 + 21 * day + d
    ensures ClearedBy(Run(log, steps, day), |log|, t0 + 21 * day + 2 * d)
  {
    LastActivityMeaning(log);
    LastCheckInMeaning(log);
    assert log[|log| - 1].IsActivity();
    assert LastActivity(log) == Some(t0);
    StintEnds(log, steps, t0, t0, t0, d, day);
  }

  /** The last activity is not later than the last check-in if none of those after it is. */
  lemma SilentSince(log: Log, i: nat)
    requires Chronological(log) && LastActivity(log).Some?
    requires i < |log| && log[i].CheckIn? && forall k | i < k < |log| :: !log[k].CheckIn?
    ensures LastCheckIn(log) == Some(log[i].at)
    ensures LastActivity(log).value <= log[i].at <==>
      forall k | i < k < |log| && log[k].IsActivity() :: log[k].at == log[i].at
  {
    hide LastActivity, LastCheckIn;
    LastActivityMeaning(log);
    LastCheckInMeaning(log);
    var k: nat :| k < |log| && log[k].IsActivity() && log[k].at == LastActivity(log).value;
    assert k <= i ==> log[k].at <= log[i].at;
  }

  /** The issue is assigned exactly if neither the sweep nor anyone else ended an assignment since. */
  lemma {:induction false} AssignedMeaning(log: Log)
    ensures IsAssigned(log) <==>
      exists i: nat ::
        i < |log| && log[i].Assigned? && forall k | i < k < |log| :: !log[k].Cleared? && !log[k].Unassigned?
  {
    if log != [] {
      var init := log[..|log| - 1];
      AssignedMeaning(init);
      assert forall k | 0 <= k < |init| :: init[k] == log[k];
      if log[|log| - 1].Assigned? {
        var i: nat := |log| - 1;
        assert log[i].Assigned?;
      }
    }
  }

  /** Without an assignment, or with a closing PR, the hold label or another status, a sweep does nothing. */
  lemma NothingToSweep(log: Log, now: int, blocked: bool, day: nat)
    requires day > 0 && (blocked || !IsAssigned(log))
    ensures Perform(log, Sweep(now, blocked), day) == log
  {
  }

  /**
    A sweep posts a check-in exactly if 14 days have passed since everything that the assignee did, and some of that is
    later than every check-in.
   */
  lemma CheckInExactly(log: Log, now: int, day: nat)
    requires day > 0 && IsAssigned(log)
    ensures Perform(log, Sweep(now, false), day) == log + [CheckIn(now)] <==>
      && (forall k | 0 <= k < |log| && (log[k].Assigned? || log[k].Reply?) :: log[k].at + 14 * day <= now)
      && exists k | 0 <= k < |log| && (log[k].Assigned? || log[k].Reply?) ::
           forall i | 0 <= i < |log| && log[i].CheckIn? :: log[i].at < log[k].at
  {
    hide LastActivity, LastCheckIn, LastAssignment, IsAssigned;
    AssignedHasAssignment(log);
    ActivityCoversAssignment(log);
    LastActivityMeaning(log);
    LastCheckInMeaning(log);
    var last := LastActivity(log).value;
    DaysBetween(last, now, 14, day);
    var latest: nat :| latest < |log| && log[latest].IsActivity() && log[latest].at == last;
    assert (log + [Cleared(now)])[|log|] == Cleared(now) && (log + [CheckIn(now)])[|log|] == CheckIn(now);
  }

  /**
    With a check-in out, a sweep clears the assignment exactly if 7 days have passed and the assignee did nothing since
    but at the very time of the check-in.
   */
  lemma ClearedExactly(log: Log, i: nat, now: int, day: nat)
    requires day > 0 && Chronological(log) && IsAssigned(log)
    requires i < |log| && log[i].CheckIn? && forall k | i < k < |log| :: !log[k].CheckIn?
    ensures Perform(log, Sweep(now, false), day) == log + [Cleared(now)] <==>
      && log[i].at + 7 * day <= now
      && forall k | i < k < |log| && (log[k].Assigned? || log[k].Reply?) :: log[k].at == log[i].at
  {
    hide LastActivity, LastCheckIn, LastAssignment, IsAssigned, Chronological;
    AssignedHasAssignment(log);
    ActivityCoversAssignment(log);
    SilentSince(log, i);
    DaysBetween(log[i].at, now, 7, day);
    assert (log + [Cleared(now)])[|log|] == Cleared(now) && (log + [CheckIn(now)])[|log|] == CheckIn(now);
  }

  /** A reply in the very instant of the check-in does not count as one: 7 days later the assignment is cleared. */
  lemma SimultaneousReply(day: nat)
    requires day > 0
    ensures Run([], [Assign(0), Sweep(14 * day, false), Comment(14 * day, true), Sweep(21 * day, false)], day)
         == [Assigned(0), CheckIn(14 * day), Reply(14 * day), Cleared(21 * day)]
  {
    var s1, s2, s3, s4 := Assign(0), Sweep(14 * day, false), Comment(14 * day, true), Sweep(21 * day, false);
    var l1: Log := [Assigned(0)];
    var l2: Log := l1 + [CheckIn(14 * day)];
    var l3: Log := l2 + [Reply(14 * day)];
    assert l1[..0] == [] && l2[..1] == l1 && l3[..2] == l2;
    DaysBetween(0, 14 * day, 14, day);
    DaysBetween(14 * day, 21 * day, 7, day);
    assert IsAssigned(l1) && IsAssigned(l2) && IsAssigned(l3);
    assert LastActivity(l1) == Some(0) && LastCheckIn(l1) == None;
    assert LastActivity(l2) == Some(0) && LastCheckIn(l2) == Some(14 * day);
    assert LastActivity(l3) == Some(14 * day) && LastCheckIn(l3) == Some(14 * day);
    assert Perform([], s1, day) == l1;
    assert Perform(l1, s2, day) == l2;
    assert Perform(l2, s3, day) == l3;
    assert Perform(l3, s4, day) == l3 + [Cleared(21 * day)];
    var steps := [s1, s2, s3, s4];
    assert steps[1..] == [s2, s3, s4] && steps[1..][1..] == [s3, s4] && steps[1..][1..][1..] == [s4];
    assert Run(l3, [s4], day) == l3 + [Cleared(21 * day)];
    assert Run(l2, [s3, s4], day) == Run(l3, [s4], day);
    assert Run(l1, [s2, s3, s4], day) == Run(l2, [s3, s4], day);
  }
}
