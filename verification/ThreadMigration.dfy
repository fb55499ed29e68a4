/**
  The upgrade of a saved thread: until version 0.1.0 the results of an assistant's tool uses were saved in a user
  message of their own, which is now folded into the message before it.
 */
module ThreadMigration {
  import opened Outcomes

  datatype Role = User | Assistant | System
  datatype Segment =
    | TextSegment(text: string)
    | Thinking(text: string, signature: Option<string>)
    | Redacted(data: string)
  datatype ToolUse = ToolUse(id: string, name: string, input: string)
  datatype ToolResult = ToolResult(toolUseId: string, isError: bool, content: string, output: Option<string>)
  datatype Crease = Crease(start: nat, end: nat, iconPath: string, caption: string)

  datatype Message = Message(
    id: nat,
    role: Role,
    segments: seq<Segment>,
    toolUses: seq<ToolUse>,
    toolResults: seq<ToolResult>,
    context: string,
    creases: seq<Crease>,
    isHidden: bool)

  /** `rest` stands for the fields that no upgrade looks at. */
  datatype Thread<R> = Thread(version: string, summary: string, updatedAt: int, messages: seq<Message>, rest: R)

  const VERSION := "0.2.0"
  const VERSION_0_1_0 := "0.1.0"

  // ---------- The fold ----------

  /** A user message that carries tool results. */
  predicate Carries(m: Message) {
    m.role == User && m.toolResults != []
  }

  /** The messages after the fold. */
  function Folded(messages: seq<Message>): (folded: seq<Message>)
    ensures messages != [] ==> folded != []
  {
    if messages == [] then []
    else
      var m, before := messages[|messages| - 1], Folded(messages[..|messages| - 1]);
      if Carries(m) && before != [] then
        before[|before| - 1 := before[|before| - 1].(toolResults := m.toolResults)]
      else before + [m]
  }

  lemma FoldedStep(messages: seq<Message>)
    ensures messages == [] ==> Folded(messages) == []
    ensures messages != [] ==>
      var m, before := messages[|messages| - 1], Folded(messages[..|messages| - 1]);
      Folded(messages) ==
        if Carries(m) && |messages| > 1 then before[|before| - 1 := before[|before| - 1].(toolResults := m.toolResults)]
        else before + [m]
  {
  }

  /** `SerializedThreadV0_1_0::upgrade`. */
  method Upgrade<R>(saved: Thread<R>) returns (thread: Thread<R>)
    ensures thread == saved.(messages := Folded(saved.messages), version := VERSION)
  {
    var messages: seq<Message> := [];
    for i := 0 to |saved.messages|
      invariant messages == Folded(saved.messages[..i])
    {
      var message := saved.messages[i];
      assert saved.messages[..i + 1][..i] == saved.messages[..i];
      if message.role == User && message.toolResults != [] && messages != [] {
        var last := messages[|messages| - 1];
        messages := messages[|messages| - 1 := last.(toolResults := message.toolResults)];
        continue;
      }
      messages := messages + [message];
    }
    assert saved.messages[..|saved.messages|] == saved.messages;
    thread := saved.(messages := messages, version := VERSION);
  }

  // ---------- Tool results ----------

  /** All tool results of the messages, in order. */
  function Results(messages: seq<Message>): seq<ToolResult> {
    if messages == [] then []
    else Results(messages[..|messages| - 1]) + messages[|messages| - 1].toolResults
  }

  /** The number of tool results that are overwritten: those of a message that a carrier follows. */
  function Overwritten(messages: seq<Message>): nat {
    if |messages| <= 1 then 0
    else
      Overwritten(messages[..|messages| - 1])
      + (if Carries(messages[|messages| - 1]) then |messages[|messages| - 2].toolResults| else 0)
  }

  /** Every carrier but a first message follows a message without tool results. */
  predicate NothingOverwritten(messages: seq<Message>) {
    forall i, j | 0 <= i && j == i + 1 < |messages| && Carries(messages[j]) :: messages[i].toolResults == []
  }

  lemma ResultsAppend(messages: seq<Message>, m: Message)
    ensures Results(messages + [m]) == Results(messages) + m.toolResults
  {
    assert (messages + [m])[..|messages|] == messages;
  }

  /** The last message of the fold has the results of the last message. */
  lemma LastResults(messages: seq<Message>)
    requires messages != []
    ensures Folded(messages)[|Folded(messages)| - 1].toolResults == messages[|messages| - 1].toolResults
  {
  }

  /** One more message: its results replace those of the message before it, or are added. */
  lemma StepResults(messages: seq<Message>)
    requires messages != []
    ensures
      var m, init := messages[|messages| - 1], messages[..|messages| - 1];
      var before := Folded(init);
      Results(Folded(messages)) ==
      (if Carries(m) && init != [] then Results(before[..|before| - 1]) else Results(before)) + m.toolResults
  {
    var m, init := messages[|messages| - 1], messages[..|messages| - 1];
    var before := Folded(init);
    if Carries(m) && init != [] {
      var last := before[|before| - 1].(toolResults := m.toolResults);
      assert Folded(messages) == before[..|before| - 1] + [last];
      ResultsAppend(before[..|before| - 1], last);
    } else {
      ResultsAppend(before, m);
    }
  }

  lemma {:induction false} ResultsCount(messages: seq<Message>)
    ensures |Results(Folded(messages))| + Overwritten(messages) == |Results(messages)|
  {
    if messages != [] {
      var init := messages[..|messages| - 1];
      ResultsCount(init);
      StepResults(messages);
      if init != [] {
        LastResults(init);
      }
    }
  }

  lemma {:induction false} OverwrittenNone(messages: seq<Message>)
    ensures Overwritten(messages) == 0 <==> NothingOverwritten(messages)
  {
    if |messages| > 1 {
      var n := |messages|;
      var init := messages[..n - 1];
      OverwrittenNone(init);
      assert forall i | 0 <= i < n - 1 :: init[i] == messages[i];
      if Carries(messages[n - 1]) && messages[n - 2].toolResults != [] {
        assert !NothingOverwritten(messages);
      }
    }
  }

  lemma {:induction false} ResultsKept(messages: seq<Message>)
    requires Overwritten(messages) == 0
    ensures Results(Folded(messages)) == Results(messages)
  {
    hide Folded, Carries;
    FoldedStep(messages);
    if messages != [] {
      var n := |messages|;
      var init := messages[..n - 1];
      ResultsKept(init);
      StepResults(messages);
      if n > 1 && Carries(messages[n - 1]) {
        LastResults(init);
        ResultsFront(Folded(init));
      }
    }
  }

  lemma ResultsFront(messages: seq<Message>)
    requires messages != [] && messages[|messages| - 1].toolResults == []
    ensures Results(messages) == Results(messages[..|messages| - 1])
  {
    assert Results(messages) == Results(messages[..|messages| - 1]) + [];
  }

  /** The upgrade keeps all tool results, in order, exactly when no carrier follows a message with results. */
  lemma ResultsConserved(messages: seq<Message>)
    ensures Results(Folded(messages)) == Results(messages) <==> NothingOverwritten(messages)
  {
    ResultsCount(messages);
    OverwrittenNone(messages);
    if NothingOverwritten(messages) {
      ResultsKept(messages);
    }
  }

  // ---------- The other messages ----------

  /** The messages that are not folded away: all but the carriers after the first message. */
  function Kept(messages: seq<Message>): seq<Message> {
    if messages == [] then []
    else
      Kept(messages[..|messages| - 1])
      + (if Carries(messages[|messages| - 1]) && |messages| > 1 then [] else [messages[|messages| - 1]])
  }

  /** The messages agree in all but their tool results. */
  predicate SameButResults(a: seq<Message>, b: seq<Message>) {
    |a| == |b| && forall i | 0 <= i < |a| :: a[i].(toolResults := []) == b[i].(toolResults := [])
  }

  /** A message keeps its place and everything but its tool results. */
  lemma {:induction false} MessagesKept(messages: seq<Message>)
    ensures SameButResults(Folded(messages), Kept(messages))
  {
    if messages != [] {
      MessagesKept(messages[..|messages| - 1]);
    }
  }

  /** Where a message ends up: its own place, or that of the message it is folded into. */
  function Place(messages: seq<Message>, i: nat): int
    requires i < |messages|
  {
    |Kept(messages[..i + 1])| - 1
  }

  /** The tool results of a message are found in its place, unless the next message overwrites them. */
  lemma {:induction false} ResultsInPlace(messages: seq<Message>, i: nat)
    requires i < |messages|
    requires i + 1 == |messages| || !Carries(messages[i + 1])
    ensures 0 <= Place(messages, i) < |Folded(messages)|
    ensures Folded(messages)[Place(messages, i)].toolResults == messages[i].toolResults
  {
    var n := |messages|;
    MessagesKept(messages);
    if i + 1 == n {
      assert messages[..i + 1] == messages;
      LastResults(messages);
    } else {
      var init := messages[..n - 1];
      ResultsInPlace(init, i);
      MessagesKept(init);
      assert init[..i + 1] == messages[..i + 1];
      if Carries(messages[n - 1]) {
        PlaceBefore(init, i);
      }
    }
  }

  /** A message that a message of its own place follows is not in the last place. */
  lemma {:induction false} PlaceBefore(messages: seq<Message>, i: nat)
    requires i + 1 < |messages| && !Carries(messages[i + 1])
    ensures Place(messages, i) < |Kept(messages)| - 1
  {
    var n := |messages|;
    if i + 2 == n {
      assert messages[..i + 1] == messages[..n - 1];
    } else {
      PlaceBefore(messages[..n - 1], i);
      assert messages[..n - 1][..i + 1] == messages[..i + 1];
    }
  }

  // ---------- Upgrading again ----------

  /** No carrier but the first message is left. */
  predicate Settled(messages: seq<Message>) {
    forall i | 1 <= i < |messages| :: !Carries(messages[i])
  }

  lemma {:induction false} FoldedSettled(messages: seq<Message>)
    ensures |Folded(messages)| <= |messages|
    ensures |Folded(messages)| == |messages| <==> Settled(messages)
    ensures Settled(messages) ==> Folded(messages) == messages
  {
    if messages != [] {
      FoldedSettled(messages[..|messages| - 1]);
      assert messages == messages[..|messages| - 1] + [messages[|messages| - 1]];
    }
  }

  /** No carrier directly follows a user message without results, save the first message. */
  predicate FollowsAssistant(messages: seq<Message>) {
    forall i, j | 1 <= i && j == i + 1 < |messages| && Carries(messages[j]) && !Carries(messages[i]) ::
      messages[i].role != User
  }

  lemma FollowsStep(messages: seq<Message>)
    requires |messages| > 1
    ensures
      var n := |messages|;
      FollowsAssistant(messages) <==>
        && FollowsAssistant(messages[..n - 1])
        && (n > 2 && Carries(messages[n - 1]) && !Carries(messages[n - 2]) ==> messages[n - 2].role != User)
  {
    var n := |messages|;
    var init := messages[..n - 1];
    assert forall i | 0 <= i < n - 1 :: init[i] == messages[i];
    var m, previous := messages[n - 1], messages[n - 2];
    if FollowsAssistant(init) && (n > 2 && Carries(m) && !Carries(previous) ==> previous.role != User) {
      forall i, j | 1 <= i && j == i + 1 < n && Carries(messages[j]) && !Carries(messages[i])
        ensures messages[i].role != User
      {
        if j < n - 1 {
          assert Carries(init[j]) && !Carries(init[i]);
        }
      }
    }
  }

  /** A last message that is not folded away is last in the fold. */
  lemma {:induction false} LastPushed(messages: seq<Message>)
    requires messages != []
    ensures |messages| > 1 && !Carries(messages[|messages| - 1]) ==>
      |Folded(messages)| > 1 && Folded(messages)[|Folded(messages)| - 1] == messages[|messages| - 1]
    ensures |messages| == 1 ==> Folded(messages) == messages
  {
  }

  lemma SettledLast(messages: seq<Message>, m: Message)
    ensures Settled(messages + [m]) <==> Settled(messages) && (messages == [] || !Carries(m))
  {
    assert forall i | 0 <= i < |messages| :: (messages + [m])[i] == messages[i];
    assert (messages + [m])[|messages|] == m;
  }

  /** A fold into the last message leaves the messages settled unless that is a later message of the user. */
  lemma SettledByCarrier(messages: seq<Message>)
    requires |messages| > 1 && Carries(messages[|messages| - 1])
    ensures
      var before := Folded(messages[..|messages| - 1]);
      Settled(Folded(messages)) <==>
        Settled(before[..|before| - 1]) && (|before| == 1 || before[|before| - 1].role != User)
  {
    hide Folded, Settled;
    FoldedStep(messages);
    var m, before := messages[|messages| - 1], Folded(messages[..|messages| - 1]);
    var front, last := before[..|before| - 1], before[|before| - 1];
    SettledLast(front, last.(toolResults := m.toolResults));
    assert Folded(messages) == front + [last.(toolResults := m.toolResults)];
  }

  /** Whether the last message of the fold is the user's, told by the last message. */
  lemma LastUser(messages: seq<Message>)
    requires |messages| > 1
    ensures
      var m, last := messages[|messages| - 1], Folded(messages)[|Folded(messages)| - 1];
      last.role == User <==> Carries(last) || (!Carries(m) && m.role == User)
  {
    LastResults(messages);
    LastPushed(messages);
  }

  lemma SettledByOther(messages: seq<Message>)
    requires |messages| > 1 && !Carries(messages[|messages| - 1])
    ensures Settled(Folded(messages)) <==> Settled(Folded(messages[..|messages| - 1]))
  {
    hide Folded, Settled;
    FoldedStep(messages);
    SettledLast(Folded(messages[..|messages| - 1]), messages[|messages| - 1]);
  }

  lemma {:induction false} SettledByFold(messages: seq<Message>)
    ensures FollowsAssistant(messages) <==> Settled(Folded(messages))
  {
    if |messages| <= 1 {
      FoldedSettled(messages);
    } else {
      hide FollowsAssistant, Folded, Settled, Carries;
      var n := |messages|;
      var init := messages[..n - 1];
      SettledByFold(init);
      FollowsStep(messages);
      if Carries(messages[n - 1]) {
        SettledByCarrier(messages);
        if n == 2 {
          LastPushed(init);
        } else {
          LastPushed(init);
          LastUser(init);
          SettledFront(Folded(init));
        }
      } else {
        SettledByOther(messages);
      }
    }
  }

  lemma SettledFront(messages: seq<Message>)
    requires messages != []
    ensures
      var front, last := messages[..|messages| - 1], messages[|messages| - 1];
      Settled(messages) <==> Settled(front) && (|messages| == 1 || !Carries(last))
  {
    var front, last := messages[..|messages| - 1], messages[|messages| - 1];
    SettledLast(front, last);
    assert messages == front + [last];
  }

  /** Upgrading again changes nothing exactly when no carrier directly follows a user message without results. */
  lemma UpgradeAgain(messages: seq<Message>)
    ensures Folded(Folded(messages)) == Folded(messages) <==> FollowsAssistant(messages)
  {
    SettledByFold(messages);
    FoldedSettled(Folded(messages));
  }

  // ---------- The debug assertion ----------

  /** Every carrier is folded into a message of the assistant. */
  predicate AssertionHolds(messages: seq<Message>) {
    if messages == [] then true
    else
      var m, before := messages[|messages| - 1], Folded(messages[..|messages| - 1]);
      && AssertionHolds(messages[..|messages| - 1])
      && (Carries(m) && before != [] ==> before[|before| - 1].role == Assistant)
  }

  /** The message right before each carrier is the assistant's, or a carrier that was folded itself. */
  predicate FromAssistant(messages: seq<Message>) {
    forall i, j | 0 <= i && j == i + 1 < |messages| && Carries(messages[j]) ::
      messages[i].role == Assistant || (i > 0 && Carries(messages[i]))
  }

  lemma {:induction false} AssertionMeaning(messages: seq<Message>)
    ensures AssertionHolds(messages) <==> FromAssistant(messages)
  {
    if messages != [] {
      var n := |messages|;
      var init := messages[..n - 1];
      AssertionMeaning(init);
      assert forall i | 0 <= i < n - 1 :: init[i] == messages[i];
      if n > 1 && FromAssistant(init) && Carries(messages[n - 1]) {
        LastRole(init);
      }
    }
  }

  lemma {:induction false} LastRole(messages: seq<Message>)
    requires messages != [] && FromAssistant(messages)
    ensures
      var m, last := messages[|messages| - 1], Folded(messages)[|Folded(messages)| - 1];
      last.role == if |messages| > 1 && Carries(m) then Assistant else m.role
  {
    if |messages| > 1 && Carries(messages[|messages| - 1]) {
      var init := messages[..|messages| - 1];
      assert forall i | 0 <= i < |init| :: init[i] == messages[i];
      LastRole(init);
    }
  }

  /** The assertion does not keep results from being lost: of two carriers in a row only the second's are left. */
  lemma SecondCarrierReplacesFirst(reply: Message, first: Message, second: Message)
    requires reply.role == Assistant && Carries(first) && Carries(second)
    ensures AssertionHolds([reply, first, second])
    ensures Folded([reply, first, second]) == [reply.(toolResults := second.toolResults)]
  {
    AssertionMeaning([reply, first, second]);
    assert [reply, first, second][..2] == [reply, first];
    assert [reply, first][..1] == [reply];
    assert Folded([reply]) == [reply];
  }

  // ---------- Loading ----------

  /** A message before versions were written. */
  datatype LegacyMessage = LegacyMessage(
    id: nat, role: Role, text: string, toolUses: seq<ToolUse>, toolResults: seq<ToolResult>)

  /** The fields a version tells to expect; the third form is a version that is not a string or not known. */
  datatype Saved<R> =
    | Versioned(thread: Thread<R>)
    | Legacy(summary: string, updatedAt: int, legacyMessages: seq<LegacyMessage>, rest: R)
    | Unrecognized

  function UpgradeMessage(m: LegacyMessage): Message {
    Message(m.id, m.role, [TextSegment(m.text)], m.toolUses, m.toolResults, "", [], false)
  }

  function UpgradeMessages(messages: seq<LegacyMessage>): seq<Message> {
    seq(|messages|, i requires 0 <= i < |messages| => UpgradeMessage(messages[i]))
  }

  predicate IsKnown<R>(saved: Saved<R>) {
    saved.Versioned? && (saved.thread.version == VERSION || saved.thread.version == VERSION_0_1_0)
  }

  /** `SerializedThread::from_json`, of fields that have been read; what it gives is of the current version. */
  method Load<R>(saved: Saved<R>) returns (r: Result<Thread<R>, string>)
    ensures r.Failure? <==> !saved.Legacy? && !IsKnown(saved)
    ensures IsKnown(saved) <==>
      saved.Versioned? && (saved.thread.version == "0.2.0" || saved.thread.version == "0.1.0")
    ensures IsKnown(saved) && saved.thread.version == "0.2.0" ==> r == Success(saved.thread)
    ensures IsKnown(saved) && saved.thread.version == "0.1.0" ==>
      r == Success(saved.thread.(messages := Folded(saved.thread.messages), version := "0.2.0"))
    ensures saved.Legacy? ==>
      r.Success? && r.value.(messages := []) == Thread("0.2.0", saved.summary, saved.updatedAt, [], saved.rest)
    ensures saved.Legacy? ==>
      && |r.value.messages| == |saved.legacyMessages|
      && forall i | 0 <= i < |saved.legacyMessages| ::
           var m := saved.legacyMessages[i];
           r.value.messages[i]
           == Message(m.id, m.role, [TextSegment(m.text)], m.toolUses, m.toolResults, "", [], false)
    ensures r.Success? ==> r.value.version == "0.2.0"
  {
    match saved
    case Versioned(thread) =>
      assert VERSION[2] == '2' && VERSION_0_1_0[2] == '1';
      if thread.version == VERSION_0_1_0 {
        var upgraded := Upgrade(thread);
        r := Success(upgraded);
      } else if thread.version == VERSION {
        r := Success(thread);
      } else {
        r := Failure("unrecognized serialized thread version");
      }
    case Legacy(summary, updatedAt, messages, rest) =>
      r := Success(Thread(VERSION, summary, updatedAt, UpgradeMessages(messages), rest));
    case Unrecognized =>
      r := Failure("unrecognized serialized thread version");
  }
}
