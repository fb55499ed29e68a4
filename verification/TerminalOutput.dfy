/**
  The output of a terminal tool call, as bytes of UTF-8 (section 4 of RFC 3629), cut to a byte limit at a character
  boundary and, where there is one, at the end of a line.
 */
module TerminalOutput {
  import opened Outcomes

  type Byte = b: nat | b < 256

  const NEWLINE: Byte := 10

  // ---------- UTF-8 ----------

  predicate IsContinuation(b: Byte) {
    0x80 <= b < 0xC0
  }

  /** The length of the character that the bytes begin with, or 0 when they begin with none. */
  function CharLength(s: seq<Byte>): (n: nat)
    ensures n <= 4 && n <= |s|
  {
    if s == [] then 0
    else if s[0] < 0x80 then 1
    else if |s| >= 2 && 0xC2 <= s[0] <= 0xDF && IsContinuation(s[1]) then 2
    else if |s| >= 3 && ThreeByteStart(s[0], s[1]) && IsContinuation(s[2]) then 3
    else if |s| >= 4 && FourByteStart(s[0], s[1]) && IsContinuation(s[2]) && IsContinuation(s[3]) then 4
    else 0
  }

  /** Neither overlong nor a surrogate. */
  predicate ThreeByteStart(a: Byte, b: Byte) {
    && 0xE0 <= a <= 0xEF && IsContinuation(b)
    && (a == 0xE0 ==> 0xA0 <= b)
    && (a == 0xED ==> b < 0xA0)
  }

  /** Neither overlong nor above U+10FFFF. */
  predicate FourByteStart(a: Byte, b: Byte) {
    && 0xF0 <= a <= 0xF4 && IsContinuation(b)
    && (a == 0xF0 ==> 0x90 <= b)
    && (a == 0xF4 ==> b < 0x90)
  }

  predicate ValidUtf8(s: seq<Byte>)
    decreases |s|
  {
    s == [] || (CharLength(s) > 0 && ValidUtf8(s[CharLength(s)..]))
  }

  /** `is_char_boundary`: only the one byte is looked at. */
  predicate IsCharBoundary(s: seq<Byte>, i: nat) {
    i == 0 || i == |s| || (i < |s| && !IsContinuation(s[i]))
  }

  lemma CharBytes(s: seq<Byte>, k: nat)
    requires k < CharLength(s)
    ensures k > 0 ==> IsContinuation(s[k])
    ensures s[0] == NEWLINE ==> CharLength(s) == 1
    ensures CharLength(s[..k]) == 0 || k == 0
    ensures !IsContinuation(s[0])
  {
  }

  lemma CharOfPrefix(s: seq<Byte>, i: nat)
    requires CharLength(s) <= i <= |s|
    ensures CharLength(s) > 0 ==> CharLength(s[..i]) == CharLength(s)
  {
  }

  /** In valid text the look at one byte tells exactly where the text can be cut. */
  lemma {:induction false} BoundaryIsCut(s: seq<Byte>, i: nat)
    requires ValidUtf8(s) && i <= |s|
    ensures IsCharBoundary(s, i) <==> ValidUtf8(s[..i])
    ensures IsCharBoundary(s, i) ==> ValidUtf8(s[i..])
    decreases |s|
  {
    var n := CharLength(s);
    if i == 0 {
      assert s[0..] == s;
    } else if i < n {
      CharBytes(s, i);
    } else {
      BoundaryIsCut(s[n..], i - n);
      CharOfPrefix(s, i);
      assert s[..i][n..] == s[n..][..i - n];
      assert s[i..] == s[n..][i - n..];
      if i == n && i < |s| {
        CharBytes(s[n..], 0);
      }
    }
  }

  /** Of four successive places in valid text one is a boundary. */
  lemma {:induction false} BoundaryNear(s: seq<Byte>, i: nat) returns (b: nat)
    requires ValidUtf8(s) && i <= |s|
    ensures b <= i <= b + 3 && IsCharBoundary(s, b)
    ensures forall k | b < k < i :: s[k] != NEWLINE
    ensures b < i ==> s[b] != NEWLINE
    decreases |s|
  {
    var n := CharLength(s);
    if i < n || i == 0 {
      b := 0;
      forall k | 0 <= k < i
        ensures s[k] != NEWLINE
      {
        CharBytes(s, k);
      }
    } else {
      b := BoundaryNear(s[n..], i - n);
      b := b + n;
      forall k | b < k < i
        ensures s[k] != NEWLINE
      {
        assert s[k] == s[n..][k - n];
      }
      if b == n && n < |s| {
        CharBytes(s[n..], 0);
      }
    }
  }

  // ---------- The cut ----------

  /** The greatest character boundary up to `i`. */
  function LastBoundary(s: seq<Byte>, i: nat): (b: nat)
    requires i <= |s|
    ensures b <= i && IsCharBoundary(s, b)
    ensures forall k | b < k <= i :: !IsCharBoundary(s, k)
  {
    if IsCharBoundary(s, i) then i else LastBoundary(s, i - 1)
  }

  /** `rfind('\n')`. */
  function LastNewline(s: seq<Byte>): (at: Option<nat>)
    ensures at.None? ==> forall k | 0 <= k < |s| :: s[k] != NEWLINE
    ensures at.Some? ==> at.value < |s| && s[at.value] == NEWLINE
    ensures at.Some? ==> forall k | at.value < k < |s| :: s[k] != NEWLINE
  {
    if s == [] then None
    else if s[|s| - 1] == NEWLINE then Some(|s| - 1)
    else LastNewline(s[..|s| - 1])
  }

  /** The bytes of the content that are kept. */
  function Kept(content: seq<Byte>, limit: Option<nat>): (kept: seq<Byte>)
    ensures kept <= content
    ensures limit.Some? ==> |kept| <= limit.value
    ensures |kept| < |content| <==> limit.Some? && |content| > limit.value
  {
    if limit.None? || |content| <= limit.value then content
    else
      var end := LastBoundary(content, limit.value);
      match LastNewline(content[..end])
      case Some(at) => content[..at]
      case None => content[..end]
  }

  /**
    The kept part of a text over its limit: it is valid text; it ends just before the last newline within the limit,
    if there is one; and otherwise it loses at most three bytes below the limit and no longer part is valid.
   */
  lemma KeptMeaning(content: seq<Byte>, limit: nat)
    requires ValidUtf8(content) && |content| > limit
    ensures ValidUtf8(Kept(content, Some(limit)))
    ensures 10 in content[..limit] ==>
      var n := |Kept(content, Some(limit))|;
      n < limit && content[n] == 10 && 10 !in content[n + 1..limit]
    ensures 10 !in content[..limit] ==>
      var n := |Kept(content, Some(limit))|;
      limit <= n + 3 && forall m | n < m <= limit :: !ValidUtf8(content[..m])
  {
    hide ValidUtf8, CharLength;
    var end := LastBoundary(content, limit);
    var near := BoundaryNear(content, limit);
    assert near <= end;
    forall m | 0 <= m <= limit
      ensures IsCharBoundary(content, m) <==> ValidUtf8(content[..m])
    {
      BoundaryIsCut(content, m);
    }
    assert forall k | end <= k < limit :: content[k] != NEWLINE;
    var n := |Kept(content, Some(limit))|;
    if LastNewline(content[..end]).Some? {
      forall k | n + 1 <= k < limit
        ensures content[k] != NEWLINE
      {
        if k < end {
          assert content[k] == content[..end][k];
        }
      }
      assert content[..limit][n] == NEWLINE;
    } else {
      forall k | 0 <= k < limit
        ensures content[k] != NEWLINE
      {
        if k < end {
          assert content[k] == content[..end][k];
        }
      }
    }
  }

  /** Once the output is over its limit, what follows no longer changes what is kept. */
  lemma KeptFrozen(content: seq<Byte>, more: seq<Byte>, limit: nat)
    requires |content| > limit
    ensures Kept(content + more, Some(limit)) == Kept(content, Some(limit))
  {
    LastBoundaryOfPrefix(content, more, limit);
    var end := LastBoundary(content, limit);
    assert (content + more)[..end] == content[..end];
    assert forall n | 0 <= n <= end :: (content + more)[..n] == content[..n];
  }

  lemma {:induction false} LastBoundaryOfPrefix(content: seq<Byte>, more: seq<Byte>, i: nat)
    requires i < |content|
    ensures LastBoundary(content + more, i) == LastBoundary(content, i)
  {
    if i > 0 {
      LastBoundaryOfPrefix(content, more, i - 1);
    }
  }

  // ---------- The terminal ----------

  datatype Output = Output(content: seq<Byte>, originalContentLen: nat)
  datatype Response = Response(content: seq<Byte>, truncated: bool)

  class Terminal {
    /** What the terminal shows by now. */
    var screen: seq<Byte>
    /** The output taken when the command ended. */
    var output: Option<Output>
    const outputByteLimit: Option<nat>
    /** What the terminal showed when the command ended. */
    ghost var shown: seq<Byte>

    ghost predicate Valid()
      reads this
    {
      && ValidUtf8(screen)
      && ValidUtf8(shown)
      && (output.Some? ==> output.value == Output(Kept(shown, outputByteLimit), |shown|))
    }

    constructor (limit: Option<nat>)
      ensures Valid() && screen == [] && output.None? && outputByteLimit == limit
    {
      screen, shown, output, outputByteLimit := [], [], None, limit;
    }

    /** The terminal shows more text. */
    method Show(more: seq<Byte>)
      requires Valid() && ValidUtf8(screen + more)
      modifies this`screen
      ensures Valid() && screen == old(screen) + more
    {
      screen := screen + more;
    }

    method TruncatedOutput() returns (content: seq<Byte>, originalContentLen: nat)
      requires Valid()
      ensures content == Kept(screen, outputByteLimit) && ValidUtf8(content)
      ensures originalContentLen == |screen|
    {
      content, originalContentLen := screen, |screen|;
      if outputByteLimit.Some? && |content| > outputByteLimit.value {
        var end := outputByteLimit.value;
        while !IsCharBoundary(content, end)
          invariant 0 <= end <= outputByteLimit.value
          invariant LastBoundary(content, end) == LastBoundary(content, outputByteLimit.value)
          decreases end
        {
          end := end - 1;
        }
        var newline := LastNewline(content[..end]);
        if newline.Some? {
          end := newline.value;
        }
        // Where `truncate` would otherwise panic.
        assert IsCharBoundary(content, end);
        BoundaryIsCut(content, end);
        content := content[..end];
      }
    }

    /** The command ends: its output is taken. */
    method Finish()
      requires Valid()
      modifies this`output, this`shown
      ensures Valid() && shown == screen && output.Some?
    {
      var content, originalContentLen := TruncatedOutput();
      output, shown := Some(Output(content, originalContentLen)), screen;
    }

    /** The flag says whether bytes were dropped, of the live text as of the finished one. */
    method CurrentOutput() returns (response: Response)
      requires Valid()
      ensures response.content == Kept(if output.None? then screen else shown, outputByteLimit)
      ensures ValidUtf8(response.content)
      ensures response.truncated <==>
        outputByteLimit.Some? && |if output.None? then screen else shown| > outputByteLimit.value
    {
      match output
      case Some(taken) =>
        KeptValid(shown, outputByteLimit);
        response := Response(taken.content, taken.originalContentLen > |taken.content|);
      case None =>
        var content, originalLen := TruncatedOutput();
        response := Response(content, |content| < originalLen);
    }
  }

  lemma KeptValid(content: seq<Byte>, limit: Option<nat>)
    requires ValidUtf8(content)
    ensures ValidUtf8(Kept(content, limit))
  {
    if limit.Some? && |content| > limit.value {
      KeptMeaning(content, limit.value);
    }
  }
}
