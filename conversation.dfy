/** The conversation transcript of the Phi-4 runner as a value: the
    messages, the parallel list of per-message token estimates and their
    running total, with the append / evict / reset rules the runner applies
    to its fields. */
module Conversation {
  import opened Strings

  const AverageCharsPerToken := 4

  datatype Role = System | User | Assistant

  datatype Message = Message(role: Role, content: string)

  /** chatHistory, historyTokenCounts and historyTokenTotal of the runner. */
  datatype Transcript = Transcript(messages: seq<Message>, counts: seq<int>, total: int)

  function Max(a: int, b: int): int {
    if a < b then b else a
  }

  /** The coarse token estimate: one token per complete block of four
      characters, plus one. */
  function EstimateTokenCount(text: string): (r: int)
    ensures r >= 1
    ensures r == |text| / AverageCharsPerToken + 1
    ensures AverageCharsPerToken * (r - 1) <= |text| < AverageCharsPerToken * r
  {
    Max(1, |text| / AverageCharsPerToken + 1)
  }

  function Sum(s: seq<int>): int {
    if s == [] then 0 else s[0] + Sum(s[1..])
  }

  /** The bookkeeping the runner keeps: one estimate per message, each the
      estimate of that message's text, and a total that is their sum. */
  predicate Consistent(t: Transcript) {
    && |t.counts| == |t.messages|
    && t.total == Sum(t.counts)
    && forall i :: 0 <= i < |t.counts| ==> t.counts[i] == EstimateTokenCount(t.messages[i].content)
  }

  /** A transcript as the runner holds it between calls: consistent, with
      the system message first and only there. */
  predicate WellFormed(t: Transcript) {
    && Consistent(t)
    && |t.messages| >= 1
    && t.messages[0].role == System
    && forall i :: 1 <= i < |t.messages| ==> t.messages[i].role != System
  }

  /** Adds a message and its estimate, before any eviction. */
  function Added(t: Transcript, m: Message): Transcript {
    var n := EstimateTokenCount(m.content);
    Transcript(t.messages + [m], t.counts + [n], t.total + n)
  }

  /** Removes the message at index 1 and its estimate. */
  function WithoutSecond(t: Transcript): Transcript
    requires |t.counts| == |t.messages| >= 2
  {
    Transcript(t.messages[..1] + t.messages[2..], t.counts[..1] + t.counts[2..], t.total - t.counts[1])
  }

  /** TrimHistoryToLimit: while the total is over `max` and more than one
      message remains, drop the message at index 1. */
  function Trimmed(t: Transcript, max: int): (r: Transcript)
    requires |t.counts| == |t.messages|
    ensures |r.counts| == |r.messages|
    ensures |t.messages| >= 1 ==> 1 <= |r.messages| <= |t.messages|
    decreases |t.messages|
  {
    if |t.messages| == 0 then t
    else if t.total > max && |t.messages| > 1 then Trimmed(WithoutSecond(t), max)
    else t
  }

  /** AppendHistoryMessage once the text is trimmed: add the message with
      its estimate, then evict. */
  function Appended(t: Transcript, m: Message, max: int): Transcript
    requires |t.counts| == |t.messages|
  {
    Trimmed(Added(t, m), max)
  }

  /** ResetConversationHistory: a fresh transcript holding only the system
      message. */
  function ResetTranscript(systemMessage: string, max: int): (r: Transcript)
    ensures var text := Trim(systemMessage);
      r == Transcript([Message(System, text)], [EstimateTokenCount(text)], EstimateTokenCount(text))
    ensures WellFormed(r)
  {
    var text := Trim(systemMessage);
    var a := Added(Transcript([], [], 0), Message(System, text));
    assert a.messages == [Message(System, text)];
    assert Sum(a.counts) == a.counts[0] + Sum([]);
    Appended(Transcript([], [], 0), Message(System, text), max)
  }

  lemma {:induction false} SumAppend(s: seq<int>, x: int)
    ensures Sum(s + [x]) == Sum(s) + x
  {
    if s != [] {
      assert (s + [x])[1..] == s[1..] + [x];
      SumAppend(s[1..], x);
    }
  }

  lemma SumWithoutSecond(s: seq<int>)
    requires |s| >= 2
    ensures Sum(s[..1] + s[2..]) == Sum(s) - s[1]
  {
    assert (s[..1] + s[2..])[1..] == s[2..];
    assert s[1..][1..] == s[2..];
  }

  lemma AddedConsistent(t: Transcript, m: Message)
    requires Consistent(t)
    ensures Consistent(Added(t, m))
  {
    SumAppend(t.counts, EstimateTokenCount(m.content));
  }

  lemma WithoutSecondConsistent(t: Transcript)
    requires Consistent(t) && |t.messages| >= 2
    ensures Consistent(WithoutSecond(t))
  {
    SumWithoutSecond(t.counts);
  }

  /** Eviction keeps the sum of the estimates equal to the total, one
      estimate per message. */
  lemma {:induction false} TrimmedConsistent(t: Transcript, max: int)
    requires Consistent(t)
    ensures Consistent(Trimmed(t, max))
    decreases |t.messages|
  {
    if |t.messages| > 0 && t.total > max && |t.messages| > 1 {
      WithoutSecondConsistent(t);
      TrimmedConsistent(WithoutSecond(t), max);
    }
  }

  /** After eviction the budget holds or a single message is left; the
      message at index 0 stays; the later messages that remain are the
      newest ones, in their order, so the oldest go first. */
  lemma {:induction false} TrimmedShape(t: Transcript, max: int)
    requires |t.counts| == |t.messages| >= 1
    ensures var r := Trimmed(t, max);
      && 1 <= |r.messages| <= |t.messages|
      && (r.total <= max || |r.messages| == 1)
      && r.messages[0] == t.messages[0] && r.counts[0] == t.counts[0]
      && r.messages[1..] == t.messages[|t.messages| - |r.messages| + 1..]
      && r.counts[1..] == t.counts[|t.messages| - |r.messages| + 1..]
    decreases |t.messages|
  {
    if t.total > max && |t.messages| > 1 {
      var s := WithoutSecond(t);
      TrimmedShape(s, max);
      var r := Trimmed(s, max);
      var d := |t.messages| - |r.messages| + 1;
      assert s.messages[d - 1..] == t.messages[d..];
      assert s.counts[d - 1..] == t.counts[d..];
    }
  }

  /** Eviction removes no more than it must: when it removed anything, the
      total just before the last removal was still over `max`; when it
      removed nothing, the transcript is unchanged. */
  lemma {:induction false} TrimmedOnlyWhileOverBudget(t: Transcript, max: int)
    requires |t.counts| == |t.messages| >= 1
    ensures var r := Trimmed(t, max);
      var d := |t.messages| - |r.messages|;
      0 <= d < |t.messages|
      && (d == 0 ==> r == t)
      && (d > 0 ==> r.total + t.counts[d] > max)
    decreases |t.messages|
  {
    TrimmedShape(t, max);
    if t.total > max && |t.messages| > 1 {
      var s := WithoutSecond(t);
      TrimmedOnlyWhileOverBudget(s, max);
    }
  }

  /** One append: the transcript stays consistent and keeps its first
      message, the budget holds or only that first message is left, and the
      new message is last unless it was itself evicted. */
  lemma AppendedShape(t: Transcript, m: Message, max: int)
    requires Consistent(t) && |t.messages| >= 1
    ensures var r := Appended(t, m, max);
      && Consistent(r)
      && r.messages[0] == t.messages[0]
      && (r.total <= max || |r.messages| == 1)
      && r.messages[1..] == (t.messages + [m])[|t.messages| + 2 - |r.messages|..]
      && (r.messages == [t.messages[0]] || (|r.messages| >= 2 && r.messages[|r.messages| - 1] == m))
  {
    var a := Added(t, m);
    AddedConsistent(t, m);
    TrimmedConsistent(a, max);
    TrimmedShape(a, max);
    var r := Trimmed(a, max);
    if |r.messages| >= 2 {
      assert r.messages[|r.messages| - 1] == r.messages[1..][|r.messages| - 2];
    } else {
      assert r.messages == [r.messages[0]];
    }
  }

  /** Appending a user or assistant message keeps the transcript
      well-formed. */
  lemma AppendedWellFormed(t: Transcript, m: Message, max: int)
    requires WellFormed(t) && m.role != System
    ensures WellFormed(Appended(t, m, max))
  {
    AppendedShape(t, m, max);
    var r := Appended(t, m, max);
    var tail := (t.messages + [m])[|t.messages| + 2 - |r.messages|..];
    forall i | 1 <= i < |r.messages| ensures r.messages[i].role != System {
      assert r.messages[i] == tail[i - 1];
    }
  }

  /** Below the budget nothing is evicted. */
  lemma AppendedWithinBudget(t: Transcript, m: Message, max: int)
    requires Consistent(t) && |t.messages| >= 1
    requires t.total + EstimateTokenCount(m.content) <= max
    ensures Appended(t, m, max) == Added(t, m)
  {
  }
}
