/** Worked examples of the transcript, the stream and the tokenizer on
    concrete values. */
module Scenarios {
  import opened Wrappers
  import opened Strings
  import opened Conversation
  import opened PhiFormat
  import opened Streaming
  import opened ChatRunner
  import opened VocabTokenizer

  /** A reset to "Begin." (two tokens) and a user "Hi" (one token) leave
      two messages and three tokens. */
  lemma ResetThenAppend()
    ensures var t := Appended(ResetTranscript("Begin.", MaxContextTokens), Message(User, Trim("Hi")), MaxContextTokens);
      && t.messages == [Message(System, "Begin."), Message(User, "Hi")]
      && t.counts == [2, 1] && t.total == 3
  {
    TrimByUnchanged("Begin.", IsDotNetWhiteSpace);
    TrimByUnchanged("Hi", IsDotNetWhiteSpace);
    var t0 := ResetTranscript("Begin.", MaxContextTokens);
    var t1 := Added(t0, Message(User, "Hi"));
    AppendedWithinBudget(t0, Message(User, "Hi"), MaxContextTokens);
    assert t1.messages == [Message(System, "Begin."), Message(User, "Hi")];
  }

  /** With a budget of three tokens, a one-token system message and three
      one-token user messages, the first user message is evicted. */
  lemma EvictOldestUserMessage()
    ensures var t0 := ResetTranscript("Sys", 3);
      var t1 := Appended(t0, Message(User, "a"), 3);
      var t2 := Appended(t1, Message(User, "b"), 3);
      var t3 := Appended(t2, Message(User, "c"), 3);
      && t3.messages == [Message(System, "Sys"), Message(User, "b"), Message(User, "c")]
      && t3.total == 3
  {
    TrimByUnchanged("Sys", IsDotNetWhiteSpace);
    var t0 := ResetTranscript("Sys", 3);
    AppendedWithinBudget(t0, Message(User, "a"), 3);
    var t1 := Added(t0, Message(User, "a"));
    AppendedWithinBudget(t1, Message(User, "b"), 3);
    var t2 := Added(t1, Message(User, "b"));
    var t3 := Added(t2, Message(User, "c"));
    assert t3.total == 4;
    var w := WithoutSecond(t3);
    assert w.messages == [Message(System, "Sys"), Message(User, "b"), Message(User, "c")];
    assert Trimmed(t3, 3) == Trimmed(w, 3) == w;
  }

  /** With one message to spare the floor is the system message alone:
      the message just appended is evicted at once. */
  lemma NewestMessageEvicted()
    ensures var t := Appended(ResetTranscript("Sys", 1), Message(User, "a"), 1);
      t.messages == [Message(System, "Sys")] && t.total == 1
  {
    TrimByUnchanged("Sys", IsDotNetWhiteSpace);
    var t0 := ResetTranscript("Sys", 1);
    var t1 := Added(t0, Message(User, "a"));
    var w := WithoutSecond(t1);
    assert w.messages == [Message(System, "Sys")];
    assert Trimmed(t1, 1) == Trimmed(w, 1) == w;
  }

  /** A fragment shorter than every control token passes through. */
  lemma ShortFragmentPasses(f: string)
    requires |f| < |EndToken|
    ensures !HasStopMarker(f)
    ensures DecodeResponseFragment(f) == f
  {
    assert IndexOf(f, SystemToken) == -1 && IndexOf(f, UserToken) == -1;
    assert IndexOf(f, AssistantToken) == -1 && IndexOf(f, EndToken) == -1;
    DecodeWithoutControlTokens(f);
  }

  /** The end marker alone is a stop marker that cleans to nothing. */
  lemma EndTokenCleansToNothing()
    ensures HasStopMarker(EndToken)
    ensures DecodeResponseFragment(EndToken) == []
  {
    assert OccursAt(EndToken, EndToken, 0);
    assert IndexOf(EndToken, EndToken) == 0;
  }

  /** The end marker ends the stream and is not yielded. */
  lemma EndMarkerStopsStream()
    ensures StreamOutput(EngineScript(["Hel", "lo", EndToken], None, [])) == ["Hel", "lo"]
    ensures Concat(["Hel", "lo"]) == "Hello"
  {
    var raw := ["Hel", "lo", EndToken];
    var e := EngineScript(raw, None, []);
    ShortFragmentPasses("Hel");
    ShortFragmentPasses("lo");
    EndTokenCleansToNothing();
    assert GeneratedFrom(e, 2) == 1;
    assert GeneratedFrom(e, 1) == 2;
    assert Generated(e) == 3;
    assert raw[..3] == raw;
    KeptStep(raw, 0);
    KeptStep(raw, 1);
    KeptStep(raw, 2);
    assert raw[..0] == [];
  }

  /** The same stream within a turn: the user message and the reply
      "Hello" are committed, both unchanged by trimming. */
  lemma EndMarkerTurnCommitsReply(t: Transcript)
    requires WellFormed(t) && t.total <= 10
    ensures var e := EngineScript(["Hel", "lo", EndToken], None, []);
      TurnTranscript(t, "hi", StreamOutput(e), 1000).messages
        == t.messages + [Message(User, "hi"), Message(Assistant, "Hello")]
  {
    EndMarkerStopsStream();
    TrimByUnchanged("hi", IsDotNetWhiteSpace);
    TrimByUnchanged("Hello", IsDotNetWhiteSpace);
    TurnWithinBudget(t, "hi", ["Hel", "lo"], 1000);
  }

  /** Cancellation seen before the first token yields nothing; the turn
      still keeps the user message and commits no reply. */
  lemma CancelledBeforeFirstToken(t: Transcript, userPrompt: string)
    requires WellFormed(t)
    ensures StreamOutput(EngineScript(["Hi"], None, [true])) == []
    ensures TurnTranscript(t, userPrompt, [], MaxContextTokens)
      == Appended(t, Message(User, Trim(userPrompt)), MaxContextTokens)
  {
    var e := EngineScript(["Hi"], None, [true]);
    assert Generated(e) == 0;
    assert e.raw[..0] == [];
  }

  /** The default special tokens on a two-token vocabulary: one entry is
      added, with the next id. */
  lemma DefaultSpecialsAdded()
    ensures var r := Built([("a", 0), ("b", 5)], EndOfText, EndOfText);
      && r.Success?
      && r.value.tokenToId == map["a" := 0, "b" := 5, EndOfText := 6]
      && r.value.idToToken == map[0 := "a", 5 := "b", 6 := EndOfText]
  {
    var items: Items := [("a", 0), ("b", 5)];
    assert items[..1] == [("a", 0)];
    assert ItemsToMap(items) == map["a" := 0, "b" := 5];
    assert InvertItems(items) == map[0 := "a", 5 := "b"];
    assert MaxId(items) == 5;
    AddSpecialsPair(items, InvertItems(items), EndOfText, EndOfText);
    ItemsToMapAppend(items, EndOfText, 6);
  }
}
