/** Phi4Runner: the transcript with its token budget, conversation reset,
    and the turn that appends the user's text, streams the reply and commits
    it. Loading the model is reduced to a readiness flag; the engine is a
    function from the prompt to an engine script. */
module ChatRunner {
  import opened Wrappers
  import opened Strings
  import opened Conversation
  import opened PhiFormat
  import opened Streaming

  /** The budget the source fixes; the runner takes it as a parameter. */
  const MaxContextTokens := 128_000
  const DefaultSystemMessage: string := "Starting new chat session."

  /** The system text StartNewConversation resets to: the argument, unless
      it is null or white space only, in which case the default text. */
  function NewConversationText(systemMessage: Option<string>): (r: string)
    ensures Trim(r) != []
  {
    var r := if systemMessage.None? || IsWhiteSpaceOnly(systemMessage.value) then DefaultSystemMessage
      else systemMessage.value;
    assert !IsDotNetWhiteSpace(DefaultSystemMessage[0]);
    TrimByFacts(r, IsDotNetWhiteSpace);
    r
  }

  /** The transcript after a turn on a non-blank prompt whose stream yielded
      `yielded`: the trimmed user message, then the trimmed reply when any
      text was yielded, each appended with eviction. */
  function TurnTranscript(t: Transcript, userPrompt: string, yielded: seq<string>, max: int): Transcript
    requires |t.counts| == |t.messages|
  {
    var afterUser := Appended(t, Message(User, Trim(userPrompt)), max);
    var response := Concat(yielded);
    if |response| > 0 then Appended(afterUser, Message(Assistant, Trim(Trim(response))), max)
    else afterUser
  }

  /** A turn keeps the transcript well-formed. */
  lemma TurnWellFormed(t: Transcript, userPrompt: string, yielded: seq<string>, max: int)
    requires WellFormed(t)
    ensures WellFormed(TurnTranscript(t, userPrompt, yielded, max))
  {
    var afterUser := Appended(t, Message(User, Trim(userPrompt)), max);
    AppendedWellFormed(t, Message(User, Trim(userPrompt)), max);
    AppendedWellFormed(afterUser, Message(Assistant, Trim(Trim(Concat(yielded)))), max);
  }

  /** Within the budget a turn adds exactly the trimmed user message and,
      when text was yielded, one assistant message holding the trimmed
      concatenation of the yielded fragments. */
  lemma TurnWithinBudget(t: Transcript, userPrompt: string, yielded: seq<string>, max: int)
    requires Consistent(t) && |t.messages| >= 1
    requires t.total + EstimateTokenCount(Trim(userPrompt)) + EstimateTokenCount(Trim(Concat(yielded))) <= max
    ensures TurnTranscript(t, userPrompt, yielded, max).messages
      == t.messages + [Message(User, Trim(userPrompt))]
         + (if Concat(yielded) != [] then [Message(Assistant, Trim(Concat(yielded)))] else [])
  {
    var user := Message(User, Trim(userPrompt));
    AddedConsistent(t, user);
    AppendedWithinBudget(t, user, max);
    var afterUser := Added(t, user);
    TrimByIdempotent(Concat(yielded), IsDotNetWhiteSpace);
    if Concat(yielded) != [] {
      AppendedWithinBudget(afterUser, Message(Assistant, Trim(Trim(Concat(yielded)))), max);
    }
  }

  class Phi4Runner {
    const maxContextTokens: int
    var ready: bool
    var chatHistory: seq<Message>
    var historyTokenCounts: seq<int>
    var historyTokenTotal: int

    function State(): Transcript
      reads this
    {
      Transcript(chatHistory, historyTokenCounts, historyTokenTotal)
    }

    ghost predicate Valid()
      reads this
    {
      WellFormed(State())
    }

    /** A runner whose model is not loaded yet, on the default conversation. */
    constructor (maxContextTokens: int)
      ensures Valid() && !ready
      ensures this.maxContextTokens == maxContextTokens
      ensures State() == ResetTranscript(DefaultSystemMessage, maxContextTokens)
    {
      this.maxContextTokens := maxContextTokens;
      ready := false;
      chatHistory, historyTokenCounts, historyTokenTotal := [], [], 0;
      new;
      ResetConversationHistory(DefaultSystemMessage);
    }

    /** The loading of the model and tokenizer, reduced to its effect. */
    method Initialize()
      modifies this`ready
      ensures ready
    {
      if ready {
        return;
      }
      ready := true;
    }

    method StartNewConversation(systemMessage: Option<string>)
      modifies this
      ensures Valid() && ready == old(ready)
      ensures State() == ResetTranscript(NewConversationText(systemMessage), maxContextTokens)
    {
      var message := if systemMessage.None? || IsWhiteSpaceOnly(systemMessage.value)
        then DefaultSystemMessage else systemMessage.value;
      ResetConversationHistory(message);
      assert message == NewConversationText(systemMessage);
    }

    method ResetConversationHistory(systemMessage: string)
      modifies this
      ensures Valid() && ready == old(ready)
      ensures State() == ResetTranscript(systemMessage, maxContextTokens)
    {
      chatHistory := [];
      historyTokenCounts := [];
      historyTokenTotal := 0;
      AppendHistoryMessage(System, systemMessage);
      assert State() == ResetTranscript(systemMessage, maxContextTokens);
    }

    method AppendHistoryMessage(role: Role, content: string)
      requires |historyTokenCounts| == |chatHistory|
      modifies this
      ensures ready == old(ready)
      ensures State() == Appended(old(State()), Message(role, Trim(content)), maxContextTokens)
    {
      var text := Trim(content);
      chatHistory := chatHistory + [Message(role, text)];
      var tokenCount := EstimateTokenCount(text);
      historyTokenCounts := historyTokenCounts + [tokenCount];
      historyTokenTotal := historyTokenTotal + tokenCount;
      TrimHistoryToLimit();
    }

    method TrimHistoryToLimit()
      requires |historyTokenCounts| == |chatHistory|
      modifies this
      ensures ready == old(ready)
      ensures State() == Trimmed(old(State()), maxContextTokens)
    {
      if |chatHistory| == 0 {
        return;
      }
      while historyTokenTotal > maxContextTokens && |chatHistory| > 1
        invariant |historyTokenCounts| == |chatHistory| >= 1
        invariant ready == old(ready)
        invariant Trimmed(State(), maxContextTokens) == Trimmed(old(State()), maxContextTokens)
        decreases |chatHistory|
      {
        historyTokenTotal := historyTokenTotal - historyTokenCounts[1];
        historyTokenCounts := historyTokenCounts[..1] + historyTokenCounts[2..];
        chatHistory := chatHistory[..1] + chatHistory[2..];
      }
    }

    /** GenerateStreamingResponseAsync, with the stream consumed to its end:
        the result holds every fragment yielded. */
    method GenerateStreamingResponse(userPrompt: string, engine: string -> EngineScript)
      returns (r: Result<seq<string>, InvalidOperation>)
      requires Valid()
      modifies this
      ensures Valid() && ready == old(ready)
      ensures !old(ready) ==> r == Failure(ModelNotReady) && State() == old(State())
      ensures old(ready) && IsWhiteSpaceOnly(userPrompt) ==> r == Success([]) && State() == old(State())
      ensures old(ready) && !IsWhiteSpaceOnly(userPrompt) ==>
        var afterUser := Appended(old(State()), Message(User, Trim(userPrompt)), maxContextTokens);
        var yielded := StreamOutput(engine(PromptText(afterUser.messages)));
        r == Success(yielded) && State() == TurnTranscript(old(State()), userPrompt, yielded, maxContextTokens)
    {
      if !ready {
        return Failure(ModelNotReady);
      }
      if IsWhiteSpaceOnly(userPrompt) {
        return Success([]);
      }
      ghost var before := State();
      AppendHistoryMessage(User, userPrompt);
      AppendedWellFormed(before, Message(User, Trim(userPrompt)), maxContextTokens);
      ghost var afterUser := State();
      var prompt := BuildPromptFromHistory(chatHistory);
      var fragments := StreamFromPrompt(engine(prompt.value));
      var responseBuilder := "";
      for k := 0 to |fragments|
        invariant responseBuilder == Concat(fragments[..k])
      {
        assert fragments[..k + 1][..k] == fragments[..k];
        responseBuilder := responseBuilder + fragments[k];
      }
      assert fragments[..|fragments|] == fragments;
      if |responseBuilder| > 0 {
        AppendHistoryMessage(Assistant, Trim(responseBuilder));
      }
      TurnWellFormed(before, userPrompt, fragments, maxContextTokens);
      return Success(fragments);
    }
  }
}
