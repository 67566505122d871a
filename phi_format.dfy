/** The Phi chat format: the control tokens, the prompt the runner builds
    from its transcript, and the cleaning of the text fragments the engine
    decodes. */
module PhiFormat {
  import opened Wrappers
  import opened Strings
  import opened Conversation

  const SystemToken: string := "<|system|>"
  const UserToken: string := "<|user|>"
  const AssistantToken: string := "<|assistant|>"
  const EndToken: string := "<|end|>"

  /** The runner's InvalidOperationException cases. */
  datatype InvalidOperation = ModelNotReady | ChatHistoryEmpty

  function RoleToken(role: Role): string {
    if role == User then UserToken else AssistantToken
  }

  /** How one non-system message is written into the prompt. */
  function Segment(m: Message): string {
    RoleToken(m.role) + m.content + EndToken
  }

  /** The content of the first system message, or "" when there is none. */
  function FirstSystemContent(history: seq<Message>): string {
    if history == [] then ""
    else if history[0].role == System then history[0].content
    else FirstSystemContent(history[1..])
  }

  /** The segments of the non-system messages, in order. */
  function Turns(history: seq<Message>): string {
    if history == [] then ""
    else
      var last := history[|history| - 1];
      Turns(history[..|history| - 1]) + (if last.role == System then "" else Segment(last))
  }

  /** The prompt for a non-empty history. */
  function PromptText(history: seq<Message>): string {
    SystemToken + FirstSystemContent(history) + EndToken + Turns(history) + AssistantToken
  }

  /** BuildPromptFromHistory. */
  method BuildPromptFromHistory(history: seq<Message>) returns (r: Result<string, InvalidOperation>)
    ensures r.Failure? <==> history == []
    ensures r.Failure? ==> r.error == ChatHistoryEmpty
    ensures r.Success? ==> r.value == PromptText(history)
  {
    if |history| == 0 {
      return Failure(ChatHistoryEmpty);
    }
    var systemMessage := FirstSystemContent(history);
    var builder := SystemToken + systemMessage + EndToken;
    ghost var head := builder;
    assert Turns(history[..0]) == "";
    assert builder == head + "";
    for i := 0 to |history|
      invariant builder == head + Turns(history[..i])
    {
      var message := history[i];
      TurnsStep(history, i);
      if message.role != System {
        var roleToken := if message.role == User then UserToken else AssistantToken;
        AppendAssociative(head, Turns(history[..i]), roleToken + message.content + EndToken);
        builder := builder + (roleToken + message.content + EndToken);
      } else {
        assert Turns(history[..i]) + "" == Turns(history[..i]);
      }
    }
    builder := builder + AssistantToken;
    assert history[..|history|] == history;
    return Success(builder);
  }

  lemma TurnsStep(history: seq<Message>, i: nat)
    requires i < |history|
    ensures Turns(history[..i + 1])
      == Turns(history[..i]) + (if history[i].role == System then "" else Segment(history[i]))
  {
    assert history[..i + 1][..i] == history[..i];
  }

  /** The segments of a list of messages, one per message. */
  function Segments(ms: seq<Message>): seq<string> {
    seq(|ms|, i requires 0 <= i < |ms| => Segment(ms[i]))
  }

  /** Dropping the last message drops the last segment. */
  lemma SegmentsOfFront(ms: seq<Message>)
    requires ms != []
    ensures Segments(ms) == Segments(ms[..|ms| - 1]) + [Segment(ms[|ms| - 1])]
  {
  }

  lemma {:induction false} TurnsOfLaterMessages(history: seq<Message>)
    requires |history| >= 1 && history[0].role == System
    requires forall i :: 1 <= i < |history| ==> history[i].role != System
    ensures Turns(history) == Concat(Segments(history[1..]))
  {
    if |history| > 1 {
      var front := history[..|history| - 1];
      var later := history[1..];
      assert forall i :: 1 <= i < |front| ==> front[i] == history[i];
      TurnsOfLaterMessages(front);
      assert later[..|later| - 1] == front[1..];
      SegmentsOfFront(later);
      assert later[|later| - 1] == history[|history| - 1];
    } else {
      assert Turns(history) == Turns([]) + "";
    }
  }

  /** The prompt of a transcript as the runner holds it: the system token,
      the system text and the end token; then each later message, in order,
      under its role token and closed by the end token; and a final
      assistant token left open. */
  lemma PromptOfWellFormed(t: Transcript)
    requires WellFormed(t)
    ensures PromptText(t.messages)
      == SystemToken + t.messages[0].content + EndToken
         + Concat(Segments(t.messages[1..])) + AssistantToken
  {
    TurnsOfLaterMessages(t.messages);
  }

  /** The raw fragment carries a marker that makes the stream stop. */
  predicate HasStopMarker(part: string) {
    Contains(part, EndToken) || Contains(part, UserToken) || Contains(part, SystemToken)
  }

  predicate HasControlToken(s: string) {
    Contains(s, SystemToken) || Contains(s, UserToken) || Contains(s, AssistantToken) || Contains(s, EndToken)
  }

  /** DecodeResponseFragment: deletes the system, user and assistant tokens
      (in that order, one Replace each) and cuts at the first end token. */
  function DecodeResponseFragment(fragment: string): (r: string)
    ensures |r| <= |fragment|
    ensures !Contains(r, EndToken)
  {
    if fragment == [] then []
    else
      var stripped := RemoveAll(RemoveAll(RemoveAll(fragment, SystemToken), UserToken), AssistantToken);
      var endIndex := IndexOf(stripped, EndToken);
      if endIndex >= 0 then
        PrefixBeforeFirstOccurrence(stripped, EndToken);
        stripped[..endIndex]
      else stripped
  }

  /** A fragment without control tokens passes through unchanged. */
  lemma DecodeWithoutControlTokens(fragment: string)
    requires !HasControlToken(fragment)
    ensures DecodeResponseFragment(fragment) == fragment
  {
    if fragment != [] {
      RemoveAllWithoutOccurrence(fragment, SystemToken);
      RemoveAllWithoutOccurrence(fragment, UserToken);
      RemoveAllWithoutOccurrence(fragment, AssistantToken);
    }
  }
}
