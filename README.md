# Phi-4 chat runner and fallback vocabulary tokenizer, in Dafny

This project models the conversation core of the ChatAppGenAI desktop chat
application and proves properties of that model.

`Phi4Runner` keeps the chat transcript for a local Phi-4 model:
- the messages, with a parallel list of per-message token estimates and a
  running total;
- eviction of the oldest non-system turns once the total exceeds the budget;
- the Phi prompt built from the transcript (`<|system|>…<|end|>`, one
  `<|user|>`/`<|assistant|>` segment per turn, then `<|assistant|>`);
- the cleaning of each decoded fragment;
- the token loop, which stops on cancellation, on an engine error, or after
  a stop marker;
- the turn that appends the user prompt, streams the reply and commits the
  trimmed reply to the transcript.

`SimpleVocabTokenizer` is the Python dictionary tokenizer:
- construction from a loaded vocabulary, adding the unknown and padding
  tokens with fresh ids;
- whitespace-word encoding with a per-character fallback;
- decoding by joining the tokens of the ids.

Modules, one per file:
- `Wrappers` (`wrappers.dfy`): `Option` and `Result`.
- `Strings` (`strings.dfy`): the .NET and Python string operations the code
  relies on.
  - `Trim`, `IsNullOrWhiteSpace`, ordinal `IndexOf`, `Contains` and `Replace`,
    with Char.IsWhiteSpace written out.
  - `StringBuilder` appends, modelled as `Concat`.
- `Conversation` (`conversation.dfy`): the transcript as a value, the token
  estimate, and eviction and append as functions with their lemmas.
- `PhiFormat` (`phi_format.dfy`): the control tokens, prompt building and
  fragment cleaning.
- `Streaming` (`streaming.dfy`): the token loop over a scripted engine.
- `ChatRunner` (`runner.dfy`): the class `Phi4Runner`, whose fields
  `chatHistory`, `historyTokenCounts` and `historyTokenTotal` are updated in
  place.
  - Each method is proved against the `Conversation` functions.
  - The constructor establishes the history invariant `Valid()`.
  - `StartNewConversation`, `ResetConversationHistory` and
    `GenerateStreamingResponse` ensure `Valid()`.
  - `Initialize` changes only `ready`.
  - The two private helpers `AppendHistoryMessage` and `TrimHistoryToLimit`
    neither require nor ensure `Valid()`. They are specified by
    `Conversation.Appended` and `Conversation.Trimmed`; appending a system
    message would break `Valid()`.
- `VocabTokenizer` (`vocab_tokenizer.dfy`): the Python tokenizer.
- `Scenarios` (`scenarios.dfy`): worked examples on concrete values.

The inference engine is a parameter. `GenerateStreamingResponse` takes a
function from the prompt to an `EngineScript`, which has three parts:
- the raw text decoded at each step until the generator reports done;
- the step at which generation or decoding raises, if any;
- whether cancellation is requested at the top of each step.

`MaxContextTokens` (128 000 in the source) stays a constant, but the runner
and all the lemmas take the budget as a parameter, so eviction can be
exercised with small budgets.

Three behaviours of the code worth noting:
- **Eviction floor.** The loop floor is one message: `chatHistory.Count > 1`
  (Phi4Runner.cs:219). So the message just appended can be evicted at once
  (`Scenarios.NewestMessageEvicted`).
- **Cancelled turn.** In a turn cancelled before the first token, the user
  message is still appended, because it is appended before streaming begins
  (Phi4Runner.cs:142), and eviction runs as after any append
  (Phi4Runner.cs:219-224). No assistant message is committed
  (`Scenarios.CancelledBeforeFirstToken`). Within budget the history grows
  by one; otherwise eviction can keep its length unchanged.
- **Blank reply.** A reply made only of white space is committed as an
  empty assistant message. The commit tests the untrimmed length
  (Phi4Runner.cs:157-160).

## Model

| member | source | states |
|---|---|---|
| Conversation.EstimateTokenCount | ChatAppGenAI/Phi4Runner.cs:235-238 | the estimate is at least 1 and equals length/4 + 1 with integer division, so 4·(r−1) ≤ length < 4·r |
| Conversation.Trimmed | ChatAppGenAI/Phi4Runner.cs:212-225 | eviction keeps the two lists the same length and never empties a non-empty history |
| Conversation.TrimmedConsistent | ChatAppGenAI/Phi4Runner.cs:219-224 | eviction keeps each count equal to its message's estimate and the total equal to the sum of the counts |
| Conversation.TrimmedShape | ChatAppGenAI/Phi4Runner.cs:212-225 | after eviction, two things hold: the total is within budget or only one message is left; message 0 and count 0 are kept, and the later messages and counts are a suffix of the old ones (oldest turns go first) |
| Conversation.TrimmedOnlyWhileOverBudget | ChatAppGenAI/Phi4Runner.cs:219-224 | messages are removed only while over budget: no removal leaves the history unchanged, and after the last removal the total plus the last evicted count was still over the budget |
| Conversation.AddedConsistent | ChatAppGenAI/Phi4Runner.cs:205-207 | appending a message with its estimate keeps counts, estimates and total in agreement |
| Conversation.AppendedShape | ChatAppGenAI/Phi4Runner.cs:188-210 | append-then-evict keeps the transcript consistent and keeps message 0; the total is within budget or one message is left; the later messages are a suffix of the old ones plus the new one; either only message 0 is left or the new message is last |
| Conversation.AppendedWellFormed | ChatAppGenAI/Phi4Runner.cs:188-210 | appending a non-system message keeps a single leading system message and consistent counts |
| Conversation.AppendedWithinBudget | ChatAppGenAI/Phi4Runner.cs:205-209 | when the new total is within budget, nothing is evicted and the message is simply appended |
| Conversation.ResetTranscript | ChatAppGenAI/Phi4Runner.cs:227-233 | a reset leaves exactly the trimmed system message with its estimate as count and total, and the transcript is well-formed |
| Strings.TrimByFacts | ChatAppGenAI/Phi4Runner.cs:190 | the trimmed text has no white space at either end, and is empty exactly when the text is all white space |
| Strings.TrimStartByFacts | ChatAppGenAI/Phi4Runner.cs:190 | TrimStart removes exactly the longest white-space prefix |
| Strings.TrimEndByFacts | ChatAppGenAI/Phi4Runner.cs:190 | TrimEnd removes exactly the longest white-space suffix |
| Strings.TrimByIdempotent | ChatAppGenAI/Phi4Runner.cs:159 | trimming twice (the reply is trimmed before and inside AppendHistoryMessage) is trimming once |
| Strings.IndexOf | ChatAppGenAI/Phi4Runner.cs:309 | the result is −1 or the index of an occurrence, and no occurrence starts before it |
| Strings.RemoveAllWithoutOccurrence | ChatAppGenAI/Phi4Runner.cs:305-307 | Replace with "" leaves a string without the pattern unchanged |
| Strings.PrefixBeforeFirstOccurrence | ChatAppGenAI/Phi4Runner.cs:309-313 | the text before the first `<|end|>` contains no `<|end|>` |
| Strings.ConcatOfNonEmpty | ChatAppGenAI/Phi4Runner.cs:151-157 | appending non-empty fragments gives an empty builder exactly when there were none |
| PhiFormat.BuildPromptFromHistory | ChatAppGenAI/Phi4Runner.cs:164-186 | fails with ChatHistoryEmpty exactly on an empty history; otherwise the prompt is the system block of the first system message, one segment per non-system message in order, then the assistant token |
| PhiFormat.PromptOfWellFormed | ChatAppGenAI/Phi4Runner.cs:171-185 | for a well-formed transcript the prompt is the system token, message 0's text and the end token, the role-token/text/end segments of the later messages concatenated, then the assistant token |
| PhiFormat.DecodeResponseFragment | ChatAppGenAI/Phi4Runner.cs:298-316 | the cleaned fragment is no longer than the raw one and contains no `<|end|>` |
| PhiFormat.DecodeWithoutControlTokens | ChatAppGenAI/Phi4Runner.cs:298-316 | a fragment without any control token is returned unchanged |
| Streaming.KeptFacts | ChatAppGenAI/Phi4Runner.cs:286-289 | only non-empty cleaned fragments are yielded, none containing `<|end|>`, at most one per step |
| Streaming.GeneratedFrom | ChatAppGenAI/Phi4Runner.cs:258-294 | the loop never runs past the engine's last step |
| Streaming.StreamFromPrompt | ChatAppGenAI/Phi4Runner.cs:257-295 | the loop yields exactly the kept cleaned fragments of the steps it runs |
| Streaming.GeneratedIsFirstHalt | ChatAppGenAI/Phi4Runner.cs:258-294 | the number of steps run is the first step at which the loop halts: no halt earlier, a halt there |
| Streaming.NoTokenAfterCancellation | ChatAppGenAI/Phi4Runner.cs:264-267 | no token is generated at or after a step where cancellation is observed |
| Streaming.NoTokenAfterFailure | ChatAppGenAI/Phi4Runner.cs:280-284 | no token is generated at or after a step where the engine raises |
| Streaming.StopMarkerEndsStream | ChatAppGenAI/Phi4Runner.cs:273-278 | a raw fragment with `<|end|>`, `<|user|>` or `<|system|>` is the last step run, and the output is what the steps up to it yield |
| Streaming.OutputEmptyIffNothingYielded | ChatAppGenAI/Phi4Runner.cs:286-289 | the concatenated reply is empty exactly when no fragment was yielded |
| ChatRunner.NewConversationText | ChatAppGenAI/Phi4Runner.cs:73-77 | the system text a new conversation starts with is never blank after trimming |
| ChatRunner.TurnWellFormed | ChatAppGenAI/Phi4Runner.cs:130-162 | a turn keeps the transcript well-formed |
| ChatRunner.TurnWithinBudget | ChatAppGenAI/Phi4Runner.cs:142-160 | within budget a turn adds the trimmed user message and, when text was yielded, one assistant message with the trimmed concatenation of the fragments |
| ChatRunner.Phi4Runner.constructor | ChatAppGenAI/Phi4Runner.cs:49-52 | a new runner is not ready and holds the reset transcript of the default system message |
| ChatRunner.Phi4Runner.Initialize | ChatAppGenAI/Phi4Runner.cs:87-113 | after initialization the runner is ready; only the readiness flag changes |
| ChatRunner.Phi4Runner.StartNewConversation | ChatAppGenAI/Phi4Runner.cs:73-77 | the new state is the reset transcript of the given text, or of the default when it is missing or blank |
| ChatRunner.Phi4Runner.ResetConversationHistory | ChatAppGenAI/Phi4Runner.cs:227-233 | the new state is the reset transcript of the trimmed system text |
| ChatRunner.Phi4Runner.AppendHistoryMessage | ChatAppGenAI/Phi4Runner.cs:188-210 | the new state is the old one with the trimmed message appended and evicted to budget |
| ChatRunner.Phi4Runner.TrimHistoryToLimit | ChatAppGenAI/Phi4Runner.cs:212-225 | the loop's new state is the eviction function of the old state |
| ChatRunner.Phi4Runner.GenerateStreamingResponse | ChatAppGenAI/Phi4Runner.cs:130-162 | see the three cases below the table |
| VocabTokenizer.MaxId | ChatAppGenAI/Phi4/phi4_onnx_runtime.py:37 | `max` of the values is one of the values and no value exceeds it |
| VocabTokenizer.InvertItemsInverse | ChatAppGenAI/Phi4/phi4_onnx_runtime.py:31 | the id table's ids are exactly the vocabulary's values, and each maps to a token with that id |
| VocabTokenizer.NewSimpleVocabTokenizer | ChatAppGenAI/Phi4/phi4_onnx_runtime.py:35-39 | the special-token loop computes the construction function `Built` |
| VocabTokenizer.BuiltFailsIffEmpty | ChatAppGenAI/Phi4/phi4_onnx_runtime.py:35-37 | construction fails (the `max` of no values) exactly when the loaded vocabulary is empty |
| VocabTokenizer.BuiltKeys | ChatAppGenAI/Phi4/phi4_onnx_runtime.py:35-39 | the keys are the loaded tokens plus unk and pad (one entry when they are equal), and loaded tokens keep their ids |
| VocabTokenizer.BuiltIdTable | ChatAppGenAI/Phi4/phi4_onnx_runtime.py:31-39 | the tokenizer is valid (both special tokens present, tables inverse); loaded id entries are kept; an added special token's id maps back to it |
| VocabTokenizer.BuiltUnkIdFresh | ChatAppGenAI/Phi4/phi4_onnx_runtime.py:35-39 | an added unknown token gets the largest loaded id plus one |
| VocabTokenizer.BuiltPadIdFresh | ChatAppGenAI/Phi4/phi4_onnx_runtime.py:35-39 | an added distinct padding token gets one more than every other id, the new unknown id included |
| VocabTokenizer.BuiltInjective | ChatAppGenAI/Phi4/phi4_onnx_runtime.py:31-39 | if the loaded ids are distinct, so are the constructed ones, and the id table recovers every token |
| VocabTokenizer.SplitWords | ChatAppGenAI/Phi4/phi4_onnx_runtime.py:44 | every word of `split()` is non-empty and free of white space |
| VocabTokenizer.SplitIgnoresStrip | ChatAppGenAI/Phi4/phi4_onnx_runtime.py:44 | `strip()` before `split()` changes nothing |
| VocabTokenizer.SplitAppend | ChatAppGenAI/Phi4/phi4_onnx_runtime.py:44 | splitting distributes over a concatenation that does not join two words |
| VocabTokenizer.CharIdsFacts | ChatAppGenAI/Phi4/phi4_onnx_runtime.py:49-50 | the fallback gives one id per character: the character's id, or the unknown id |
| VocabTokenizer.WordIdsFacts | ChatAppGenAI/Phi4/phi4_onnx_runtime.py:45-50 | the ids of one word are values of the vocabulary, and a non-empty word gives at least one |
| VocabTokenizer.EncodeWordsFacts | ChatAppGenAI/Phi4/phi4_onnx_runtime.py:45-50 | every produced id is a value of the vocabulary, and each word gives at least one id |
| VocabTokenizer.Encode | ChatAppGenAI/Phi4/phi4_onnx_runtime.py:41-51 | the nested loops compute the encoding function `EncodeText` |
| VocabTokenizer.EncodeBlank | ChatAppGenAI/Phi4/phi4_onnx_runtime.py:43-51 | the encoding is empty exactly when the text is empty or white space only |
| VocabTokenizer.EncodeSingleWord | ChatAppGenAI/Phi4/phi4_onnx_runtime.py:45-50 | a vocabulary word gives exactly its id; any other word, one id per character, with the unknown id for characters not in the vocabulary |
| VocabTokenizer.EncodeJoin | ChatAppGenAI/Phi4/phi4_onnx_runtime.py:44-50 | encoding two texts joined by a white-space character gives the two encodings joined |
| VocabTokenizer.EncodeWordsAppend | ChatAppGenAI/Phi4/phi4_onnx_runtime.py:45-50 | the ids of a word sequence are the ids of its parts, in order |
| VocabTokenizer.DecodeConcat | ChatAppGenAI/Phi4/phi4_onnx_runtime.py:53-54 | decoding distributes over concatenation of id lists |
| VocabTokenizer.WordRoundTrip | ChatAppGenAI/Phi4/phi4_onnx_runtime.py:46-54 | with distinct ids, a word that is a token, or whose characters all are, decodes back from its ids |
| VocabTokenizer.WordsRoundTrip | ChatAppGenAI/Phi4/phi4_onnx_runtime.py:45-54 | with distinct ids, the ids of a sequence of known words decode to the words joined with nothing between them |
| VocabTokenizer.TextRoundTrip | ChatAppGenAI/Phi4/phi4_onnx_runtime.py:41-54 | with distinct ids and known words, decoding the encoding gives the words of `split()` concatenated, which is the text with every white-space character deleted |
| VocabTokenizer.ConcatSplitIsNoSpaces | ChatAppGenAI/Phi4/phi4_onnx_runtime.py:44 | the words of `split()` joined with nothing between them are the text with every white-space character deleted |
| VocabTokenizer.SingleWordRoundTrip | ChatAppGenAI/Phi4/phi4_onnx_runtime.py:31-54 | with distinct ids, decode(encode(w)) == w for a single vocabulary word |
| Scenarios.ResetThenAppend | ChatAppGenAI/Phi4Runner.cs:188-238 | reset to "Begin." then user "Hi": two messages, counts [2, 1], total 3 |
| Scenarios.EvictOldestUserMessage | ChatAppGenAI/Phi4Runner.cs:212-225 | budget 3, system plus three one-token users: the first user message is evicted, total 3 |
| Scenarios.NewestMessageEvicted | ChatAppGenAI/Phi4Runner.cs:219 | budget 1: the message just appended is evicted, leaving the system message |
| Scenarios.EndMarkerStopsStream | ChatAppGenAI/Phi4Runner.cs:257-316 | raw "Hel", "lo", `<|end|>` yield "Hel", "lo", and the concatenated reply is "Hello" |
| Scenarios.EndMarkerTurnCommitsReply | ChatAppGenAI/Phi4Runner.cs:142-160 | within budget, the turn over that stream commits the user message "hi" and then the assistant reply "Hello", after the earlier messages |
| Scenarios.CancelledBeforeFirstToken | ChatAppGenAI/Phi4Runner.cs:142-161 | cancellation before the first token yields nothing; the turn keeps only the user message |
| Scenarios.DefaultSpecialsAdded | ChatAppGenAI/Phi4/phi4_onnx_runtime.py:28-39 | the default equal unk/pad token is added once, with id max + 1 |

`ChatRunner.Phi4Runner.GenerateStreamingResponse` states three cases:
- A runner that is not ready fails with ModelNotReady and leaves the state
  unchanged.
- A blank prompt yields nothing and leaves the state unchanged.
- Otherwise the result is the stream output on the prompt of the transcript
  with the user message appended. The new state is that turn's transcript.

## Left out

- Model, tokenizer and Semantic Kernel loading, the `ModelLoaded` event and
  `Dispose`: foreign library calls and file I/O (Phi4Runner.cs:63-68,
  102-125). Readiness is a boolean flag set by `Initialize`.
- Single-flight initialization (the cached `initializationTask`, the
  semaphore and its cancellation): concurrency.
- The ONNX GenAI generator API: prompt encoding, generator parameters,
  `GenerateNextToken` and incremental decode. It is replaced by the
  `EngineScript` input.
- An exception raised while the engine is being set up, before the token
  loop (ChatAppGenAI/Phi4Runner.cs:245-255): it would propagate to the
  caller, and the model covers only errors inside the loop. By then the user
  message has already been appended (ChatAppGenAI/Phi4Runner.cs:142), so the
  source rethrows with the history one user message longer (after eviction)
  and no reply committed.
- An exception raised by `generator.IsDone()` in the loop condition
  (ChatAppGenAI/Phi4Runner.cs:258). It sits outside the try block, so it
  would leave the stream, and the finally block at
  ChatAppGenAI/Phi4Runner.cs:155-160 would commit the partial reply and
  rethrow. The model assumes `IsDone` never raises; `EngineScript.failAt`
  covers only the quiet failures caught inside the loop.
- ChatRunner.Phi4Runner.GenerateStreamingResponse: the turn is atomic. No
  other runner call runs between the user append and the commit of the
  reply. In the source the enumerator suspends at every `yield return`
  (ChatAppGenAI/Phi4Runner.cs:152), so another call can run in between. For
  example, the window's `StartNewConversation`
  (ChatAppGenAI/MainWindow.xaml.cs:94-99) can reset the history and re-enable
  input. The `finally` block (ChatAppGenAI/Phi4Runner.cs:155-160) then
  appends the old turn's reply to the new conversation. The model does not
  capture this interleaving.
- Asynchronous enumeration:
  - the model consumes the whole stream, then commits;
  - a consumer that stops enumerating early is not modelled, although the
    source still commits the partial reply in its `finally` block.
- `null` content and a `null` system message. The runner's
  `StartNewConversation` takes an `Option`; `AppendHistoryMessage` is only
  ever called with non-null text.
- Strings are sequences of characters. UTF-16 surrogate pairs are not
  distinguished, so `Length` counts characters.
- Char.IsWhiteSpace and `str.isspace` are written out as code-point tables
  for the characters they accept. White space is not judged from the
  Unicode database.
- `int` overflow of the token total is not modelled; the total cannot
  approach 2^31 through the estimate of real text.
- `Phi4ONNXRuntime`, `find_onnx_file`, the command-line entry point and the
  configuration and inspection scripts of the Python folder: not part of
  this model.
- VocabTokenizer.NewSimpleVocabTokenizer keeps two parts of the Python
  `__init__` outside the model:
  - It starts from the loaded JSON object, given as its items in file order,
    so reading and parsing the JSON file, and duplicate JSON keys, are not
    modelled.
  - Vocabulary values are integers; other JSON values are not modelled.
- VocabTokenizer.Encode requires the unknown token to be a key (what
  construction establishes). Otherwise Python raises KeyError on any word
  outside the vocabulary: the `.get` default
  `self.token_to_id[self.unk_token]` is evaluated for each of its
  characters. A text made only of vocabulary words still encodes.
