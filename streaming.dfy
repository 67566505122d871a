/** The token loop of StreamFromPrompt, over an abstract inference engine.
    The engine is a script: the raw text it decodes at each step until it
    reports that it is done, the step at which it raises (if any), and
    whether cancellation has been requested when each step begins. */
module Streaming {
  import opened Wrappers
  import opened Strings
  import opened PhiFormat

  datatype EngineScript = EngineScript(raw: seq<string>, failAt: Option<nat>, cancelled: seq<bool>)

  /** The cancellation token reports a request at the top of step `i`. */
  predicate CancelObserved(e: EngineScript, i: int) {
    0 <= i < |e.cancelled| && e.cancelled[i]
  }

  /** GenerateNextToken or Decode raises at step `i`. */
  predicate EngineFails(e: EngineScript, i: int) {
    e.failAt == Some(i)
  }

  /** The loop does not begin a `j`-th generated token: the engine is done,
      cancellation is observed, the engine raises, or the previous raw
      fragment carried a stop marker. */
  predicate HaltsAt(e: EngineScript, j: int) {
    j >= |e.raw| || CancelObserved(e, j) || EngineFails(e, j)
    || (0 < j <= |e.raw| && HasStopMarker(e.raw[j - 1]))
  }

  /** The number of tokens the loop generates from step `i` on. */
  function GeneratedFrom(e: EngineScript, i: nat): (n: nat)
    requires i <= |e.raw|
    ensures i + n <= |e.raw|
    decreases |e.raw| - i
  {
    if i == |e.raw| || CancelObserved(e, i) || EngineFails(e, i) then 0
    else if HasStopMarker(e.raw[i]) then 1
    else 1 + GeneratedFrom(e, i + 1)
  }

  /** The number of tokens the loop generates for a prompt. */
  function Generated(e: EngineScript): (n: nat)
    ensures n <= |e.raw|
  {
    GeneratedFrom(e, 0)
  }

  /** The cleaned fragments of `parts` that are not empty, in order. */
  function Kept(parts: seq<string>): (r: seq<string>)
    ensures |r| <= |parts|
  {
    if parts == [] then []
    else
      var d := DecodeResponseFragment(parts[|parts| - 1]);
      Kept(parts[..|parts| - 1]) + (if d == [] then [] else [d])
  }

  /** Every kept fragment is non-empty and free of `<|end|>`. */
  lemma {:induction false} KeptFacts(parts: seq<string>)
    ensures |Kept(parts)| <= |parts|
    ensures forall k :: 0 <= k < |Kept(parts)| ==> Kept(parts)[k] != [] && !Contains(Kept(parts)[k], EndToken)
  {
    if parts != [] {
      var d := DecodeResponseFragment(parts[|parts| - 1]);
      KeptFacts(parts[..|parts| - 1]);
    }
  }

  /** One more step of the loop keeps one more cleaned fragment, if any. */
  lemma KeptStep(raw: seq<string>, i: nat)
    requires i < |raw|
    ensures var d := DecodeResponseFragment(raw[i]);
      Kept(raw[..i + 1]) == Kept(raw[..i]) + (if d == [] then [] else [d])
  {
    assert raw[..i + 1][..i] == raw[..i];
  }

  /** What StreamFromPrompt yields. */
  function StreamOutput(e: EngineScript): seq<string> {
    Kept(e.raw[..Generated(e)])
  }

  /** StreamFromPrompt: before each step, stop on cancellation; generate and
      decode a token, stop silently if that raises; yield the cleaned
      fragment when it is not empty; stop after a fragment with a stop
      marker. */
  method StreamFromPrompt(e: EngineScript) returns (fragments: seq<string>)
    ensures fragments == StreamOutput(e)
  {
    fragments := [];
    var i := 0;
    var shouldStop := false;
    while i < |e.raw|
      invariant 0 <= i <= |e.raw|
      invariant Generated(e) == i + GeneratedFrom(e, i)
      invariant fragments == Kept(e.raw[..i])
      decreases |e.raw| - i
    {
      var part: string;
      var decodedPart: string := [];
      if CancelObserved(e, i) {
        break;
      }
      if EngineFails(e, i) {
        break;
      }
      part := e.raw[i];
      decodedPart := DecodeResponseFragment(part);
      if HasStopMarker(part) {
        shouldStop := true;
      }
      KeptStep(e.raw, i);
      if decodedPart != [] {
        fragments := fragments + [decodedPart];
      }
      i := i + 1;
      if shouldStop {
        break;
      }
    }
  }

  /** The number of generated tokens is the first step at which the loop
      halts: it halts there and at no earlier step. */
  lemma {:induction false} GeneratedFromIsFirstHalt(e: EngineScript, i: nat)
    requires i <= |e.raw|
    requires i == 0 || !HasStopMarker(e.raw[i - 1])
    ensures HaltsAt(e, i + GeneratedFrom(e, i))
    ensures forall j :: i <= j < i + GeneratedFrom(e, i) ==> !HaltsAt(e, j)
    decreases |e.raw| - i
  {
    if i == |e.raw| || CancelObserved(e, i) || EngineFails(e, i) {
    } else if HasStopMarker(e.raw[i]) {
    } else {
      GeneratedFromIsFirstHalt(e, i + 1);
    }
  }

  lemma GeneratedIsFirstHalt(e: EngineScript)
    ensures HaltsAt(e, Generated(e))
    ensures forall j :: 0 <= j < Generated(e) ==> !HaltsAt(e, j)
  {
    GeneratedFromIsFirstHalt(e, 0);
  }

  /** No token is generated at or after a step that observes cancellation. */
  lemma NoTokenAfterCancellation(e: EngineScript, j: nat)
    requires CancelObserved(e, j)
    ensures Generated(e) <= j
  {
    GeneratedIsFirstHalt(e);
    assert HaltsAt(e, j);
  }

  /** A step at which the engine raises yields nothing and ends the loop. */
  lemma NoTokenAfterFailure(e: EngineScript, j: nat)
    requires EngineFails(e, j)
    ensures Generated(e) <= j
  {
    GeneratedIsFirstHalt(e);
    assert HaltsAt(e, j);
  }

  /** A raw fragment with a stop marker is the last one generated, and its
      cleaned text, when not empty, is the last fragment yielded. */
  lemma StopMarkerEndsStream(e: EngineScript, j: nat)
    requires j < Generated(e) && HasStopMarker(e.raw[j])
    ensures Generated(e) == j + 1
    ensures var d := DecodeResponseFragment(e.raw[j]);
      d != [] ==> |StreamOutput(e)| > 0 && StreamOutput(e)[|StreamOutput(e)| - 1] == d
  {
    GeneratedIsFirstHalt(e);
    assert HaltsAt(e, j + 1);
    assert e.raw[..j + 1][..j] == e.raw[..j];
  }

  /** The yielded text is empty exactly when nothing was yielded. */
  lemma OutputEmptyIffNothingYielded(e: EngineScript)
    ensures Concat(StreamOutput(e)) == [] <==> StreamOutput(e) == []
  {
    KeptFacts(e.raw[..Generated(e)]);
    ConcatOfNonEmpty(StreamOutput(e));
  }
}
