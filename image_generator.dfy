// Image generation with a sticky failover: the primary generator is tried
// until its first failure, and from then on only the fallback is used.

module ImageGeneration {
  import opened Wrappers
  import opened Text

  type Bytes = seq<bv8>

  const ApiKeyMissing := "API key must be provided for ImageGenerator."
  const ModelNameMissing := "A model name must be provided for ImageGenerator."
  const AvoidSeparator := ". Avoid: "

  /**
   * What one generator call produced: `None` when it raised, otherwise the
   * bytes it returned (possibly empty, which the caller treats as no image).
   */
  type Outcome = Option<Bytes>

  /** An outcome the caller accepts as an image. */
  predicate Delivered(o: Outcome) {
    o.Some? && o.value != []
  }

  /** A request made to one of the two image services, with the prompt sent. */
  datatype Call = PrimaryCall(prompt: string) | FallbackCall(prompt: string)

  /** The prompt sent to the primary service: the negative terms, stripped, appended after a separator when there are any. */
  function FullPrompt(prompt: string, negativePrompt: string): string {
    if IsBlank(negativePrompt) then prompt
    else prompt + AvoidSeparator + Strip(negativePrompt)
  }

  /** The full prompt starts with the prompt, and is the prompt itself exactly when the negative terms are blank. */
  lemma FullPromptKeepsPrompt(prompt: string, negativePrompt: string)
    ensures var r := FullPrompt(prompt, negativePrompt);
      |prompt| <= |r| && r[..|prompt|] == prompt && (r == prompt <==> IsBlank(negativePrompt))
  {
    var r := FullPrompt(prompt, negativePrompt);
    if !IsBlank(negativePrompt) {
      assert r[..|prompt|] == prompt;
    }
  }

  /**
   * With negative terms, the prompt is followed by the separator and then
   * the terms stripped: non-empty, with no whitespace at either end.
   */
  lemma FullPromptAvoids(prompt: string, negativePrompt: string)
    requires !IsBlank(negativePrompt)
    ensures var r := FullPrompt(prompt, negativePrompt);
      && |prompt| + |AvoidSeparator| < |r|
      && r[|prompt|..|prompt| + |AvoidSeparator|] == AvoidSeparator
      && var tail := r[|prompt| + |AvoidSeparator|..];
        tail == Strip(negativePrompt) && !IsSpace(tail[0]) && !IsSpace(tail[|tail| - 1])
  {
    BlankIffStripEmpty(negativePrompt);
    var r := FullPrompt(prompt, negativePrompt);
    assert r[|prompt| + |AvoidSeparator|..] == Strip(negativePrompt);
    assert r[|prompt|..|prompt| + |AvoidSeparator|] == AvoidSeparator;
  }

  /** What one request does: the image returned, the new failure flag, and the service calls made. */
  datatype Step = Step(image: Option<Bytes>, failed: bool, calls: seq<Call>)

  /**
   * One request, given the failure flag before it, whether a fallback
   * service is configured, and what each service would produce if called.
   */
  function Attempt(failed: bool, hasFallback: bool, prompt: string, negativePrompt: string,
                   primary: Outcome, fallback: Outcome): Step
  {
    if IsBlank(prompt) then Step(None, failed, [])
    else
      var tried := if failed then [] else [PrimaryCall(FullPrompt(prompt, negativePrompt))];
      if !failed && Delivered(primary) then Step(primary, false, tried)
      else if hasFallback then
        Step(if Delivered(fallback) then fallback else None, true, tried + [FallbackCall(prompt)])
      else Step(None, true, tried)
  }

  /** The failure flag is set exactly by a non-blank request whose primary call did not deliver, and is never cleared. */
  lemma AttemptFlag(failed: bool, hasFallback: bool, prompt: string, neg: string, primary: Outcome, fallback: Outcome)
    ensures var s := Attempt(failed, hasFallback, prompt, neg, primary, fallback);
      s.failed <==> failed || (!IsBlank(prompt) && !Delivered(primary))
  {
  }

  /** A blank prompt calls no service, returns nothing and leaves the flag alone. */
  lemma BlankPromptSkips(failed: bool, hasFallback: bool, prompt: string, neg: string, primary: Outcome, fallback: Outcome)
    requires IsBlank(prompt)
    ensures Attempt(failed, hasFallback, prompt, neg, primary, fallback) == Step(None, failed, [])
  {
  }

  /**
   * Which services are called and with which prompt: the primary one with
   * the full prompt, exactly when the prompt is not blank and the flag is
   * clear; the fallback one with the original prompt, exactly when the
   * prompt is not blank, a fallback is configured, and the primary one was
   * skipped or did not deliver; the primary one always first; and none at
   * all for a blank prompt.
   */
  lemma AttemptCalls(failed: bool, hasFallback: bool, prompt: string, neg: string, primary: Outcome, fallback: Outcome)
    ensures var s := Attempt(failed, hasFallback, prompt, neg, primary, fallback);
      && (PrimaryCall(FullPrompt(prompt, neg)) in s.calls <==> !IsBlank(prompt) && !failed)
      && (FallbackCall(prompt) in s.calls <==> !IsBlank(prompt) && hasFallback && (failed || !Delivered(primary)))
      && (forall c :: c in s.calls && c.PrimaryCall? ==> c == PrimaryCall(FullPrompt(prompt, neg)))
      && (forall c :: c in s.calls && c.FallbackCall? ==> c == FallbackCall(prompt))
      && (forall k :: 0 < k < |s.calls| ==> s.calls[k].FallbackCall?)
      && (IsBlank(prompt) ==> s.calls == [])
  {
  }

  /**
   * The image returned is non-empty and comes from the primary service
   * when it delivered and was asked, otherwise from the fallback service;
   * nothing is returned exactly when the prompt is blank or no service
   * that was asked delivered.
   */
  lemma AttemptImage(failed: bool, hasFallback: bool, prompt: string, neg: string, primary: Outcome, fallback: Outcome)
    ensures var s := Attempt(failed, hasFallback, prompt, neg, primary, fallback);
      && (s.image.Some? ==> s.image.value != [])
      && (s.image.None? <==> IsBlank(prompt) || ((failed || !Delivered(primary)) && (!hasFallback || !Delivered(fallback))))
      && (s.image.Some? && !failed && Delivered(primary) ==> s.image == primary)
      && (s.image.Some? && (failed || !Delivered(primary)) ==> s.image == fallback)
  {
  }

  /** One request to the generator: the prompts and what each service produces if called. */
  datatype Request = Request(prompt: string, negativePrompt: string, primary: Outcome, fallback: Outcome)

  /** The failure flag after a series of requests. */
  function FlagAfter(failed: bool, hasFallback: bool, rs: seq<Request>): bool
    decreases |rs|
  {
    if rs == [] then failed
    else
      var r := rs[0];
      FlagAfter(Attempt(failed, hasFallback, r.prompt, r.negativePrompt, r.primary, r.fallback).failed, hasFallback, rs[1..])
  }

  /** The calls made by a series of requests, in order. */
  function CallsOf(failed: bool, hasFallback: bool, rs: seq<Request>): seq<Call>
    decreases |rs|
  {
    if rs == [] then []
    else
      var r := rs[0];
      var s := Attempt(failed, hasFallback, r.prompt, r.negativePrompt, r.primary, r.fallback);
      s.calls + CallsOf(s.failed, hasFallback, rs[1..])
  }

  /** Once set, the failure flag stays set whatever requests follow. */
  lemma {:induction false} FlagNeverResets(hasFallback: bool, rs: seq<Request>)
    ensures FlagAfter(true, hasFallback, rs)
    decreases |rs|
  {
    if rs != [] {
      AttemptFlag(true, hasFallback, rs[0].prompt, rs[0].negativePrompt, rs[0].primary, rs[0].fallback);
      FlagNeverResets(hasFallback, rs[1..]);
    }
  }

  /** After the failure flag is set, no later request reaches the primary service. */
  lemma {:induction false} NoPrimaryAfterFailure(hasFallback: bool, rs: seq<Request>)
    ensures forall c :: c in CallsOf(true, hasFallback, rs) ==> c.FallbackCall?
    decreases |rs|
  {
    if rs != [] {
      var r := rs[0];
      AttemptCalls(true, hasFallback, r.prompt, r.negativePrompt, r.primary, r.fallback);
      AttemptFlag(true, hasFallback, r.prompt, r.negativePrompt, r.primary, r.fallback);
      NoPrimaryAfterFailure(hasFallback, rs[1..]);
    }
  }

  /**
   * Starting with the flag clear, while every request is blank or delivered
   * by the primary service, the flag stays clear.
   */
  lemma {:induction false} FlagStaysClear(hasFallback: bool, rs: seq<Request>)
    requires forall k :: 0 <= k < |rs| ==> IsBlank(rs[k].prompt) || Delivered(rs[k].primary)
    ensures !FlagAfter(false, hasFallback, rs)
    decreases |rs|
  {
    if rs != [] {
      AttemptFlag(false, hasFallback, rs[0].prompt, rs[0].negativePrompt, rs[0].primary, rs[0].fallback);
      FlagStaysClear(hasFallback, rs[1..]);
    }
  }

  /** The image generator: the services it was configured with and the sticky failure flag. */
  class ImageGenerator {
    const modelName: string
    /** Whether a fallback service was configured. */
    const hasFallback: bool
    /** Set once the primary service has failed; from then on only the fallback is used. */
    var primaryHasFailed: bool
    /** Every service call made so far, in order. */
    ghost var calls: seq<Call>

    constructor Init(modelName: string, hasFallback: bool)
      ensures this.modelName == modelName && this.hasFallback == hasFallback
      ensures !primaryHasFailed && calls == []
    {
      this.modelName := modelName;
      this.hasFallback := hasFallback;
      primaryHasFailed := false;
      calls := [];
    }

    /**
     * One request: the result, the new flag and the calls made are those
     * of `Attempt` on the flag before the request.
     */
    method Process(prompt: string, negativePrompt: string, primary: Outcome, fallback: Outcome)
      returns (image: Option<Bytes>)
      modifies this
      ensures var s := Attempt(old(primaryHasFailed), hasFallback, prompt, negativePrompt, primary, fallback);
        image == s.image && primaryHasFailed == s.failed && calls == old(calls) + s.calls
    {
      if IsBlank(prompt) {
        return None;
      }
      var fullPrompt := FullPrompt(prompt, negativePrompt);
      if !primaryHasFailed {
        calls := calls + [PrimaryCall(fullPrompt)];
        if primary.Some? && primary.value != [] {
          return primary;
        }
        primaryHasFailed := true;
      }
      if hasFallback {
        calls := calls + [FallbackCall(prompt)];
        if fallback.Some? && fallback.value != [] {
          return fallback;
        }
      }
      return None;
    }
  }

  /**
   * Build a generator: fails when the API key or the model name is empty.
   * The fallback service is configured when its library is available and a
   * key is found, either given or taken from the environment, and setting
   * it up did not raise.
   */
  method Create(apiKey: string, modelName: string, fallbackAvailable: bool, fallbackKey: string,
                environmentKey: string, fallbackSetupOk: bool)
    returns (r: Result<ImageGenerator, string>)
    ensures r.Failure? <==> apiKey == [] || modelName == []
    ensures r.Failure? ==> r.error == (if apiKey == [] then ApiKeyMissing else ModelNameMissing)
    ensures r.Success? ==>
      && fresh(r.value) && r.value.modelName == modelName && !r.value.primaryHasFailed && r.value.calls == []
      && (r.value.hasFallback <==> fallbackAvailable && (fallbackKey != [] || environmentKey != []) && fallbackSetupOk)
  {
    if apiKey == [] {
      return Failure(ApiKeyMissing);
    }
    if modelName == [] {
      return Failure(ModelNameMissing);
    }
    var hasFallback := false;
    if fallbackAvailable {
      var key := if fallbackKey != [] then fallbackKey else environmentKey;
      if key != [] {
        hasFallback := fallbackSetupOk;
      }
    }
    var g := new ImageGenerator.Init(modelName, hasFallback);
    return Success(g);
  }
}
