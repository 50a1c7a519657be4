/**
 * `AIAnalyzer.analyze_interview`: up to `MAX_RETRIES` calls of the model, each
 * reply checked for content, fence-stripped and parsed; only a JSON decoding
 * failure is retried, and whatever escapes the loop is turned into one message
 * by the outer handler, which singles out quota exhaustion.
 *
 * The provider is an oracle (`provider(n)` is the reply to the n-th call) and
 * `json.loads` is an abstract `parse` from the candidate text to a decoded value.
 */
module Analysis {
  import opened Text
  import Fences

  const MaxRetries: nat := 3
  const ModelName: string := "gemini-2.5-flash-preview-05-20"
  // Long literals are written as concatenations so that the verifier can see their characters.
  const QuotaMessage: string := "API quota exceeded. " + "Please check your billing " + "or try again later."
  const ParseExhausted: string := "Failed to parse AI " + "response after " + "multiple attempts"
  const EmptyResponse: string := "Empty response from AI model"
  const NoContentParts: string := "No content parts in response"
  const EmptyText: string := "Empty text in response"

  /** One answer of the model provider to `generate_content`. */
  datatype Reply =
    | Raised(message: string)   // the call itself raised
    | NoCandidates              // no response, or a response without candidates
    | NoParts                   // the first candidate has no content parts
    | Answer(text: string)      // the text of the first part

  /** What `json.loads`, then adding the `metadata` key, makes of a candidate. */
  datatype Decoded<D> =
    | Malformed                      // JSONDecodeError
    | NotAnObject(typeError: string) // valid JSON, but not an object: the key assignment raises
    | Object(fields: D)

  datatype Metadata = Metadata(jobRole: string, experienceLevel: string, candidateName: string, modelUsed: string)

  datatype Assessment<D> = Assessment(data: D, metadata: Metadata)

  datatype Outcome<D> = Analysed(assessment: Assessment<D>) | Failed(message: string)

  /** How one attempt ends inside the loop body. */
  datatype Attempt<D> = Parsed(fields: D) | Unparsable | Raise(message: string)

  function TryOnce<D>(reply: Reply, parse: string -> Decoded<D>): Attempt<D> {
    match reply
    case Raised(m) => Raise(m)
    case NoCandidates => Raise(EmptyResponse)
    case NoParts => Raise(NoContentParts)
    case Answer(t) =>
      if t == "" then Raise(EmptyText)
      else
        match parse(Fences.ExtractJson(t))
        case Malformed => Unparsable
        case NotAnObject(e) => Raise(e)
        case Object(d) => Parsed(d)
  }

  /** The outer `except`: a message mentioning "quota" in any case gets the quota notice. */
  function Surface(message: string): (shown: string)
    ensures shown == QuotaMessage <==> Contains(Lower(message), "quota")
    ensures shown != QuotaMessage ==> shown == "Analysis failed: " + message
  {
    if Contains(Lower(message), "quota") then QuotaMessage
    else
      assert ("Analysis failed: " + message)[1] == 'n' && QuotaMessage[1] == 'P';
      "Analysis failed: " + message
  }

  /** "Quota", "QUOTA" or "quota" anywhere in the provider's message selects the quota notice. */
  lemma QuotaInAnyCase(message: string, word: string, i: nat)
    requires OccursAt(message, word, i) && Lower(word) == "quota"
    ensures Surface(message) == QuotaMessage
  {
    LowerSlice(message, i, i + |word|);
    assert OccursAt(Lower(message), "quota", i);
  }

  /** Internal failures of the loop body do not mention quota, so they are reported as failures. */
  lemma InternalMessagesAreNotQuota()
    ensures Surface(ParseExhausted) == "Analysis failed: " + ParseExhausted
    ensures Surface(EmptyResponse) == "Analysis failed: " + EmptyResponse
    ensures Surface(NoContentParts) == "Analysis failed: " + NoContentParts
    ensures Surface(EmptyText) == "Analysis failed: " + EmptyText
  {
    QuotaAbsent(ParseExhausted);
    QuotaAbsent(EmptyResponse);
    QuotaAbsent(NoContentParts);
    QuotaAbsent(EmptyText);
  }

  lemma QuotaAbsent(message: string)
    requires forall i :: 0 <= i < |message| ==> message[i] != 'q' && message[i] != 'Q'
    ensures !Contains(Lower(message), "quota")
  {
    forall i: nat ensures !OccursAt(Lower(message), "quota", i) {
      if i + 5 <= |message| {
        var l := Lower(message);
        assert l[i] == LowerChar(message[i]);
        assert l[i..i + 5][0] == l[i] != "quota"[0];
      }
    }
  }

  /**
   * What the retry loop concludes from how its attempts end (`attempt(j)` for the j-th
   * call): `calls` model invocations, at least one and at most `MaxRetries`. Every attempt
   * but the last was a parse failure; the last one decides: parsed (the metadata attached),
   * raised (surfaced at once, not retried), or a parse failure on the last allowed attempt.
   */
  ghost predicate Concludes<D>(attempt: nat -> Attempt<D>, metadata: Metadata, outcome: Outcome<D>, calls: nat) {
    && 1 <= calls <= MaxRetries
    && (forall j :: 0 <= j < calls - 1 ==> attempt(j).Unparsable?)
    && var last := attempt(calls - 1);
       && (last.Parsed? ==> outcome == Analysed(Assessment(last.fields, metadata)))
       && (last.Raise? ==> outcome == Failed(Surface(last.message)))
       && (last.Unparsable? ==> calls == MaxRetries && outcome == Failed(Surface(ParseExhausted)))
  }

  /** The loop over the provider's replies, with the inputs' metadata. */
  ghost predicate AnalysisResult<D>(provider: nat -> Reply, parse: string -> Decoded<D>,
                                    jobRole: string, experienceLevel: string, candidateName: string,
                                    outcome: Outcome<D>, calls: nat)
  {
    Concludes((j: nat) => TryOnce(provider(j), parse),
              Metadata(jobRole, experienceLevel, candidateName, ModelName), outcome, calls)
  }

  /**
   * The `for attempt in range(MAX_RETRIES)` loop, over how each attempt ends: a parse
   * failure sleeps and goes round again, anything else leaves the loop.
   */
  method RetryLoop<D>(attempt: nat -> Attempt<D>, metadata: Metadata) returns (outcome: Outcome<D>, calls: nat)
    ensures Concludes(attempt, metadata, outcome, calls)
  {
    calls := 0;
    var i := 0;
    while true
      invariant i < MaxRetries && calls == i
      invariant forall j :: 0 <= j < i ==> attempt(j).Unparsable?
      decreases MaxRetries - i
    {
      calls := calls + 1;
      var result := attempt(i);
      if result.Parsed? {
        return Analysed(Assessment(result.fields, metadata)), calls;
      } else if result.Raise? {
        return Failed(Surface(result.message)), calls;
      } else if i == MaxRetries - 1 {
        return Failed(Surface(ParseExhausted)), calls;
      }
      i := i + 1;
    }
  }

  /** `analyze_interview`: the loop over the provider's replies, with the inputs' metadata. */
  method AnalyzeInterview<D>(provider: nat -> Reply, parse: string -> Decoded<D>,
                             jobRole: string, experienceLevel: string, candidateName: string)
    returns (outcome: Outcome<D>, calls: nat)
    ensures AnalysisResult(provider, parse, jobRole, experienceLevel, candidateName, outcome, calls)
  {
    var metadata := Metadata(jobRole, experienceLevel, candidateName, ModelName);
    outcome, calls := RetryLoop((j: nat) => TryOnce(provider(j), parse), metadata);
  }

  /** An attempt that parses on the first call ends the loop after one call, with metadata. */
  lemma FirstParseWins<D>(attempt: nat -> Attempt<D>, metadata: Metadata, outcome: Outcome<D>, calls: nat)
    requires Concludes(attempt, metadata, outcome, calls)
    requires attempt(0).Parsed?
    ensures calls == 1 && outcome == Analysed(Assessment(attempt(0).fields, metadata))
  {
  }

  /** An empty response is not retried: one call, and the failure names it. */
  lemma EmptyResponseNotRetried<D>(provider: nat -> Reply, parse: string -> Decoded<D>,
                                   jobRole: string, experienceLevel: string, candidateName: string,
                                   outcome: Outcome<D>, calls: nat)
    requires AnalysisResult(provider, parse, jobRole, experienceLevel, candidateName, outcome, calls)
    requires provider(0).NoCandidates?
    ensures calls == 1 && outcome == Failed("Analysis failed: " + EmptyResponse)
  {
    var attempt := (j: nat) => TryOnce(provider(j), parse);
    assert attempt(0) == Raise(EmptyResponse);
    RaiseEndsLoop(attempt, Metadata(jobRole, experienceLevel, candidateName, ModelName), outcome, calls);
    InternalMessagesAreNotQuota();
  }

  /** A first attempt that raises ends the loop after one call, with the surfaced message. */
  lemma RaiseEndsLoop<D>(attempt: nat -> Attempt<D>, metadata: Metadata, outcome: Outcome<D>, calls: nat)
    requires Concludes(attempt, metadata, outcome, calls)
    requires attempt(0).Raise?
    ensures calls == 1 && outcome == Failed(Surface(attempt(0).message))
  {
  }

  /** Two malformed replies and then a good one: three calls, and the third reply is used. */
  lemma RecoversOnLastAttempt<D>(attempt: nat -> Attempt<D>, metadata: Metadata, outcome: Outcome<D>, calls: nat)
    requires Concludes(attempt, metadata, outcome, calls)
    requires attempt(0).Unparsable? && attempt(1).Unparsable? && attempt(2).Parsed?
    ensures calls == 3 && outcome == Analysed(Assessment(attempt(2).fields, metadata))
  {
  }

  /** Three malformed replies exhaust the retries with the parse-failure message. */
  lemma MalformedThriceFails<D>(attempt: nat -> Attempt<D>, metadata: Metadata, outcome: Outcome<D>, calls: nat)
    requires Concludes(attempt, metadata, outcome, calls)
    requires forall j :: 0 <= j < MaxRetries ==> attempt(j).Unparsable?
    ensures calls == MaxRetries && outcome == Failed("Analysis failed: " + ParseExhausted)
  {
    InternalMessagesAreNotQuota();
  }

  /**
   * A reply whose first "```json" block holds `body` (the first fence after the label closing
   * it, and no second label starting inside that fence) is parsed from the stripped body on
   * that attempt.
   */
  lemma LabelledReplyParsed<D>(parse: string -> Decoded<D>, prefix: string, body: string, suffix: string)
    requires Find(prefix + Fences.JsonFence, Fences.JsonFence) == Some(|prefix|)
    requires Find(body + Fences.Fence, Fences.Fence) == Some(|body|)
    requires !OccursAt(body + Fences.Fence + suffix, Fences.JsonFence, |body| + 1)
    requires !OccursAt(body + Fences.Fence + suffix, Fences.JsonFence, |body| + 2)
    ensures TryOnce(Answer(prefix + Fences.JsonFence + body + Fences.Fence + suffix), parse) ==
              match parse(Strip(body))
              case Malformed => Unparsable
              case NotAnObject(e) => Raise(e)
              case Object(d) => Parsed(d)
  {
    Fences.LabelledBlockExtracted(prefix, body, suffix);
    var text := prefix + Fences.JsonFence + body + Fences.Fence + suffix;
    assert text[|prefix|] == '`';
  }
}
