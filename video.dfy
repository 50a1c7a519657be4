/**
 * The analysis step of the single-file application: the saved video is
 * uploaded, re-fetched every second while its state is PROCESSING, sent with
 * the prompt to the agent, and the fenced JSON of the reply is parsed; every
 * exception is shown with one prefix and the video is unlinked in `finally`.
 */
module VideoReview {
  import opened Text
  import opened Cleanup
  import Fences

  const ErrorPrefix: string := "An error occurred during analysis: "

  /** `file.state.name` of an uploaded file. */
  datatype FileState = StateUnspecified | Processing | Active | Failed

  /** What `upload_file` (first) and each `get_file` (after) answer: the file, or an error. */
  datatype FileFetch = FileInfo(state: FileState) | FetchError(message: string)

  /** What `agent.run` produces: the reply's content, or an error. */
  datatype AgentRun = Content(text: string) | RunFailed(message: string)

  /** What `json.loads` makes of a string: any JSON value, or a decoding error. */
  datatype Json<D> = Value(doc: D) | Invalid(error: string)

  datatype ReviewResult<D> =
    | Stored(assessment: D, candidateName: string, positionApplied: string) // session state set
    | Shown(message: string)                                                // error shown

  predicate StillProcessing(f: FileFetch) {
    f.FileInfo? && f.state == Processing
  }

  /**
   * The `while processed_video.state.name == "PROCESSING"` loop over the answers of the
   * upload and of each re-fetch. It stops at the first answer that is not a processing
   * file: an error (which raises) or any other state, FAILED included. The loop has no
   * bound of its own, so the answers are required to settle eventually.
   */
  method WaitForVideo(responses: seq<FileFetch>) returns (final: FileFetch, requests: nat)
    requires exists k :: 0 <= k < |responses| && !StillProcessing(responses[k])
    ensures 1 <= requests <= |responses| && final == responses[requests - 1]
    ensures !StillProcessing(final)
    ensures forall j :: 0 <= j < requests - 1 ==> StillProcessing(responses[j])
  {
    var i := 0;
    final := responses[0];
    while StillProcessing(final)
      invariant 0 <= i < |responses| && final == responses[i]
      invariant forall j :: 0 <= j < i ==> StillProcessing(responses[j])
      invariant exists k :: i <= k < |responses| && !StillProcessing(responses[k])
      decreases |responses| - i
    {
      i := i + 1;
      final := responses[i];
    }
    requests := i + 1;
  }

  /** The answer the wait stops at is determined: the first that is not a processing file. */
  lemma WaitStopsAtFirstSettled(responses: seq<FileFetch>, a: nat, b: nat)
    requires a < |responses| && b < |responses|
    requires !StillProcessing(responses[a]) && forall j :: 0 <= j < a ==> StillProcessing(responses[j])
    requires !StillProcessing(responses[b]) && forall j :: 0 <= j < b ==> StillProcessing(responses[j])
    ensures a == b
  {
  }

  /** The upload, the wait, the agent call, fence extraction and parsing, then cleanup. */
  method AnalyzeVideo<D>(store: TempFiles, videoPath: string, responses: seq<FileFetch>,
                         agent: AgentRun, parse: string -> Json<D>,
                         candidateName: string, positionApplied: string)
    returns (result: ReviewResult<D>, requests: nat)
    requires exists k :: 0 <= k < |responses| && !StillProcessing(responses[k])
    modifies store
    ensures store.files == old(store.files) - {videoPath}
    ensures 1 <= requests <= |responses| && !StillProcessing(responses[requests - 1])
    ensures forall j :: 0 <= j < requests - 1 ==> StillProcessing(responses[j])
    ensures responses[requests - 1].FetchError? ==>
              result == Shown(ErrorPrefix + responses[requests - 1].message)
    ensures responses[requests - 1].FileInfo? && agent.RunFailed? ==>
              result == Shown(ErrorPrefix + agent.message)
    ensures responses[requests - 1].FileInfo? && agent.Content? ==>
              match parse(Fences.ExtractJson(agent.text))
              case Value(d) => result == Stored(d, candidateName, positionApplied)
              case Invalid(e) => result == Shown(ErrorPrefix + e)
  {
    var final, n := WaitForVideo(responses);
    requests := n;
    if final.FetchError? {
      result := Shown(ErrorPrefix + final.message);
    } else if agent.RunFailed? {
      result := Shown(ErrorPrefix + agent.message);
    } else {
      match parse(Fences.ExtractJson(agent.text))
      case Value(d) => result := Stored(d, candidateName, positionApplied);
      case Invalid(e) => result := Shown(ErrorPrefix + e);
    }
    var _ := store.Unlink(videoPath);
  }
}
