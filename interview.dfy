/**
 * `process_interview`: the upload is written to a temporary file, transcribed
 * and analysed; a blank transcript stops before analysis, every exception is
 * reported with one prefix, and the temporary file is unlinked in `finally`
 * on every path.
 */
module Interview {
  import opened Text
  import opened Cleanup
  import Transcription
  import Analysis

  const ErrorPrefix: string := "❌ Analysis failed: "

  datatype Result<D> =
    | Saved(assessment: Analysis.Assessment<D>, transcript: string) // stored in the session state
    | NoSpeech                                                       // "No speech detected ..."
    | Reported(message: string)                                      // shown by the handler

  /** How the handler shows an analysis that ran. */
  function Report<D>(analysis: Analysis.Outcome<D>, transcript: string): Result<D> {
    match analysis
    case Analysed(a) => Saved(a, transcript)
    case Failed(m) => Reported(ErrorPrefix + m)
  }

  /**
   * `analyzerError` is the message `AIAnalyzer()` raises (a missing key or a failed model
   * set-up), if it does. `transcribed` and `analysis` are the results of the stages that ran.
   * The analyser receives the position applied for as the job role; `jobRole` is not used.
   */
  method ProcessInterview<D>(store: TempFiles, tempPath: string, analyzerError: Option<string>,
                             upload: Transcription.Request, start: Transcription.Request,
                             poll: nat -> Transcription.Poll, latency: nat -> nat,
                             provider: nat -> Analysis.Reply, parse: string -> Analysis.Decoded<D>,
                             candidateName: string, positionApplied: string,
                             jobRole: string, experienceLevel: string)
    returns (result: Result<D>, transcribed: Option<Transcription.Outcome>, polls: nat,
             analysis: Option<Analysis.Outcome<D>>, calls: nat)
    requires tempPath !in store.files
    modifies store
    ensures store.files == old(store.files)
    ensures analyzerError.Some? ==>
              result == Reported(ErrorPrefix + analyzerError.value) && transcribed.None? && polls == 0
    ensures transcribed.Some? <==> analyzerError.None?
    ensures transcribed.Some? ==>
              Transcription.TranscribeResult(upload, start, poll, latency, transcribed.value, polls)
    ensures transcribed.Some? && transcribed.value.Failed? ==>
              result == Reported(ErrorPrefix + transcribed.value.message)
    ensures transcribed.Some? && transcribed.value.Transcript? && AllSpace(transcribed.value.text) ==>
              result == NoSpeech
    ensures analysis.Some? <==>
              transcribed.Some? && transcribed.value.Transcript? && !AllSpace(transcribed.value.text)
    ensures analysis.None? ==> calls == 0
    ensures analysis.Some? ==>
              Analysis.AnalysisResult(provider, parse, positionApplied, experienceLevel, candidateName,
                                      analysis.value, calls)
              && result == Report(analysis.value, transcribed.value.text)
  {
    store.Create(tempPath);
    transcribed, polls, analysis, calls := None, 0, None, 0;
    if analyzerError.Some? {
      result := Reported(ErrorPrefix + analyzerError.value);
    } else {
      var transcript, n := Transcription.TranscribeFile(upload, start, poll, latency);
      transcribed, polls := Some(transcript), n;
      if transcript.Failed? {
        result := Reported(ErrorPrefix + transcript.message);
      } else if Strip(transcript.text) == [] {
        result := NoSpeech;
      } else {
        var outcome, c := Analysis.AnalyzeInterview(provider, parse, positionApplied, experienceLevel, candidateName);
        analysis, calls := Some(outcome), c;
        result := Report(outcome, transcript.text);
      }
    }
    var _ := store.Unlink(tempPath);
  }

  /**
   * A failure inside the analyser is reported with both prefixes: the analyser's own
   * "Analysis failed: " inside the handler's, and never stored.
   */
  lemma AnalysisFailureReportedTwice<D>(outcome: Analysis.Outcome<D>, transcript: string, m: string)
    requires outcome == Analysis.Failed(Analysis.Surface(m)) && Analysis.Surface(m) != Analysis.QuotaMessage
    ensures Report(outcome, transcript) == Reported(ErrorPrefix + "Analysis failed: " + m)
  {
  }
}
