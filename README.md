# Interview assessment: verified decision logic

This project models the deterministic decision logic inside the two variants of a
Streamlit interview-assessment application. `adv_app.py` uploads an interview recording
to a speech-to-text provider, polls the provider for the transcript, has a generative
model score the transcript, and turns the scores into recommendations. `app.py` sends the
video itself to a model agent.

The Dafny modules follow the program's structure:

- `Text` models the pieces of Python's `str` the code relies on: `in`, `find`,
  `split(sep)[0]` and `[1]`, `strip()` with Python's whitespace set, and `lower()` on
  ASCII.
- `Security` models `SecurityManager`:
  - the filename substitution and truncation;
  - the 100 MB ceiling;
  - the extension allow-list. This follows `pathlib`'s `name`/`suffix` rules for POSIX
    paths.
- `Upload` models `_read_file_chunks`. A `ByteReader` class stands for the open binary file
  with its read position. The `while True` loop is proved to produce exactly the
  `CHUNK_SIZE` cut of the file.
- `Fences` models the JSON-fence expression, which is identical in both variants.
- `Analysis` models `AIAnalyzer.analyze_interview`: the bounded retry loop, the content
  checks on each reply, and the outer handler that singles out quota errors.
  - The model provider is an oracle: `provider(n)` is the reply to the n-th call.
  - `json.loads` is an abstract `parse` function.
- `Transcription` models `transcribe_file`: upload, start, then the status-polling loop
  against a 30-minute ceiling.
  - The status requests are an oracle.
  - The clock is a millisecond counter. Each round costs the request's own time
    (`latency(n)`) plus the 2-second sleep.
- `Taxonomy` holds the seven categories and their weights, as exact hundredths. It also
  holds the sidebar re-weighting of `app.py`: a dictionary built in a loop, then divided
  in place by its total.
- `Recommendations` models the recommendation rule of the analytics tab:
  - the list is built by `append`;
  - `sort(key=impact, reverse=True)` is Python's stable sort, modelled as an insertion
    sort on values;
  - the first five are kept.
- `Cleanup` holds a `TempFiles` class: the temporary directory as a set of names that
  creating and unlinking change in place.
- `Interview` models `process_interview` (adv_app.py).
- `VideoReview` models the analyse-button branch of `app.py`, with its
  `while state == "PROCESSING"` wait.

Behaviour of the code worth knowing:

- **Double prefix:** a parse failure after three attempts is reported as
  "Analysis failed: Failed to parse AI response after multiple attempts". The outer
  handler of `analyze_interview` wraps every message it catches, its own included.
  `process_interview` then adds its own "❌ Analysis failed: " in front.
- **Blank transcript:** a whitespace-only transcript is not an error raised through the
  handler. The pipeline shows "no speech detected" and returns, and the temporary file is
  still removed.
- **Non-object JSON:** a reply that parses to a JSON value other than an object makes the
  metadata assignment raise a `TypeError`. That failure is not retried: only
  `JSONDecodeError` is.
- **No score validation:** scores are not checked to lie in 0..100. The recommendation
  rule is modelled for every integer score.
- **Video cleanup:** in `app.py` the temporary video is written before the button is
  pressed. It is unlinked only inside the button's `try`/`finally`.
- **Unused weights:** `app.py` never reads the normalised sidebar weights after computing them. The `Taxonomy` slider members model a result that nothing downstream uses.
- **FAILED videos:** the `app.py` wait loop exits on any state other than PROCESSING,
  FAILED included, and goes on to call the agent.

## Model

| member | source | states |
|---|---|---|
| Text.Find | adv_app.py:346-348 | `find` returns the first occurrence of the separator, and none exactly when the separator does not occur |
| Text.Before | adv_app.py:346-348 | `split(sep)[0]` is the prefix that ends where the first occurrence of the separator starts, or the whole string without one, and never contains the separator |
| Text.After | adv_app.py:346-348 | `split(sep)[1]` starts right after the first separator |
| Text.Strip | adv_app.py:1027 | `strip()` keeps an infix with non-whitespace ends, and is empty exactly when the input is all whitespace |
| Text.StripIdempotent | adv_app.py:346-348 | stripping twice is stripping once |
| Text.StripPadded | adv_app.py:346-348 | stripping removes exactly the whitespace padding around a core whose ends are not whitespace |
| Security.SanitizeFilename | adv_app.py:55-58 | the length is min(len, 100); every character is a word character, '-' or '.'; safe characters are kept and every other becomes '_'; no path separator survives |
| Security.SanitizeIdempotent | adv_app.py:55-58 | sanitising twice is sanitising once |
| Security.ValidateFileSize | adv_app.py:61-64 | a size is accepted exactly when it is at most 104857600 bytes |
| Security.FinalName | adv_app.py:67-70 | the name has no '/' and is never "."; it is empty exactly when every component of the path is "" or "."; otherwise it is a whole component of the path, and only "" or "." components follow it |
| Security.Suffix | adv_app.py:67-70 | the suffix is empty, or starts at the last '.' of the name, is at least two characters, contains no further '.', and is not the whole name |
| Security.ExtensionCheckByEnding | adv_app.py:67-70 | a file is accepted exactly when its final component ends, in any letter case, in one of the seven extensions and has at least one character before it |
| Security.ExtensionCheckIgnoresCase | adv_app.py:67-70 | names that differ only in letter case get the same verdict, so ".MP4" behaves as ".mp4" |
| Security.UpperCaseAccepted | adv_app.py:67-70 | "interview.MP4" is accepted |
| Security.HiddenFileRefused | adv_app.py:67-70 | ".mp4" has no suffix and is refused |
| Upload.ByteReader.Open | adv_app.py:150 | opening a file gives a reader at position 0 over its contents |
| Upload.ByteReader.Read | adv_app.py:152 | `read(n)` returns the next n bytes, fewer only at end of file, and advances the position by as many |
| Upload.ReadFileChunks | adv_app.py:148-155 | the read loop yields exactly the `CHUNK_SIZE` cut of the file; the chunks concatenate to the file, none is empty or over 5242880 bytes, and all but the last are full |
| Upload.ChunksFlatten | adv_app.py:148-155 | the chunks put back together are the file |
| Upload.ChunksWellCut | adv_app.py:148-155 | no chunk is empty or longer than the chunk size, and only the last may be shorter |
| Upload.ChunkCount | adv_app.py:148-155 | an empty file gives no chunk; otherwise there are ceil(len / size) chunks |
| Upload.WellCutIsChunks | adv_app.py:148-155 | any cut of the file with those properties is the one the loop produces |
| Fences.ExtractJson | adv_app.py:346-349 | the candidate handed to the parser is always a piece of the reply (also app.py:295-298) |
| Fences.ExtractedIsClean | adv_app.py:346-349 | when the reply has a fence, the candidate has no fence left and no surrounding whitespace; without a fence it is the reply itself |
| Fences.LabelledBlockExtracted | adv_app.py:346-347 | with a "```json" label, the candidate is the stripped text between the first label and the next fence, when no second label starts inside that fence (also app.py:295-296) |
| Fences.LabelInsideClosingFence | adv_app.py:346-347 | a second label that starts inside the closing fence ends the piece: "```json{}````json" yields "{}`" (also app.py:295-296) |
| Fences.LabelInsideClosingFenceCut | adv_app.py:346-347 | when a second label starts one or two characters into the closing fence, the candidate is the body followed by that many backticks, stripped (also app.py:295-296) |
| Fences.LabelledBlockUnclosed | adv_app.py:346-347 | with a label and no closing fence, the candidate is everything after the label, stripped |
| Fences.PlainBlockExtracted | adv_app.py:348-349 | without a label, the candidate is the stripped text between the first two fences (also app.py:297-298) |
| Fences.LoneFenceExtracted | adv_app.py:348-349 | with a single unlabelled fence, the candidate is everything after it, stripped |
| Fences.UnfencedPassThrough | adv_app.py:346-352 | a reply with no fence reaches the parser untouched (also app.py:295-301) |
| Analysis.Surface | adv_app.py:372-376 | the quota notice is shown exactly when the message mentions "quota" in any letter case; any other message gets the "Analysis failed: " prefix |
| Analysis.QuotaInAnyCase | adv_app.py:374-375 | "Quota", "QUOTA" or any casing of the word anywhere in the message selects the quota notice |
| Analysis.InternalMessagesAreNotQuota | adv_app.py:330-341 | the loop's own failure messages are never taken for quota errors |
| Analysis.RetryLoop | adv_app.py:325-370 | between one and three attempts; every attempt but the last failed to parse; a parsed attempt returns with the metadata attached; any other raise ends the loop at once, surfaced by the outer handler; a parse failure on the third attempt gives the parse-exhaustion failure |
| Analysis.AnalyzeInterview | adv_app.py:315-376 | the loop runs over the provider's replies, each checked for content, fence-stripped and parsed, and attaches the job role, experience level, candidate name and model name |
| Analysis.RaiseEndsLoop | adv_app.py:325-370 | a first attempt that raises anything other than a decoding error ends the loop after one call, with the surfaced message |
| Analysis.FirstParseWins | adv_app.py:352-364 | a reply that parses on the first attempt ends the loop after one call, with the metadata attached |
| Analysis.EmptyResponseNotRetried | adv_app.py:330-331 | an empty response is not retried: one call, and the failure names it |
| Analysis.RecoversOnLastAttempt | adv_app.py:325-370 | two malformed replies and then one that parses give success after exactly three calls |
| Analysis.MalformedThriceFails | adv_app.py:366-370 | three malformed replies give "Analysis failed: Failed to parse AI response after multiple attempts" after three calls |
| Analysis.LabelledReplyParsed | adv_app.py:346-353 | a reply holding a "```json" block, with no second label starting inside its closing fence, is parsed from that block's stripped content |
| Transcription.Settle | adv_app.py:226-233 | "completed" returns the text (default ""); "error" fails with the provider's message (default "Unknown transcription error"); a failed status request fails with its reason |
| Transcription.CheckTimeGrows | adv_app.py:222-235 | each polling round costs at least its 2-second sleep |
| Transcription.PollsWithinBound | adv_app.py:222-235 | a status request issued before the deadline is among the first 900 |
| Transcription.PollTranscript | adv_app.py:222-237 | at most 900 status requests, each issued before the 30-minute deadline; every request but the last was still pending; the last one settles the outcome, or the deadline has passed and the job times out |
| Transcription.TranscribeFile | adv_app.py:205-241 | a failed upload or start fails with its own message before any status request; otherwise the polling loop decides |
| Transcription.CheckTimeMonotone | adv_app.py:222 | the clock never runs backwards |
| Transcription.EveryPollBeforeDeadline | adv_app.py:222-235 | every status request of a run was issued before the deadline |
| Transcription.PendingForeverPolledMaxTimes | adv_app.py:222-237 | with instant answers, a job that never settles is polled exactly 900 times and times out |
| Transcription.FirstAnswerSettles | adv_app.py:226-233 | a job that completes or fails on the first answer is settled by it, whatever the clock does |
| Taxonomy.CategoriesListedOnce | adv_app.py:75-139 | the dictionary lists every category exactly once |
| Taxonomy.WeightsSumToOne | adv_app.py:75-139 | the weights 30, 20, 15, 10, 10, 10 and 5 hundredths sum to 100 hundredths |
| Taxonomy.WeightOrder | adv_app.py:75-139 | every weight is positive; technical skills weigh the most and decision making the least |
| Taxonomy.SumOverScaled | app.py:179-181 | dividing every entry by the total divides the sum by it |
| Taxonomy.ReadSliders | app.py:166-175 | the dictionary holds one slider value per category, and its values sum to the slider total |
| Taxonomy.DivideAll | app.py:179-181 | the in-place loop divides every entry by the total, and the sum by it |
| Taxonomy.NormaliseWeights | app.py:166-181 | with a positive total, every weight is its slider value over the total and the weights sum to 1; otherwise the slider values stay unchanged |
| Taxonomy.NormalisedRatios | app.py:178-181 | normalising keeps the ratio of every pair of weights |
| Taxonomy.DefaultsAreNormalised | app.py:172-181 | the sliders' initial values, the taxonomy weights, already sum to 1, so normalising leaves them as they are |
| Recommendations.RecommendedExactly | adv_app.py:1416-1431 | a category gets a recommendation exactly when its score is below 60, or below 75 with a weight over 0.15 (only technical and communication skills); its impact is positive |
| Recommendations.HighPriorityExactly | adv_app.py:1416-1423 | a recommendation is High priority exactly when the score is below the category's threshold (44, 35, 27, 10, 10, 10, -40), which is where weight * (60 - score) > 5 |
| Recommendations.CollectedExactly | adv_app.py:1411-1431 | an `append` loop over a list collects an item exactly when the rule makes it from some element |
| Recommendations.CandidatesAreRecommended | adv_app.py:1411-1431 | a recommendation is in the list exactly when some category's score makes the rule produce it |
| Recommendations.SortSorted | adv_app.py:1435 | the sort orders by impact, largest first, and is a permutation |
| Recommendations.SortStable | adv_app.py:1435 | the sort is stable: recommendations of equal impact keep their order |
| Recommendations.TopDominatesRest | adv_app.py:1435-1437 | in a sorted list, none of the kept first k has less impact than any left out |
| Recommendations.Take | adv_app.py:1437 | `[:k]` keeps the first min(len, k) elements |
| Recommendations.CollectRecommendations | adv_app.py:1409-1431 | the `append` loop builds exactly the rule's recommendations, in the order of the categories in the model's reply |
| Recommendations.BuildRecommendations | adv_app.py:1409-1437 | at most five are shown, min(5, count) to be exact; they are sorted by impact, drawn from the candidates, and none left out has more impact than one shown |
| Cleanup.TempFiles.Create | adv_app.py:1001-1003 | creating a temporary file adds its name |
| Cleanup.TempFiles.Unlink | adv_app.py:1062-1067 | afterwards the file is gone, and unlinking a missing file changes nothing (also app.py:316) |
| Interview.ProcessInterview | adv_app.py:996-1067 | the temporary file is gone on every path; a set-up or transcription failure is reported with the prefix; a blank transcript stops before analysis; otherwise the analysis runs with the position applied for as job role and its outcome is saved or reported |
| Interview.AnalysisFailureReportedTwice | adv_app.py:1058-1059 | a non-quota analysis failure is shown with both the handler's and the analyser's prefixes |
| VideoReview.WaitForVideo | app.py:229-231 | the wait stops at the first answer that is not a processing file, after re-fetching once per processing answer |
| VideoReview.WaitStopsAtFirstSettled | app.py:229-231 | the answer the wait stops at is uniquely determined |
| VideoReview.AnalyzeVideo | app.py:222-316 | the video is unlinked on every path; an upload, fetch or agent error is shown with the prefix; otherwise the fence-extracted content is parsed and stored, or its decoding error is shown |

## Left out

- HTTP requests to the transcription provider, the `genai` model and the `phi` agent are not modelled as calls. Their answers are oracle inputs: status answers, model replies, the agent's content, and the file states.
- `json.loads` is an abstract function. Only its three outcomes matter to the loop: malformed, not an object, or an object.
- `null` JSON fields are not modelled. A `null` status text, a `None` part text and a `None` agent content are outside the model.
- The clock is a millisecond counter driven by the per-round latency oracle. `time.sleep` is its 2-second step. The one-second sleep of the video wait is not timed.
- The `datetime.now()` timestamp in the metadata is left out.
- The prompt builders, progress callbacks, logging, Streamlit UI, session-state details, charts and CSV export are left out, because they are presentation.
- The `not self.model` check in `analyze_interview` is left out. The constructor already raises when set-up fails, and `ProcessInterview` models that raise as `analyzerError`.
- The missing-Google-key error raised by the analyser's constructor (adv_app.py:247-248) becomes the `analyzerError` input. The AssemblyAI key is checked in the upload form before `process_interview` runs (adv_app.py:982-987), and that check is not modelled.
- Text.Lower: folds ASCII letters only; Python's `lower()` folds all of Unicode. Only two non-ASCII characters lower to ASCII letters: U+0130 (to two characters) and U+212A (to 'k'). Neither can produce "quota" or one of the seven extensions, so both verdicts agree with Python.
- Security.IsWordChar: `\w` is modelled over ASCII. Python's Unicode `\w` also keeps non-ASCII letters and digits.
- Security.FinalName: follows POSIX path rules. Windows separators and drive letters are not modelled.
- Recommendations.HighPriorityExactly: weights are exact hundredths, not IEEE doubles, and scores are whole numbers. At whole scores the High/Medium verdict agrees with the IEEE test `impact > 5`.
- Recommendations.BuildRecommendations: impacts are exact hundredths, but the source sorts on IEEE products, which can differ between impacts that are equal in hundredths. In doubles, 0.1 * 3 and 0.05 * 6 are both 0.30000000000000004, while 0.3 * 1 and 0.15 * 2 are 0.3. So the order of tied recommendations can differ, and so can the fifth one shown.
  - Example: scores Technical 59 and Strengths & Weaknesses 57 are shown in the source as [Strengths & Weaknesses, Technical], and in the model as [Technical, Strengths & Weaknesses].
  - Example: scores Technical 59, Behavioral 58, Strengths & Weaknesses 57, Cultural Fit 57, Critical Thinking 57 and Decision Making 54 give six candidates. The source shows Decision Making and drops Behavioral; the model shows Behavioral and drops Decision Making.
  - The same applies to `Recommendations.SortByImpact`, `Recommendations.SortSorted` and `Recommendations.SortStable`, which order by the exact impacts.
- Taxonomy.NormaliseWeights: the division is on exact `real`s, whereas `app.py` divides floats. The normalised weights sum to exactly 1 only in the model; the floats sum to about 1.
- The recommendation rule is modelled on scores keyed by the taxonomy's categories. A `KeyError` for an unknown category is not modelled.
- OSError while opening or reading the upload file is not modelled.
- The temporary file's generated name and suffix are an input (`tempPath`).
- VideoReview.WaitForVideo: requires that some answer stops the wait. A file that stays PROCESSING forever makes the loop run forever, and a non-terminating run is not modelled.
- In `app.py` the temporary video is written when a file is chosen. It is left behind when the button is never pressed; that path is outside the model.
- `Security.ValidateFileExtension` has no contract of its own. Its meaning is stated by `Security.ExtensionCheckByEnding` and `Security.ExtensionCheckIgnoresCase`.
- `Analysis.TryOnce` has no contract of its own. Its meaning is stated by `Analysis.AnalyzeInterview`, `Analysis.EmptyResponseNotRetried` and `Analysis.LabelledReplyParsed`.
- `Recommendations.Recommend` has no contract of its own. Its meaning is stated by `Recommendations.RecommendedExactly` and `Recommendations.HighPriorityExactly`.
- `Recommendations.SortByImpact` has no contract of its own. Its meaning is stated by `Recommendations.SortSorted` and `Recommendations.SortStable`.
- Transcription.PollTranscript: the clock is assumed never to go backwards, and each sleep is assumed to last at least 2 seconds. `time.time()` is a wall clock that can be set back; then the source polls more than 900 times, and the bound of 900 does not hold.
