# Reading-analysis core, modelled in Dafny

The application scores a child's oral reading. An audio recording is transcribed by an asynchronous speech-to-text job. The transcript is then compared with the text the child was meant to read. This project models the deterministic logic of that pipeline and proves properties about it:

- **Accuracy scorer** (`calculateAccuracy`). Both texts are cleaned: characters outside the letter, number and whitespace classes are deleted, then ASCII capitals are lowered. Each text is then cut at single spaces, and the pieces PHP treats as false (`""` and `"0"`) are dropped. Each reference word greedily takes the first transcribed position that holds the same word and is not already taken. The score is the matched words over the larger word count, times 100.
- **Section extractors** (`extractFeedback`, `extractCorrectedTranscription`). They pull the text between `**Feedback**` and `**Corrected Transcription**` out of the language model's analysis, and the text after `**Corrected Transcription**`. If the markers are missing, each returns a fixed placeholder.
- **Transcription poller** (`getTranscription`). It makes at most 100 status queries, with a pause after every answer that is not terminal. On `completed` it also computes the reading speed (`calculateWPM`).

Modules, one per file:

| file | module | models |
|---|---|---|
| results.dfy | Results | `Option` and `Result` |
| cleaning.dfy | Cleaning | the cleaning regex and `strtolower` |
| tokenize.dfy | Tokenize | `explode(' ', …)` and `array_filter` |
| matching.dfy | Matching | the nested greedy matching loops |
| accuracy.dfy | Accuracy | the percentage and its zero-denominator case |
| examples_ascii.dfy | AsciiExamples | worked scores on ASCII text |
| sections.dfy | Sections | both extractors |
| reading_speed.dfy | ReadingSpeed | `calculateWPM` |
| polling.dfy | Polling | `getTranscription` over an oracle of status answers |

Main results:

- **Greedy count is a multiset intersection.** The greedy match count equals the size of the multiset intersection of the two word lists (`Matching.MatchCount`). Since any one-to-one pairing of equal words is bounded by that intersection, the greedy scan loses nothing to a cleverer pairing (a remark; the project proves the equality, not the comparison with other pairings). The count is also symmetric and does not depend on word order.
- **Poller is fully characterised.** The poller's result depends only on the first deciding answer among the first 100. That answer fixes the outcome, the number of queries k and the number of pauses k - 1. If no answer among the first 100 decides, the result is a timeout after 100 queries and 100 pauses.

Abstracted inputs:

- The Unicode classes `\p{L}`, `\p{N}` and `\s` of the cleaning pattern are a parameter (`Cleaning.CharClasses`), not Unicode tables.
- The provider's status endpoint is a sequence of answers (`Polling.Response`). `sleep(3)` is counted, not timed.

### Behaviour of the code worth knowing

- **Zero words on both sides.** When neither text has a word, `ReadingAnalysisController.php:122` divides 0 by `max(0, 0)`. PHP 8 throws `DivisionByZeroError` there. `Accuracy.Score` returns `Failure(DivisionByZero)` for this case. `Accuracy.ScoreOrZero` gives 0 percent instead (see Findings).
- **Only single spaces split words.** `explode(' ', …)` cuts at the space character only, so tabs and line breaks stay inside a word.
- **The token `"0"` is dropped.** `array_filter` drops the word `"0"` as well as empty pieces.
- **Order of cleaning steps.** Characters outside the kept classes are deleted first; lowering comes second.

## Model

| member | source | states |
|---|---|---|
| Cleaning.Lower | app/Http/Controllers/ReadingAnalysisController.php:92 | only 'A'..'Z' change, each to the letter 32 code points higher; the result is never an ASCII capital |
| Cleaning.Clean | app/Http/Controllers/ReadingAnalysisController.php:91-95 | cleaning never lengthens a text, leaves no ASCII capital, and gives the empty text when no character is in the kept classes |
| Cleaning.CleanChar | app/Http/Controllers/ReadingAnalysisController.php:91-95 | one character cleans to its lowered form when it is a letter, number or whitespace, and to nothing otherwise; with CleanAppend this fixes the cleaned form of every text |
| Cleaning.CleanUnchanged | app/Http/Controllers/ReadingAnalysisController.php:91-95 | a text of kept characters without ASCII capitals is returned unchanged |
| Cleaning.CleanOrigin | app/Http/Controllers/ReadingAnalysisController.php:91-95 | every character of the cleaned text is the lowered form of a kept character of the input |
| Cleaning.CleanAppend | app/Http/Controllers/ReadingAnalysisController.php:93 | cleaning works character by character: cleaning a concatenation concatenates the cleaned parts |
| Cleaning.CleanIgnoresDropped | app/Http/Controllers/ReadingAnalysisController.php:93 | inserting a punctuation character (one outside the kept classes) anywhere does not change the cleaned text |
| Cleaning.CleanCaseInsensitive | app/Http/Controllers/ReadingAnalysisController.php:91-95 | two texts that differ only in the case of ASCII letters clean to the same text |
| Cleaning.CleanIdempotent | app/Http/Controllers/ReadingAnalysisController.php:91-95 | cleaning an already cleaned text changes nothing |
| Tokenize.Split | app/Http/Controllers/ReadingAnalysisController.php:100 | explode always yields at least one piece, and no piece contains a space |
| Tokenize.JoinSplit | app/Http/Controllers/ReadingAnalysisController.php:100 | joining the pieces with single spaces gives back the exploded text |
| Tokenize.SplitJoin | app/Http/Controllers/ReadingAnalysisController.php:100 | exploding space-free pieces joined by spaces gives back exactly those pieces |
| Tokenize.SplitAtSpace | app/Http/Controllers/ReadingAnalysisController.php:100 | exploding a + " " + b gives the pieces of a followed by the pieces of b |
| Tokenize.SplitSpaceFree | app/Http/Controllers/ReadingAnalysisController.php:100 | a text without spaces is a single piece |
| Tokenize.KeepTruthy | app/Http/Controllers/ReadingAnalysisController.php:100-101 | array_filter keeps only pieces other than "" and "0", each taken from the input, and keeps everything when all pieces are truthy |
| Tokenize.KeepTruthyAppend | app/Http/Controllers/ReadingAnalysisController.php:100-101 | filtering keeps the original order: filtering a concatenation concatenates the filtered parts |
| Tokenize.Words | app/Http/Controllers/ReadingAnalysisController.php:100-101 | every word is space-free and is neither "" nor "0" |
| Tokenize.WordsAtSpace | app/Http/Controllers/ReadingAnalysisController.php:100-101 | the words of a + " " + b are the words of a followed by the words of b |
| Tokenize.WordsOfSpaceFree | app/Http/Controllers/ReadingAnalysisController.php:100-101 | a space-free text is one word, or no word when it is "" or "0" |
| Tokenize.Tokens | app/Http/Controllers/ReadingAnalysisController.php:97-101 | the words the scorer compares: each is space-free, is neither "" nor "0", and holds no ASCII capital |
| Tokenize.SplitPieceChars | app/Http/Controllers/ReadingAnalysisController.php:100 | every character of an exploded piece is a character of the exploded text |
| Tokenize.WordsJoin | app/Http/Controllers/ReadingAnalysisController.php:100-101 | truthy space-free words joined by single spaces give back the same words |
| Matching.FirstFree | app/Http/Controllers/ReadingAnalysisController.php:110-118 | the scan returns a position that holds the word and is not taken, with no such position before it; it returns none when no such position exists |
| Matching.Greedy | app/Http/Controllers/ReadingAnalysisController.php:106-120 | every match takes a fresh in-range transcribed position, so the taken set grows by exactly the match count and nothing is taken twice |
| Matching.MatchCount | app/Http/Controllers/ReadingAnalysisController.php:106-120 | matches are at most min(reference words, transcribed words) and equal the size of the multiset intersection of the two word lists |
| Matching.CountMatches | app/Http/Controllers/ReadingAnalysisController.php:106-120 | the nested foreach loops with break compute the greedy count and taken set, which is the multiset intersection size |
| Matching.GreedyIsIntersection | app/Http/Controllers/ReadingAnalysisController.php:109-120 | the greedy first-free scan counts exactly the multiset intersection of reference and transcription |
| Matching.RepeatedWordMatchesOnce | app/Http/Controllers/ReadingAnalysisController.php:113-116 | reference "the the" against transcription "the" matches once, not twice |
| Matching.MatchCountIdentical | app/Http/Controllers/ReadingAnalysisController.php:109-120 | identical word lists match every word |
| Matching.MatchCountDisjoint | app/Http/Controllers/ReadingAnalysisController.php:109-120 | word lists with no word in common match nothing |
| Matching.MatchCountSymmetric | app/Http/Controllers/ReadingAnalysisController.php:109-120 | swapping reference and transcription does not change the count |
| Matching.MatchCountReorder | app/Http/Controllers/ReadingAnalysisController.php:109-120 | reordering the words on either side does not change the count |
| Accuracy.Percent | app/Http/Controllers/ReadingAnalysisController.php:122 | for a positive denominator the ratio lies in [0, 100], is 100 exactly when all words match and 0 exactly when none do |
| Accuracy.ScoreWords | app/Http/Controllers/ReadingAnalysisController.php:109-122 | on two word lists: fails exactly when both are empty; otherwise reports both word counts and the matched count (the size of the multiset intersection), with the percentage in [0, 100] and equal to matched * 100 / max; it is 100 iff matched = both counts and 0 iff matched = 0 |
| Accuracy.Score | app/Http/Controllers/ReadingAnalysisController.php:89-122 | on two texts: fails exactly when neither text has a word after cleaning and splitting; otherwise the counts are those of the two texts' word lists and the matched count is the size of their multiset intersection |
| Accuracy.ScoreOrZero | app/Http/Controllers/ReadingAnalysisController.php:122 | the corrected score never fails, agrees with Score wherever Score succeeds, and gives 0 percent when neither text has words |
| Accuracy.ScoreWordsIdentical | app/Http/Controllers/ReadingAnalysisController.php:109-122 | the same non-empty word list on both sides scores 100 |
| Accuracy.ScoreWordsDisjoint | app/Http/Controllers/ReadingAnalysisController.php:109-122 | word lists without a common word score 0 when at least one of them is non-empty |
| Accuracy.ScoreWordsSymmetric | app/Http/Controllers/ReadingAnalysisController.php:109-122 | swapping the word lists swaps the two word counts and keeps the matched count and the percentage |
| Accuracy.ScoreIgnoresPunctuation | app/Http/Controllers/ReadingAnalysisController.php:91-98 | inserting a punctuation character into either text leaves the score unchanged |
| Accuracy.ScoreIgnoresCase | app/Http/Controllers/ReadingAnalysisController.php:91-98 | changing the case of ASCII letters in either text leaves the score unchanged |
| AsciiExamples.AsciiClasses | app/Http/Controllers/ReadingAnalysisController.php:93 | ASCII letters, digits and whitespace form a class set that keeps its class under lowering and agrees with the Unicode classes on ASCII |
| AsciiExamples.HelloWorld | app/Http/Controllers/ReadingAnalysisController.php:91-101 | "Hello, World!" scores against "hello world" exactly as "hello world" does |
| AsciiExamples.QuickBrownFox | app/Http/Controllers/ReadingAnalysisController.php:89-124 | "The quick brown fox" against "The brown fox" gives 3 matches out of 4 and 3 words, 75 percent |
| AsciiExamples.NoWordsDividesByZero | app/Http/Controllers/ReadingAnalysisController.php:122 | a punctuation-only reference against an empty transcript divides by zero; the corrected score is 0 |
| Sections.Find | app/Http/Controllers/ReadingAnalysisController.php:130 | returns the first occurrence of the marker at or after the start position, or none if there is none |
| Sections.SkipSpace | app/Http/Controllers/ReadingAnalysisController.php:130 | skips a maximal run of ASCII whitespace (the \s of a pattern without the u flag) |
| Sections.FeedbackSection | app/Http/Controllers/ReadingAnalysisController.php:130 | a match exists exactly when some feedback marker has a closing marker after it; the capture starts after the first feedback marker and its whitespace, and ends at the first closing marker after it |
| Sections.ExtractFeedback | app/Http/Controllers/ReadingAnalysisController.php:128-135 | the placeholder "No feedback available." when there is no match; otherwise exactly the captured slice of FeedbackSection, which holds no closing marker and has no leading whitespace |
| Sections.FeedbackRoundTrip | app/Http/Controllers/ReadingAnalysisController.php:128-135 | whatever precedes the first feedback marker, a feedback text placed between the two markers is extracted unchanged when it has no leading whitespace and no closing marker inside |
| Sections.CorrectedSection | app/Http/Controllers/ReadingAnalysisController.php:139 | a match exists exactly when the closing marker occurs; the capture runs from after the first marker and its whitespace to the end of the text |
| Sections.ExtractCorrectedTranscription | app/Http/Controllers/ReadingAnalysisController.php:137-144 | the placeholder "No transcription available." without the marker; otherwise exactly the text from CorrectedSection's start to the end: a suffix of the input, shorter than it by at least the marker, with no leading whitespace |
| Sections.CorrectedRoundTrip | app/Http/Controllers/ReadingAnalysisController.php:137-144 | whatever precedes the first closing marker and whatever whitespace run follows it, the text after that whitespace is extracted unchanged, when it does not itself start with whitespace |
| ReadingSpeed.WordsPerMinute | app/services/TranscriptionService.php:58-73 | 0 for no words; otherwise undefined exactly when last end equals first start, and else speed × duration in ms = 60000 × word count |
| ReadingSpeed.WordsPerMinuteEndpoints | app/services/TranscriptionService.php:64-70 | the speed depends only on the word count, the first start and the last end |
| Polling.Outcome.Message | app/services/TranscriptionService.php:40-47 | the exception message of each failure: "Transcription failed: " followed by the provider's error, "Transcription timeout", "Polling failed" (raised in AssemblyAIService.php:69) and PHP's "Division by zero" |
| Polling.Settle | app/services/TranscriptionService.php:23-42 | an answer keeps polling exactly when it is a reply whose status is neither "completed" nor "error"; a failed query ends the poller; "error" carries the provider message; "completed" copies text and words unchanged with the words-per-minute of the words as reading speed, or fails with "Division by zero" when the reading time is zero |
| Polling.Poll | app/services/TranscriptionService.php:22-47 | at most 100 queries; every answer before the last one queried keeps polling; a timeout means 100 queries and 100 pauses with no deciding answer; any other outcome is what the last answer decides, after queries - 1 pauses |
| Polling.GetTranscription | app/services/TranscriptionService.php:17-48 | the for loop with its pause counter computes the same run as the state machine |
| Polling.PollIgnoresLaterAnswers | app/services/TranscriptionService.php:40-41 | answers after the deciding one are never queried: oracles that agree up to it give the same run |
| Polling.PollDecidedAt | app/services/TranscriptionService.php:22-44 | if the first deciding answer is the k-th, the run is that answer's outcome with k queries and k - 1 pauses |
| Polling.PollNeverDecided | app/services/TranscriptionService.php:44-47 | if none of the first 100 answers decides, the run is a timeout with 100 queries and 100 pauses |
| Polling.CompletedOnFifthQuery | app/services/TranscriptionService.php:27-39 | four "processing" answers then "completed": five queries, four pauses, text and words copied |
| Polling.ErrorOnFirstQuery | app/services/TranscriptionService.php:40-41 | an "error" answer to the first query stops at once, after 1 query and no pause, failing with "Transcription failed: " followed by the provider's message |

## Left out

- **Rounding.** `round(…, 2)` (ReadingAnalysisController.php:124, TranscriptionService.php:72) and float precision are not modelled. Percentages and speeds are exact reals.
- **Unicode classes.** `\p{L}`, `\p{N}` and `\s` under the `u` flag are a parameter, not Unicode tables. If the input is not valid UTF-8, `preg_replace` returns null, which cleans to the empty text. That case is not modelled, because texts here are sequences of characters.
- **Bytes and characters.** The extractor patterns have no `u` flag, so PCRE matches them on bytes. The model matches on characters. Both markers are ASCII, so the two views find the same positions in UTF-8 text.
- **Array keys.** `array_filter` keeps the original array keys, and the used-index list stores those keys. The model uses positions in the filtered list instead. This is equivalent, because the keys are distinct and come in the same order.
- **HTTP calls.** `AssemblyAIService::uploadAudio`, `AssemblyAIService::checkTranscriptionStatus` and `OpenAIService::compareTexts` are network I/O. The status endpoint is the oracle `Polling.Response`. The other two are not modelled.
- **Cost and prompt.** The cost arithmetic (`calculateAssemblyAICost`, `calculateOpenAICost`) is float multiply-and-round and is not modelled. `generatePrompt` is fixed template text and is not modelled either.
- **Controller glue.** The `analyze` method is not modelled: validation, JSON shaping, logging, exception-to-status mapping and service construction. `routes/web.php` is routing only.
- **Time.** `sleep(3)` is counted in `Polling.Run.sleeps`; wall-clock time and per-call latency are not modelled.
- **Missing payload fields.** A reply without `text`, `words` or `error` gives PHP `null` values. The model's `Polling.Response` always carries those fields.
- Polling.Settle: every failed status query becomes the one outcome `PollingFailed` ("Polling failed"). In `AssemblyAIService.php:58-73` that message is raised only for an unsuccessful reply whose body decodes to a JSON array. A network failure in `Http::get` raises the HTTP client's own exception. An unsuccessful reply whose body is not JSON fails earlier, in the log call at line 66, with a `TypeError`. Every one of these ends the loop at once, so the query and pause counts are right; only the exception differs.
- **Polling.Poll: oracle length.** The oracle must hold at least 100 answers. This does not restrict the provider: the loop never asks for more than 100.

## Findings

| source | as written | input that shows it | evidently intended | confidence | as-written member | corrected member |
|---|---|---|---|---|---|---|
| app/Http/Controllers/ReadingAnalysisController.php:122 | divides by `max(count, count)` even when both word counts are 0; PHP 8 throws `DivisionByZeroError`, which `catch (\Exception $e)` at line 80 does not catch | reference text `"!!!"` (it passes the request validation) against a silent recording whose transcript is `""` | a score of 0 percent when neither text has words: nothing was read, so no word was read correctly, and the request should not fail with an uncaught error | medium (not executed) | AsciiExamples.NoWordsDividesByZero | Accuracy.ScoreOrZero |
