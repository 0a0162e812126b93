# IP_podcast core in Dafny

IP_podcast turns book summaries into a two-voice podcast. A language model writes a
dialogue transcript, the transcript is parsed into speaker segments, and each segment is
voiced by a text-to-speech service. The clips are then joined into one audio file. Around
this sit a PDF summariser, which cuts a book into word chunks and summarises them with
retries, and a topic picker that reads a topics document and asks the user to choose.

This project models the deterministic logic in that pipeline and proves what it does:

- `transcript.dfy`, module `Transcript`: `parse_transcript`. main.py and main1.py carry
  identical copies of it. The loop is the method `ParseTranscript`. It is proved equal to
  `Parse`, a fold of one step per stripped line followed by a final flush. Lemmas about
  `Parse` cover:
  - The segments are well formed.
  - The list is only appended to.
  - A blank transcript gives no segments.
  - Text before the first marker is dropped.
  - Continuation lines are merged into the open segment.
  - A blank line splits one speaker's turn.
  - Parsing rendered utterances gives them back.
- `transcript_examples.dfy`: concrete transcripts and what they parse to.
- `duration.dfy`, module `Duration`: `calculate_duration_from_topics` for both units,
  "分钟" in main.py and "minutes" in main1.py. It is a left-to-right scanner for
  `re.findall(r'(\d+)\s*UNIT')`. The scanner is proved equal to a declarative reading: every
  maximal digit run followed by optional whitespace and the unit. The sum defaults to 20.
- `duration_examples.dfy`: concrete topic texts and their durations.
- `synthesis.dfy`, module `Synthesis`: how `generate_audio_segment` picks the voice,
  stability and similarity for one segment in each script. It also holds
  `generate_full_podcast` as the method `GenerateFullPodcast`, with its two loops, one
  collecting clips and one joining them. The speech service is a function parameter.
- `chunking.dfy`, module `Chunking`: `chunk_text`. It is the method `ChunkText`, proved
  equal to the fold `Pack` over the words. Lemmas cover how words are preserved, how chunks
  are bounded, why the packing is greedy, when a chunk is empty, and how chunks are spaced.
- `retry.dfy`, module `Retry`: the bounded retry loops of `summarize_chunk` and
  `combine_summaries`. The service is a function from the attempt number to its outcome.
- `topics.dfy`, module `Topics`:
  - `select_topic`, with the user's answer and the random draw as parameters, and Python's
    `int()` on the answer;
  - the prompt's `word_count`;
  - the `.json` to `.txt` fallback of `read_json_file`, with the file operations as
    parameters.
- `strings.dfy`, module `Strings`: the Python string operations the core uses, with their
  properties. These are strip, `split('\n')`, `split()`, join, substring tests, `str(n)` and
  `int()` on digits, ASCII `lower()`, and `replace`.

### Where the code and its own comments part

The model follows the code of `parse_transcript`. That code differs in three places from
what its comments and docstring suggest (its docstring says it parses the generated script
into structured data, and the break branch is commented `# 保存当前段落并重置`,
"save the current segment and reset", at main.py:231 and main1.py:237):

- A blank or `******` line does not reset the turn, despite that comment. It clears the text and keeps the speaker
  and the emotion, so a plain line after it starts a new segment under the same speaker
  (`Transcript.ContinuationAfterBreak`, `TranscriptExamples.BlankSplit`).
- The number of segments is not the number of marker lines. A blank line inside a turn adds
  a segment, and a marker with no text that no plain line continues adds none
  (`Transcript.ParseBareTurn`, `TranscriptExamples.EmptyTurn`). A marker line holding
  `******` is a separator (`TranscriptExamples.SeparatorWins`).
- The emotion of an emitted segment is never `None`, even when the brackets are empty
  (`TranscriptExamples.EmptyEmotion`).

## Model

| member | source | states |
|---|---|---|
| Transcript.MatchMarker | main.py:243 | A match starts with `A` or `B` and yields that letter as the speaker. The emotion holds no `]:`, because the lazy group stops at the first one. The text is empty or starts with a non-space. A matched line is exactly the speaker, whitespace, `[`, the emotion, `]:`, whitespace and the text. |
| Transcript.MatchMarkerLine | main.py:243 | Conversely, every line made of `A` or `B`, whitespace, `[emotion]:`, whitespace and a text, where the emotion holds no `]:` and the text does not start with whitespace, matches with exactly that speaker, emotion and text. |
| Transcript.CloseIndexAt | main.py:243 | The emotion group ends at the first `]:`: a `]:` after a prefix without one is where the match closes. |
| Transcript.RenderMatch | main.py:243 | The marker pattern applied to a line `S [emotion]: text` gives back exactly that speaker, emotion and text. |
| Transcript.Step | main.py:229-258 | One turn emits nothing or exactly the open segment. It emits exactly when a segment is open and the stripped line is blank, holds `******`, or matches the marker pattern. The speaker and emotion change only on a line that matches the marker pattern. |
| Transcript.Turn | main.py:228-258 | The loop body, on the variables `current_speaker`, `current_emotion` and `current_text`, appends and updates exactly as one `Step`. |
| Transcript.ParseTranscript | main.py:219-268 | The loop over the stripped, newline-split transcript returns exactly `Parse(transcript)`: one `Step` per stripped line, then the final flush. |
| Transcript.Parse | main.py:219-268 | Every returned segment has speaker "A" or "B" and an emotion that is set, never `None`. Its text is non-empty and stripped. |
| Transcript.RunAppend | main.py:228-258 | The segment list is only appended to. Running two stretches of lines emits the first stretch's segments, then the second's, starting from the state the first left. |
| Transcript.ParseBlank | main.py:221-239 | A transcript with no non-whitespace character parses to no segments. |
| Transcript.ParseNoMarker | main.py:243-258 | A transcript none of whose lines matches the marker pattern parses to no segments. |
| Transcript.RunDropsLeading | main.py:243-258 | Lines before the first marker line are dropped even when markers follow. Lines that match no marker, followed by lines that open with a marker line, emit and leave exactly what the second stretch does on its own. |
| Transcript.ContinuationAfterBreak | main.py:230-239 | After a blank or separator line, speaker and emotion are kept. A following plain line starts fresh text under them, and nothing is emitted. |
| Transcript.ParseRender | main.py:228-266 | Writing well-formed utterances out one per line and parsing the result gives back exactly those utterances, in order. |
| Transcript.ParseContinued | main.py:256-266 | A marker line followed by a plain line gives one segment whose text is the marker's text, one space, and the plain line. |
| Transcript.ParseBlankSplit | main.py:230-266 | A blank line inside a turn splits it into two segments with the same speaker and emotion. |
| Transcript.BareMatch | main.py:243 | A marker line with nothing after `]:` matches the pattern with its speaker and emotion and empty text. |
| Transcript.ParseBareTurn | main.py:243-255 | A marker line with no text followed directly by a marker line emits only the second utterance: nothing is flushed for a turn whose text is empty. |
| TranscriptExamples.TwoSpeakers | main1.py:225-274 | "A [happy]: hi\nB [calm]: hello\n" parses to exactly two segments: A/happy/"hi" and B/calm/"hello". |
| TranscriptExamples.Continuation | main.py:256-266 | "A [happy]: hi\nthere" parses to a single segment with text "hi there". |
| TranscriptExamples.BlankSplit | main.py:230-239 | "A [happy]: hi\n\nthere" parses to two A/happy segments, "hi" and "there". |
| TranscriptExamples.NoBrackets | main.py:243-258 | "A : text" has no bracketed emotion, so it opens no segment and parses to nothing. |
| TranscriptExamples.SeparatorWins | main.py:230 | A marker line holding the separator `******` is treated as a break and parses to nothing. |
| TranscriptExamples.EmptyTurn | main.py:243-255 | "A [happy]:\nB [calm]: hi" parses to the single segment B/calm/"hi": a marker with no text that nothing continues emits no segment. |
| TranscriptExamples.TightMarker | main.py:243 | "A[x]:hi", with no whitespace around the brackets, matches with speaker "A", emotion "x" and text "hi". |
| TranscriptExamples.EmptyEmotion | main1.py:249-260 | "B []: ok" gives a segment whose emotion is the empty string, not `None`. |
| Duration.FindAll | main.py:212 | The scan returns at most one number per character it reads. |
| Duration.DurationFor | main.py:206-217 | The duration is 20 when findall finds nothing. Otherwise it is at least each number found. |
| Duration.DurationZh | main.py:206-217 | main.py's duration is 20 when no digit run is followed by "分钟", and otherwise the sum of those runs' values. |
| Duration.DurationEn | main1.py:212-223 | main1.py's duration is 20 when no digit run is followed by "minutes", and otherwise the sum of those runs' values. |
| Duration.TryAt | main.py:212 | One findall attempt at an index either fails or consumes a non-empty stretch of the text and returns the number read. |
| Duration.FindAllCounted | main.py:212 | The left-to-right findall scan returns exactly the values of the maximal digit runs that whitespace and the unit follow, in order. |
| Duration.DurationCounted | main.py:212-215 | The duration is 20 when no digit run is followed by the unit, and otherwise the sum of those runs' values. |
| Duration.DurationNoDigits | main.py:213-215 | A text without digits gets the default of 20 minutes. |
| Duration.DurationOfDecimal | main1.py:218-221 | The text `str(n) + " " + unit` has duration exactly `n`, 0 included. |
| Duration.CountedTwoBlocks | main.py:212-214 | Two number-and-unit blocks separated by digit-free text give exactly their two values. |
| DurationExamples.TwoTopicsEn | main1.py:218-221 | "(5 minutes), (10 minutes)" gives 15 in main1.py. |
| DurationExamples.TwoTopicsZh | main.py:212-215 | "5 分钟，10 分钟" gives 15 in main.py. |
| DurationExamples.ZeroMinutes | main1.py:218-221 | "0 minutes" gives 0, not the default of 20. |
| DurationExamples.NoNumbers | main.py:212-215 | "about an hour" gives the default of 20 for both units. |
| Synthesis.Voice | main.py:277 | The first voice goes to a speaker exactly when it is the script's first speaker. Every other speaker gets the second voice. The same choice is at main1.py:283. |
| Synthesis.VoiceMain | main.py:277 | In main.py the first voice goes to a speaker if and only if the speaker is "A". Every other speaker gets the second voice. |
| Synthesis.VoiceMain1 | main1.py:283 | In main1.py the first voice goes to a speaker if and only if the speaker is "SPEAKER_1". |
| Synthesis.Main1AlwaysSecondVoice | main1.py:283 | Every segment of every parsed transcript is voiced with "Rachel" in main1.py. |
| Synthesis.Stability | main.py:280-286 | Stability is 0.3 exactly for 兴奋/激动/热情, 0.7 exactly for 平静/思考/严肃, and 0.5 exactly for any other emotion. The same mapping is at main1.py:286-292. |
| Synthesis.RequestFor | main1.py:283-303 | A request carries the segment's text, similarity 0.5, the voice `Voice` picks for its speaker (the first voice exactly for the script's first speaker) and the stability `Stability` picks for its emotion (0.3 exactly for an excited keyword, 0.7 exactly for a calm one, otherwise 0.5). |
| Synthesis.GenerateFullPodcast | main1.py:321-332 | There is exactly one clip per segment, requested in segment order, and the joined audio is the clips concatenated in that order. |
| Synthesis.ConcatAppend | main1.py:330-332 | Joining two runs of clips is joining the first run, then the second. |
| Synthesis.ConcatPlacement | main1.py:330-332 | Clip `i` appears unchanged in the joined audio, right after the clips before it. |
| Chunking.ChunkText | summary_generate.py:37-57 | The loop returns exactly `Chunks(text, chunkSize)`: `' '.join` of each group the `Pack` fold builds. |
| Chunking.Pack | summary_generate.py:44-52 | The open group is empty only before the first word, and it always ends with the last word read. |
| Chunking.PackFlatten | summary_generate.py:44-52 | The completed groups followed by the open group are exactly the words read so far. |
| Chunking.PackSize | summary_generate.py:45-52 | `current_size` is the cost of `current_chunk`. |
| Chunking.PackBound | summary_generate.py:45-52 | A group of two or more words costs at most the chunk size. |
| Chunking.PackMaximal | summary_generate.py:46-49 | A group is closed only when the next word would take it past the chunk size. |
| Chunking.PackEmpty | summary_generate.py:46-49 | Only the first completed group can be empty. It is empty exactly when the first word alone costs more than the chunk size. |
| Chunking.GroupsFlatten | summary_generate.py:39-55 | The groups, one after the other, are exactly the words. |
| Chunking.GroupsShape | summary_generate.py:44-55 | On the final group list: no words means no groups; the size bound; greedy maximality; and exactly when a group is empty. |
| Chunking.ChunksGroups | summary_generate.py:47-55 | `split()` of each chunk gives back its group of words. |
| Chunking.ChunksPreserveWords | summary_generate.py:39-55 | Splitting every chunk and concatenating the pieces gives `text.split()` exactly: no word is lost, duplicated or reordered. |
| Chunking.Chunks | summary_generate.py:37-57 | There are no chunks exactly when the text is all whitespace. |
| Chunking.ChunksBoundedAndGreedy | summary_generate.py:45-52 | A chunk of two or more words costs at most the chunk size. For every chunk but the last, adding the next chunk's first word would exceed the size. |
| Chunking.ChunksEmpty | summary_generate.py:46-55 | A chunk is the empty string exactly when it is the first chunk and the first word alone costs more than the chunk size. |
| Chunking.ChunksSpacing | summary_generate.py:47-55 | Each chunk is stripped and never holds two spaces in a row. |
| Retry.RetryLoop | summary_generate.py:74-87 | With no attempts allowed the loop returns `None`. Otherwise it makes 1 to maxRetries attempts, and every attempt but the last failed. It returns the answer of the first attempt that succeeds. If it raises, all attempts were used and the error is the last attempt's. One pause follows each failed attempt but the last. |
| Retry.SummarizeChunk | summary_generate.py:59-87 | Up to maxRetries attempts, 5 seconds apart. Only a raised error is a failure, and the first answer is returned as it is. |
| Retry.CombineSummaries | summary_generate.py:108-123 | Exactly three attempts are allowed, 10 seconds apart, on the summaries joined by blank lines. A `None` answer counts as a failure, so a returned value is never `None`. If every attempt fails, the error raised is the last attempt's or the empty-answer error. |
| Topics.ParseInt | main3_2.py:135 | `int()` on the answer succeeds only on text with a non-space character. It reads the text left once the whitespace Python's `int()` skips is removed from both ends (U+001C to U+001F are not skipped); `Topics.ParsePadded` pins the value read. |
| Topics.ParsePadded | main3_2.py:135 | For all whitespace runs w1, w2 that `int()` ignores, `int(w1 + str(n) + w2) == n` and `int(w1 + "-" + str(n) + w2) == -n`. |
| Topics.ParseIntSpaces | main3_2.py:135 | `int()` skips a leading tab and a trailing newline, but rejects a leading U+001C. |
| Topics.ParseDecimal | main3_2.py:135 | `int(str(n)) == n`, and `int("-" + str(n)) == -n`. |
| Topics.SelectTopic | main3_2.py:115-150 | The result is empty exactly when there are no core topics, whether the key is missing or the list is empty. Otherwise it is an element of the list. |
| Topics.SelectCases | main3_2.py:129-148 | Branch by branch: "r" or "R" gives the drawn topic. A number k from 1 to n gives topic k. A number outside 1..n gives the drawn topic. An answer that is not a number gives the drawn topic. |
| Topics.AsksRandomExactly | main3_2.py:129 | An answer asks for a random topic if and only if it is "r" or "R". |
| Topics.SelectByNumber | main3_2.py:134-138 | Answering `str(k)` for 1 ≤ k ≤ n selects topic k, at index k - 1. |
| Topics.SelectOutOfRange | main3_2.py:139-143 | Answering `str(k)` for k = 0 or k > n selects the drawn topic. |
| Topics.SelectNegative | main3_2.py:134-143 | Answering a negative number, or "-0", selects the drawn topic, whatever the number of topics. |
| Topics.WordCount | main3_2.py:196 | The word count is a whole multiple of 150, and dividing it by 150 gives back the duration. |
| Topics.ReadJsonFile | main3_2.py:96-113 | For every path: a JSON file that loads always wins; when it does not load, the result is the parse of the fallback text file if that file exists, and the empty result if it does not. |
| Topics.FallbackOfJsonPath | main3_2.py:106 | A path whose only `.json` is its ending falls back to the same path ending in `.txt`. |
| Topics.FallbackPath | main3_2.py:106 | A path without `.json` falls back to itself. |
| Topics.FallbackOfJoin | main3_2.py:106 | Every `.json` is replaced: `.json`-free parts joined by `.json` fall back to the same parts joined by `.txt`. |
| Strings.ReplaceJoints | main3_2.py:106 | `sep.join(parts).replace(sep, rep) == rep.join(parts)` for a separator that cannot overlap itself and parts that do not hold it. |
| Topics.ReadJsonFromText | main3_2.py:103-113 | When `name.json` does not load and `name.txt` exists, the document is the parse of `name.txt`'s text. |
| Strings.Words | summary_generate.py:39 | `split()` gives whitespace-free, non-empty words, and no words only for an all-whitespace string. |
| Strings.WordsOfJoin | summary_generate.py:47 | `split()` undoes `' '.join` on a list of words. |
| Strings.StripFacts | main.py:222 | `strip()` leaves a stripped string. The result is empty exactly when the input is all whitespace. |
| Strings.SplitJoinLines | main.py:222 | `split('\n')` undoes `'\n'.join` on newline-free lines. |
| Strings.ValueDecimal | main.py:214 | `int()` of the digits of `n` is `n`. |
| Strings.LowerFixed | main.py:283 | The model's ASCII `Lower` leaves a string without ASCII letters unchanged, and no other string lowers to it. |
| Strings.ReplaceAbsent | main3_2.py:106 | `replace` leaves a string without the pattern unchanged. |

## Left out

- The language model calls and prompt templates are left out: `generate_core_topics`, `generate_podcast_transcript`, `generate_podcast_script` and the chain invocations. These are foreign HTTP services. The retry loops see them only as an outcome per attempt.
- The speech synthesis, saving and loading of clips, export of the joined audio, and the temporary directory are foreign audio libraries and file I/O. `Synthesis.GenerateFullPodcast`: the speech service is a function parameter, and a clip saved to a file and loaded back is taken to be the same audio. It does not model the time-stamped file names, which can collide, or the cleanup of the files. It does not model a failing speech call either: `generate(...)` raising aborts `generate_full_podcast` before the export and leaves the clip files behind, whereas the model's speech service always answers.
- File and PDF reading and writing are I/O. This covers `read_text_file`, `extract_text_from_pdf`, the `save_*` helpers and `generate_book_summary`'s output write. `generate_book_summary` is a driver: it calls `extract_text_from_pdf`, then `chunk_text`, `summarize_chunk` and `combine_summaries`, and writes the result, so it is not part of this model beyond those calls. `create_podcast` calls `read_text_file`, `generate_core_topics` and `generate_podcast_transcript`; its calls to parse the transcript and generate audio are commented out. It is not part of this model.
- `print`, `input()`, `random.randint` and `time.sleep` are left out. The answer and the random index are parameters, and a pause is recorded as a count of seconds.
- `Topics.SelectTopic`: the topics document is typed as a map from keys to lists of topics. It does not model other JSON shapes, or the `KeyError` that listing a topic without a "topic" field raises.
- `Topics.ReadJsonFile`: `json.load`, `json.loads`, `os.path.exists` and `read_text_file` are function parameters.
- `Topics.ParseInt`: it accepts ASCII digits only. It does not model non-ASCII decimal digits, which Python's `int()` also accepts. It also accepts a digit run of any length, while Python's `int()` raises beyond its integer string limit (4300 digits by default, leading zeros included), so an answer such as 4300 zeros followed by `1` draws at random in the source but picks topic 1 in the model.
- The default arguments `chunk_size=15000`, `max_retries=3` and `target_length` of `chunk_text`, `summarize_chunk` and `combine_summaries` are used only by `generate_book_summary`. The model takes them as parameters.
- `Duration.DurationFor`: `\d` is read as ASCII digits only. It does not model the `except` branch, which is reached when `int()` refuses a digit run longer than Python's integer string limit and returns 20.
- `Strings.Lower`: it lower-cases ASCII letters only. The emotion keywords contain no cased letters, so `lower()` leaves them as they are; the model relies on their having no ASCII letters.
- `Retry.RetryLoop`: an exception is reduced to its message, and exception types are not told apart.
- Whitespace is the fixed set of characters for which Python's `str.isspace()` holds. The matcher and the scanner use the same set for `\s`.
- Floating point is left out. The stability and similarity values are `real` constants with no arithmetic on them.
- main2.py, main3_1.py, combine_txt.py and test.py are agent wiring, a single model call, and file concatenation. They are not part of this model.

## Findings

| source | as written | input that shows it | evidently intended | confidence | as-written member | corrected member |
|---|---|---|---|---|---|---|
| main1.py:283 | main1.py gives the first voice only to speaker "SPEAKER_1", but its parser only produces speakers "A" and "B" | the transcript "A [happy]: hi\nB [calm]: hello" voices both segments with "Rachel" | speaker "A" gets "Adam", as in main.py:277 | medium, not executed | Synthesis.Main1AlwaysSecondVoice | Synthesis.VoiceMain |
