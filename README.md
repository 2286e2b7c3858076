# Speech practice: alignment, transcript and fluency core in Dafny

This project models the computational core of a speech-practice application. The
learner reads a script aloud, a speech recogniser transcribes the take, and the
application shows where the two differ and how fluent the reading was. The core
modelled here is:

- **Highlight-span engine** (`alignment_utils.py`):
  - tokenises both texts into word tokens with character offsets;
  - aligns the word sequences with a case-insensitive Levenshtein dynamic programme;
  - turns the alignment into coloured character spans. A missing word is marked in the
    script, an extra word in the transcript, and a substituted word pair gets a
    character-level diff. Deleted vowels and deleted consonants are coalesced into
    separate runs.
- **Transcript builder and playhead lookup** (`transcript_utils.py`). The builder
  concatenates the recogniser's segment texts and records each segment's character
  range and time window. The lookup picks the segment under the playhead, keeping the
  current one while it still covers the playback time.
- **Fluency metrics** (`transcription_service.py`). Each segment gets a confidence from
  its log-probability, a duration and the pause before it. The take gets an
  articulation rate, a pause ratio, a filled-pause count and a mean confidence.
- **Recogniser options** (`settings_ui.py`): the default settings, loading a settings
  file over them, and the mapping from settings to decoding options with the
  named presets.

## Modules

- `wrappers.dfy` (`Wrappers`): `Option` and `Result`.
- `values.dfy` (`PyValues`):
  - the dynamically typed values that arrive in segment and settings dictionaries;
  - `dict.get`;
  - `int()`, `float()` and truthiness. A conversion that raises is a `Failure`.
- `text.dfy` (`Text`): word characters, lower-casing and whitespace `split()`.
- `tokenizer.dfy` (`Tokenizer`):
  - a word tokeniser (a loop) proved against a recursive reference;
  - a characterisation of its output (`TokenizationOf`).
- `aligner.dfy` (`Aligner`):
  - the cost recurrence `Dist`, the back-pointer choice `Choice` and the back-pointer
    walk `Walk`;
  - the imperative table filling over `array2` and the walk back, proved equal to them;
  - the proof that the walk is an alignment of minimum cost.
- `runs.dfy` (`Runs`): highlight categories, spans, and the coalescing of character
  indexes into runs.
- `spans.dfy` (`Spans`): the character-level spans of a substituted pair, and the
  spans of a whole script/transcript pair.
- `transcript.dfy` (`Transcript`): the transcript builder and the playhead index.
- `fluency.dfy` (`Fluency`): the confidence clamp and the fluency loop.
- `settings.dfy` (`Settings`): default settings, settings loading and decoding options.

Each loop of the source is a method proved equal to a reference function. The
properties the application relies on are then proved about that function as lemmas.

Where the written description of the system and the code disagree, the model follows
the code:

- **Total time of a take**: it is measured from `segments[0].get("start", 0.0)` to
  `segments[-1].get("end", 0.0)`. When the last segment has no end, the span is
  therefore not the first start to the last end. If the first start is at least 0,
  the total then becomes 0 and the pause ratio falls back to speech plus pauses.
- **Stale playhead index**: when the current index is neither -1 nor a valid
  position, no search is made and the index comes back unchanged.
- **Existing `conf` key**: a segment without a log-probability keeps any `conf` key
  it already had.

## Model

| member | source | states |
|---|---|---|
| PyValues.ToFloat | transcription_service.py:88-89 | `float()` succeeds exactly on booleans, numbers and strings the parser accepts. It raises ValueError for a bad string and TypeError otherwise. |
| PyValues.ToInt | settings_ui.py:203 | `int()` truncates floats toward zero. It succeeds exactly on booleans, numbers and parseable strings. ValueError vs TypeError as for `float()`. |
| Tokenizer.Tokenize | alignment_utils.py:16-25 | The token loop returns the reference tokenisation. Each token is a maximal run of word characters with `text[start:end]` equal to its text. Tokens ascend with gaps, and no word character is left out. |
| Tokenizer.TokensCorrect | alignment_utils.py:16-25 | The reference tokenisation satisfies `TokenizationOf` (maximal runs, ascending, nothing missed). |
| Tokenizer.TokensOrdered | alignment_utils.py:22-24 | Any two tokens are strictly ordered and do not overlap: an earlier token ends before a later one starts. |
| Tokenizer.NoWordsNoTokens | alignment_utils.py:22-25 | A text without word characters yields no tokens. |
| Aligner.Choice | alignment_utils.py:54-61 | The back-pointer is unset only at (0,0). Equal/sub need both indices positive, and equal only for case-insensitively equal words, sub only for different ones. |
| Aligner.CellStep | alignment_utils.py:48-61 | One cell of the loop computes `min(del, ins, diag)` equal to the recurrence `Dist` and the back-pointer `Choice` with the source's tie order. |
| Aligner.FillBorders | alignment_utils.py:34-42 | Row 0 and column 0 hold `Dist` and the ins/del back-pointers. |
| Aligner.FillRow | alignment_utils.py:44-61 | Filling row `i` keeps rows below it and makes row `i` agree with `Dist` and `Choice`. |
| Aligner.FillCell | alignment_utils.py:48-61 | Writing cell `(i, j)` from its three neighbours extends the filled region by that cell, which then holds `Dist` and `Choice`. |
| Aligner.FillTables | alignment_utils.py:33-61 | The whole `dp`/`bt` table agrees with `Dist` and `Choice`. |
| Aligner.WalkBack | alignment_utils.py:63-82 | The walk back with the in-place reverse returns the reference op list `Walk(n, m)`. The fallback branch is never taken. |
| Aligner.BackStep | alignment_utils.py:67-80 | One pass of the walk back appends the op the back-pointer names and moves to the cell it points to, so the ops still collected plus those collected spell `Walk(n, m)`. The fallback branch is unreachable. |
| Aligner.AlignTokens | alignment_utils.py:28-82 | The ops returned mention every reference and hypothesis index exactly once, in increasing order. Equal ops pair matching words and sub ops non-matching ones. The number of non-equal ops is `dp[n][m]`. |
| Aligner.WalkIsAlignment | alignment_utils.py:64-81 | The walk is an alignment: the reference indices are exactly `0..n-1` in order, the hypothesis indices exactly `0..m-1` in order, and equal/sub labels match the words. |
| Aligner.WalkCost | alignment_utils.py:64-81 | The number of sub/del/ins ops of the walk equals the table value `Dist(n, m)`. |
| Aligner.DistIsMinimal | alignment_utils.py:44-61 | No alignment whatsoever has fewer sub/del/ins ops than `Dist`. |
| Aligner.DropLast | alignment_utils.py:64-81 | Dropping the last op of an alignment leaves an alignment of the words before the ones it mentions, cheaper by that op's cost. An equal op pairs matching words. |
| Aligner.WalkIsOptimal | alignment_utils.py:44-82 | The returned ops have minimum unit edit cost over all alignments of the two word lists. |
| Aligner.PointerPreference | alignment_utils.py:54-61 | On ties the back-pointer prefers the diagonal, then deletion, then insertion; each branch holds exactly under its condition. |
| Aligner.EmptyReference | alignment_utils.py:40-42 | An empty reference yields `m` insertions `ins 0 .. ins m-1`. |
| Aligner.EmptyHypothesis | alignment_utils.py:37-39 | An empty hypothesis yields `n` deletions `del 0 .. del n-1`. |
| Aligner.MatchingDistZero | alignment_utils.py:44-61 | Word lists that match pairwise ignoring case are at edit distance 0. |
| Aligner.MatchingAllEqual | alignment_utils.py:44-81 | Word lists that match pairwise yield only `equal k, k` ops. |
| Aligner.AlignmentWithin | alignment_utils.py:64-81 | Every op of an alignment indexes inside the two word lists. |
| Aligner.MentionsOrdered | alignment_utils.py:64-81 | Of two ops, the earlier one mentions smaller reference and hypothesis indices than the later one. |
| Aligner.Reversed | alignment_utils.py:81 | `ops.reverse()`: same length, the element at `k` is the one at `len-1-k`. |
| Runs.ColoursDistinct | alignment_utils.py:121-161 | The six highlight colours are pairwise different, so the categories are distinguishable. These are the four character colours (lines 121-124) and the two word colours (lines 160-161). |
| Runs.SortAscCorrect | alignment_utils.py:91 | The sort yields an ascending permutation of the indexes. |
| Runs.Coalesce | alignment_utils.py:92-101 | The run loop appends exactly the reference runs `RunSpans` of the sorted indexes. |
| Runs.RunSpansCells | alignment_utils.py:92-101 | The runs highlight exactly the given (offset) indexes. |
| Runs.RunSpansWellFormed | alignment_utils.py:92-101 | Every run has start < end and begins and ends at given indexes. |
| Runs.RunSpansSeparated | alignment_utils.py:92-101 | For strictly increasing indexes the runs ascend with a gap, so they are maximal. |
| Runs.AppendedRuns | alignment_utils.py:85-101 | Earlier spans are kept and empty indexes change nothing. The new runs each have start < end inside the index set. Together they cover exactly `start_base + indexes`, and for distinct indexes they are maximal and ascending. |
| Runs.AppendRuns | alignment_utils.py:85-101 | `_append_runs` computes `Appended` and satisfies all of `AppendedRuns`. |
| Spans.DeleteCategory | alignment_utils.py:137 | A deleted character is coloured vowel-delete exactly when its lower-case form is in `VOWELS`, and consonant-delete otherwise. |
| Spans.DeletedIndexesPartition | alignment_utils.py:135-137 | The vowel and consonant index lists hold exactly the positions of `[i1, i2)` with and without a vowel, each once. |
| Spans.SplitDeleted | alignment_utils.py:135-137 | The partition loop produces those two lists. |
| Spans.ApplyOpcode | alignment_utils.py:127-141 | One opcode step appends the reference spans of that opcode. |
| Spans.OpCellsAt | alignment_utils.py:127-141 | Equal marks nothing. Replace marks both sides amber. Delete marks only the reference side, split by vowel. Insert marks only the hypothesis side. All marks stay inside the opcode's ranges. |
| Spans.AllEqualNoSpans | alignment_utils.py:127-128 | Only-equal opcodes produce no spans. |
| Spans.SubstitutionCells | alignment_utils.py:126-141 | The spans of the opcode list highlight exactly the union of the opcodes' cells on each side. |
| Spans.SubstitutionSpansWithin | alignment_utils.py:126-141 | All spans of a pair lie in their word's range with start < end, in the categories of their side. |
| Spans.SubstitutionMarks | alignment_utils.py:104-142 | For a well-formed diff, a character of either word is marked iff no equal opcode keeps it, and with one category only. |
| Spans.CharLevelSpans | alignment_utils.py:104-142 | Returns the reference spans of the diff. Both lists stay inside their words with side-correct categories and cover exactly the diff's cells. |
| Spans.Words | alignment_utils.py:155-156 | The word list has one entry per token, the token's text. |
| Spans.WordAlignmentWithin | alignment_utils.py:152-157 | The word alignment indexes inside both token lists. |
| Spans.ApplyWordOp | alignment_utils.py:166-184 | One alignment step appends the reference spans of that op. |
| Spans.SpansOfAlignment | alignment_utils.py:163-184 | The loop over the ops returns the reference spans `ErrorSpans`. |
| Spans.ComputeErrorSpans | alignment_utils.py:145-186 | Returns the reference spans of the word alignment of the two tokenisations. Script spans lie in the script with script categories, and transcript spans in the transcript with transcript categories. |
| Spans.ErrorSpansWithin | alignment_utils.py:166-186 | Every span has start < end inside its own text. Word-delete never reaches the transcript and word-insert never reaches the script. |
| Spans.PairSpansCategories | alignment_utils.py:177-184 | A substituted pair's spans stay inside their two tokens with side-correct categories. |
| Spans.AllEqualOpsNoSpans | alignment_utils.py:166-168 | An alignment of only equal ops yields two empty lists. |
| Spans.MatchingTextsUnmarked | alignment_utils.py:152-186 | Texts whose tokens match pairwise ignoring case yield two empty lists. |
| Spans.WholeWordMarks | alignment_utils.py:169-176 | A whole-word delete span is in the script iff the alignment deletes that reference word. A whole-word insert span is in the transcript iff it inserts that hypothesis word. |
| Spans.SpanOrigins | alignment_utils.py:166-184 | Every script span lies inside a deleted or substituted reference word. Every transcript span lies inside an inserted or substituted hypothesis word. |
| Spans.EqualWordsUnmarked | alignment_utils.py:167-168 | No span overlaps a word the alignment calls equal, on either side. |
| Transcript.StartEnd | transcript_utils.py:27-29 | The start/end conversion succeeds exactly when both `float()` calls do. A missing end equals the start. |
| Transcript.SegmentTimes | transcript_utils.py:27-31 | The `try` block gives the segment's start and end when both conversions succeed, and `(0, 0)` when one raises. |
| Transcript.DescribeStep | transcript_utils.py:23-33 | Appending one kept segment extends a text/range description by a range holding exactly that segment's text and times. |
| Transcript.AppendSegment | transcript_utils.py:23-33 | Appending a kept segment adds its text to the text and the segment to the list, and the ranges still describe the text. |
| Transcript.BuildTranscript | transcript_utils.py:11-34 | Kept segments are the dicts with non-empty text, in order. The text is their concatenation. There is one range per kept segment, contiguous from 0 to `len(text)`, each non-empty and holding exactly its segment's text. Times are start/end with defaults 0 and t0, or (0,0) on a failed conversion. The active index is -1. |
| Transcript.RangesOrdered | transcript_utils.py:23-26 | Earlier ranges end before later ones start. |
| Transcript.RangesPartition | transcript_utils.py:23-26 | Every character of the text belongs to exactly one range. |
| Transcript.FirstInWindow | transcript_utils.py:56-60 | Returns the lowest index whose window `[t0-0.05, t1+0.05]` contains t, or -1 exactly when none does. |
| Transcript.Playhead | transcript_utils.py:44-66 | Empty ranges give -1. A valid active index whose window holds t is kept. Otherwise the lowest matching index is chosen, or the active index is returned when none matches. An invalid index other than -1 is returned unchanged. |
| Transcript.PlayheadMoves | transcript_utils.py:51-66 | The index only moves to a segment whose window holds t. An index that was -1 or valid stays -1 or valid. |
| Transcript.HighlightIndex | transcript_utils.py:44-66 | The sticky check and search loop compute `Playhead`. |
| Fluency.NormConf | transcription_service.py:62-72 | None maps to None. Otherwise the result is in [0,1], equals `lp + 1` on [-1,0], and `float(lp)` may raise. |
| Fluency.NormConfMonotone | transcription_service.py:66-72 | A higher log-probability never yields a lower confidence. |
| Fluency.FailurePersists | transcription_service.py:87-89 | A conversion that raises at some segment is the result of the whole call. |
| Fluency.AccumulateTimes | transcription_service.py:87-96 | Speech and pause totals are non-negative. Every segment converted. `prev_end` is the last segment's end. |
| Fluency.AccumulateCopies | transcription_service.py:98-108 | Each copy keeps every key of its segment. Duration and pause are non-negative. With a log-probability, `conf` is the value `NormConf` derives from it, in [0,1]. Without one, `conf` is left untouched. |
| Fluency.AccumulateTimed | transcription_service.py:88-105 | The copy of segment k records `max(0, end-start)` as duration. Its pause is 0 for the first segment and `max(0, start - previous end)` after. |
| Fluency.AccumulateConfs | transcription_service.py:98-101 | Every collected confidence is in [0,1]. None are collected exactly when no segment has a log-probability. |
| Fluency.AccumulateSums | transcription_service.py:87-101 | Speech time is the sum of the copies' `duration` values. Pause time is the sum of their `pause_before` values. The collected confidences are the copies' `conf` values, in order, over the segments that have a log-probability. |
| Fluency.AccumulateSegments | transcription_service.py:81-108 | The accumulation loop computes the reference accumulation `Accumulate`. |
| Fluency.AddSegment | transcription_service.py:87-108 | One pass of the loop computes `Step`: the annotated copy and the updated totals, or the exception a conversion raises. |
| Fluency.FilledCount | transcription_service.py:130-132 | The filled-pause count is at most the word count, and 0 exactly when no word is in `{um, uh, erm, er, hmm}`. |
| Fluency.TotalTimeConverts | transcription_service.py:110-116 | After the loop succeeded the total-time conversions cannot raise. |
| Fluency.ArticRateMeaning | transcription_service.py:118-123 | Let speech be the sum of the returned copies' durations. If it is above 1e-6, the returned rate times the minutes of speech equals the number of cleaned hypothesis words. Otherwise the rate is 0. |
| Fluency.MetricsValues | transcription_service.py:110-134 | The articulation rate and pause ratio are computed from the sums of the copies' durations and pauses and from the total time. The filled pauses are counted among the cleaned words. The mean confidence is the mean of the copies' `conf` values over segments with a log-probability. |
| Fluency.MetricsBounds | transcription_service.py:118-134 | Articulation rate and pause ratio are non-negative, and filled pauses are between 0 and the word count. Mean confidence is in [0,1] and is None exactly when no segment has a log-probability. |
| Fluency.MetricsSegments | transcription_service.py:103-108 | One annotated copy per segment, in order, with its duration and pause before. |
| Fluency.TimelineAddsUp | transcription_service.py:83-96 | On an ordered timeline, speech plus pause time equals last end minus first start. |
| Fluency.PauseRatioAtMostOne | transcription_service.py:110-128 | On an ordered timeline the pause ratio is at most 1. |
| Fluency.AugmentSegmentsAndFluency | transcription_service.py:74-136 | Computes `FluencyOf`. On success, the rate and pause ratio come from the sums of the returned copies' durations and pauses, there is one copy per segment, and the mean confidence is the mean of the copies' `conf` values over segments with a log-probability. |
| Settings.DefaultSettings | settings_ui.py:20-32 | Exactly the nine default keys. The model name is `WHISPER_MODEL` when set, else "base.en". |
| Settings.LoadSettings | settings_ui.py:39-49 | Every default key stays. A parsed dict overrides the keys it has and adds new ones. Anything else, or a failed read, gives the defaults unchanged. |
| Settings.WhisperOptions | settings_ui.py:200-243 | `language` is None for "auto", else the setting (default "en"). `without_timestamps` is the negated truthiness. Task "transcribe", thresholds 2.4 and -1.0. fp16 comes from the device (gpu true, auto CUDA, else false). The four presets set beam 1/2/3/5 and temperature 0, the gpu presets force fp16, and other presets keep the settings. A bad beam, temperature or threshold raises, first failure first. |
| Settings.DefaultOptions | settings_ui.py:200-243 | The defaults give English, no timestamps, conditioning on previous text, beam 2, temperature 0, no-speech 0.45, and fp16 exactly when CUDA is available. |
| Settings.UnrelatedFileKeepsOptions | settings_ui.py:39-49 | A settings file touching none of the option keys leaves the options at their defaults. |

## Left out

- Unicode: `\w` in `tokenize_with_spans`, `str.lower()` and `str.split()` are modelled on ASCII. Python's Unicode lower-casing can change a string's length, and the model does not capture that.
- `difflib.SequenceMatcher` is not modelled. `get_opcodes` is a parameter `matcher`, constrained only to return a well-formed edit script (`IsMatcher`), so the particular diff difflib picks is not modelled.
- `_append_runs` sorts the caller's `indexes` list in place. The model sorts a copy, which matters only for aliasing because the caller never reads the list again.
- Python floats are exact reals. Rounding of times, rates and confidences is not modelled.
- `float()`/`int()` of strings: the number parsers are parameters (`parse`, `parseInt`, `parseFloat`), and `str()` of a non-string segment text is a parameter `render`.
- `TranscribeWorker.clean_text` is not part of this model; it is the parameter `clean`.
- `transcribe_worker.py` is not part of this model.
- `highlight_transcript_at_time`: the Qt text-cursor, extra-selection and focus calls are left out. Only the returned index is modelled.
- `whisper_options`: the `free_speak` argument is ignored by the source and omitted. `import torch` and `torch.cuda.is_available()` become the boolean `cudaAvailable`, false when the import fails.
- `load_settings`: file existence and reading, and `json.load`, become the parameter `parsed`, which is `None` when the file is missing or unreadable.
- `_augment_segments_and_fluency`: `segments` is a list of dicts, and the `None` argument (`segments or []`) and non-dict entries are not modelled.
- `build_transcript_from_segments`: a `segments_obj` that is not iterable (where `list()` raises) is not modelled; the input is a sequence of values.
- Fluency.PauseRatioAtMostOne: holds only for ordered timelines. With overlapping or reversed segments, the pauses can exceed the total time and the ratio can exceed 1, as in the source.
- The rest of the application is not part of this model: audio, recording, database, plotting, theme, script loading, the settings dialog and the transcription workflows.
