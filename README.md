# ai-pdf-to-video, modelled in Dafny

The application turns a PDF into a short animated lecture in five steps:
- extract and clean the PDF text (`pdf_utils.py`);
- summarise it into a few key points and build a scripted Teacher/Student dialogue for each point (`story_engine.py`);
- narrate the points with a text-to-speech engine (`tts.py`);
- spread the narration over the dialogue lines in proportion to their length (`scene_planner.py`, and again inside `video_gen.py`);
- render every frame: the active line, its scene card, and two avatars whose mouths follow the audio loudness (`video_gen.py`).

This project models the logic of those five files: what they compute, not the libraries they call.

Modules:
- `Text`: the string operations the code relies on. This covers `str.strip`, `str.split`, `str.lower`, `endswith`, `re.sub` of a character-class run by one character, `re.findall` of a character class, `" ".join`, and `f"{k}"`.
- `Sorting`: Python's stable `list.sort(key=...)`, as insertion sort by a real-valued key.
- `PdfUtils`: `_clean_text`.
- `StoryEngine`:
  - `_sentences`, `_keyword_score`, `summarize_core`, `generate_examples` and `build_script`;
  - `SummarizeCore`, `GenerateExamples` and `BuildScript` are methods with the source's loops.
- `Tts`: the request normalisation in `synthesize`, meaning the text fallback and the output path extension.
- `Dialogue`: the dialogue data shared by the planner and the renderer. It covers flattening scenes into utterances and allocating time by character count.
- `ScenePlanner`: `plan`, as a method with the source's loop.
- `Envelope`: the audio envelope of `generate_video`. It is built in place in an `array<real>`, as the code fills a numpy array.
- `VideoGen`:
  - the timeline of `generate_video`: clip duration, frame count, running start times, and the clamp of the last segment;
  - what `make_frame` computes from a time: frame index, active utterance, its scene, avatar levels, mouth height, bob, and progress;
  - `TextLayout` models the greedy word wrap `_wrap_text`.

Real numbers stand for Python floats. The square root and the rendered text width are passed in as functions.

The frame count is `max(1, int(duration * fps))`: since the duration is at least one second (video_gen.py:83), this is the floor of duration × fps, not its ceiling, so a final fraction of a frame is dropped (`VideoGen.TotalFramesCount`).

## Model

| member | source | states |
|---|---|---|
| Text.Strip | app/modules/pdf_utils.py:9 | `strip()` returns the slice of the input between its leading and its trailing whitespace |
| Text.StripSpec | app/modules/pdf_utils.py:9 | the stripped text has no whitespace at either end, is a contiguous slice of the input, and only whitespace was dropped on either side |
| Text.StripStripped | app/modules/story_engine.py:7 | stripping a string that has no outer whitespace returns it unchanged |
| Text.StripEmpty | app/modules/tts.py:33 | `strip()` gives the empty string exactly when every character is whitespace |
| Text.SkipSpaceSpec | app/modules/pdf_utils.py:9 | the forward scan of `strip` stops at the first non-whitespace character |
| Text.SkipSpaceBackSpec | app/modules/pdf_utils.py:9 | the backward scan of `strip` stops after the last non-whitespace character |
| Text.ReplaceRuns | app/modules/pdf_utils.py:7 | `re.sub(r"[ \t]+", " ", s)` (and `\s+` in `_sentences`) is empty exactly when its input is, and never longer |
| Text.ReplaceRunsShape | app/modules/pdf_utils.py:7 | after replacing runs, every class character is the replacement, no two class characters are adjacent, and the first and last characters are in the class exactly when the input's were |
| Text.ReplaceRunsOnlyRep | app/modules/pdf_utils.py:7 | every class character left after the replacement is the replacement character |
| Text.ReplaceRunsNoAdjacent | app/modules/pdf_utils.py:7 | after the replacement no two class characters are neighbours |
| Text.ReplaceRunsFirst | app/modules/story_engine.py:6 | the result starts with a class character exactly when the input does |
| Text.ReplaceRunsLast | app/modules/story_engine.py:6 | the result ends with a class character exactly when the input does |
| Text.ReplaceRunsKeepsOthers | app/modules/pdf_utils.py:7 | the characters outside the replaced class survive in order, none lost and none added |
| Text.ReplaceRunsKeepsRuns | app/modules/pdf_utils.py:7 | the runs of any class disjoint from the replaced one are unchanged; for the complement class this means each maximal run became exactly one replacement character, none vanished and none merged |
| Text.Runs | app/modules/story_engine.py:11 | `re.findall(r"[A-Za-z']+", sent)` returns non-empty runs made only of class characters |
| Text.RunsSplit | app/modules/story_engine.py:11 | a character outside the class ends a run: the runs of `a + [c] + b` are those of `a` followed by those of `b` |
| Text.RunsWhole | app/modules/story_engine.py:11 | a non-empty string made only of class characters is one single run, so runs are maximal |
| Text.RunsNone | app/modules/story_engine.py:11 | a string without class characters has no run |
| Text.RunsCons | app/modules/story_engine.py:11 | a leading class character starts a new run or extends the first run, whichever the next character calls for; any other character is skipped |
| Text.RunsEmpty | app/modules/story_engine.py:11 | there is no run exactly when no character is in the class |
| Text.StripKeepsRuns | app/modules/story_engine.py:6 | `strip()` keeps the runs of every class of non-whitespace characters |
| Text.RunsKeepClass | app/modules/story_engine.py:11 | the runs found, concatenated, are exactly the class characters of the input in order |
| Text.Words | app/modules/video_gen.py:15 | `str.split()` returns non-empty words without whitespace |
| Text.WordsEmpty | app/modules/video_gen.py:15 | `str.split()` returns no word exactly when the text is all whitespace |
| Text.JoinAppend | app/modules/story_engine.py:63 | joining two non-empty lists puts exactly one separator between their joins |
| Text.JoinWith | app/modules/story_engine.py:63 | `sep.join(parts)`: `JoinAppend` shows one separator between the joins of two non-empty lists, and `JoinConcat` that joining per-line joins equals joining all the words |
| Text.JoinConcat | app/modules/video_gen.py:18 | joining lines that are each a join of their words equals joining all the words |
| Text.Lower | app/modules/tts.py:38 | `lower()` keeps the length and lowers each ASCII capital, leaving every other character |
| Text.EndsWith | app/modules/tts.py:38 | `str.endswith`: the suffix fits and the last characters are the suffix; `ChoosePathExtension` shows every chosen path passes it |
| Text.Decimal | app/modules/story_engine.py:44 | the `f"{k}"` rendering is a non-empty string of digits |
| Text.DecimalRoundTrip | app/modules/story_engine.py:44 | reading the rendered digits back gives the number, and there is no leading zero |
| Sorting.InsertBy | app/modules/story_engine.py:21 | inserting places the element after every element with a smaller key and keeps the others in order |
| Sorting.SortByCorrect | app/modules/story_engine.py:21 | `list.sort(key=...)` returns a permutation of its input, sorted by the key |
| Sorting.SortByPermutes | app/modules/story_engine.py:32 | the sorted list is a permutation of the input |
| Sorting.SortBySorted | app/modules/story_engine.py:32 | the sorted list is ordered by the key |
| Sorting.SortByStable | app/modules/story_engine.py:21 | the sort is stable: elements with equal keys keep their input order |
| Sorting.InsertKeepsSorted | app/modules/story_engine.py:21 | inserting into a sorted list keeps it sorted |
| Sorting.InsertMultiset | app/modules/story_engine.py:21 | inserting adds exactly one copy of the element |
| Sorting.InsertKeepsStable | app/modules/story_engine.py:21 | inserting an element that came first keeps equal keys in input order |
| PdfUtils.ReplaceNul | app/modules/pdf_utils.py:6 | replacing NUL keeps the length, leaves no NUL, and keeps every other character in place |
| PdfUtils.MatchEnd | app/modules/pdf_utils.py:8 | the greedy match of `\n\s*\n` at a newline is whitespace only and ends on a newline (0 means no match), and no newline is left in the whitespace after it |
| PdfUtils.CollapseBlankLines | app/modules/pdf_utils.py:8 | `re.sub(r"\n\s*\n", "\n\n", s)` is empty exactly when its input is, and keeps the first character |
| PdfUtils.CollapseMatch | app/modules/pdf_utils.py:8 | two newlines with only whitespace between them, followed by a non-space, become exactly `"\n\n"` |
| PdfUtils.CollapseNoGap | app/modules/pdf_utils.py:8 | text without a whitespace-only line is left unchanged |
| PdfUtils.CollapseIdempotent | app/modules/pdf_utils.py:8 | collapsing blank lines twice gives what collapsing once gives |
| PdfUtils.CollapseKeepsRuns | app/modules/pdf_utils.py:8 | collapsing blank lines keeps every run of significant characters, so no two words are merged |
| PdfUtils.ReplaceNulKeepsRuns | app/modules/pdf_utils.py:6 | replacing NUL by a space keeps every run of significant characters |
| PdfUtils.CleanText | app/modules/pdf_utils.py:5-9 | `_clean_text` returns text without whitespace at either end |
| PdfUtils.CleanNoNul | app/modules/pdf_utils.py:5-9 | the cleaned text contains no NUL |
| PdfUtils.CleanNoDoubleSpace | app/modules/pdf_utils.py:5-9 | no space or tab of the cleaned text is next to another space or tab |
| PdfUtils.CleanNoBlankGap | app/modules/pdf_utils.py:5-9 | the cleaned text has no line made only of whitespace between two newlines |
| PdfUtils.NoTripleNewline | app/modules/pdf_utils.py:8 | text without a blank gap never holds three newlines in a row |
| PdfUtils.CleanKeepsSignificant | app/modules/pdf_utils.py:5-9 | every character that is neither whitespace nor NUL survives cleaning in order, and no new one appears |
| PdfUtils.CleanKeepsRuns | app/modules/pdf_utils.py:5-9 | cleaning keeps every run of significant characters unchanged and in order: words are neither lost, split nor merged |
| PdfUtils.CleanEmpty | app/modules/pdf_utils.py:5-9 | the cleaned text is empty exactly when the input has only whitespace and NUL |
| PdfUtils.ReplaceNulKeepsSignificant | app/modules/pdf_utils.py:6 | replacing NUL keeps the significant characters |
| PdfUtils.ReplaceRunsWithout | app/modules/pdf_utils.py:7 | collapsing space runs introduces no character other than the space |
| PdfUtils.CollapseWithout | app/modules/pdf_utils.py:8 | collapsing blank lines introduces no character other than the newline |
| PdfUtils.CollapseNoAdjacent | app/modules/pdf_utils.py:8 | collapsing blank lines creates no adjacent spaces or tabs |
| PdfUtils.CollapseKeepsSignificant | app/modules/pdf_utils.py:8 | collapsing blank lines keeps the significant characters in order |
| PdfUtils.CollapseGapFree | app/modules/pdf_utils.py:8 | after collapsing, no whitespace-only line sits between two newlines |
| PdfUtils.CollapseLead | app/modules/pdf_utils.py:8 | collapsing does not bring a newline into leading whitespace that had none |
| PdfUtils.MatchSelectsNothing | app/modules/pdf_utils.py:8 | a blank-line match holds no significant character |
| PdfUtils.StripGapFree | app/modules/pdf_utils.py:9 | stripping does not create a blank gap |
| PdfUtils.StripKeepsSignificant | app/modules/pdf_utils.py:9 | stripping keeps the significant characters |
| PdfUtils.GapFreeAppend | app/modules/pdf_utils.py:8 | two gap-free texts stay gap-free when joined, if the second does not open with whitespace holding a newline |
| StoryEngine.FirstBreak | app/modules/story_engine.py:7 | the split finds the first place where a terminator is followed by whitespace |
| StoryEngine.Pieces | app/modules/story_engine.py:7 | `re.split` returns at least one piece; `PiecesOfCollapsed` shows the pieces of collapsed text are non-empty, end with a terminator except the last, hold no split point, and rejoin to the text |
| StoryEngine.Collapse | app/modules/story_engine.py:6 | `re.sub(r"\s+", " ", text.strip())` has no outer whitespace and single spaces only inside; `WordsOfCollapse` shows it keeps the words |
| StoryEngine.Sentences | app/modules/story_engine.py:5-7 | `_sentences` returns non-empty stripped sentences; `SentencesShape`, `SentencesJoin` and `SentencesKeepWords` show they are split only after terminators and rejoin to the collapsed text |
| StoryEngine.StripAll | app/modules/story_engine.py:7 | `[p.strip() for p in pieces if p.strip()]` keeps at most as many entries, each non-empty and without outer whitespace |
| StoryEngine.PiecesOfCollapsed | app/modules/story_engine.py:7 | splitting collapsed text gives non-empty sentences, each ending with `.`, `!` or `?` except possibly the last, none containing a split point, and joined by spaces they give back the text |
| StoryEngine.CollapseCollapsed | app/modules/story_engine.py:6 | `re.sub(r"\s+", " ", text.strip())` has no outer whitespace and only single spaces inside, and is empty exactly when the text is all whitespace |
| StoryEngine.WordsOfCollapse | app/modules/story_engine.py:6 | collapsing whitespace keeps the words of the text, in order |
| StoryEngine.SentencesKeepWords | app/modules/story_engine.py:5-7 | the sentences, joined by spaces, hold exactly the words of the text in order |
| StoryEngine.SentencesArePieces | app/modules/story_engine.py:5-7 | the per-piece `strip()` and the empty filter of `_sentences` change nothing on collapsed text |
| StoryEngine.SentencesShape | app/modules/story_engine.py:5-7 | every sentence is non-empty, collapsed and holds no split point, and every sentence but the last ends with a terminator |
| StoryEngine.SentencesJoin | app/modules/story_engine.py:5-7 | joining the sentences with spaces gives back the collapsed text, and there are none exactly when the text is all whitespace |
| StoryEngine.StripAllStripped | app/modules/story_engine.py:7 | stripping and filtering pieces that are non-empty and already stripped changes nothing |
| StoryEngine.Tokens | app/modules/story_engine.py:11 | there is one token per run of letters and apostrophes, and token `i` is run `i` lowered |
| StoryEngine.ContentWords | app/modules/story_engine.py:12 | there are at most as many content words as tokens, none is a stop word, each is longer than three characters, and every token that qualifies is kept |
| StoryEngine.ContentWordsAppend | app/modules/story_engine.py:12 | the filter works token by token, keeping the order: filtering two lists one after the other gives their results one after the other |
| StoryEngine.ContentWordsOne | app/modules/story_engine.py:12 | a single token is kept exactly when it is no stop word and longer than three characters |
| StoryEngine.ContentWordsIdempotent | app/modules/story_engine.py:12 | filtering the content words again changes nothing |
| StoryEngine.LengthBonus | app/modules/story_engine.py:14 | `min(len(sent)/120, 1.0)` lies in [0, 1] |
| StoryEngine.KeywordScore | app/modules/story_engine.py:9-14 | the score is 0.65 per content word plus at most 0.35 for length |
| StoryEngine.ContentDominates | app/modules/story_engine.py:13-14 | a sentence with more content words always scores higher |
| StoryEngine.LengthBonusMonotone | app/modules/story_engine.py:13-14 | with equal content, the longer sentence scores at least as high, and equally once both reach 120 characters |
| StoryEngine.Scored | app/modules/story_engine.py:20 | there is one candidate per sentence |
| StoryEngine.RankedOrder | app/modules/story_engine.py:21 | the ranking is by descending score, and equal scores keep document order |
| StoryEngine.Ranked | app/modules/story_engine.py:20-21 | the sort of the scored sentences; `RankedOrder`, `RankedEntries` and `RankedLength` show it is by descending score, stable, and a permutation |
| StoryEngine.RankedEntries | app/modules/story_engine.py:20-21 | the ranking is a permutation of the scored sentences, each carrying its index, text and score |
| StoryEngine.PickStep | app/modules/story_engine.py:28-29 | picking appends the text to `picked` and the index to `used` |
| StoryEngine.Near | app/modules/story_engine.py:26 | the skip test `any(abs(idx - j) <= 1 for j in used)`; `PickFromSpaced` shows that because of it no two picks are neighbours |
| StoryEngine.PickFrom | app/modules/story_engine.py:24-31 | the selection loop from candidate `k` on; `PickFromExtends`, `PickFromBound`, `PickFromSpaced` and `PickFromMaximal` show it only appends, stops at `max(1, max_points)`, skips neighbours, and skips nothing else |
| StoryEngine.Picks | app/modules/story_engine.py:23-31 | the whole loop over the ranking; `PicksShape`, `PicksMaximal` and `PicksFirstBest` state bound, spacing, order, maximality and that the best sentence is picked first |
| StoryEngine.PickFromExtends | app/modules/story_engine.py:23-31 | the loop only appends, and appends only candidates it visits |
| StoryEngine.PickFromBound | app/modules/story_engine.py:30-31 | the loop picks at most `max(1, max_points)` sentences, since it stops only after a pick reaches `max_points` |
| StoryEngine.PickFromSpaced | app/modules/story_engine.py:26-27 | no two picked sentences are neighbours in the document |
| StoryEngine.PickFromMaximal | app/modules/story_engine.py:26-31 | every visited candidate is next to a picked one, unless the loop stopped at `max_points` |
| StoryEngine.PickFromDescending | app/modules/story_engine.py:24 | picks come out in the order of the ranking, so by descending score |
| StoryEngine.PicksShape | app/modules/story_engine.py:23-31 | at most `max(1, max_points)` sentences are picked, all real sentences, spaced, and by descending score |
| StoryEngine.PicksMaximal | app/modules/story_engine.py:23-31 | every sentence is picked or next to a picked one, unless `max_points` were picked |
| StoryEngine.PicksFirstBest | app/modules/story_engine.py:21-29 | the first pick is the earliest sentence with the best score |
| StoryEngine.FirstPickIsFirstRanked | app/modules/story_engine.py:24-29 | the first ranked candidate is always picked first |
| StoryEngine.PickFromFirst | app/modules/story_engine.py:24-29 | with nothing picked yet, the first candidate visited is picked |
| StoryEngine.RankedFirstBest | app/modules/story_engine.py:21 | the first ranked sentence has the best score and is the earliest with it |
| StoryEngine.RankedLength | app/modules/story_engine.py:21 | sorting keeps the number of candidates |
| StoryEngine.IndexOf | app/modules/story_engine.py:32 | `sents.index(s)` is the first position holding `s` |
| StoryEngine.SummaryOfOrder | app/modules/story_engine.py:32 | the summary is the picked sentences, rearranged into document order |
| StoryEngine.Summary | app/modules/story_engine.py:16-33 | `summarize_core` as a function; `SummaryCount`, `SummaryInDocOrder` and `SummaryFromSentences` show it is empty exactly on blank text, bounded, in document order and made of sentences |
| StoryEngine.SummaryInDocOrder | app/modules/story_engine.py:32 | the summary follows document order |
| StoryEngine.SummaryFromSentences | app/modules/story_engine.py:32-33 | every summary point is one of the sentences |
| StoryEngine.SummaryOfCount | app/modules/story_engine.py:17-19 | the summary is empty exactly when there are no sentences, and holds at most `max(1, max_points)` points |
| StoryEngine.SummaryCount | app/modules/story_engine.py:16-33 | `summarize_core` returns nothing exactly when the text is all whitespace, and at most `max(1, max_points)` points |
| StoryEngine.SummarizeCore | app/modules/story_engine.py:16-33 | the method with the source's loop returns the summary of the text |
| StoryEngine.Examples | app/modules/story_engine.py:35-55 | there is one scene per point |
| StoryEngine.ExampleScene | app/modules/story_engine.py:43-54 | the scene dict for point `k`; `ExampleShape` and `ExampleTitlesDistinct` show its key line, its numbered title, its first line and its speakers |
| StoryEngine.GenerateExamples | app/modules/story_engine.py:35-55 | the loop builds, for each point `k`, the scene of point `k` numbered from 1 |
| StoryEngine.ExampleShape | app/modules/story_engine.py:43-53 | scene `i` has point `i` as key line, title "Concept" and the number `i + 1`, a first line ending with the point, and speakers Teacher, Teacher, Student, Teacher, Student, Teacher |
| StoryEngine.ExampleTitlesDistinct | app/modules/story_engine.py:44 | scene titles are pairwise distinct |
| StoryEngine.ExamplesLineCount | app/modules/story_engine.py:46-53 | the scenes hold six dialogue lines per point |
| StoryEngine.BuildScript | app/modules/story_engine.py:57-68 | the points are the summary, or the single fallback point when the text is all whitespace; there are 1 to `max(1, max_points)` points, one scene per point, six lines each, and the narration is the points joined by spaces |
| Tts.NormaliseText | app/modules/tts.py:33-35 | blank text becomes the fixed fallback sentence, any other text is kept |
| Tts.NormaliseTextNonBlank | app/modules/tts.py:33-35 | the engine never receives blank text |
| Tts.RFind | app/modules/tts.py:39 | `rfind` gives the last index of the character, or -1 |
| Tts.SplitExt | app/modules/tts.py:39 | `splitext` cuts the path into root and extension, which concatenate back to the path; the extension is empty or a dot followed by neither dot nor slash; it is non-empty exactly when the last dot lies in the last path component after some character other than a dot, and then it starts at that dot |
| Tts.SplitExtNoExtension | app/modules/tts.py:39 | a last path component without a dot has no extension |
| Tts.ChoosePath | app/modules/tts.py:36-43 | a path that already ends with the engine's extension, ignoring case, is kept; otherwise its extension is replaced by the engine's |
| Tts.ChoosePathExtension | app/modules/tts.py:36-43 | the chosen path always ends with `.mp3` for gTTS and `.wav` for pyttsx3, ignoring case |
| Tts.ChoosePathIdempotent | app/modules/tts.py:36-43 | choosing the path a second time changes nothing |
| Tts.ChoosePathAppends | app/modules/tts.py:39 | a path without an extension gets the engine's extension appended |
| Tts.Synthesize | app/modules/tts.py:28-44 | gTTS is used exactly when asked for, with the normalised text and the chosen path |
| Dialogue.Flatten | app/modules/scene_planner.py:3-7 | the flattening has one utterance per dialogue line, each tagged with a valid scene index, in scene order |
| Dialogue.FlattenAt | app/modules/scene_planner.py:5-7 | line `k` of scene `si` lands at position (lines of earlier scenes) + `k`, with its speaker and text |
| Dialogue.FlattenLineInScene | app/modules/video_gen.py:88-90 | every utterance is a line of the scene it names |
| Dialogue.FlattenEmpty | app/modules/video_gen.py:91 | there are no utterances exactly when no scene has a dialogue line |
| Dialogue.FlattenScenes | app/modules/video_gen.py:87-90 | the nested loop produces the flattening |
| Dialogue.Weight | app/modules/scene_planner.py:9 | `max(1, len(text))` is at least 1, and is the length for non-empty text |
| Dialogue.Shares | app/modules/video_gen.py:94-96 | there is one share of the duration per utterance |
| Dialogue.SharesPrefixSum | app/modules/video_gen.py:96-102 | the first `i` shares add up to the share of the first `i` weights |
| Dialogue.SharesSum | app/modules/video_gen.py:94-96 | the shares add up to the whole duration |
| Dialogue.SharesPositive | app/modules/video_gen.py:94-96 | each share of a positive duration is positive, even for an empty line |
| Dialogue.SharesMonotone | app/modules/scene_planner.py:9-13 | a longer line never gets less time than a shorter one |
| ScenePlanner.PlanOf | app/modules/scene_planner.py:2-17 | the plan has one entry per dialogue line |
| ScenePlanner.Plan | app/modules/scene_planner.py:2-17 | the loop produces the plan |
| ScenePlanner.PlanCopiesLines | app/modules/scene_planner.py:7 | each entry keeps its line's scene, speaker and text |
| ScenePlanner.PlanContiguous | app/modules/scene_planner.py:11-16 | the plan starts at 0 and each entry ends where the next begins |
| ScenePlanner.PlanSlot | app/modules/scene_planner.py:13 | each entry lasts the duration times its line's share of all characters |
| ScenePlanner.PlanSlotPositive | app/modules/scene_planner.py:9-13 | with positive audio every entry lasts a positive time |
| ScenePlanner.PlanSlotMonotone | app/modules/scene_planner.py:9-13 | a longer line is given at least as much time |
| ScenePlanner.PlanEndsAtTotal | app/modules/scene_planner.py:10-16 | the last entry ends exactly at the total audio time |
| ScenePlanner.PlanEmpty | app/modules/scene_planner.py:3-7 | the plan is empty exactly when no scene has dialogue |
| Envelope.Chunk | app/modules/video_gen.py:115 | the chunk is `N // total_frames`, but at least 1 |
| Envelope.SumSquares | app/modules/video_gen.py:121 | a sum of squares is non-negative |
| Envelope.MeanSquare | app/modules/video_gen.py:121 | `np.mean(ch ** 2)` is non-negative |
| Envelope.Levels | app/modules/video_gen.py:116-121 | there is one level per frame |
| Envelope.Level | app/modules/video_gen.py:117-121 | the RMS of chunk `i`, or 0 for an empty chunk; `LevelsNonNegative` and `FillLevels` show it is non-negative and is what the loop writes |
| Envelope.Max | app/modules/video_gen.py:122 | `env.max()` is an element at least as large as every element |
| Envelope.Normalised | app/modules/video_gen.py:122-123 | the normalisation keeps the number of frames |
| Envelope.BuildEnvelope | app/modules/video_gen.py:108-123 | the new array holds the normalised per-frame loudness |
| Envelope.FillLevels | app/modules/video_gen.py:116-121 | the loop writes into frame `i` the RMS of chunk `i`, or leaves 0 when the chunk is empty |
| Envelope.DivideByMax | app/modules/video_gen.py:122-123 | the array is divided in place by its maximum when that is positive |
| Envelope.SlicesOrdered | app/modules/video_gen.py:116-119 | chunk slices lie inside the samples, in order, without overlap |
| Envelope.SlicesTile | app/modules/video_gen.py:115-119 | with enough samples the chunks are all full, follow one another, and fewer than `total_frames` samples are left over |
| Envelope.ShortAudioSilent | app/modules/video_gen.py:115-121 | with fewer samples than frames, the frames past the end stay at 0 |
| Envelope.LevelsNonNegative | app/modules/video_gen.py:121 | every level is non-negative |
| Envelope.NormalisedBounded | app/modules/video_gen.py:122-123 | normalised levels lie in [0, 1] |
| Envelope.NormalisedPeak | app/modules/video_gen.py:122-123 | a non-silent envelope reaches 1 somewhere |
| Envelope.NormalisedSilent | app/modules/video_gen.py:122 | a silent envelope is left at 0 |
| Envelope.NormalisedRange | app/modules/video_gen.py:116-123 | the envelope lies in [0, 1], reaches 1 unless all silent, and is all 0 when silent |
| Envelope.NormalisedOrder | app/modules/video_gen.py:122-123 | normalising keeps the order between any two frames, both ways |
| VideoGen.ClipDuration | app/modules/video_gen.py:83 | the duration is the audio's, but at least one second |
| VideoGen.Trunc | app/modules/video_gen.py:84 | `int()` truncates toward zero |
| VideoGen.TotalFrames | app/modules/video_gen.py:84 | there is at least one frame |
| VideoGen.FrameIndex | app/modules/video_gen.py:136 | `min(total_frames - 1, int(tsec * fps))`; `FrameIndexInRange` and `FrameIndexMonotone` show it is a valid frame for a non-negative time and never decreases with time |
| VideoGen.TotalFramesCount | app/modules/video_gen.py:83-84 | for a clip of at least a second, the frame count is the floor of duration × fps, at least fps |
| VideoGen.FrameIndexInRange | app/modules/video_gen.py:136 | for a non-negative time the frame index is a valid envelope index |
| VideoGen.FrameIndexMonotone | app/modules/video_gen.py:136 | a later time never gives an earlier frame |
| VideoGen.Utterances | app/modules/video_gen.py:87-92 | there is always at least one utterance, and each names a real scene when there are scenes |
| VideoGen.UtterancesShape | app/modules/video_gen.py:87-92 | without any dialogue the single placeholder line is used, otherwise the flattening |
| VideoGen.CollectUtterances | app/modules/video_gen.py:87-92 | the loop produces those utterances |
| VideoGen.AllocateTimeline | app/modules/video_gen.py:94-105 | segments are the character shares; starts begin at 0, each start is the previous start plus its segment, and the last segment ends exactly at the duration |
| VideoGen.RunningStarts | app/modules/video_gen.py:98-102 | each start is the sum of the segments before it |
| VideoGen.LastSegmentEnds | app/modules/video_gen.py:103-105 | in exact arithmetic the clamp of the last segment adds nothing: the last segment already ends at the duration |
| VideoGen.StartsIncrease | app/modules/video_gen.py:98-102 | with a positive duration the starts strictly increase |
| VideoGen.LastAtOrBefore | app/modules/video_gen.py:152-155 | the scan ends on the last start at or before the time, or 0 when there is none |
| VideoGen.ActiveUtterance | app/modules/video_gen.py:151-156 | the loop and the clamp give that index, capped to a valid utterance |
| VideoGen.ActiveContainsTime | app/modules/video_gen.py:151-157 | during the clip the active utterance's segment contains the time |
| VideoGen.SceneFor | app/modules/video_gen.py:158 | the card shows the scene the utterance names, or the default card when there are no scenes |
| VideoGen.SceneHoldsLine | app/modules/video_gen.py:157-158 | when some scene has a dialogue line, the scene on the card holds the line being spoken |
| VideoGen.MouthRange | app/modules/video_gen.py:60 | a level in [0, 1] opens the mouth 6 to 30 pixels, never less for a louder level |
| VideoGen.MouthHeight | app/modules/video_gen.py:60 | `int(6 + env * 24)`; `MouthRange` bounds it to 6 to 30 pixels, monotone in the level |
| VideoGen.Bob | app/modules/video_gen.py:45 | the head moves down 0 to 4 pixels |
| VideoGen.ListenerQuieter | app/modules/video_gen.py:180-181 | the avatar not speaking moves at 15 % of the level, so its mouth is never wider than the speaker's |
| VideoGen.AvatarLevel | app/modules/video_gen.py:180-181 | the level an avatar is drawn with; `ListenerQuieter` shows the listener's lies between 0 and the speaker's |
| VideoGen.Progress | app/modules/video_gen.py:205 | the progress bar fraction lies in [0, 1] |
| VideoGen.ProgressInClip | app/modules/video_gen.py:205 | within the clip the fraction is time over duration, and it never decreases |
| TextLayout.WrapText | app/modules/video_gen.py:14-28 | the loop produces the greedy wrap of the words |
| TextLayout.WrapStep | app/modules/video_gen.py:18-25 | one turn of the loop; `StepExtends`, `StepFlushes` and `StepStarts` show it extends a fitting line, closes a full one, or starts one |
| TextLayout.WrapAll | app/modules/video_gen.py:14-28 | the lines of `_wrap_text`; `WrapAllWrapped` and `WrappedLines` show they split the words in order, fit unless a single word is too wide, and rejoin to the words |
| TextLayout.WrapAllWrapped | app/modules/video_gen.py:14-28 | the wrap splits the words into lines in order without loss; each line was measured to fit as it grew, and a line was closed only because the next word did not fit |
| TextLayout.WrappedLines | app/modules/video_gen.py:14-28 | the lines, joined by spaces, give back the words joined by spaces; there are no lines exactly when there are no words; no line is empty; a line fits the width unless it is a single word |
| TextLayout.StripCandidate | app/modules/video_gen.py:18 | `(cur + " " + w).strip()` is just `cur + " " + w` |
| TextLayout.WrapFromKeeps | app/modules/video_gen.py:17-25 | any property each loop step preserves holds after the loop |
| TextLayout.StepExtends | app/modules/video_gen.py:20-21 | a word that fits extends the current line |
| TextLayout.StepFlushes | app/modules/video_gen.py:22-25 | a word that does not fit closes the current line and starts a new one |
| TextLayout.StepStarts | app/modules/video_gen.py:22-25 | with no line being built, the word starts one, whether or not it fits |
| TextLayout.FinishFlush | app/modules/video_gen.py:26-27 | the last line being built is added at the end |

## Left out

- Reading the PDF (`extract_text`, PyPDF2 and pdfminer fallbacks): only `_clean_text` is modelled.
- The text-to-speech engines (`_tts_pyttsx3`, `_tts_gtts`): `Synthesize` stops at the request it would hand to an engine.
- Loading audio (`AudioFileClip`, `to_soundarray`): the samples are a parameter of `BuildEnvelope`.
- Averaging stereo channels: the samples are given as one channel.
- The rhythmic sine envelope used when reading samples fails (video_gen.py:124-127): it needs trigonometry and an exception.
- `np.sqrt` is a parameter `sqrt`; lemmas about levels assume only that it maps non-negative numbers to non-negative numbers.
- Pillow drawing, fonts, the background gradient, the card and bubble geometry, and writing the video file: these are rendering and I/O. `_text_size` is a parameter `width` of the wrap.
- The cuts `key_lines[:3]` and `lines[:6]` made while drawing, and the label text under the progress bar: drawing detail.
- Floating-point rounding: durations, shares and levels are real numbers. So `LastSegmentEnds` shows that the clamp of the last segment is a no-op in exact arithmetic; in floats it corrects drift.
- ScenePlanner.PlanSlot: the duration of each entry is stated as `Share(duration, weight, total)`, which is `duration * (weight / total)` on reals, not the float product.
- VideoGen.FrameIndexInRange: negative times are not covered; the clip library only asks for frames inside the clip.
- Whitespace is the ASCII set that `str.strip()`, `str.split()` and `\s` recognise (space, `\t` to `\r`, `\x1c` to `\x1f`); the other Unicode whitespace characters are not modelled.
- `lower()` only lowers ASCII capitals.
- `os.path.splitext` is modelled as on POSIX; the Windows variant also treats `\` and `:` as separators.
- Scenes and lines are records whose fields are always present. The `KeyError` that `sc["dialogue"]` raises in `plan` (scene_planner.py:6) for a scene without dialogue, where `generate_video` reads `sc.get("dialogue", [])` (video_gen.py:89) and treats it as empty, is not modelled; nor is `scenes or []` (video_gen.py:88), which lets `generate_video` accept `None` where `plan` raises.
- The dicts that `plan` mutates (`u["start"]`, `u["end"]`, scene_planner.py:14-15) are modelled as new records holding the added fields.
- The other modules (`motion.py`, `summarize.py`, `ai_models.py`, `render_diffusion.py`, `lipsync.py`, `compositor.py`, `main.py`) are not part of this model.
