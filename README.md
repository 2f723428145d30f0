# OCR translation text layer, in Dafny

This project models the text-processing layer of a set of Python scripts.
The scripts merge OCR text files, cut the text into pieces a translation
service accepts, find the sentences that are not in English, translate them
and group sentences by detected language. The remote translator and the
language detector are parameters of the model: functions from a string to
`Option<string>`, where `None` stands for a call that raised.

The model has four modules:

- `Text` (`text.dfy`): the Python string operations the scripts rely on.
  These are `str.strip()`, `''.join`, `sep.join`, the `\s` whitespace class
  and `str.isascii()`. `NonSpace` (the non-whitespace characters of a
  string, in order) is the yardstick for "nothing but whitespace is lost".
- `MainScript` (`main_script.dfy`), which models `main.py`:
  - `merge_text_files`, with the directory listing given as a sequence of
    files;
  - `split_text`, the cut at the last `.` before `max_length`;
  - `translate_text`, which joins the chunk translations with spaces.
- `TranslationHelper` (`translation_helper.dfy`), which models
  `translationHelper.py`:
  - the segmentation on a whitespace run after one of eight sentence
    enders;
  - `is_english_text`;
  - the chunking loop and the translation join of `translate_to_english`;
  - `check_and_translate_non_english_content`, which drops short units,
    fills slots by index and joins them.
- `LangDetect` (`lang_detect.dfy`), which models `lang-detect.py`:
  - the zero-width sentence split after one of six enders;
  - `detect_and_group_sentences`, the one-pass grouping of adjacent
    sentences with the same detected language.

Each loop of the scripts is a `method` with a loop and its invariants. The
method is proved against a recursive or closed-form specification function:
`SplitChunks`, `Blocks`, `Translations`, `ChunksOf`, `EnglishOf`,
`Outcomes`/`Reassembled`, `Stored` or `Runs`/`Rendered`. The properties the scripts promise are lemmas about those
functions.

Concurrency is modelled by making the completion order an input:
- The chunk translations of `translate_to_english` are joined in
  `as_completed` order. That order is an input, `completion`, which may be
  any permutation of the chunk indices.
- The language checks of `check_and_translate_non_english_content` complete
  in an input order, `order`, which lists each kept unit's index exactly
  once.
- `CheckAndTranslate`'s contract does not mention `order`, so its result
  does not depend on it.

## Model

| member | source | states |
|---|---|---|
| MainScript.MergeTextFiles | main.py:19-31 | Each `.txt` file with at least one line contributes its stripped first line, a newline, its remaining lines stripped and run together, then a blank line. Other entries and empty files contribute nothing, and the whole text is stripped. The merged text holds exactly the non-space characters of the `.txt` files, in listing and line order. |
| MainScript.FileBlockNonSpace | main.py:23-30 | One file's block holds the non-space characters of its lines; an entry that is not a `.txt` file adds none. |
| MainScript.MergedNonSpace | main.py:21-31 | The stripped merged text loses only whitespace of the `.txt` files' contents. |
| MainScript.RFind | main.py:39 | `rfind('.', 0, end)` returns -1 or an index below `end` that holds the character. |
| MainScript.RFindIsLast | main.py:39 | No occurrence lies between the found index and `end`. |
| MainScript.Rest | main.py:43 | The remaining text is strictly shorter than the text, so the loop terminates. |
| MainScript.SplitText | main.py:36-45 | The loop returns exactly `SplitChunks(text, maxLength)`. A text within the budget gives `[text]`. Every chunk but the last either ends in `.` and fits the budget, or holds no `.` and is `maxLength + 1` long. The last chunk fits the budget. The chunks hold the text's non-space characters in order. |
| MainScript.SplitFirstChunk | main.py:38-42 | The first cut of an over-long text is a prefix of it. When a `.` lies among the first `maxLength` characters, the chunk ends at the last such `.` and fits the budget. Otherwise the chunk is `text[..maxLength + 1]`, one character over the budget. |
| MainScript.SplitChunksShape | main.py:38-44 | Every chunk but the last is an inner chunk (cut at a `.` within the budget, or one character over it when there is no `.`); the last fits the budget. |
| MainScript.SplitChunksLast | main.py:38-44 | The last chunk has at most `maxLength` characters. |
| MainScript.SplitChunksNonSpace | main.py:42-43 | The chunks run together hold the non-space characters of the text, none lost, duplicated or moved. |
| MainScript.TranslateText | main.py:47-57 | The result is present exactly when every chunk translates. It is then the chunk translations joined by single spaces, in chunk order. |
| MainScript.IdentityTranslationKeepsText | main.py:36-54 | With a translator that returns its input, split then translate gives back the text up to whitespace. |
| TranslationHelper.FirstCut | translationHelper.py:12 | The position found is a cut: whitespace right after a sentence ender. |
| TranslationHelper.FirstCutIsFirst | translationHelper.py:12 | No cut lies before the one found. |
| TranslationHelper.RunEnd | translationHelper.py:12 | `\s+` is greedy: the run ends at the end of the text or at a non-space character. |
| TranslationHelper.RunEndSpaces | translationHelper.py:12 | The dropped run consists of whitespace only. |
| TranslationHelper.Segment | translationHelper.py:65 | There is one unit more than there are dropped runs. |
| TranslationHelper.SegmentRebuilds | translationHelper.py:10-12 | Interleaving the units with the dropped runs gives back the input. |
| TranslationHelper.SegmentGaps | translationHelper.py:12 | Every dropped run is a non-empty run of whitespace. |
| TranslationHelper.SegmentUnitEnds | translationHelper.py:10-12 | Every unit followed by a run is non-empty and ends with one of the eight sentence enders: the ender stays in the left unit. |
| TranslationHelper.SegmentUnitStarts | translationHelper.py:12 | Every unit after the first is empty or starts with a non-space: the whole run is removed. |
| TranslationHelper.SegmentUnitsUncut | translationHelper.py:12 | No unit still holds an ender followed by whitespace: the text is split at every such place. |
| TranslationHelper.InterleaveNonSpace | translationHelper.py:65 | Dropping whitespace runs keeps the units' non-space characters. |
| TranslationHelper.EnglishWithinTotal | translationHelper.py:16-17 | The English count never exceeds the total count. |
| TranslationHelper.CountsAppend | translationHelper.py:16-17 | Both counts add up over concatenation. |
| TranslationHelper.AsciiTextIsEnglish | translationHelper.py:16-23 | An all-ASCII sentence counts every character as English and is English, including one with no counted characters. |
| TranslationHelper.CountsSplit | translationHelper.py:16-17 | Every counted character is either an English one or another one: the total is the English count plus the other count. |
| TranslationHelper.IsEnglishText | translationHelper.py:14-23 | True when no character is counted; otherwise true exactly when `2 * english > total`, that is, when the English characters outnumber the other counted ones. |
| TranslationHelper.HalfEnglishIsNot | translationHelper.py:23 | Any sentence whose counted characters are exactly half English (`2 * english == total > 0`) is not English: the test is strictly greater than 50%. |
| TranslationHelper.MixedHalfIsNot | translationHelper.py:16-23 | An all-ASCII part followed by an equally counted part with no English characters is exactly half English, so it is not English. |
| TranslationHelper.IndexOf | translationHelper.py:35 | The index found holds a `.`. |
| TranslationHelper.IndexOfIsFirst | translationHelper.py:35 | No `.` lies before the index found. |
| TranslationHelper.SplitDots | translationHelper.py:35 | `split('.')` returns at least one piece. |
| TranslationHelper.SplitDotsJoin | translationHelper.py:35 | Joining the pieces with `.` gives back the text. |
| TranslationHelper.SplitDotsNoDot | translationHelper.py:35 | No piece contains a `.`. |
| TranslationHelper.AfterDot | translationHelper.py:35 | What follows the first `.` is shorter than the text. |
| TranslationHelper.PackFlat | translationHelper.py:35-43 | The closed groups and the open one hold the pieces, in order; after a piece the open group is non-empty. |
| TranslationHelper.PackLength | translationHelper.py:36-43 | `current_length` is the sum of `len(piece) + 1` over the open group. |
| TranslationHelper.PackNonEmpty | translationHelper.py:37-43 | Only the first closed group can be empty. |
| TranslationHelper.PackFit | translationHelper.py:37-43 | A group over the budget holds at most one piece. |
| TranslationHelper.PackSpurious | translationHelper.py:37-43 | The first closed group is empty exactly when the first piece alone is over the budget. |
| TranslationHelper.PackGreedy | translationHelper.py:37-43 | A group is closed only because the next piece would not fit beside it. |
| TranslationHelper.PackUnderBudget | translationHelper.py:35-39 | Pieces whose total charge fits the budget all stay in the open group. |
| TranslationHelper.GroupsShape | translationHelper.py:35-47 | The emitted groups hold the pieces in order. The first group is empty exactly when the first piece is over the budget, and no later group is empty. Each group fits the budget or holds a single piece. |
| TranslationHelper.GroupsGreedy | translationHelper.py:37-43 | Each group after the first starts with a piece that did not fit beside the previous group. |
| TranslationHelper.RenderLength | translationHelper.py:41-47 | A rendered non-empty group is as long as its charge. |
| TranslationHelper.ConcatRenderAll | translationHelper.py:41-47 | The rendered groups, run together, are the pieces joined with `.` plus a closing `.`. |
| TranslationHelper.ChunkText | translationHelper.py:29-47 | The loop returns `ChunksOf(text, chunkSize)`. Every chunk's length is the sum of `len(piece) + 1` over its pieces, and it fits the budget or holds one piece. A first piece over the budget yields a lone `"."` chunk first. The chunks run together give the text plus a final `.`, preceded by the spurious `.` when there is one. |
| TranslationHelper.ChunkFacts | translationHelper.py:35-47 | The facts `ChunkText` promises, proved about `ChunksOf`. |
| TranslationHelper.ChunkLengths | translationHelper.py:36-47 | A non-empty group renders to its charge, every rendered chunk fits or holds one piece, and an empty group renders to `"."`. |
| TranslationHelper.ChunkConcat | translationHelper.py:41-47 | The chunks run together give the pieces joined with `.`, with a closing `.`, preceded by `.` when the first group is empty. |
| TranslationHelper.ChunkConcatLeadingEmpty | translationHelper.py:41-43 | With an empty first group, the chunks start with the spurious `.`. |
| TranslationHelper.RenderEmptyGroup | translationHelper.py:41 | An empty group renders to the lone chunk `"."`. |
| TranslationHelper.SingleChunk | translationHelper.py:35-47 | A text whose length plus one fits the budget becomes the single chunk `text + "."`. |
| TranslationHelper.OrderCovers | translationHelper.py:56 | A completion order is as long as the chunk list and lists every chunk index. |
| TranslationHelper.TranslateToEnglish | translationHelper.py:25-61 | The result is `EnglishOf`: absent when a translation of a stripped chunk raised, otherwise the translations joined by single spaces in completion order. |
| TranslationHelper.ShortTextOneCall | translationHelper.py:25-61 | A text that fits one chunk is translated in a single call on `strip(text + ".")`, whatever the completion order. |
| TranslationHelper.OneChunkOrder | translationHelper.py:56 | A single chunk has a single completion order. |
| TranslationHelper.EnglishOfIdentity | translationHelper.py:29-61 | With a translator that returns its input, and when the translations complete in chunk order, the result holds the text's non-space characters plus the closing `.`, and the spurious one when there is one. |
| TranslationHelper.CheckAndTranslate | translationHelper.py:63-96 | The result is present exactly when no kept unit's translation raised. The flag is true exactly when some unit longer than three stripped characters is not English. The text is `strip` of the kept units' outcomes in index order: an English unit unchanged, any other its translation, each followed by two spaces. None of this depends on the order in which the checks complete. |
| TranslationHelper.FilledStep | translationHelper.py:72-85 | Storing one checked unit's outcome plus `" "` at its own index keeps the slot invariant. |
| TranslationHelper.FilledSlots | translationHelper.py:68-96 | Once every kept unit is checked, no translation raised, and joining the slots gives the reassembled outcomes. |
| TranslationHelper.FlaggedStep | translationHelper.py:78-80 | The flag after one more check is the old flag or that unit being non-English. |
| TranslationHelper.CheckOrderCovers | translationHelper.py:67-80 | After all checks, the flag is set exactly when some kept unit is non-English. |
| TranslationHelper.JoinStored | translationHelper.py:88-94 | The joining loop returns `Stored(slots)`: the non-empty slots in index order, each followed by a space unless it ends with an ender. |
| TranslationHelper.StoredReassembled | translationHelper.py:85-94 | Since every stored slot ends in `" "`, the ender test never holds, and each kept unit is followed by two spaces. |
| TranslationHelper.ReassembledNonSpace | translationHelper.py:85-94 | When every unit has an outcome equal to itself, the reassembled text holds the units' non-space characters. |
| TranslationHelper.EnglishTextKept | translationHelper.py:63-96 | A text whose units are all kept and all English needs no translation, and the output holds exactly the input's non-space characters. |
| LangDetect.FirstBoundary | lang-detect.py:11 | The position found is a boundary: after an ender and before whitespace. |
| LangDetect.FirstBoundaryIsFirst | lang-detect.py:11 | No boundary lies before the one found. |
| LangDetect.PiecesRebuild | lang-detect.py:14 | The zero-width split loses nothing: the pieces run together give back the text. |
| LangDetect.PiecesCutAtBoundaries | lang-detect.py:11-14 | Every piece but the last ends with one of the six enders, and every piece after the first starts with whitespace. |
| LangDetect.PiecesUncut | lang-detect.py:11-14 | No piece holds a boundary, so a run of enders such as `!?` is not split. |
| LangDetect.CleanSentences | lang-detect.py:17 | No cleaned sentence is empty or has whitespace at either end. |
| LangDetect.CleanNonSpace | lang-detect.py:17 | Stripping and dropping empty pieces keeps every non-space character. |
| LangDetect.SplitText | lang-detect.py:9-19 | `split_text` is a zero-width cut at every ender followed by whitespace, then each piece is stripped and the empty ones are dropped. It never returns an empty sentence or one with leading or trailing whitespace. The sentences hold the text's non-space characters, in order, none lost or duplicated. |
| LangDetect.CleanEnds | lang-detect.py:14-17 | Stripping and dropping empty pieces keeps the ender that closes each piece but the last: every sentence before the last one ends with an ender. |
| LangDetect.SplitTextEnds | lang-detect.py:7-17 | Every sentence but the last ends with a sentence ender. |
| LangDetect.GroupKeepsFlat | lang-detect.py:27-44 | The loop state holds the sentences in order, closed groups are non-empty, and the open group carries the last sentence's language. |
| LangDetect.GroupCounts | lang-detect.py:34-44 | The closed groups number the language changes between adjacent sentences. |
| LangDetect.GroupKeepsDiffer | lang-detect.py:34-44 | Adjacent groups of the loop state differ in language. |
| LangDetect.GroupKeepsMembers | lang-detect.py:34-44 | Every sentence in the loop state carries its group's language. |
| LangDetect.RunsCover | lang-detect.py:27-48 | Every sentence lands in exactly one group, in order, and no group is empty. |
| LangDetect.RunsDiffer | lang-detect.py:34-44 | Adjacent returned groups have different detected languages, so consecutive failures (`None`) never form two groups. |
| LangDetect.RunsLanguages | lang-detect.py:29-36 | Every sentence's detected language, `None` for a failure, is its group's. |
| LangDetect.RunsCount | lang-detect.py:34-48 | There are no groups for no sentences, else one more than the number of adjacent language changes. |
| LangDetect.RunsStart | lang-detect.py:25-44 | The first sentence opens the first group with its own language, also when its detection fails and equals the initial `None`. |
| LangDetect.RenderedJoin | lang-detect.py:41-48 | Joining the group strings with spaces equals joining the sentences with spaces. |
| LangDetect.RenderedNonEmpty | lang-detect.py:39-48 | With non-empty sentences, no returned group string is empty. |
| LangDetect.GroupedSentences | lang-detect.py:22-50 | For the sentences of any text, `' '.join` of the groups equals `' '.join` of the sentences, and no group is empty. |
| LangDetect.DetectAndGroup | lang-detect.py:21-50 | The loop returns `Rendered(Runs(...))`. `' '.join` of the groups equals `' '.join` of the sentences, and no group is empty. |

## Left out

- helper.py and pdf_merger.py: terminal input, menus, JSON configuration, Word automation and PDF merging are I/O and library calls.
- main.py: `get_folder_path`, `create_docx_with_translated_text`, `convert_docx_to_pdf`, `clean_up` and `main` are I/O and library calls. Reading files is modelled by giving each file as its name and its `readlines()` result.
- MainScript.MergeTextFiles: `os.listdir` order is arbitrary, so the listing is an input sequence; an I/O error (which makes the script print and exit) is not modelled.
- MainScript.SplitText: `max_length` is a `nat`; with a negative budget the source loop never ends.
- MainScript.TranslateText: a translator exception, after which the script prints and exits, is the `None` result.
- The remote translator and `langdetect.detect` are function parameters; `DetectorFactory.seed` is process-wide configuration with no counterpart.
- `str.isalnum` is the parameter `isAlnum`; `\s` and `str.strip()` use a fixed set of whitespace characters (`Text.IsSpace`) that follows Python's `str.isspace()`.
- TranslationHelper.IsEnglishText: the floating-point ratio `english / total > 0.5` is the integer test `2 * english > total`, which agrees exactly.
- TranslationHelper.TranslateToEnglish: the thread pool is not modelled. The order in which chunk translations complete is the input `completion`, any permutation of chunk indices, and the text is joined in that order. The model does not say which order occurs.
- TranslationHelper.CheckAndTranslate: the thread pool is not modelled. The order in which the language checks complete is the input `order`, and each sentence's chunk completion order is in `completions`. A translation that raises ends the call with `None`; the model does not say which other slots were filled by then.
- LangDetect.DetectAndGroup: the message printed when detection fails is not modelled; the failure itself is the `None` language.
- The example run at the bottom of lang-detect.py (lines 53-58) is a script-level demonstration and is not modelled.
