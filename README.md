# Lyrics video creator — a verified model of its pipeline core

The lyrics video creator turns a song, its lyrics and a background image into a
video with two-line subtitles. The lyrics are the Japanese line and its English
translation. This project models the sequential logic between the external
services, in Dafny, and proves what that logic promises. It covers four parts:

- **Lyric records and timing repair** (`lyric_data.dfy`, `timing.dfy`):
  - `convert_lyrics_to_json` turns raw lyrics into one record per non-blank, trimmed line.
  - `align_lyrics` is currently a test stub: record `i` runs from `4i` to `4i + 1`.
  - `correct_lyrics_timing` overwrites each record's text with the original line. It pads each end by one second, never past the next start. It works in place on an `array`, and it raises at the first step that cannot read its inputs.
- **Translation** (`translation.dfy`, `translate_command.dfy`):
  - Parsing the chat model's answer: fences are removed, then the answer is trimmed, split on `\n`, each line is trimmed, blank lines are dropped, and the text after the first comma is kept.
  - A retry loop runs at temperatures 0.0, 0.2, …, 1.0. It stops at the first answer with one line per record.
  - The translations are attached in place as `translations["en"]`.
  - Like the library, the stand-alone command checks that every record has `text`, `start` and `end`. It also checks that the input is a list. On a failed check it prints an error and returns instead of raising. It adds a default output path.
- **Subtitle plan** (`subtitles.dfy`, `movie_command.dfy`), the per-record part of `create_lyric_video`:
  - Records with missing or invalid times or a blank text are skipped.
  - The end is clamped to the media length.
  - Each kept record yields a lyric clip and a translation clip. The two share timing, sit at fixed offsets, use full and half font size, and carry optional 0.5 s fades.
  - A kept record without an English translation aborts the build.
  - The movie script always fades. It composites the background under the clips, in order.
- **Default output paths** (`output_paths.dfy`): `os.path.splitext(input)[0] + "_translated.json"` and `Path(music).with_suffix(".mp4")`.

`text.dfy` holds the Python string operations the core uses:
- `str.strip` over the exact `str.isspace` character set;
- splitting at every line-break character of `str.splitlines`, which agrees with `str.splitlines` once blank lines are dropped;
- `str.split` on one character, and `str.join`.

`wrappers.dfy` holds `Option` and `Result`.

The chat model is a parameter: a total function `(lyrics block, temperature) -> answer`. The same holds for:
- the media duration;
- the rendered height of a caption (a function of its text);
- the platform's path separators.

The library `backend/src/lyrics_video_creator/lib.py` and the scripts `02_align_lyrics.py`, `03_translate_lyrics.py` and `04_generate_movie.py` share this logic. The copies under `backend/` of the `02` and `04` scripts are identical to those at the top level. Rows cite one copy or the other.

Behaviour of the code worth knowing:
- `correct_lyrics_timing` does not demand as many original lines as records. It raises an `IndexError` only when there are fewer than `n - 1` of them (`Timing.TooFewOriginalLines`).
- It corrects the list in place. It does not build a new one.
- No check on the media duration exists, so non-positive durations are not rejected. Clips then get zero or negative durations (`Subtitles.CaptionTiming`).
- The clip build is not total: a kept record without `translations["en"]` aborts the whole run.

## Model

| member | source | states |
|---|---|---|
| Text.Strip | backend/src/lyrics_video_creator/lib.py:71 | `strip()` leaves no whitespace at either end and leaves an already-stripped string as it is |
| Text.TrimStartRemovesSpace | backend/src/lyrics_video_creator/lib.py:71 | what `strip()` removes from the front is all whitespace |
| Text.TrimEndRemovesSpace | backend/src/lyrics_video_creator/lib.py:71 | what `strip()` removes from the back is all whitespace |
| Text.StripEmpty | backend/src/lyrics_video_creator/lib.py:72 | a line strips to the empty string exactly when every character is whitespace |
| Text.SplitOn | backend/src/lyrics_video_creator/lib.py:241 | `split` always yields at least one piece |
| Text.SplitOnAvoids | backend/src/lyrics_video_creator/lib.py:241 | no piece of a split contains a separator |
| Text.SplitAt | backend/src/lyrics_video_creator/lib.py:241 | splitting `a + sep + b` gives the pieces of `a` followed by those of `b` |
| Text.Join | backend/src/lyrics_video_creator/lib.py:172 | definition of `sep.join(parts)`; `JoinCons`, `JoinSplit` and `SplitJoin` state its properties |
| Text.JoinSplit | backend/src/lyrics_video_creator/lib.py:248 | joining the pieces of a split with the separator restores the string |
| Text.SplitJoin | backend/src/lyrics_video_creator/lib.py:241 | splitting a join of separator-free pieces restores the pieces |
| Text.SplitAvoiding | backend/src/lyrics_video_creator/lib.py:248 | a string without a separator splits into itself alone |
| Text.StripEach | backend/src/lyrics_video_creator/lib.py:243 | the per-line strip keeps the number of lines |
| Text.StripEachStripped | backend/src/lyrics_video_creator/lib.py:243 | stripping lines that are already stripped changes nothing |
| Text.DropEmpty | backend/src/lyrics_video_creator/lib.py:245 | the blank-line filter keeps only non-empty lines, each one of the input's, and never more lines than the input |
| Text.DropEmptyKeepsAll | backend/src/lyrics_video_creator/lib.py:245 | lines that are all non-empty pass the filter unchanged |
| Text.StripPadded | backend/src/lyrics_video_creator/lib.py:241 | stripping a stripped body padded by one whitespace character on each side gives the body |
| LyricData.NonBlankLines | backend/src/lyrics_video_creator/lib.py:71-72 | every line kept is non-empty, stripped and free of line breaks |
| LyricData.ConvertLyricsToJson | backend/src/lyrics_video_creator/lib.py:67-73 | one record per non-blank line, in order: its text is the trimmed line and its language `"japanese"` |
| LyricData.RecordsAreTrimmedLines | 02_align_lyrics.py:62-64 | each record has a non-empty trimmed text, `language` `"japanese"`, and no times or translations |
| LyricData.NonBlankLinesAt | 02_align_lyrics.py:62-63 | the records of two blocks joined by a line break are the records of one block followed by those of the other |
| LyricData.NonBlankLinesOfLine | backend/02_align_lyrics.py:62-63 | a single line yields its stripped text, or nothing when it is blank |
| LyricData.NonBlankLinesOfJoin | backend/02_align_lyrics.py:62-64 | lyrics written as trimmed non-empty lines joined by `\n` come back line for line |
| Timing.Repaired | backend/src/lyrics_video_creator/lib.py:131-135 | definition of one loop step: the original text and `min(end + 1, next start)`; `CorrectedRecord` states it of the result |
| Timing.FirstFailure | backend/src/lyrics_video_creator/lib.py:129-135 | the first loop step that raises: every step before it succeeds, and it fails unless the loop completes |
| Timing.CorrectTiming | backend/src/lyrics_video_creator/lib.py:127-136 | the correction keeps the list's length and every start, and never touches the last record |
| Timing.CorrectLyricsTiming | backend/src/lyrics_video_creator/lib.py:120-136 | the in-place loop leaves exactly the state and error of `CorrectTiming` on the non-blank original lines |
| Timing.CorrectTimingStopsAt | 02_align_lyrics.py:112-118 | knowing the first failing step determines the whole outcome: repaired records before it, and the text of the failing record already written when a time is unreadable |
| Timing.CorrectTimingSucceeds | 02_align_lyrics.py:112-118 | the correction succeeds iff there are at least `n - 1` original lines and every `end[i]` and `start[i + 1]` it reads is a number |
| Timing.TooFewOriginalLines | 02_align_lyrics.py:114 | with readable times but fewer than `n - 1` original lines, the loop raises an index error at the first missing line |
| Timing.CorrectedRecord | 02_align_lyrics.py:113-118 | after success, record `i < n - 1` has the `i`-th original line and end `min(end + 1.0, next start)` |
| Timing.CorrectedTimelineDoesNotOverlap | backend/02_align_lyrics.py:116-118 | after a successful correction no record ends after the original start of the next one |
| Timing.ShortTimelineUnchanged | backend/02_align_lyrics.py:112 | lists of zero or one record come back unchanged and without error |
| Timing.GreetingExample | backend/src/lyrics_video_creator/lib.py:129-135 | two records over `[0, 2]` and `[2.5, 4]`: the first gets its line and ends at 2.5, and the second is unchanged |
| Timing.StubTimed | backend/src/lyrics_video_creator/lib.py:83-84 | definition: record `i` timed from `4i` to `4i + 1`; `AlignLyricsStub` and `StubThenCorrect` state it of the stub's output |
| Timing.AlignLyricsStub | backend/src/lyrics_video_creator/lib.py:81-86 | the stub returns the line records, with record `i` timed from `4i` to `4i + 1` |
| Timing.StubThenCorrectSucceeds | backend/src/lyrics_video_creator/lib.py:81-136 | correcting the stub's output against the same lyrics never raises |
| Timing.StubThenCorrect | backend/src/lyrics_video_creator/lib.py:81-136 | after stub and correction, record `i < n - 1` keeps its line and runs from `4i` to `4i + 2`, strictly before the next start |
| Translation.RemoveFences | backend/src/lyrics_video_creator/lib.py:237 | removing fences never lengthens the answer; with the lemmas below, which cover plain text, a fence, a short run of backticks and a short run at the end, the result is fixed on every input |
| Translation.RemoveFencesShortRun | backend/src/lyrics_video_creator/lib.py:237 | one or two backticks followed by another character are kept, so inline code survives; only runs of three are deleted |
| Translation.RemoveFencesShortTail | backend/src/lyrics_video_creator/lib.py:237 | backtick-free text ending in at most two backticks is returned unchanged |
| Translation.RemoveFencesAfterPlain | backend/src/lyrics_video_creator/lib.py:237 | text without backticks passes through `replace("```", "")` untouched, whatever follows it |
| Translation.RemoveFencesAfterFence | backend/src/lyrics_video_creator/lib.py:237 | a leading fence is deleted |
| Translation.RemoveFencesOfFenced | backend/src/lyrics_video_creator/lib.py:237 | a fenced block loses exactly its two fences |
| Translation.TranslationPart | backend/src/lyrics_video_creator/lib.py:247-249 | the translation part of a line is always stripped |
| Translation.TranslationPartOfRow | backend/src/lyrics_video_creator/lib.py:247-249 | from `original,translation` with a comma-free original, the part kept is the stripped translation, commas in it included |
| Translation.TranslationPartWithoutComma | 03_translate_lyrics.py:138-140 | a line without a comma maps to `""` and still counts as a line |
| Translation.ResponseLines | backend/src/lyrics_video_creator/lib.py:241-245 | the lines the parser keeps are non-empty |
| Translation.ParseResponse | backend/src/lyrics_video_creator/lib.py:237-249 | one stripped candidate per non-blank line of the unfenced answer |
| Translation.RowIsClean | backend/src/lyrics_video_creator/lib.py:199-203 | a row of the requested format built from clean fields is non-blank, stripped and free of line breaks and backticks |
| Translation.StripUnfenced | backend/src/lyrics_video_creator/lib.py:241 | trimming the unfenced answer leaves the join of its rows |
| Translation.LinesOfJoin | 03_translate_lyrics.py:132-136 | the non-blank trimmed lines of a join of clean rows are the rows |
| Translation.ResponseLinesOfFenced | 03_translate_lyrics.py:128-136 | the lines of a fenced answer are its rows |
| Translation.ParseFencedResponse | 03_translate_lyrics.py:128-140 | round trip: an answer in the prompt's format parses back to exactly its translations, one per original line |
| Translation.Temperature | backend/src/lyrics_video_creator/lib.py:206-217 | the six attempts run at temperatures within `[0.0, 1.0]` |
| Translation.RequestTranslation | backend/src/lyrics_video_creator/lib.py:206-271 | the loop tries 0.0, 0.2, … in order, stops at the first answer with one candidate per record, and tries all six when none fits; it returns that answer's lines or nothing |
| Translation.RetryTraceUnique | 03_translate_lyrics.py:110-162 | the temperatures tried are determined by the model's answers |
| Translation.RetryOutcomeLength | 03_translate_lyrics.py:99-155 | the result is empty or has exactly one line per record; temperatures rise strictly within `[0.0, 1.0]` and none is tried twice |
| Translation.FirstAnswerFits | backend/src/lyrics_video_creator/lib.py:252-254 | an answer that fits at 0.0 ends the loop after one request, with that answer's lines |
| Translation.NoAnswerFits | backend/src/lyrics_video_creator/lib.py:256-270 | when no answer fits, exactly 0.0, 0.2, 0.4, 0.6, 0.8 and 1.0 are tried and nothing is returned |
| Translation.HasRequiredKeys | backend/src/lyrics_video_creator/lib.py:162-168 | definition: the record has `text`, `start` and `end`; `TranslateLyrics` fails without a request when one lacks them |
| Translation.LyricsBlock | backend/src/lyrics_video_creator/lib.py:172 | definition: the texts joined with newlines; `LinesOfJoin` and `ParseFencedResponse` read such a block back |
| Translation.Texts | backend/src/lyrics_video_creator/lib.py:170-171 | the texts sent to the model are the records' texts, in order, one per record |
| Translation.WithTranslation | backend/src/lyrics_video_creator/lib.py:282-284 | `translations["en"]` is set, other languages are kept, a missing `translations` becomes `{"en": t}`, and nothing else changes |
| Translation.WithTranslationKeepsTiming | 03_translate_lyrics.py:173-175 | attaching a translation keeps the text, the times and the key check |
| Translation.AttachTranslations | 03_translate_lyrics.py:170-175 | record `i` of the array gets translation `i`, in place |
| Translation.TranslateLyrics | backend/src/lyrics_video_creator/lib.py:139-287 | fails on a record without `text`, `start` or `end`; otherwise runs the retry loop on the newline-joined texts and fails iff nothing non-empty fits (so an empty list always fails); on success every record gets its translation in place; on failure nothing changes |
| Translation.TranslatedInOneRequest | backend/src/lyrics_video_creator/lib.py:236-254 | when the model answers in the requested format at 0.0, one request is made and the accepted lines are the translations |
| OutputPaths.LastIndexIn | 03_translate_lyrics.py:61 | the last index holding one of the characters, or -1, with none after it |
| OutputPaths.TranslatedOutputPath | 03_translate_lyrics.py:61 | definition: the root of `splitext` plus `_translated.json`; `TranslatedOutputPathOfFile` and `TranslatedOutputPathWithoutExtension` give its value |
| OutputPaths.MovieOutputPath | 04_generate_movie.py:283 | definition: `with_suffix(".mp4")`; `MovieOutputPathOfFile` and `MovieOutputPathWithoutSuffix` give its value |
| OutputPaths.SplitExt | 03_translate_lyrics.py:61 | `splitext` cuts the path into root and extension, which restore it; a non-empty extension is a dot followed by no dot and no separator; the extension is non-empty iff the last component has a dot after a non-dot character |
| OutputPaths.TranslatedOutputPathOfFile | 03_translate_lyrics.py:212-213 | `dir/stem.ext` gets the default output `dir/stem_translated.json` |
| OutputPaths.TranslatedOutputPathWithoutExtension | 03_translate_lyrics.py:212-213 | a name with no dot after a non-dot character gets `_translated.json` appended (`lyrics`, `.bashrc`) |
| OutputPaths.DropTrailingSeparators | 04_generate_movie.py:283 | the normalised path is a prefix of the path with no trailing separator, and every character dropped is a separator |
| OutputPaths.WithSuffix | 04_generate_movie.py:283 | `with_suffix` fails iff the path has no last component; otherwise it is the directory part, the stem of the last component and the suffix, so it ends in the suffix |
| OutputPaths.Stem | backend/04_generate_movie.py:283 | the stem is the name, or the name cut at a last dot that is neither its first nor its last character; it differs from the name iff such a dot exists |
| OutputPaths.MovieOutputPathWithoutSuffix | 04_generate_movie.py:282-283 | a name with no dot except at its first or last character gets `.mp4` appended (`song`, `.bashrc`) |
| OutputPaths.MovieOutputPathOfFile | 04_generate_movie.py:282-283 | `dir/stem.ext` gets the default output `dir/stem.mp4`, dots in the stem included |
| OutputPaths.StemOfFile | backend/04_generate_movie.py:282-283 | the stem of `stem.ext` is `stem` |
| TranslateCommand.OutputPathFor | 03_translate_lyrics.py:60-61 | the path given, else the input path without extension plus `_translated.json` |
| TranslateCommand.TranslateLyricsFile | 03_translate_lyrics.py:46-175 | a record without the keys stops the command with no file and no request; otherwise the retry loop runs, and the command raises when nothing fits or saves the translated records to the output path |
| Subtitles.IsKept | backend/src/lyrics_video_creator/lib.py:363-380 | definition: both times present and numeric, stripped text non-empty, `0 <= start < end`; its consequences are in the Kept lemmas |
| Subtitles.HasEnglish | backend/src/lyrics_video_creator/lib.py:414 | definition: `lyric["translations"]["en"]` exists; `PlanOkIff` ties it to the build's success |
| Subtitles.Kept | backend/src/lyrics_video_creator/lib.py:357-380 | the kept records pass both validity checks and are no more than the input |
| Subtitles.KeptFromInput | backend/src/lyrics_video_creator/lib.py:357-380 | every kept record is one of the input records |
| Subtitles.KeptEmpty | 04_generate_movie.py:75-87 | nothing is kept exactly when every record fails a check |
| Subtitles.KeptConcat | backend/src/lyrics_video_creator/lib.py:357-380 | the records kept from `a + b` are those kept from `a` followed by those kept from `b`, so input order is kept |
| Subtitles.KeptSingle | backend/src/lyrics_video_creator/lib.py:357-380 | one record is kept iff it passes both checks |
| Subtitles.KeptComplete | backend/src/lyrics_video_creator/lib.py:357-380 | every record passing the checks is kept once, between the records kept before it and those kept after it |
| Subtitles.PlanOf | backend/src/lyrics_video_creator/lib.py:386-437 | two clips per kept record |
| Subtitles.PlanOfAt | backend/src/lyrics_video_creator/lib.py:411-437 | clip `2k` is record `k`'s lyric clip and clip `2k + 1` its translation clip |
| Subtitles.PlanOfFades | backend/src/lyrics_video_creator/lib.py:406-435 | every clip of a plan carries the layout's fade |
| Subtitles.PlanSnoc | backend/src/lyrics_video_creator/lib.py:411-437 | planning one more kept record appends its lyric clip, then its translation clip |
| Subtitles.KeptAreTranslated | backend/src/lyrics_video_creator/lib.py:414 | when every kept input record has an English translation, so does every kept record |
| Subtitles.AllTranslatedLast | 04_generate_movie.py:118 | with one more record, all kept records are translated iff the new one is not a kept record without a translation |
| Subtitles.PlanOkIff | backend/src/lyrics_video_creator/lib.py:414-450 | the build succeeds iff every kept record has `translations["en"]` |
| Subtitles.PlanValue | backend/src/lyrics_video_creator/lib.py:357-437 | a successful build is the closed-form plan of the kept records |
| Subtitles.PlanSucceeds | backend/src/lyrics_video_creator/lib.py:357-450 | success iff every kept record is translated, and then the clips are the two clips of each kept record, in order |
| Subtitles.PlanFails | backend/src/lyrics_video_creator/lib.py:414-450 | a failed build names a kept record without a translation, and every kept record before it is translated |
| Subtitles.BuildSubtitles | backend/src/lyrics_video_creator/lib.py:357-450 | the clip loop, with its `continue`s and its abort, computes the plan |
| Subtitles.PlanAborts | 04_generate_movie.py:139-144 | once the build has failed, later records change nothing |
| Subtitles.PlanAfterError | 04_generate_movie.py:139-144 | a failed prefix makes the whole build fail the same way |
| Subtitles.LyricCaptionText | backend/src/lyrics_video_creator/lib.py:360-363 | a kept record's lyric clip shows its trimmed text, which is never empty |
| Subtitles.Duration | backend/src/lyrics_video_creator/lib.py:382-383 | definition: `min(end, media length) - start`; `CaptionTiming` states its sign and end point |
| Subtitles.LyricCaption | backend/src/lyrics_video_creator/lib.py:387-411 | definition of the lyric clip; `CaptionPair`, `LyricCaptionText` and `CaptionTiming` state its fields |
| Subtitles.TranslationCaption | backend/src/lyrics_video_creator/lib.py:413-437 | definition of the translation clip; `CaptionPair` states its fields relative to the lyric clip |
| Subtitles.SubtitlePlan | backend/src/lyrics_video_creator/lib.py:357-450 | reference definition of the clip loop, which `BuildSubtitles` is proved to compute; `PlanOkIff`, `PlanValue` and `PlanFails` characterise it |
| Subtitles.CaptionTiming | backend/src/lyrics_video_creator/lib.py:382-383 | a clip starts at the record's non-negative start and ends at `min(end, media length)`; the end is the record's end when the media is long enough; the duration is positive iff the start is before the media end |
| Subtitles.CaptionPair | backend/src/lyrics_video_creator/lib.py:386-437 | the two clips share start, duration and fade; the lyric clip's bottom sits on the bottom margin and the translation 10 px below it; full and half (rounded down) font size; a 0.5 s fade iff fades are enabled |
| Subtitles.PlanEntries | 04_generate_movie.py:94-137 | a translated run yields `2 × kept` clips: lyric then translation for each kept record, in record order |
| Subtitles.PlanFades | backend/src/lyrics_video_creator/lib.py:406-435 | every clip of a translated run carries the layout's fade |
| Subtitles.NothingKept | 04_generate_movie.py:75-87 | when no record passes the checks the build succeeds with no clips |
| Subtitles.ClampedAtMediaEnd | 04_generate_movie.py:89-90 | a line sung from 8 s to 15 s over a 10 s track starts at 8 s and lasts 2 s |
| MovieCommand.MovieLayout | 04_generate_movie.py:112 | the script's layout always has fades on |
| MovieCommand.Composite | 04_generate_movie.py:150 | the background first, then the clips in order |
| MovieCommand.CompositeOrder | backend/04_generate_movie.py:115-150 | the layers are the background, then lyric and translation clip of each kept record, in order: `1 + 2 × kept` layers |
| MovieCommand.CreateLyricVideo | 04_generate_movie.py:69-151 | the run fails iff a kept record lacks a translation, with the plan's error; otherwise it yields the composite of the plan built with fades |
| MovieCommand.MovieClipsFade | backend/04_generate_movie.py:112-135 | every clip layer of the movie fades in and out over 0.5 s |
| MovieCommand.MovieOutputFor | 04_generate_movie.py:282-283 | the output path given, else the music path with suffix `.mp4` |

## Left out

- The alignment service (`MusicAiJobRunner`, uploads, temporary files) and the real path of `align_lyrics` after the stub's `return`: network I/O, and unreachable in the library.
- The chat model (`ChatOpenAI`, the prompt template, the fixed seed and timeout): it is a parameter, the function from the lyrics block and the temperature to the answer. Because that function is total, it cannot express an exception from `chain.invoke` (`lib.py:236`), a timeout included, which ends `translate_lyrics` at once without further retries.
- moviepy (`AudioFileClip`, `ImageClip`, `TextClip` rendering, `CompositeVideoClip`, `with_audio`, `write_videofile`, resource clean-up): the media duration and the rendered caption height are parameters, and a caption is a record of its text, font size, position, timing and fade.
- The caption box width `int(video_width * 0.9)`, colours, stroke and fonts: rendering settings that no logic reads.
- Font lookup (`font.py`, `get_font_path`, the registry): platform I/O.
- Errors raised while rendering a clip: the source logs and re-raises them. Only the missing translation is modelled as an abort.
- The web applications (`backend/main.py`, both `app.py` files): HTTP endpoints and file storage.
- Logging, printing, argparse, dotenv, the API-key checks, JSON reading, and JSON writing with its errors: I/O around the core.
- The default output of `02_align_lyrics.py` (`stem + "_aligned.json"` next to the lyrics file): pure path I/O of a script whose alignment calls the network.
- The non-list input branch of `translate_lyrics` in the library: it refers to an undefined name and would raise a `NameError`.
- TranslateCommand.TranslateLyricsFile: the script's check that the top-level JSON value is a list (`03_translate_lyrics.py:47-49`, which prints and returns) is not modelled. The records arrive as an array, which cannot hold a non-list value.
- Translation.Temperature: exact `step × 0.2` instead of the float sum (0.6000000000000001 at the third retry). The six temperatures tried are the same.
- Translation.RequestTranslation: the dead early-exit test (`translated_lines_list is None` never holds) is left out. The loop ends by its `while` condition after six attempts.
- Translation.RequestTranslation: stated for any reader of answers, not only the parser; `TranslateLyrics` instantiates it with `ParseResponse`.
- Translation.ParseFencedResponse: proved for originals without a comma and fields without a line break or backtick. Other answers are parsed by the same function, but no round trip is claimed for them.
- Translation.TranslateLyrics: the shallow `copy.copy` is modelled by updating the caller's records in place. Aliasing between records is not modelled.
- Translation.HasRequiredKeys: JSON values that are not objects, or a `text` that is not a string, are not representable. Every record is an object and `text` is absent or a string.
- Subtitles.IsKept: a JSON `null` text (`None.strip()` raises), non-string texts, and booleans passing `isinstance(…, int)` are not representable. Times are exact reals.
- Subtitles.BuildSubtitles: the lyric clip appended just before a missing translation aborts is not returned, because the run raises and its clips are discarded.
- OutputPaths.WithSuffix: `pathlib`'s other normalisations (`.` components, repeated separators, drive letters) and its check that the suffix is valid are left out. The suffix is always `.mp4`.
- Text.SplitOn: with the line breaks as separators it differs from `str.splitlines`. On `""` it gives `[""]` where `splitlines` gives `[]`. On `"a\n"` it gives `["a", ""]` where `splitlines` gives `["a"]`. On `"a\r\nb"` it gives `["a", "", "b"]` where `splitlines` gives `["a", "b"]`. The extra pieces are all empty, so `LyricData.NonBlankLines`, which drops blank lines, yields the lines `splitlines` would. That agreement is argued here, not proved.
- Timing.CorrectTiming: a JSON boolean time is a number to the addition and `min` of `lib.py:133-134`, which treat it as 0 or 1. The model classes it as `NotNumeric` and reports `MalformedTime`.
- Translation.WithTranslation: a `null` or non-object `translations` value makes `lib.py:284` raise a `TypeError`. `Option<map>` cannot represent it, so that failure is not modelled.
- Text.IsSpace and Text.LineBreaks: exact character sets, without Unicode normalisation, since Dafny's `char` carries no Unicode categories.
