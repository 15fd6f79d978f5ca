# MathPilot backend services: a Dafny model

This project models three backend services of MathPilot, a tool that turns a lecture video into study notes. Each is modelled as sequential Dafny code, with properties proved about it.

- **OCR post-processing** (`OcrProcessor`, `LatexPatterns`). A vision language model turns a slide image into markdown. Its answer is an input here. The service drops lines that look like a runaway `\begin{array}` repetition. It then collects the LaTeX formulas of the cleaned markdown with two fixed regular expressions: block `$$…$$` first, then inline `$…$`. `LatexPatterns` models both regexes as one left-to-right scanner, parameterised by the delimiter kind. `IsFindAll` is a declarative description of what `re.findall` returns: leftmost match, lazy `(.*?)`, search resumed after each match, lookarounds of the inline pattern checked against the whole text. The scanner is proved to produce exactly that description. No other span sequence meets it.
- **Transcript assembly** (`SttProcessor`). A speech-recognition response is turned into one transcript. The response has results, each with alternatives, each with timed words in milliseconds. The transcript holds the full text, one timed segment per usable result, and the duration. The recognition call is an input: either a response or a raised error.
- **Local storage** (`LocalStorage`). A storage client keeps objects as files under one directory and builds their URLs from a base URL. The directory is a `map` from key to bytes, held by a class whose methods update it in place.

`Text` models the Python `str` operations these services use: `split('\n')`, `'\n'.join`, `count`, `in`, `strip()`, `rstrip('/')` and `replace`. `strip()` uses Python's own set of whitespace characters.

Where the comments and the code of `_clean_hallucinations` disagree, the model follows the code. The comment on line 127 says a line with "3 or more" `\begin{array}` is suspicious. The docstring speaks of 5 or more. The code drops a line only at more than 3 (`count > 3`). `ThresholdIsMoreThanThree` proves that a short line with exactly three is kept.

## Model

| member | source | states |
|---|---|---|
| `Text.Split` | backend/app/services/vision/ocr_processor.py:124 | `split('\n')` gives at least one piece, and no piece holds a newline |
| `Text.JoinSplit` | backend/app/services/vision/ocr_processor.py:124-138 | joining the pieces of a split with `'\n'` gives the original text back |
| `Text.SplitJoin` | backend/app/services/vision/ocr_processor.py:124-138 | splitting a join of non-empty-list, newline-free pieces gives the same pieces back |
| `Text.CountPositiveContains` | backend/app/services/vision/ocr_processor.py:128-132 | a positive `count` of a pattern means the pattern is `in` the line |
| `Text.JoinEnds` | backend/app/services/vision/ocr_processor.py:138 | `'\n'.join` of a non-empty list starts with the first line, ends with the last line, and puts a newline right after the first line when there are two or more |
| `Text.Contains` | backend/app/services/vision/ocr_processor.py:132 | `p in s`, computed by trying each index from the left, holds exactly when `p` occurs at some index of `s` |
| `Text.Count` | backend/app/services/vision/ocr_processor.py:128 | `s.count(p)` counts non-overlapping occurrences, so it is at most `len(s) / len(p)` |
| `Text.Strip` | backend/app/services/audio/stt_processor.py:109-124 | `strip()` is `s` with a run of whitespace cut from its start and a run cut from its end, so no whitespace is left at either end; it is empty exactly when the text is all whitespace |
| `Text.StripUnique` | backend/app/services/audio/stt_processor.py:109-124 | any trimming of whitespace from both ends that leaves no whitespace at either end equals `strip()`, so the contract of `Strip` fixes its result |
| `Text.StripEndChar` | backend/app/services/storage/local_client.py:23 | `rstrip(c)` gives the longest prefix that does not end in `c`, and everything it removes is `c` |
| `Text.ReplaceChar` | backend/app/services/storage/local_client.py:35 | `replace(a, b)` for single characters keeps the length and turns each `a` into `b`, leaving every other character alone |
| `OcrProcessor.CleanHallucinations` | backend/app/services/vision/ocr_processor.py:114-138 | the loop returns the `'\n'`-join of the lines that pass both tests, in input order (`Cleaned`) |
| `OcrProcessor.KeptLinesSubsequence` | backend/app/services/vision/ocr_processor.py:124-138 | the kept lines are a subsequence of the input lines: same order, each line unchanged, never more lines |
| `OcrProcessor.KeptLinesMultiplicity` | backend/app/services/vision/ocr_processor.py:126-136 | a line is dropped exactly when it has more than 3 `\begin{array}` or is over 500 characters and holds one; every other line survives as often as it occurs |
| `OcrProcessor.KeptLinesMembers` | backend/app/services/vision/ocr_processor.py:126-136 | a line is in the output lines if and only if it is an input line that is not suspicious |
| `OcrProcessor.KeptLinesAll` | backend/app/services/vision/ocr_processor.py:126-136 | when no line is suspicious, every line is kept |
| `OcrProcessor.CleanedLines` | backend/app/services/vision/ocr_processor.py:124-138 | the lines of the cleaned text are the kept lines; when every line is dropped the result is `""` |
| `OcrProcessor.SuspiciousNeedsBeginArray` | backend/app/services/vision/ocr_processor.py:127-134 | only a line holding `\begin{array}` can be dropped |
| `OcrProcessor.CleanedWithoutBeginArray` | backend/app/services/vision/ocr_processor.py:124-138 | text without `\begin{array}` comes back unchanged |
| `OcrProcessor.CleanedIdempotent` | backend/app/services/vision/ocr_processor.py:114-138 | cleaning already-cleaned text changes nothing |
| `OcrProcessor.ThresholdIsMoreThanThree` | backend/app/services/vision/ocr_processor.py:127-129 | a short line with exactly three `\begin{array}` is kept; one with four is dropped |
| `OcrProcessor.LongLineWithOneBeginArrayDropped` | backend/app/services/vision/ocr_processor.py:131-134 | a line over 500 characters holding `\begin{array}` is suspicious, and it is absent from the kept lines of any input |
| `OcrProcessor.ExtractLatex` | backend/app/services/vision/ocr_processor.py:140-158 | every formula returned is a piece of the markdown, and the inline formulas, which follow the block ones, are non-empty and stay on one line; `ExtractLatexMeaning` pins the result to the two `findall` results |
| `OcrProcessor.ExtractLatexMeaning` | backend/app/services/vision/ocr_processor.py:140-158 | for the spans `findall` reports for each pattern, the result is the block groups in text order followed by the inline groups in text order; both span lists are ordered and non-overlapping |
| `OcrProcessor.ExtractLatexNeedsDollar` | backend/app/services/vision/ocr_processor.py:150-158 | text without a `$` yields no formulas |
| `OcrProcessor.BlockFormulaSpansLines` | backend/app/services/vision/ocr_processor.py:151-152 | `$$a\nb$$` yields the one formula `a\nb`: DOTALL lets a block run over lines |
| `OcrProcessor.BlockFormulasFirst` | backend/app/services/vision/ocr_processor.py:150-158 | `$x$ $$y$$` yields `["y", "x"]`: block formulas come before inline ones whatever their position |
| `OcrProcessor.ExampleBlockScan` | backend/app/services/vision/ocr_processor.py:151-152 | the block pattern finds exactly one match, at positions 4 to 7, in `$x$ $$y$$` |
| `OcrProcessor.ExampleInlineScan` | backend/app/services/vision/ocr_processor.py:155-156 | the inline pattern finds exactly one match, at positions 0 to 2, in `$x$ $$y$$` |
| `OcrProcessor.ProcessSlide` | backend/app/services/vision/ocr_processor.py:58-91 | the slide number is copied, `raw_text` is the model's answer unchanged, the markdown is the cleaned answer, the formulas are extracted from the cleaned answer |
| `OcrProcessor.ProcessSlides` | backend/app/services/vision/ocr_processor.py:93-112 | one result per pair of `zip(slides, images)`, so `min` of the two lengths, each describing its slide, in input order |
| `LatexPatterns.FindAll` | backend/app/services/vision/ocr_processor.py:151-156 | `re.findall` with one of the two patterns returns groups that are pieces of the text; inline groups are non-empty and hold no newline; `ScanIsFindAll` and `FindAllMeaning` show it returns what the leftmost-match description gives |
| `LatexPatterns.FindClose` | backend/app/services/vision/ocr_processor.py:151-156 | the lazy `(.*?)` stops at the first closing delimiter, and finds none if a non-content character comes first |
| `LatexPatterns.Scan` | backend/app/services/vision/ocr_processor.py:151-156 | every span the scanner reports is a match of the pattern; spans lie in the text, in order, without overlap |
| `LatexPatterns.ScanIsFindAll` | backend/app/services/vision/ocr_processor.py:151-156 | the scanner's spans are exactly those of `findall`: leftmost match first, search resumed after it, none left after the last |
| `LatexPatterns.LazyCloseUnique` | backend/app/services/vision/ocr_processor.py:151-155 | a match that starts at a given position has only one possible closing delimiter |
| `LatexPatterns.FindAllUnique` | backend/app/services/vision/ocr_processor.py:151-156 | at most one span sequence meets the `findall` description, so the scanner's is the only one |
| `LatexPatterns.FindAllInOrder` | backend/app/services/vision/ocr_processor.py:151-158 | the spans `findall` reports are in left-to-right order of occurrence and do not overlap |
| `LatexPatterns.FindAllMeaning` | backend/app/services/vision/ocr_processor.py:151-156 | any span sequence meeting the `findall` description gives the groups the scanner returns |
| `LatexPatterns.BlockGroupHasNoDoubleDollar` | backend/app/services/vision/ocr_processor.py:151-152 | a block group is the text between an opening `$$` and the nearest following `$$`, and never itself contains `$$` |
| `LatexPatterns.InlineGroupShape` | backend/app/services/vision/ocr_processor.py:155-156 | an inline group never contains a newline, is never empty, and both delimiters are a `$` with no `$` next to it |
| `LatexPatterns.NoDollarNoMatch` | backend/app/services/vision/ocr_processor.py:151-156 | neither pattern finds anything in text without a `$` |
| `SttProcessor.SegmentOf` | backend/app/services/audio/stt_processor.py:105-114 | a chunk with words runs from the first word's start to the last word's end, in seconds; one without words runs from 0 to 999999; the text is the stripped chunk |
| `SttProcessor.ParseResponse` | backend/app/services/audio/stt_processor.py:92-128 | `full_text` is the stripped concatenation of every first-alternative transcript plus `" "`; one segment per result that has an alternative, in order; duration is the last segment's end or 0; language `ko-KR`; an empty response gives `("", [], "ko-KR", 0)`; the fallback at lines 117-119 never adds a segment |
| `SttProcessor.Transcribe` | backend/app/services/audio/stt_processor.py:61-128 | without the Riva client, the fixed placeholder text, no segments and duration 0; a recogniser error propagates; otherwise the parsed response; every transcript is `ko-KR` |
| `SttProcessor.FirstAlternativesAppend` | backend/app/services/audio/stt_processor.py:98-103 | the chunks of two concatenated result lists are the concatenated chunks: each result is handled on its own, in order |
| `SttProcessor.OneResultContribution` | backend/app/services/audio/stt_processor.py:98-114 | a result without alternatives contributes nothing; any other contributes its first alternative and exactly one segment |
| `SttProcessor.SegmentCount` | backend/app/services/audio/stt_processor.py:98-114 | the number of segments is the number of results minus those without alternatives |
| `SttProcessor.SpacedTextLength` | backend/app/services/audio/stt_processor.py:103 | the unstripped text is empty exactly when no result had an alternative |
| `SttProcessor.FallbackUnreachable` | backend/app/services/audio/stt_processor.py:116-119 | when no segment was made, the stripped text is empty, so the fallback condition is false |
| `LocalStorage.NormalizeBaseUrl` | backend/app/services/storage/local_client.py:23 | the stored base URL is the given one minus its trailing `'/'` characters, and does not end in `'/'` |
| `LocalStorage.FileUrl` | backend/app/services/storage/local_client.py:32-36 | the URL is the base URL, `/`, then the key with each `\` replaced by `/`; no backslash of the key survives |
| `LocalStorage.LocalStorageClient.GetFileUrl` | backend/app/services/storage/local_client.py:32-36 | `_get_file_url` gives the client's base URL, a `/`, then the key with each `\` replaced by `/`, so no backslash is left in the key part |
| `LocalStorage.LocalStorageClient.constructor` | backend/app/services/storage/local_client.py:16-26 | the base URL is stored normalised, without a trailing `'/'`; the files are what the directory held |
| `LocalStorage.LocalStorageClient.Upload` | backend/app/services/storage/local_client.py:38-63 | the key now maps to the data (overwriting); every other key is unchanged; returns the file URL |
| `LocalStorage.LocalStorageClient.Download` | backend/app/services/storage/local_client.py:65-83 | the stored bytes for a present key; `FileNotFound(key)` for an absent one |
| `LocalStorage.LocalStorageClient.Delete` | backend/app/services/storage/local_client.py:85-95 | the key is gone afterwards; a no-op when it was absent; every other key is unchanged |
| `LocalStorage.LocalStorageClient.ObjectExists` | backend/app/services/storage/local_client.py:97-108 | true exactly when the key is stored |
| `LocalStorage.LocalStorageClient.GeneratePresignedUploadUrl` | backend/app/services/storage/local_client.py:110-130 | the same URL as `upload`; content type and expiry are ignored |
| `LocalStorage.LocalStorageClient.GeneratePresignedDownloadUrl` | backend/app/services/storage/local_client.py:132-149 | the same URL as `upload`; expiry is ignored |
| `LocalStorage.UploadThenDownload` | backend/app/services/storage/local_client.py:55-83 | after `upload(key, data)`, `download(key)` returns `data` |
| `LocalStorage.UploadTwiceThenDownload` | backend/app/services/storage/local_client.py:55-83 | a second upload to the same key overwrites the first |
| `LocalStorage.DeleteThenLookUp` | backend/app/services/storage/local_client.py:78-108 | after `delete(key)`, `object_exists(key)` is false and `download(key)` fails with `FileNotFound` |

## Left out

- The vision-model call (ocr_processor.py:74-78), its prompts and `SYSTEM_PROMPT`: a foreign network service. Its answer is a parameter. `ProcessSlides` takes `responses[i]` as the answer for the `i`-th pair and requires one answer per pair.
- `OCRProcessor.__init__` only stores the model client, which is not modelled. `DetectedSlide` keeps only `slide_number`; `app/services/vision/scene_detector.py` is not part of this model.
- Riva client setup, `STTProcessor.__init__` and the `offline_recognize` gRPC call (stt_processor.py:7-59, 81-89): a foreign network client. Whether the client is installed is the `rivaAvailable` flag. The call's result is the `Recognition` input, either a response or an error that `Transcribe` re-raises.
- Reading the audio file (stt_processor.py:71-75): opening the audio file can raise, for a missing or unreadable file, and the model does not represent that outcome. `Transcribe` raises only for an error of the recognition call.
- All `print` logging (stt_processor.py:77, 88, 112, 118): output with no effect on the result.
- Exceptions of the vision call: `analyze_image` (ocr_processor.py:74-78) can raise, and the exception propagates out of `process_slide` and out of `process_slides`, losing the results already made. The model does not represent that outcome, and `ProcessSlide` and `ProcessSlides` always return results.
- `async`/`await` throughout: the model is sequential.
- Floating point: the millisecond-to-second division is exact division on `real`, so rounding of `float` is not modelled.
- `_get_file_path` and `Path` semantics (local_client.py:28-30): a key stands for its own file, so `..`, absolute keys and OS separators are not modelled. Directory creation (`mkdir`, lines 26 and 58) and I/O errors other than a missing file are left out too. Keys that name directories are not modelled either: `Path.exists()` (lines 107-108) is true for a directory, so after `upload("videos/task-id/original.mp4")` the source finds `object_exists("videos")` true, and `object_exists("")` is always true, while the model answers false in both cases.
- `BaseStorageClient` and `BaseLLMClient` are not part of this model.
- General Python regular expressions: only the two fixed patterns of `_extract_latex` are modelled.
- `utils/download_youtube_video.py`: a command-line wrapper around the external `yt-dlp` tool, with no logic of its own to verify.
- The client-side task-lifecycle tracker (polling, summary triggering, SOS marks): its source is not among the modelled files, so it is not part of this model.
- Text.Count: its contract states only the non-overlap bound. That it scans from the left and resumes after each match is its definition, related to `in` by `CountPositiveContains` and to a leading match by `CountPrefix`.
