# subdetector — a Dafny model of the detection pipeline

`subdetector` reports the language of every subtitle track in a media
container, or of one standalone subtitle file. This project models its
detection pipeline and proves properties of that model:

- deciding whether the input is a container or a standalone subtitle (`Classifiers`);
- classifying a standalone file's representation as text or image (`Classifiers`);
- naming the file a container track is extracted to (`Paths`);
- reducing a text subtitle to a language sample (`TextLanguage`): the ASS/SSA
  `[Events]` cut, dialogue extraction, override-tag stripping, and two-tier
  sampling of at most 20 lines;
- pooling OCR text over at most five frames of an image subtitle (`ImageLanguage`);
- the orchestration that chooses a strategy per track and collects one result
  per track (`Orchestrator`).

The repository ships its script twice with byte-identical contents,
`src/subdetector/detector.py` and `int.py`; the table cites the former, and
every line number holds for both.

Every external tool is an input to the model. The model does not run ffprobe,
ffmpeg, Tesseract or the language identifier. The `Tools` record holds what
each of them answers:

- the probe's exit status;
- the subtitle stream list;
- whether an extracted file exists;
- a file's decoded content;
- the frames extracted from a payload;
- the OCR outcome of each frame;
- the identifier's verdict on a text.

Python's own semantics are written out where the pipeline depends on them:

- `str.split`, `str.join`, and `str.strip` emptiness (with Python's whitespace code points);
- POSIX `os.path.splitext` and `os.path.join`;
- the three regular expressions, coded by hand;
- the list comprehensions, as order-preserving filters.

The two loops of the pipeline are methods with loop invariants: the loop over
a container's streams (`Orchestrator.DetectTracks`) and the OCR loop over the
first five frames (`ImageLanguage.CollectTexts`). Each is proved equal to a
specification function (`MediaRun`, `OcrTexts`), and the properties are
lemmas about those functions. The methods that call them,
`Orchestrator.DetectSubtitleLanguages` and `ImageLanguage.DetectImageLanguage`,
are proved to compute `Detection` and `OcrLanguage`.

Behaviours of the code that the model keeps:

- **A failed extraction is never reported as `unknown-format`.** An untagged
  track whose extraction produced no file assigns no `source` at all. If it
  is the first track, the run raises `UnboundLocalError` (the model's
  `Failure(SourceUnbound)`). If it is a later track, the previous track's
  source is reused, with no language. `Orchestrator.ContainerFailure`,
  `Orchestrator.UnassignedSourceLeaks` and the two scenario lemmas state this.
- **The text codec family** used for dispatch is `ass`, `subrip` and `srt`.
- **The extraction extension** comes from the codec table, which has no `srt`
  entry, so an `srt` codec is written to `track_<n>.sub` and sampled without
  ASS handling.

## Model

| member | source | states |
|---|---|---|
| Strings.LowerChar | src/subdetector/detector.py:160 | lower-casing keeps letters letters, maps `A`–`Z` to `a`–`z` and leaves every other character alone |
| Strings.Lower | src/subdetector/detector.py:174 | the lowered string has the same length and is lowered character by character |
| Strings.Split | src/subdetector/detector.py:91 | `split('\n')` yields at least one piece and no piece contains the separator |
| Strings.JoinSplit | src/subdetector/detector.py:91-95 | joining the pieces of a split with the separator gives back the original text |
| Strings.SplitJoin | src/subdetector/detector.py:95 | splitting a join of separator-free parts gives back the parts |
| Strings.JoinBlank | src/subdetector/detector.py:143-146 | with a blank separator, a join is blank exactly when every part is blank |
| Strings.Join | src/subdetector/detector.py:95 | `sep.join(parts)`; `JoinSplit`, `SplitJoin` and `JoinBlank` state its properties |
| Strings.IsBlank | src/subdetector/detector.py:97 | `not s.strip()`: every character is Python whitespace; `JoinBlank` and `SampleOfShortLines` use it |
| Strings.IndexOf | src/subdetector/detector.py:78-79 | finds a substring exactly when it occurs, at its first occurrence |
| Sequences.Filter | src/subdetector/detector.py:216 | a comprehension with a condition keeps, in order, exactly the elements that satisfy it, with their multiplicities |
| Sequences.Take | src/subdetector/detector.py:95 | `s[:n]` has `min(n, len(s))` elements, and they are the first elements of `s`, in order |
| Sequences.TakeIsSubsequence | src/subdetector/detector.py:134 | `s[:n]` is the prefix of length `min(n, len(s))`, so it has at most `n` elements and is an in-order selection from `s` |
| Sequences.SubsequenceTransitive | src/subdetector/detector.py:91-95 | a selection from a selection is a selection from the original, in order |
| Paths.LastIndex | src/subdetector/detector.py:160 | `rfind`: -1 when absent, otherwise a position holding the character with none after it |
| Paths.SplitExtension | src/subdetector/detector.py:160 | `splitext(p)[1]` is non-empty exactly when the last path component has a dot preceded by a non-dot character of that component; it is then a suffix of `p` that starts with its only dot, has no `/`, and follows a non-dot character of the last component |
| Paths.JoinPath | src/subdetector/detector.py:28 | `os.path.join(dir, name)` ends with `name` |
| Paths.JoinPathEndsWith | src/subdetector/detector.py:28 | a suffix no longer than the file name is decided by the file name alone |
| Paths.Decimal | src/subdetector/detector.py:28 | the decimal rendering of an index is a non-empty string of digits |
| Paths.ParseDecimalOfDecimal | src/subdetector/detector.py:28 | reading back the decimal rendering gives the index |
| Paths.OutputName | src/subdetector/detector.py:28 | the extracted file's name starts with `track_`, holds no `/`, and ends with a dot and the codec's three-letter extension |
| Paths.ExtensionFor | src/subdetector/detector.py:17-26 | the codec table (`ass`, `srt`, `sup`, `sub`, default `sub`); `ass` comes only from the `ass` codec; every extension is three characters with no dot or slash |
| Paths.ParseOutputNameOf | src/subdetector/detector.py:28 | `track_`, a run of digits, a dot and an extension parse back into the number and the extension |
| Paths.OutputNameRoundTrip | src/subdetector/detector.py:28 | `track_<index>.<ext>` parses back to the stream index and the extension |
| Paths.OutputNameInjective | src/subdetector/detector.py:28 | two tracks share an output name only when they have the same index and the same extension |
| Paths.OutputNameAssSuffix | src/subdetector/detector.py:17-28 | the extracted file's path ends in `.ass` exactly when the codec is `ass`, and never in `.ssa` |
| Classifiers.IsMediaFile | src/subdetector/detector.py:153-170 | a file is a container exactly when the probe succeeds and its lowered extension is not a subtitle extension |
| Classifiers.SplitExtensionLower | src/subdetector/detector.py:160 | the extension of a lowered path is the lowered extension |
| Classifiers.IsMediaFileIgnoresCase | src/subdetector/detector.py:160 | the container test does not depend on the case of the path |
| Classifiers.HasLetterRun | src/subdetector/detector.py:189 | `re.search(r'[a-zA-Z]{5,}', s)` succeeds: some position starts five consecutive ASCII letters; `LetterRunGivesText` and `FormatIgnoresTail` state its use |
| Classifiers.Sniff | src/subdetector/detector.py:183-205 | the content sniff: text when the file reads and its first 1000 characters hold a five-letter run, image otherwise; `DetectSubtitleFormat` states where it applies |
| Classifiers.DetectSubtitleFormat | src/subdetector/detector.py:172-205 | `.srt/.vtt/.ass/.ssa` are text and `.sup/.pgs` image; otherwise text exactly when the file reads and its first 1000 characters hold five consecutive ASCII letters |
| Classifiers.FormatDeterminedByExtensionAndPrefix | src/subdetector/detector.py:172-205 | the verdict depends only on the lowered extension and the first 1000 characters |
| Classifiers.FormatIgnoresTail | src/subdetector/detector.py:187 | characters past the first 1000 never change the verdict |
| Classifiers.FormatIgnoresCase | src/subdetector/detector.py:174 | the verdict does not depend on the case of the path |
| Classifiers.LetterRunGivesText | src/subdetector/detector.py:189-190 | a run of five ASCII letters in the sniffed prefix makes any non-image file text |
| TextLanguage.EventsSegment | src/subdetector/detector.py:78-79 | the cut content is never longer than the content; `EventsSegmentCut` states which part it is |
| TextLanguage.EventsSegmentCut | src/subdetector/detector.py:78-79 | without `[Events]` the content is unchanged; otherwise the result is the text between the first marker and the next one (or the end) and holds no marker |
| TextLanguage.EventsSegmentOfScript | src/subdetector/detector.py:78-79 | for a header, the marker and a marker-free body, the cut yields the body |
| TextLanguage.FindDialogues | src/subdetector/detector.py:82-83 | no captured dialogue text spans a line break |
| TextLanguage.MatchDialogue | src/subdetector/detector.py:82-83 | a match of the dialogue pattern starts with `Dialogue:`, captures text without a line break, and the scan resumes strictly later |
| TextLanguage.MatchEventLine | src/subdetector/detector.py:82 | the pattern matches a well-formed `Dialogue:` line with nine comma-free fields and captures its text |
| TextLanguage.SkipOtherLine | src/subdetector/detector.py:82-83 | a line holding no `Dialogue:` (a `Format:` or `Comment:` line) contributes no match, and the scan continues after it |
| TextLanguage.FindDialoguesOfEvents | src/subdetector/detector.py:82-83 | on a rendered events section of well-formed dialogue lines and other lines, `findall` returns exactly the dialogue texts, in order |
| TextLanguage.StripOverrides | src/subdetector/detector.py:87 | stripping never lengthens the text; `StripOverridesBlock` says a closed `{\…}` span is deleted, `StripOverridesKeepsBrace` says any other `{` is kept, and `StripOverridesOfPieces` gives the result on every text made of plain runs and override blocks |
| TextLanguage.StripOverridesKeepsBrace | src/subdetector/detector.py:87 | a `{` that is not followed by a backslash, or has no later `}`, is kept like any other character, so brace comments such as `{note}` and an unclosed `{\` survive |
| TextLanguage.StripOverridesPlainPrefix | src/subdetector/detector.py:87 | plain text passes through unchanged, braces included, as long as no `{` in it is followed by a backslash |
| TextLanguage.StripOverridesBlock | src/subdetector/detector.py:87 | a `{\...}` block without `}` inside is removed entirely |
| TextLanguage.StripOverridesOfPieces | src/subdetector/detector.py:87 | on text built from plain runs (which may hold brace comments) and override blocks, stripping leaves exactly the plain runs, in order |
| TextLanguage.AssDialogueTextFromSection | src/subdetector/detector.py:76-88 | by definition: when dialogue is found, the ASS text is the joined dialogue with overrides stripped |
| TextLanguage.AssDialogueText | src/subdetector/detector.py:76-88 | the ASS/SSA branch: the header cut, then the stripped, space-joined dialogue when any matches, else the cut content; `AssDialogueTextFromSection`, `AssDialogueTextWithoutDialogue` and `AssDialogueTextOfScript` state both outcomes |
| TextLanguage.AssDialogueTextWithoutDialogue | src/subdetector/detector.py:78-85 | when no dialogue line matches, the cut segment is kept as it is, and content without `[Events]` is kept whole |
| TextLanguage.AssDialogueTextOfScript | src/subdetector/detector.py:76-88 | for a header, `[Events]` and an events section of well-formed lines (`Format:`, comments and dialogue), the result is the stripped, space-joined dialogue texts, or the events section unchanged when it holds no dialogue |
| TextLanguage.NormalizeText | src/subdetector/detector.py:76 | ASS handling applies when the path ends, case-sensitively, in `.ass` or `.ssa`; `Orchestrator.PayloadNormalization` states when an extracted payload gets it |
| TextLanguage.LongLinesExist | src/subdetector/detector.py:91-92 | the long-line filter is empty exactly when no line exceeds 20 characters |
| TextLanguage.Qualifying | src/subdetector/detector.py:91-93 | long lines when any exist, otherwise the non-blank lines |
| TextLanguage.TakeQualifyingProperties | src/subdetector/detector.py:91-95 | the first `min(20, n)` of the `n` qualifying lines, an in-order selection of the content's lines, all long or else all non-blank |
| TextLanguage.SampleLines | src/subdetector/detector.py:91-95 | the sampled lines are the first `min(20, n)` of the `n` qualifying lines (long lines when any exist, else non-blank ones), an in-order selection of the content's lines, free of line breaks |
| TextLanguage.SampleKeepsAllWhenFew | src/subdetector/detector.py:95 | when at most 20 lines qualify, every qualifying line is sampled |
| TextLanguage.Sample | src/subdetector/detector.py:95-98 | a sample is never blank and splits back into the sampled lines; there is none exactly when every sampled line is blank |
| TextLanguage.SampleOfShortLines | src/subdetector/detector.py:91-98 | without long lines, there is no sample exactly when the whole content is blank |
| TextLanguage.DetectTextLanguage | src/subdetector/detector.py:62-103 | unreadable content gives no language; otherwise the identifier is asked about the sample of the (ASS-normalised) content, and not at all when there is none |
| TextLanguage.BlankSampleSkipsIdentifier | src/subdetector/detector.py:97-98 | with a blank sample the verdict is absent whatever the identifier would say |
| ImageLanguage.FrameText | src/subdetector/detector.py:135-141 | a frame contributes its OCR text exactly when OCR succeeds with non-blank text |
| ImageLanguage.OcrTexts | src/subdetector/detector.py:133-141 | at most one text per frame, none of them blank |
| ImageLanguage.OcrTextsAppend | src/subdetector/detector.py:133-141 | the collected texts of consecutive frame runs concatenate |
| ImageLanguage.SkippedFrame | src/subdetector/detector.py:135-141 | a frame whose OCR fails or is blank leaves the collected texts unchanged |
| ImageLanguage.CombinedBlank | src/subdetector/detector.py:143-146 | the combined text is blank exactly when no frame contributed text |
| ImageLanguage.OcrLanguage | src/subdetector/detector.py:129-151 | the OCR verdict on a frame list; `LanguageNeedsText` and `OnlyFirstFiveFrames` state what it depends on |
| ImageLanguage.LanguageNeedsText | src/subdetector/detector.py:129-151 | no text from the first five frames gives no language; otherwise the identifier decides on the newline-joined texts |
| ImageLanguage.OnlyFirstFiveFrames | src/subdetector/detector.py:134 | frames after the fifth never affect the verdict |
| ImageLanguage.CollectTexts | src/subdetector/detector.py:133-141 | the OCR loop collects exactly the non-blank texts of the frames, in frame order |
| ImageLanguage.DetectImageLanguage | src/subdetector/detector.py:121-151 | the OCR loop over the first five frames computes the pooled-text verdict |
| Orchestrator.PayloadPath | src/subdetector/detector.py:28 | the extracted payload's path ends with the track's output name |
| Orchestrator.SelectStreams | src/subdetector/detector.py:215-216 | with a requested index, exactly the streams carrying it, in order and with multiplicity; without one, all streams |
| Orchestrator.Track | src/subdetector/detector.py:226-244 | an iteration assigns `metadata` exactly for a tagged stream, and assigns nothing (and finds no language) exactly for an untagged stream whose extraction produced no file |
| Orchestrator.MediaRun | src/subdetector/detector.py:221-251 | a completed loop has one result per stream, and the only failure is the unbound `source`; `MediaRunResults` and `MediaRunFailsIff` state the rest |
| Orchestrator.MediaRunStep | src/subdetector/detector.py:222-251 | one iteration appends the stream's result with the newly assigned or the carried-over source, or fails while none is set |
| Orchestrator.MediaRunFailureSticks | src/subdetector/detector.py:246-251 | once an iteration raises, the run has raised |
| Orchestrator.DetectTrack | src/subdetector/detector.py:226-244 | the loop body computes the iteration's language and assigned source |
| Orchestrator.DetectStandalone | src/subdetector/detector.py:252-269 | the standalone branch computes the single standalone result |
| Orchestrator.DetectTracks | src/subdetector/detector.py:221-251 | the loop over a container's streams returns `MediaRun(streams, tempDir, tools).outcome` |
| Orchestrator.Detection | src/subdetector/detector.py:207-271 | a standalone file gives exactly one result, a container one result per selected stream, and the only failure is a container's unbound `source` |
| Orchestrator.DetectSubtitleLanguages | src/subdetector/detector.py:207-271 | the whole pipeline computes `Detection`: the same results, and it raises exactly when `Detection` fails |
| Orchestrator.MediaRunResults | src/subdetector/detector.py:221-251 | a completed run has one result per stream, each with the stream's index, codec and iteration language, and the iteration's source or else the previous result's |
| Orchestrator.MediaRunFailsIff | src/subdetector/detector.py:227-250 | the loop raises exactly when the first stream's iteration assigns no source |
| Orchestrator.MediaRunFollowsStreams | src/subdetector/detector.py:222-251 | results follow the streams in count, index and codec; tagged streams report their tag from `metadata` |
| Orchestrator.ContainerResults | src/subdetector/detector.py:211-251 | for a container, one result per selected stream in order, tags short-cut to `metadata`, and every result carries the requested index |
| Orchestrator.ContainerFailure | src/subdetector/detector.py:227-250 | a container run raises exactly when the first selected stream is untagged and its extraction fails |
| Orchestrator.UnassignedSourceLeaks | src/subdetector/detector.py:231-250 | a later untagged stream whose extraction fails gets no language and the previous result's source |
| Orchestrator.MetadataSkipsExtraction | src/subdetector/detector.py:227-230 | a tagged stream's outcome is its tag from `metadata`, independent of every extraction, OCR and identifier answer |
| Orchestrator.ExtractedDispatch | src/subdetector/detector.py:235-244 | by definition, extracted payloads dispatch by codec family: `ass`, `subrip` and `srt` to text detection, the two image codecs to OCR, anything else to `unknown-format` with no language |
| Orchestrator.PayloadNormalization | src/subdetector/detector.py:76 | an extracted payload gets ASS dialogue extraction exactly when its codec is `ass`, and is sampled raw otherwise |
| Orchestrator.ExtensionWithoutDot | src/subdetector/detector.py:266 | the recorded format holds no dot and no `/`, and the path ends with it |
| Orchestrator.ExtensionWithoutDotRestores | src/subdetector/detector.py:266 | the recorded format with a dot put back in front is exactly the file's extension, and is empty when the file has none |
| Orchestrator.StandaloneResult | src/subdetector/detector.py:252-269 | the standalone record has index 0, the extension without its dot as format, and source `text-detection` or `ocr-detection` |
| Orchestrator.StandaloneResults | src/subdetector/detector.py:252-269 | a standalone file gives exactly one result, index 0, its extension without the dot as format, and text or OCR source as the format classifier decides |
| Orchestrator.SubRipExtension | src/subdetector/detector.py:266 | a `.srt` path reports format `srt` and is not treated as ASS |
| Orchestrator.SubRipFileScenario | src/subdetector/detector.py:252-269 | a standalone `.srt` file read as English gives `{0, srt, en, text-detection}` |
| Orchestrator.NoFramesScenario | src/subdetector/detector.py:257-262 | a standalone image subtitle with no extracted frames gives no language from `ocr-detection` |
| Orchestrator.LeakedSourceScenario | src/subdetector/detector.py:222-251 | a tagged French track followed by an untagged track whose extraction fails: the second result says `metadata` with no language |
| Orchestrator.UnboundSourceScenario | src/subdetector/detector.py:227-250 | the same untagged track placed first makes the run raise |
| Orchestrator.AbsentTrackScenario | src/subdetector/detector.py:215-219 | a requested index no stream has gives an empty result list |

## Left out

- Running ffprobe and ffmpeg, and decoding their JSON. The probe status, the stream list, extraction success and the extracted frames are inputs (`Tools`).
- `get_stream_info` re-probes the stream to find its codec. The model assumes it returns the same codec the stream list reported.
- Opening files, and the UTF-8 fallback to Latin-1. A file's decoded content is an input, `None` when it cannot be read.
- Image decoding (PIL), Tesseract and `langdetect`. They are oracle functions. `langdetect`'s run-to-run nondeterminism is not modelled: the identifier is a fixed function.
- The temporary directory's creation and removal, and `os.makedirs` of the frames directory. The directory is a path parameter.
- Frame images left by an earlier track in the shared `frames` directory. The frames of each payload are an input, so this reuse is not modelled.
- `extract_images_from_pgs` itself (its ffmpeg command, `max_frames=10`, the sorted glob). The model receives its sorted frame list.
- The printing of OCR errors inside the loop.
- `main`: argument parsing, the existence check, printing, and exit codes.
- Strings.LowerChar: lower-cases ASCII letters only. Python's `str.lower` is Unicode-wide, but no non-ASCII character lowers into one of the extensions compared against.
- Strings.Lower: lower-cases ASCII letters only, character by character through `LowerChar`, for the same reason.
- General regular-expression semantics. Only the three patterns the pipeline uses are coded by hand.
- `media_extensions` in `is_media_file`. It is never consulted, so it is absent.
- Negative stream indices. ffprobe reports non-negative indices, so `Stream.index` is a `nat`. A requested track index may be any integer.
