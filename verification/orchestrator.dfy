/** `detect_subtitle_languages`: choose container or standalone handling,
    then per track the metadata short-cut, extraction, and text or OCR
    detection, collecting one result per track in stream order.

    Every external tool is an input, gathered in `Tools`. In the container
    branch the variable `source` is assigned only on some paths and keeps
    its value from one iteration to the next; it is modelled as an
    `Option<Source>` carried through the loop, and appending a result while
    it is still unassigned is the `UnboundLocalError` the code raises. */
module Orchestrator {
  import opened Wrappers
  import opened Strings
  import opened Sequences
  import opened Paths
  import opened Classifiers
  import opened TextLanguage
  import opened ImageLanguage

  /** One subtitle stream as ffprobe lists it; a missing `codec_name` reads
      as the empty string, a missing `tags.language` as `None`. */
  datatype Stream = Stream(index: nat, codecName: string, languageTag: Option<string>)

  /** Provenance of a language verdict. */
  datatype Source = Metadata | TextDetection | OcrDetection | UnknownFormat

  datatype DetectionResult = DetectionResult(streamIndex: nat, format: string, language: Option<string>, source: Source)

  /** The one way a run can fail: a result appended while `source` has
      never been assigned (`UnboundLocalError`). */
  datatype Failure = SourceUnbound

  /** What the external tools answer during one run. */
  datatype Tools = Tools(
    probeReturnCode: int,               // exit status of `ffprobe -v error <path>`
    subtitleStreams: seq<Stream>,       // `get_subtitle_streams`, in ffprobe's order
    fileExists: string -> bool,         // whether ffmpeg produced the extracted file
    readFile: string -> Option<string>, // decoded content, `None` when unreadable
    framesOf: string -> seq<string>,    // frame images `extract_images_from_pgs` yields
    ocr: string -> Option<string>,      // OCR of one frame, `None` when it raises
    detect: string -> Option<string>)   // language identifier, `None` when it raises

  const TextCodecs: seq<string> := ["ass", "subrip", "srt"]
  const ImageCodecs: seq<string> := ["hdmv_pgs_subtitle", "dvd_subtitle"]

  /** The streams kept by the `track_index` filter, in their original order. */
  function SelectStreams(streams: seq<Stream>, trackIndex: Option<int>): (r: seq<Stream>)
    ensures trackIndex.None? ==> r == streams
    ensures IsSubsequence(r, streams)
    ensures trackIndex.Some? ==> forall i | 0 <= i < |r| :: r[i].index == trackIndex.value
    ensures trackIndex.Some? ==>
      forall s :: multiset(r)[s] == if s.index == trackIndex.value then multiset(streams)[s] else 0
  {
    match trackIndex
    case None =>
      PrefixIsSubsequence(streams, |streams|);
      assert streams[..|streams|] == streams;
      streams
    case Some(t) => Filter(streams, (s: Stream) => s.index == t)
  }

  /** Where `extract_subtitle_track` writes a stream. */
  function PayloadPath(tempDir: string, s: Stream): (r: string)
    ensures EndsWith(r, OutputName(s.index, s.codecName))
  {
    JoinPath(tempDir, OutputName(s.index, s.codecName))
  }

  /** What one iteration decides: the language, and the source it assigns
      (`None` when it assigns none, which is when the stream has no
      language tag and extraction produced no file). */
  datatype TrackOutcome = TrackOutcome(language: Option<string>, assignment: Option<Source>)

  function Track(s: Stream, tempDir: string, tools: Tools): (t: TrackOutcome)
    ensures t.assignment.None? ==> t.language == None
    ensures t.assignment == Some(Metadata) <==> s.languageTag.Some?
    ensures t.assignment.None? <==> s.languageTag.None? && !tools.fileExists(PayloadPath(tempDir, s))
  {
    if s.languageTag.Some? then TrackOutcome(s.languageTag, Some(Metadata))
    else
      var payload := PayloadPath(tempDir, s);
      if !tools.fileExists(payload) then TrackOutcome(None, None)
      else if s.codecName in TextCodecs then
        TrackOutcome(DetectTextLanguage(payload, tools.readFile(payload), tools.detect), Some(TextDetection))
      else if s.codecName in ImageCodecs then
        TrackOutcome(OcrLanguage(tools.framesOf(payload), tools.ocr, tools.detect), Some(OcrDetection))
      else TrackOutcome(None, Some(UnknownFormat))
  }

  /** The results collected so far and the current value of `source`. */
  datatype LoopState = LoopState(outcome: Result<seq<DetectionResult>, Failure>, source: Option<Source>)

  /** The state after the loop has run over `streams`. */
  function MediaRun(streams: seq<Stream>, tempDir: string, tools: Tools): (r: LoopState)
    ensures r.outcome.Success? ==> |r.outcome.value| == |streams|
    ensures r.outcome.Failure? ==> r.outcome.error == SourceUnbound
    decreases |streams|
  {
    if streams == [] then LoopState(Success([]), None)
    else
      var prev := MediaRun(streams[..|streams| - 1], tempDir, tools);
      if prev.outcome.Failure? then prev
      else
        var s := streams[|streams| - 1];
        var t := Track(s, tempDir, tools);
        var source := if t.assignment.Some? then t.assignment else prev.source;
        if source.None? then LoopState(Failure(SourceUnbound), None)
        else LoopState(Success(prev.outcome.value + [DetectionResult(s.index, s.codecName, t.language, source.value)]), source)
  }

  /** `os.path.splitext(path)[1][1:]` */
  function ExtensionWithoutDot(path: string): (r: string)
    ensures '.' !in r && '/' !in r && EndsWith(path, r)
  {
    var ext := SplitExtension(path);
    if ext == [] then [] else ext[1..]
  }

  /** The single result for a standalone subtitle file. */
  function StandaloneResult(path: string, tools: Tools): (r: DetectionResult)
    ensures r.streamIndex == 0 && r.format == ExtensionWithoutDot(path)
    ensures r.source == TextDetection || r.source == OcrDetection
  {
    if DetectSubtitleFormat(path, tools.readFile(path)) == TextFormat then
      DetectionResult(0, ExtensionWithoutDot(path), DetectTextLanguage(path, tools.readFile(path), tools.detect), TextDetection)
    else
      DetectionResult(0, ExtensionWithoutDot(path), OcrLanguage(tools.framesOf(path), tools.ocr, tools.detect), OcrDetection)
  }

  /** What `detect_subtitle_languages` returns (or raises). */
  function Detection(path: string, trackIndex: Option<int>, tempDir: string, tools: Tools): (r: Result<seq<DetectionResult>, Failure>)
    ensures !IsMediaFile(tools.probeReturnCode, path) ==> r.Success? && |r.value| == 1
    ensures r.Success? ==> IsMediaFile(tools.probeReturnCode, path) ==>
              |r.value| == |SelectStreams(tools.subtitleStreams, trackIndex)|
    ensures r.Failure? ==> IsMediaFile(tools.probeReturnCode, path) && r.error == SourceUnbound
  {
    if IsMediaFile(tools.probeReturnCode, path) then
      var selected := SelectStreams(tools.subtitleStreams, trackIndex);
      if selected == [] then Success([]) else MediaRun(selected, tempDir, tools).outcome
    else Success([StandaloneResult(path, tools)])
  }

  lemma {:induction false} MediaRunFailureSticks(streams: seq<Stream>, n: nat, tempDir: string, tools: Tools)
    requires n <= |streams| && MediaRun(streams[..n], tempDir, tools).outcome == Failure(SourceUnbound)
    ensures MediaRun(streams, tempDir, tools).outcome == Failure(SourceUnbound)
    decreases |streams|
  {
    if n < |streams| {
      var prefix := streams[..|streams| - 1];
      assert prefix[..n] == streams[..n];
      MediaRunFailureSticks(prefix, n, tempDir, tools);
    } else {
      assert streams[..n] == streams;
    }
  }

  /** One step of the loop, stated on prefixes of `streams`. */
  lemma MediaRunStep(streams: seq<Stream>, i: nat, tempDir: string, tools: Tools)
    requires i < |streams|
    ensures var prev := MediaRun(streams[..i], tempDir, tools);
      var t := Track(streams[i], tempDir, tools);
      var source := if t.assignment.Some? then t.assignment else prev.source;
      MediaRun(streams[..i + 1], tempDir, tools) ==
        if prev.outcome.Failure? then prev
        else if source.None? then LoopState(Failure(SourceUnbound), None)
        else LoopState(Success(prev.outcome.value + [DetectionResult(streams[i].index, streams[i].codecName, t.language, source.value)]), source)
  {
    assert streams[..i + 1][..i] == streams[..i];
  }

  /** The body of the loop for one stream: the language it finds and the
      source it assigns, if any. */
  method DetectTrack(stream: Stream, tempDir: string, tools: Tools)
    returns (language: Option<string>, assignment: Option<Source>)
    ensures TrackOutcome(language, assignment) == Track(stream, tempDir, tools)
  {
    language, assignment := None, None;
    if stream.languageTag.Some? {
      language := stream.languageTag;
      assignment := Some(Metadata);
    } else {
      var payload := PayloadPath(tempDir, stream);
      if tools.fileExists(payload) {
        if stream.codecName in TextCodecs {
          language := DetectTextLanguage(payload, tools.readFile(payload), tools.detect);
          assignment := Some(TextDetection);
        } else if stream.codecName in ImageCodecs {
          language := DetectImageLanguage(tools.framesOf(payload), tools.ocr, tools.detect);
          assignment := Some(OcrDetection);
        } else {
          assignment := Some(UnknownFormat);
        }
      }
    }
  }

  /** The branch for a file ffprobe does not open: a standalone subtitle. */
  method DetectStandalone(path: string, tools: Tools) returns (result: DetectionResult)
    ensures result == StandaloneResult(path, tools)
  {
    var format := DetectSubtitleFormat(path, tools.readFile(path));
    var language: Option<string>;
    var source: Source;
    if format == TextFormat {
      language := DetectTextLanguage(path, tools.readFile(path), tools.detect);
      source := TextDetection;
    } else {
      language := DetectImageLanguage(tools.framesOf(path), tools.ocr, tools.detect);
      source := OcrDetection;
    }
    result := DetectionResult(0, ExtensionWithoutDot(path), language, source);
  }

  /** The loop over the selected streams of a container. */
  method DetectTracks(streams: seq<Stream>, tempDir: string, tools: Tools)
    returns (r: Result<seq<DetectionResult>, Failure>)
    ensures r == MediaRun(streams, tempDir, tools).outcome
  {
    var results: seq<DetectionResult> := [];
    var source: Option<Source> := None;
    for i := 0 to |streams|
      invariant MediaRun(streams[..i], tempDir, tools) == LoopState(Success(results), source)
    {
      var stream := streams[i];
      var language, assignment := DetectTrack(stream, tempDir, tools);
      if assignment.Some? {
        source := assignment;
      }
      MediaRunStep(streams, i, tempDir, tools);
      if source.None? {
        MediaRunFailureSticks(streams, i + 1, tempDir, tools);
        return Failure(SourceUnbound);
      }
      results := results + [DetectionResult(stream.index, stream.codecName, language, source.value)];
    }
    assert streams[..|streams|] == streams;
    return Success(results);
  }

  method DetectSubtitleLanguages(path: string, trackIndex: Option<int>, tempDir: string, tools: Tools)
    returns (r: Result<seq<DetectionResult>, Failure>)
    ensures r == Detection(path, trackIndex, tempDir, tools)
  {
    if !IsMediaFile(tools.probeReturnCode, path) {
      var result := DetectStandalone(path, tools);
      return Success([result]);
    }
    var streams := SelectStreams(tools.subtitleStreams, trackIndex);
    if streams == [] {
      return Success([]);
    }
    r := DetectTracks(streams, tempDir, tools);
  }

  /** The result recorded for the `k`-th stream agrees with that stream and
      with what its iteration decided; an iteration that assigns no
      source repeats the previous result's source. */
  ghost predicate ResultFor(streams: seq<Stream>, results: seq<DetectionResult>, k: nat, tempDir: string, tools: Tools)
    requires k < |streams| && k < |results|
  {
    var t := Track(streams[k], tempDir, tools);
    && results[k].streamIndex == streams[k].index
    && results[k].format == streams[k].codecName
    && results[k].language == t.language
    && (t.assignment.Some? ==> results[k].source == t.assignment.value)
    && (t.assignment.None? ==> k > 0 && results[k].source == results[k - 1].source)
  }

  /** A result that agrees with its stream keeps agreeing when the streams
      and the results are extended. */
  lemma ResultForExtend(prefix: seq<Stream>, before: seq<DetectionResult>, streams: seq<Stream>,
                        results: seq<DetectionResult>, k: nat, tempDir: string, tools: Tools)
    requires k < |prefix| == |before| <= |streams| && |before| <= |results|
    requires streams[..|prefix|] == prefix && results[..|before|] == before
    requires ResultFor(prefix, before, k, tempDir, tools)
    ensures ResultFor(streams, results, k, tempDir, tools)
  {
    assert streams[k] == prefix[k] && results[k] == before[k];
    if k > 0 { assert results[k - 1] == before[k - 1]; }
  }

  /** A completed run has one result per stream, in stream order. */
  lemma {:induction false} MediaRunResults(streams: seq<Stream>, tempDir: string, tools: Tools)
    ensures var st := MediaRun(streams, tempDir, tools);
      st.outcome.Success? ==>
        && |st.outcome.value| == |streams|
        && (streams == [] <==> st.source.None?)
        && (streams != [] ==> st.source == Some(st.outcome.value[|streams| - 1].source))
        && forall k | 0 <= k < |streams| :: ResultFor(streams, st.outcome.value, k, tempDir, tools)
    decreases |streams|
  {
    if streams != [] {
      var n := |streams| - 1;
      var prefix := streams[..n];
      MediaRunResults(prefix, tempDir, tools);
      MediaRunStep(streams, n, tempDir, tools);
      assert streams[..n + 1] == streams;
      var st := MediaRun(streams, tempDir, tools);
      if st.outcome.Success? {
        var prev := MediaRun(prefix, tempDir, tools);
        var rs := st.outcome.value;
        assert rs[..n] == prev.outcome.value;
        forall k | 0 <= k < n ensures ResultFor(streams, rs, k, tempDir, tools) {
          ResultForExtend(prefix, prev.outcome.value, streams, rs, k, tempDir, tools);
        }
        assert ResultFor(streams, rs, n, tempDir, tools);
      }
    }
  }

  /** The run fails exactly when the first stream has no language tag and
      its extraction produced no file; once any iteration has assigned a
      source, later unassigned iterations reuse it. */
  lemma {:induction false} MediaRunFailsIff(streams: seq<Stream>, tempDir: string, tools: Tools)
    ensures MediaRun(streams, tempDir, tools).outcome.Failure? <==>
              streams != [] && Track(streams[0], tempDir, tools).assignment.None?
    decreases |streams|
  {
    if |streams| > 1 {
      var prefix := streams[..|streams| - 1];
      MediaRunFailsIff(prefix, tempDir, tools);
      MediaRunResults(prefix, tempDir, tools);
      assert prefix[0] == streams[0];
    }
  }

  /** What a completed run says about each stream, without the loop's
      bookkeeping. */
  lemma MediaRunFollowsStreams(streams: seq<Stream>, tempDir: string, tools: Tools)
    requires MediaRun(streams, tempDir, tools).outcome.Success?
    ensures var rs := MediaRun(streams, tempDir, tools).outcome.value;
      && |rs| == |streams|
      && (forall k | 0 <= k < |rs| :: rs[k].streamIndex == streams[k].index && rs[k].format == streams[k].codecName)
      && (forall k | 0 <= k < |rs| && streams[k].languageTag.Some? ::
            rs[k].language == streams[k].languageTag && rs[k].source == Metadata)
  {
    MediaRunResults(streams, tempDir, tools);
    var rs := MediaRun(streams, tempDir, tools).outcome.value;
    forall k | 0 <= k < |rs|
      ensures rs[k].streamIndex == streams[k].index && rs[k].format == streams[k].codecName
      ensures streams[k].languageTag.Some? ==> rs[k].language == streams[k].languageTag && rs[k].source == Metadata
    {
      assert ResultFor(streams, rs, k, tempDir, tools);
    }
  }

  /** Container input: one result per selected stream, in order, carrying
      the stream's index and codec name; a language tag short-cuts to a
      `metadata` result with that tag. */
  lemma ContainerResults(path: string, trackIndex: Option<int>, tempDir: string, tools: Tools)
    requires IsMediaFile(tools.probeReturnCode, path)
    requires Detection(path, trackIndex, tempDir, tools).Success?
    ensures var selected := SelectStreams(tools.subtitleStreams, trackIndex);
      var rs := Detection(path, trackIndex, tempDir, tools).value;
      && |rs| == |selected|
      && (forall k | 0 <= k < |rs| :: rs[k].streamIndex == selected[k].index && rs[k].format == selected[k].codecName)
      && (forall k | 0 <= k < |rs| && selected[k].languageTag.Some? ::
            rs[k].language == selected[k].languageTag && rs[k].source == Metadata)
      && (trackIndex.Some? ==> forall k | 0 <= k < |rs| :: rs[k].streamIndex == trackIndex.value)
  {
    var selected := SelectStreams(tools.subtitleStreams, trackIndex);
    if selected != [] {
      MediaRunFollowsStreams(selected, tempDir, tools);
    }
  }

  /** Container input: the run raises exactly when the first selected
      stream has no language tag and its extraction fails. */
  lemma ContainerFailure(path: string, trackIndex: Option<int>, tempDir: string, tools: Tools)
    requires IsMediaFile(tools.probeReturnCode, path)
    ensures var selected := SelectStreams(tools.subtitleStreams, trackIndex);
      Detection(path, trackIndex, tempDir, tools).Failure? <==>
        selected != [] && selected[0].languageTag.None?
        && !tools.fileExists(PayloadPath(tempDir, selected[0]))
  {
    var selected := SelectStreams(tools.subtitleStreams, trackIndex);
    MediaRunFailsIff(selected, tempDir, tools);
  }

  /** Container input: a later stream without a tag whose extraction fails
      gets no language and the previous result's source. */
  lemma UnassignedSourceLeaks(path: string, trackIndex: Option<int>, tempDir: string, tools: Tools, k: nat)
    requires IsMediaFile(tools.probeReturnCode, path)
    requires Detection(path, trackIndex, tempDir, tools).Success?
    requires k < |SelectStreams(tools.subtitleStreams, trackIndex)|
    requires Track(SelectStreams(tools.subtitleStreams, trackIndex)[k], tempDir, tools).assignment.None?
    ensures var rs := Detection(path, trackIndex, tempDir, tools).value;
      k > 0 && k < |rs| && rs[k].language == None && rs[k].source == rs[k - 1].source
  {
    var selected := SelectStreams(tools.subtitleStreams, trackIndex);
    MediaRunResults(selected, tempDir, tools);
    assert ResultFor(selected, MediaRun(selected, tempDir, tools).outcome.value, k, tempDir, tools);
  }

  /** A tagged stream's result does not depend on any extraction,
      decoding, OCR or identifier answer: none of them is consulted. */
  lemma MetadataSkipsExtraction(s: Stream, tempDir: string, tools1: Tools, tools2: Tools)
    requires s.languageTag.Some?
    ensures Track(s, tempDir, tools1) == Track(s, tempDir, tools2) == TrackOutcome(s.languageTag, Some(Metadata))
  {
  }

  /** After extraction, codecs dispatch by family: text, OCR, or
      `unknown-format` for any other codec. */
  lemma ExtractedDispatch(s: Stream, tempDir: string, tools: Tools)
    requires s.languageTag.None? && tools.fileExists(PayloadPath(tempDir, s))
    ensures var t := Track(s, tempDir, tools);
      var payload := PayloadPath(tempDir, s);
      && (s.codecName in TextCodecs ==>
            t == TrackOutcome(DetectTextLanguage(payload, tools.readFile(payload), tools.detect), Some(TextDetection)))
      && (s.codecName in ImageCodecs ==>
            t == TrackOutcome(OcrLanguage(tools.framesOf(payload), tools.ocr, tools.detect), Some(OcrDetection)))
      && (s.codecName !in TextCodecs && s.codecName !in ImageCodecs ==> t == TrackOutcome(None, Some(UnknownFormat)))
  {
  }

  /** The `ass` codec is the only one whose payload gets ASS dialogue
      extraction, since its file is the only one named `.ass`; `subrip`
      and `srt` payloads are sampled raw. */
  lemma PayloadNormalization(s: Stream, tempDir: string, content: string)
    ensures NormalizeText(PayloadPath(tempDir, s), content) ==
              if s.codecName == "ass" then AssDialogueText(content) else content
  {
    OutputNameAssSuffix(tempDir, s.index, s.codecName);
  }

  /** Standalone input: exactly one result, index 0, the extension without
      its dot as format, text or OCR detection as the format classifier
      says, and the requested track index plays no part. */
  lemma StandaloneResults(path: string, trackIndex: Option<int>, tempDir: string, tools: Tools)
    requires !IsMediaFile(tools.probeReturnCode, path)
    ensures match Detection(path, trackIndex, tempDir, tools)
      case Failure(_) => false
      case Success(rs) =>
        && |rs| == 1
        && rs[0].streamIndex == 0
        && (if SplitExtension(path) == [] then rs[0].format == [] else "." + rs[0].format == SplitExtension(path))
        && (rs[0].source == TextDetection <==> DetectSubtitleFormat(path, tools.readFile(path)) == TextFormat)
        && (rs[0].source == OcrDetection <==> DetectSubtitleFormat(path, tools.readFile(path)) == ImageFormat)
  {
    var r := StandaloneResult(path, tools);
    assert Detection(path, trackIndex, tempDir, tools) == Success([r]);
    ExtensionWithoutDotRestores(path);
  }

  /** Putting the dot back gives `os.path.splitext(path)[1]`. */
  lemma ExtensionWithoutDotRestores(path: string)
    ensures var ext := SplitExtension(path);
      if ext == [] then ExtensionWithoutDot(path) == [] else "." + ExtensionWithoutDot(path) == ext
  {
    var ext := SplitExtension(path);
    if ext != [] {
      assert ext == [ext[0]] + ext[1..];
    }
  }

  /** A tagged French SubRip track followed by an untagged PGS track whose
      extraction fails: the second record has no language yet says
      `metadata`, the source left over from the first. */
  lemma LeakedSourceScenario(path: string, tempDir: string, tools: Tools)
    requires IsMediaFile(tools.probeReturnCode, path)
    requires tools.subtitleStreams == [Stream(2, "subrip", Some("fre")), Stream(3, "hdmv_pgs_subtitle", None)]
    requires !tools.fileExists(PayloadPath(tempDir, Stream(3, "hdmv_pgs_subtitle", None)))
    ensures Detection(path, None, tempDir, tools) ==
      Success([DetectionResult(2, "subrip", Some("fre"), Metadata), DetectionResult(3, "hdmv_pgs_subtitle", None, Metadata)])
  {
    var streams := tools.subtitleStreams;
    var first := DetectionResult(2, "subrip", Some("fre"), Metadata);
    assert streams[..0] == [] && streams[..2] == streams;
    MediaRunStep(streams, 0, tempDir, tools);
    assert [] + [first] == [first];
    MediaRunStep(streams, 1, tempDir, tools);
    assert MediaRun(streams[..1], tempDir, tools) == LoopState(Success([first]), Some(Metadata));
    var second := DetectionResult(3, "hdmv_pgs_subtitle", None, Metadata);
    assert Track(streams[1], tempDir, tools) == TrackOutcome(None, None);
    assert [first] + [second] == [first, second];
    assert SelectStreams(streams, None) == streams;
  }

  /** The same untagged track first in line: the run raises. */
  lemma UnboundSourceScenario(path: string, tempDir: string, tools: Tools)
    requires IsMediaFile(tools.probeReturnCode, path)
    requires tools.subtitleStreams == [Stream(3, "hdmv_pgs_subtitle", None), Stream(2, "subrip", Some("fre"))]
    requires !tools.fileExists(PayloadPath(tempDir, Stream(3, "hdmv_pgs_subtitle", None)))
    ensures Detection(path, None, tempDir, tools) == Failure(SourceUnbound)
  {
    MediaRunFailsIff(tools.subtitleStreams, tempDir, tools);
    assert SelectStreams(tools.subtitleStreams, None) == tools.subtitleStreams;
    assert MediaRun(tools.subtitleStreams, tempDir, tools).outcome.error == SourceUnbound;
  }

  /** A requested track index that no subtitle stream has gives no results. */
  lemma AbsentTrackScenario(path: string, track: int, tempDir: string, tools: Tools)
    requires IsMediaFile(tools.probeReturnCode, path)
    requires forall k | 0 <= k < |tools.subtitleStreams| :: tools.subtitleStreams[k].index != track
    ensures Detection(path, Some(track), tempDir, tools) == Success([])
  {
  }

  /** A standalone `.srt` file whose sample the identifier reads as
      English: one `text-detection` result for track 0, format `srt`. */
  lemma SubRipFileScenario(path: string, trackIndex: Option<int>, tempDir: string, tools: Tools, content: string)
    requires !IsMediaFile(tools.probeReturnCode, path)
    requires SplitExtension(path) == ".srt"
    requires tools.readFile(path) == Some(content)
    requires Sample(content).Some? && tools.detect(Sample(content).value) == Some("en")
    ensures Detection(path, trackIndex, tempDir, tools) == Success([DetectionResult(0, "srt", Some("en"), TextDetection)])
  {
    SubRipExtension(path);
    assert NormalizeText(path, content) == content;
    assert DetectTextLanguage(path, tools.readFile(path), tools.detect) == Some("en");
    assert DetectSubtitleFormat(path, tools.readFile(path)) == TextFormat;
  }

  lemma SubRipExtension(path: string)
    requires SplitExtension(path) == ".srt"
    ensures Lower(SplitExtension(path)) == ".srt" && ExtensionWithoutDot(path) == "srt"
    ensures !EndsWith(path, ".ass") && !EndsWith(path, ".ssa")
  {
    assert path[|path| - 4..] == ".srt";
    var lowered := Lower(".srt");
    forall k | 0 <= k < 4 ensures lowered[k] == ".srt"[k] {
      assert lowered[k] == LowerChar(".srt"[k]);
    }
  }

  /** A standalone image subtitle from which no frame is extracted: no
      language, `ocr-detection`. */
  lemma NoFramesScenario(path: string, trackIndex: Option<int>, tempDir: string, tools: Tools)
    requires !IsMediaFile(tools.probeReturnCode, path)
    requires DetectSubtitleFormat(path, tools.readFile(path)) == ImageFormat
    requires tools.framesOf(path) == []
    ensures Detection(path, trackIndex, tempDir, tools) ==
      Success([DetectionResult(0, ExtensionWithoutDot(path), None, OcrDetection)])
  {
    LanguageNeedsText(tools.framesOf(path), tools.ocr, tools.detect);
  }
}
