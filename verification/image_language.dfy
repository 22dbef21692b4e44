/** `detect_image_subtitle_language`: OCR over the first five extracted
    frames, skipping frames whose OCR fails, then language identification
    of the non-blank texts joined by newlines. Frame extraction, OCR and
    the identifier are inputs: the frame list, and oracles that answer or
    fail (`None`). */
module ImageLanguage {
  import opened Wrappers
  import opened Strings
  import opened Sequences

  /** Frames handed to OCR (`frames[:5]`). */
  const OcrFrameLimit: nat := 5

  /** What one frame contributes: its text when OCR succeeds with a
      non-blank result, nothing otherwise. */
  function FrameText(outcome: Option<string>): (r: seq<string>)
    ensures |r| <= 1
    ensures |r| == 1 <==> outcome.Some? && !IsBlank(outcome.value)
    ensures |r| == 1 ==> r[0] == outcome.value
  {
    if outcome.Some? && !IsBlank(outcome.value) then [outcome.value] else []
  }

  /** The texts kept from `frames`, in frame order (`all_text`). */
  function OcrTexts(frames: seq<string>, ocr: string -> Option<string>): (r: seq<string>)
    ensures |r| <= |frames|
    ensures forall i | 0 <= i < |r| :: !IsBlank(r[i])
  {
    if frames == [] then []
    else OcrTexts(frames[..|frames| - 1], ocr) + FrameText(ocr(frames[|frames| - 1]))
  }

  /** The language of the frames: none without frames or without any
      recognised text, else what the identifier answers for the texts
      joined by newlines. */
  function OcrLanguage(frames: seq<string>, ocr: string -> Option<string>, detect: string -> Option<string>): Option<string>
  {
    if frames == [] then None
    else
      var combined := Join(OcrTexts(Take(frames, OcrFrameLimit), ocr), "\n");
      if IsBlank(combined) then None else detect(combined)
  }

  /** One more frame adds what that frame contributes. */
  lemma OcrTextsStep(frames: seq<string>, i: nat, ocr: string -> Option<string>)
    requires i < |frames|
    ensures OcrTexts(frames[..i + 1], ocr) == OcrTexts(frames[..i], ocr) + FrameText(ocr(frames[i]))
  {
    assert frames[..i + 1][..i] == frames[..i];
  }

  /** The OCR loop: the non-blank texts of `batch`, in frame order. */
  method CollectTexts(batch: seq<string>, ocr: string -> Option<string>) returns (allText: seq<string>)
    ensures allText == OcrTexts(batch, ocr)
  {
    allText := [];
    for i := 0 to |batch|
      invariant allText == OcrTexts(batch[..i], ocr)
    {
      var outcome := ocr(batch[i]);
      OcrTextsStep(batch, i, ocr);
      if outcome.Some? && !IsBlank(outcome.value) {
        allText := allText + [outcome.value];
      } else {
        assert allText + [] == allText;
      }
    }
    assert batch[..|batch|] == batch;
  }

  method DetectImageLanguage(frames: seq<string>, ocr: string -> Option<string>, detect: string -> Option<string>)
    returns (language: Option<string>)
    ensures language == OcrLanguage(frames, ocr, detect)
  {
    if frames == [] {
      return None;
    }
    var allText := CollectTexts(Take(frames, OcrFrameLimit), ocr);
    var combined := Join(allText, "\n");
    if IsBlank(combined) {
      return None;
    }
    language := detect(combined);
  }

  lemma {:induction false} OcrTextsAppend(a: seq<string>, b: seq<string>, ocr: string -> Option<string>)
    ensures OcrTexts(a + b, ocr) == OcrTexts(a, ocr) + OcrTexts(b, ocr)
    decreases |b|
  {
    if b == [] {
      assert a + b == a;
    } else {
      var b' := b[..|b| - 1];
      assert (a + b)[..|a + b| - 1] == a + b';
      OcrTextsAppend(a, b', ocr);
    }
  }

  /** A frame whose OCR fails, or reads only whitespace, is skipped; the
      other frames' texts are kept in order. */
  lemma {:induction false} SkippedFrame(before: seq<string>, frame: string, after: seq<string>, ocr: string -> Option<string>)
    requires ocr(frame).None? || IsBlank(ocr(frame).value)
    ensures OcrTexts(before + [frame] + after, ocr) == OcrTexts(before + after, ocr)
  {
    var x := before + [frame];
    assert x[..|x| - 1] == before && x[|x| - 1] == frame;
    assert FrameText(ocr(frame)) == [];
    assert OcrTexts(x, ocr) == OcrTexts(before, ocr);
    OcrTextsAppend(x, after, ocr);
    OcrTextsAppend(before, after, ocr);
  }

  /** The joined text is blank exactly when no frame yielded text. */
  lemma {:induction false} CombinedBlank(frames: seq<string>, ocr: string -> Option<string>)
    ensures IsBlank(Join(OcrTexts(frames, ocr), "\n")) <==> OcrTexts(frames, ocr) == []
  {
    var texts := OcrTexts(frames, ocr);
    JoinBlank(texts, "\n");
    if texts != [] {
      assert !IsBlank(texts[0]);
    }
  }

  /** No language is reported unless some of the first five frames yields
      non-blank text; when one does, the identifier decides. */
  lemma {:induction false} LanguageNeedsText(frames: seq<string>, ocr: string -> Option<string>, detect: string -> Option<string>)
    ensures OcrTexts(Take(frames, OcrFrameLimit), ocr) == [] ==> OcrLanguage(frames, ocr, detect) == None
    ensures OcrTexts(Take(frames, OcrFrameLimit), ocr) != [] ==>
              OcrLanguage(frames, ocr, detect) == detect(Join(OcrTexts(Take(frames, OcrFrameLimit), ocr), "\n"))
  {
    CombinedBlank(Take(frames, OcrFrameLimit), ocr);
    if frames == [] {
      assert Take(frames, OcrFrameLimit) == [];
    }
  }

  /** Frames after the fifth are never looked at. */
  lemma {:induction false} OnlyFirstFiveFrames(frames: seq<string>, extra: seq<string>, ocr: string -> Option<string>, detect: string -> Option<string>)
    requires |frames| >= OcrFrameLimit
    ensures OcrLanguage(frames + extra, ocr, detect) == OcrLanguage(frames, ocr, detect)
  {
    assert Take(frames + extra, OcrFrameLimit) == Take(frames, OcrFrameLimit);
  }
}
