/** `is_media_file` (container or standalone subtitle) and
    `detect_subtitle_format` (text or image payload): two-input decision
    rules. The probe's exit status and the file's decoded content are
    inputs. */
module Classifiers {
  import opened Wrappers
  import opened Strings
  import opened Sequences
  import opened Paths

  /** Extensions that mark a standalone subtitle file, lower-case. */
  const SubtitleExtensions: seq<string> := [".srt", ".ass", ".ssa", ".sub", ".sup", ".idx", ".pgs"]

  /** `is_media_file`: a container unless the probe failed or the
      lower-cased extension is a subtitle extension. */
  function IsMediaFile(probeReturnCode: int, path: string): (media: bool)
    ensures Lower(SplitExtension(path)) in SubtitleExtensions ==> !media
    ensures probeReturnCode != 0 ==> !media
    ensures probeReturnCode == 0 && Lower(SplitExtension(path)) !in SubtitleExtensions ==> media
  {
    !(probeReturnCode != 0 || Lower(SplitExtension(path)) in SubtitleExtensions)
  }

  lemma {:induction false} LastIndexLower(p: string, c: char)
    requires !IsAsciiLetter(c)
    ensures LastIndex(Lower(p), c) == LastIndex(p, c)
    decreases |p|
  {
    if p != [] {
      assert Lower(p)[..|p| - 1] == Lower(p[..|p| - 1]);
      LastIndexLower(p[..|p| - 1], c);
    }
  }

  lemma NonDotBetweenLower(p: string, lo: int, hi: int)
    ensures NonDotBetween(Lower(p), lo, hi) <==> NonDotBetween(p, lo, hi)
  {
    var q := Lower(p);
    if NonDotBetween(p, lo, hi) {
      var k :| lo <= k < hi && 0 <= k < |p| && p[k] != '.';
      assert q[k] == LowerChar(p[k]);
    }
    if NonDotBetween(q, lo, hi) {
      var k :| lo <= k < hi && 0 <= k < |q| && q[k] != '.';
      assert q[k] == LowerChar(p[k]);
    }
  }

  /** Lower-casing commutes with taking the extension: dots and slashes are
      not letters. */
  lemma SplitExtensionLower(p: string)
    ensures SplitExtension(Lower(p)) == Lower(SplitExtension(p))
  {
    var q := Lower(p);
    LastIndexLower(p, '/');
    LastIndexLower(p, '.');
    var sep := LastIndex(p, '/');
    var dot := LastIndex(p, '.');
    NonDotBetweenLower(p, sep + 1, dot);
    if dot > sep && NonDotBetween(p, sep + 1, dot) {
      assert q[dot..] == Lower(p[dot..]);
    } else {
      assert Lower("") == "";
    }
  }

  lemma LowerIdempotent(s: string)
    ensures Lower(Lower(s)) == Lower(s)
  {
  }

  /** The container/standalone verdict does not depend on the letter case
      of the path (as far as the extension lists are concerned). */
  lemma IsMediaFileIgnoresCase(probeReturnCode: int, path: string)
    ensures IsMediaFile(probeReturnCode, Lower(path)) == IsMediaFile(probeReturnCode, path)
  {
    SplitExtensionLower(path);
    LowerIdempotent(SplitExtension(path));
  }

  /** `detect_subtitle_format`'s verdict. */
  datatype SubtitleFormat = TextFormat | ImageFormat

  /** Characters read by the content sniff (`f.read(1000)`). */
  const SniffLength: nat := 1000

  /** Length of the letter run the sniff looks for (`[a-zA-Z]{5,}`). */
  const LetterRunLength: nat := 5

  /** Five ASCII letters start at position `i` of `s`. */
  predicate LetterRunAt(s: string, i: nat)
  {
    i + LetterRunLength <= |s| && forall j | i <= j < i + LetterRunLength :: IsAsciiLetter(s[j])
  }

  /** `re.search(r'[a-zA-Z]{5,}', s)` succeeds. */
  predicate HasLetterRun(s: string)
  {
    exists i: nat | i <= |s| :: LetterRunAt(s, i)
  }

  /** The content sniff used for `.sub`, `.idx` and unknown extensions:
      text if the first 1000 characters hold a run of five ASCII letters;
      image otherwise, and when the file cannot be read (`None`). */
  function Sniff(content: Option<string>): SubtitleFormat
  {
    if content.Some? && HasLetterRun(Take(content.value, SniffLength)) then TextFormat else ImageFormat
  }

  /** `detect_subtitle_format`: the lower-cased extension decides for
      `.srt .vtt .ass .ssa` (text) and `.sup .pgs` (image); every other
      extension falls through to the content sniff. */
  function DetectSubtitleFormat(path: string, content: Option<string>): (f: SubtitleFormat)
    ensures Lower(SplitExtension(path)) in [".srt", ".vtt", ".ass", ".ssa"] ==> f == TextFormat
    ensures Lower(SplitExtension(path)) in [".sup", ".pgs"] ==> f == ImageFormat
    ensures Lower(SplitExtension(path)) !in [".srt", ".vtt", ".ass", ".ssa", ".sup", ".pgs"] ==>
              (f == TextFormat <==> content.Some? && HasLetterRun(Take(content.value, SniffLength)))
  {
    var ext := Lower(SplitExtension(path));
    if ext in [".srt", ".vtt"] then TextFormat
    else if ext in [".ass", ".ssa"] then TextFormat
    else if ext in [".sup", ".pgs"] then ImageFormat
    else if ext in [".sub", ".idx"] then Sniff(content)
    else Sniff(content)
  }

  /** The verdict is a function of the lower-cased extension and the first
      1000 characters alone (and of whether the file could be read). */
  lemma FormatDeterminedByExtensionAndPrefix(p1: string, c1: Option<string>, p2: string, c2: Option<string>)
    requires Lower(SplitExtension(p1)) == Lower(SplitExtension(p2))
    requires c1.Some? == c2.Some?
    requires c1.Some? ==> Take(c1.value, SniffLength) == Take(c2.value, SniffLength)
    ensures DetectSubtitleFormat(p1, c1) == DetectSubtitleFormat(p2, c2)
  {
  }

  /** The sniff never looks past the first 1000 characters. */
  lemma FormatIgnoresTail(path: string, content: string, tail: string)
    requires |content| >= SniffLength
    ensures DetectSubtitleFormat(path, Some(content + tail)) == DetectSubtitleFormat(path, Some(content))
  {
    assert Take(content + tail, SniffLength) == Take(content, SniffLength);
  }

  /** Upper- or lower-case spellings of a path get the same verdict. */
  lemma FormatIgnoresCase(path: string, content: Option<string>)
    ensures DetectSubtitleFormat(Lower(path), content) == DetectSubtitleFormat(path, content)
  {
    SplitExtensionLower(path);
    LowerIdempotent(SplitExtension(path));
  }

  /** A five-letter run at position `i` within the first 1000 characters
      makes an ambiguous or unknown extension (such as `.idx`) text. */
  lemma LetterRunGivesText(path: string, content: string, i: nat)
    requires Lower(SplitExtension(path)) !in [".sup", ".pgs"]
    requires i + LetterRunLength <= SniffLength && i + LetterRunLength <= |content|
    requires forall j | i <= j < i + LetterRunLength :: IsAsciiLetter(content[j])
    ensures DetectSubtitleFormat(path, Some(content)) == TextFormat
  {
    var head := Take(content, SniffLength);
    assert forall j | i <= j < i + LetterRunLength :: head[j] == content[j];
    assert LetterRunAt(head, i);
  }
}
