/** `detect_text_subtitle_language`: ASS/SSA dialogue extraction, override
    stripping, line sampling and the hand-off to the language identifier.
    The decoded file content is an input; the language identifier is an
    oracle that answers a language code or fails (`None`). */
module TextLanguage {
  import opened Wrappers
  import opened Strings
  import opened Sequences

  const EventsMarker: string := "[Events]"
  const DialogueTag: string := "Dialogue:"

  /** Fields before the dialogue text in the pattern
      `Dialogue:[^,]*(?:,[^,]*){8},([^\n]*)`: nine commas precede the text. */
  const DialogueCommas: nat := 9

  /** Longest line length that does not yet count as a "long" line. */
  const LongLineThreshold: nat := 20

  /** Lines kept in a sample. */
  const SampleLineLimit: nat := 20

  // ---------------------------------------------------------------------
  // Header cut: content.split('[Events]')[1]

  /** `[Events]` has no proper border, so two occurrences never overlap. */
  lemma MarkerOccurrencesApart(s: string, k: nat, m: nat)
    requires OccursAt(s, EventsMarker, k) && OccursAt(s, EventsMarker, m) && k < m
    ensures k + |EventsMarker| <= m
  {
    assert s[m] == s[m..m + |EventsMarker|][0] == '[';
    assert forall d | 0 < d < |EventsMarker| :: EventsMarker[d] != '[';
    assert forall j | k <= j < k + |EventsMarker| && j < |s| :: s[j] == s[k..k + |EventsMarker|][j - k];
  }

  /** Nothing before the first occurrence holds the marker. */
  lemma NoMarkerBeforeFirst(after: string, j: nat)
    requires IndexOf(after, EventsMarker) == Some(j)
    ensures !Contains(after[..j], EventsMarker)
  {
    var m := |EventsMarker|;
    forall k: nat | k <= j ensures !OccursAt(after[..j], EventsMarker, k) {
      if k + m <= j {
        assert k < j && !OccursAt(after, EventsMarker, k);
        assert after[..j][k..k + m] == after[k..k + m];
      }
    }
  }

  /** An occurrence in a suffix is an occurrence in the whole text. */
  lemma OccursInSuffix(content: string, start: nat, j: nat)
    requires start <= |content| && OccursAt(content[start..], EventsMarker, j)
    ensures OccursAt(content, EventsMarker, start + j)
  {
    var m := |EventsMarker|;
    assert content[start + j..start + j + m] == content[start..][j..j + m];
  }

  /** The segment of `content` between the first and the second `[Events]`
      (or the end), or all of `content` when the marker does not occur. */
  function EventsSegment(content: string): (r: string)
    ensures |r| <= |content|
  {
    match IndexOf(content, EventsMarker)
    case None => content
    case Some(i) =>
      var after := content[i + |EventsMarker|..];
      match IndexOf(after, EventsMarker)
      case None => after
      case Some(j) => after[..j]
  }

  /** Without the marker the content is kept whole; with it, the segment is
      the marker-free text that starts right after the first marker and
      runs to the next marker or to the end. */
  lemma EventsSegmentCut(content: string)
    ensures !Contains(content, EventsMarker) ==> EventsSegment(content) == content
    ensures Contains(content, EventsMarker) ==>
      var r := EventsSegment(content);
      var i := IndexOf(content, EventsMarker).value;
      var end := i + |EventsMarker| + |r|;
      && !Contains(r, EventsMarker)
      && end <= |content| && content[i + |EventsMarker|..end] == r
      && (end == |content| || OccursAt(content, EventsMarker, end))
  {
    if Contains(content, EventsMarker) {
      var i := IndexOf(content, EventsMarker).value;
      EventsSegmentAfter(content, i + |EventsMarker|);
    }
  }

  /** The text from `start` to the next marker holds no marker. */
  lemma SegmentBeforeNextMarker(content: string, start: nat, j: nat)
    requires start <= |content| && IndexOf(content[start..], EventsMarker) == Some(j)
    ensures start + j <= |content| && content[start..start + j] == content[start..][..j]
    ensures !Contains(content[start..][..j], EventsMarker)
    ensures OccursAt(content, EventsMarker, start + j)
  {
    NoMarkerBeforeFirst(content[start..], j);
    OccursInSuffix(content, start, j);
  }

  /** The segment cut from the text after the first marker, which starts
      at `start`. */
  lemma EventsSegmentAfter(content: string, start: nat)
    requires IndexOf(content, EventsMarker).Some?
    requires start == IndexOf(content, EventsMarker).value + |EventsMarker|
    ensures var r := EventsSegment(content);
      var end := start + |r|;
      && !Contains(r, EventsMarker)
      && end <= |content| && content[start..end] == r
      && (end == |content| || OccursAt(content, EventsMarker, end))
  {
    var after := content[start..];
    assert EventsSegment(content) == match IndexOf(after, EventsMarker)
      case None => after
      case Some(j) => after[..j];
    if IndexOf(after, EventsMarker).Some? {
      SegmentBeforeNextMarker(content, start, IndexOf(after, EventsMarker).value);
    } else {
      assert content[start..|content|] == after;
    }
  }

  /** A script laid out as a header, the marker and an events body (neither
      containing the marker) is cut down to exactly the body. */
  lemma {:induction false} EventsSegmentOfScript(header: string, body: string)
    requires !Contains(header, EventsMarker) && !Contains(body, EventsMarker)
    ensures EventsSegment(header + EventsMarker + body) == body
  {
    var c := header + EventsMarker + body;
    var h := |header|;
    assert OccursAt(c, EventsMarker, h) by { assert c[h..h + |EventsMarker|] == EventsMarker; }
    forall k: nat | k < h ensures !OccursAt(c, EventsMarker, k) {
      if OccursAt(c, EventsMarker, k) {
        if k + |EventsMarker| <= h {
          assert c[k..k + |EventsMarker|] == header[k..k + |EventsMarker|];
          assert OccursAt(header, EventsMarker, k);
        } else {
          MarkerOccurrencesApart(c, k, h);
        }
      }
    }
    assert IndexOf(c, EventsMarker) == Some(h);
    assert c[h + |EventsMarker|..] == body;
    assert !Contains(body, EventsMarker);
  }

  // ---------------------------------------------------------------------
  // Dialogue extraction: re.findall(r'Dialogue:[^,]*(?:,[^,]*){8},([^\n]*)', s)

  /** What follows the first `n` commas of `s`; `[^,]*` cannot pass a comma,
      so the i-th comma of the pattern is always the i-th comma of the text. */
  function AfterCommas(s: string, n: nat): (r: Option<string>)
    ensures r.Some? ==> |r.value| <= |s|
    ensures r.Some? && n > 0 ==> |r.value| < |s|
    decreases |s|
  {
    if n == 0 then Some(s)
    else if s == [] then None
    else if s[0] == ',' then AfterCommas(s[1..], n - 1)
    else AfterCommas(s[1..], n)
  }

  /** The greedy `[^\n]*`: everything up to the first newline. */
  function LineHead(s: string): (r: string)
    ensures |r| <= |s| && r == s[..|r|] && '\n' !in r
    ensures |r| < |s| ==> s[|r|] == '\n'
  {
    if s == [] || s[0] == '\n' then [] else [s[0]] + LineHead(s[1..])
  }

  /** A match of the dialogue pattern starting at the first character of
      `s`: the captured text and what remains after the match. */
  function MatchDialogue(s: string): (r: Option<(string, string)>)
    ensures r.Some? ==> '\n' !in r.value.0 && |r.value.1| < |s|
    ensures r.Some? ==> StartsWith(s, DialogueTag)
  {
    if !StartsWith(s, DialogueTag) then None
    else
      match AfterCommas(s[|DialogueTag|..], DialogueCommas)
      case None => None
      case Some(rest) =>
        var text := LineHead(rest);
        Some((text, rest[|text|..]))
  }

  /** `re.findall` of the dialogue pattern: scan left to right, and after a
      match resume at its end (the newline that stopped the capture). */
  function FindDialogues(s: string): (r: seq<string>)
    ensures forall i | 0 <= i < |r| :: '\n' !in r[i]
    decreases |s|
  {
    if s == [] then []
    else
      match MatchDialogue(s)
      case Some((text, rest)) => [text] + FindDialogues(rest)
      case None => FindDialogues(s[1..])
  }

  /** One line of an `[Events]` section: a `Dialogue:` event (nine
      comma-free fields, then the text), or any other line, such as the
      `Format:` line or a `Comment:` event, that holds no `Dialogue:`. */
  datatype Event = Dialogue(fields: seq<string>, text: string) | Other(line: string)

  predicate WellFormedEvent(e: Event)
  {
    match e
    case Dialogue(fields, text) =>
      |fields| == DialogueCommas
      && (forall i | 0 <= i < |fields| :: ',' !in fields[i])
      && '\n' !in text
    case Other(line) => '\n' !in line && !Contains(line, DialogueTag)
  }

  /** `f0,f1,...,f8,` */
  function FieldsText(fields: seq<string>): string
  {
    if fields == [] then "" else fields[0] + "," + FieldsText(fields[1..])
  }

  function EventLine(e: Event): string
  {
    match e
    case Dialogue(fields, text) => DialogueTag + FieldsText(fields) + text
    case Other(line) => line
  }

  /** Event lines, each ended by a newline. */
  function RenderEvents(events: seq<Event>): string
  {
    if events == [] then "" else EventLine(events[0]) + "\n" + RenderEvents(events[1..])
  }

  /** The texts of the dialogue events, in order. */
  function EventTexts(events: seq<Event>): seq<string>
  {
    if events == [] then []
    else if events[0].Dialogue? then [events[0].text] + EventTexts(events[1..])
    else EventTexts(events[1..])
  }

  lemma {:induction false} AfterCommaFreePrefix(f: string, t: string, n: nat)
    requires ',' !in f
    ensures AfterCommas(f + "," + t, n + 1) == AfterCommas(t, n)
    decreases |f|
  {
    var s := f + "," + t;
    if f == [] {
      assert s[1..] == t;
    } else {
      assert s[1..] == f[1..] + "," + t;
      AfterCommaFreePrefix(f[1..], t, n);
    }
  }

  lemma FieldsTextCons(fields: seq<string>, t: string)
    requires fields != []
    ensures FieldsText(fields) + t == fields[0] + "," + (FieldsText(fields[1..]) + t)
  {
  }

  lemma CommaFreeLater(fields: seq<string>)
    requires fields != [] && forall i | 0 <= i < |fields| :: ',' !in fields[i]
    ensures ',' !in fields[0] && forall i | 0 <= i < |fields[1..]| :: ',' !in fields[1..][i]
  {
    forall i | 0 <= i < |fields[1..]| ensures ',' !in fields[1..][i] {
      assert fields[1..][i] == fields[i + 1];
    }
  }

  lemma {:induction false} AfterFields(fields: seq<string>, t: string)
    requires forall i | 0 <= i < |fields| :: ',' !in fields[i]
    ensures AfterCommas(FieldsText(fields) + t, |fields|) == Some(t)
    decreases |fields|
  {
    if fields != [] {
      var later := fields[1..];
      var tail := FieldsText(later) + t;
      CommaFreeLater(fields);
      AfterFields(later, t);
      AfterCommaFreePrefix(fields[0], tail, |later|);
      FieldsTextCons(fields, t);
    } else {
      assert FieldsText(fields) + t == t;
    }
  }

  lemma {:induction false} LineHeadOfLine(text: string, rest: string)
    requires '\n' !in text
    ensures LineHead(text + "\n" + rest) == text
    decreases |text|
  {
    var s := text + "\n" + rest;
    if text != [] {
      assert s[1..] == text[1..] + "\n" + rest;
      LineHeadOfLine(text[1..], rest);
    }
  }

  lemma EventLineShape(fields: seq<string>, text: string, tail: string)
    ensures StartsWith(DialogueTag + FieldsText(fields) + text + tail, DialogueTag)
    ensures (DialogueTag + FieldsText(fields) + text + tail)[|DialogueTag|..] == FieldsText(fields) + (text + tail)
  {
    var s := DialogueTag + FieldsText(fields) + text + tail;
    assert s == DialogueTag + (FieldsText(fields) + (text + tail));
  }

  lemma MatchDialogueAt(s: string, rest: string)
    requires StartsWith(s, DialogueTag)
    requires AfterCommas(s[|DialogueTag|..], DialogueCommas) == Some(rest)
    ensures MatchDialogue(s) == Some((LineHead(rest), rest[|LineHead(rest)|..]))
  {
  }

  lemma MatchEventLine(e: Event, rest: string)
    requires e.Dialogue? && WellFormedEvent(e)
    ensures MatchDialogue(EventLine(e) + "\n" + rest) == Some((e.text, "\n" + rest))
  {
    var tail := e.text + "\n" + rest;
    var s := EventLine(e) + ("\n" + rest);
    assert EventLine(e) + "\n" + rest == s;
    assert s == DialogueTag + FieldsText(e.fields) + e.text + ("\n" + rest);
    EventLineShape(e.fields, e.text, "\n" + rest);
    assert e.text + ("\n" + rest) == tail;
    AfterFields(e.fields, tail);
    MatchDialogueAt(s, tail);
    LineHeadOfLine(e.text, rest);
    assert tail[|e.text|..] == "\n" + rest;
  }

  /** A line holding no `Dialogue:` yields no match: the scan walks past
      it and its newline. */
  lemma {:induction false} SkipOtherLine(t: string, rest: string)
    requires '\n' !in t && !Contains(t, DialogueTag)
    ensures FindDialogues(t + "\n" + rest) == FindDialogues(rest)
    decreases |t|
  {
    var s := t + "\n" + rest;
    var m := |DialogueTag|;
    if m <= |t| {
      assert t[..m] == s[..m];
      assert !OccursAt(t, DialogueTag, 0);
    } else {
      assert s[|t|] == '\n' && '\n' !in DialogueTag;
    }
    assert !StartsWith(s, DialogueTag);
    if t == [] {
      assert s[1..] == rest;
    } else {
      assert s[1..] == t[1..] + "\n" + rest;
      assert !Contains(t[1..], DialogueTag) by {
        forall k: nat | k <= |t[1..]| ensures !OccursAt(t[1..], DialogueTag, k) {
          if OccursAt(t[1..], DialogueTag, k) {
            assert t[k + 1..k + 1 + m] == t[1..][k..k + m];
            assert OccursAt(t, DialogueTag, k + 1);
          }
        }
      }
      SkipOtherLine(t[1..], rest);
    }
  }

  /** Dialogue extraction recovers, in order, the text of every well-formed
      dialogue line, commas in the text included, and nothing from the
      other lines. */
  lemma {:induction false} FindDialoguesOfEvents(events: seq<Event>)
    requires forall i | 0 <= i < |events| :: WellFormedEvent(events[i])
    ensures FindDialogues(RenderEvents(events)) == EventTexts(events)
    ensures FindDialogues("\n" + RenderEvents(events)) == EventTexts(events)
    decreases |events|
  {
    var s := RenderEvents(events);
    var n := "\n" + s;
    assert n[0] == '\n' && DialogueTag[0] == 'D';
    assert !StartsWith(n, DialogueTag);
    assert n[1..] == s;
    if events != [] {
      var rest := RenderEvents(events[1..]);
      assert s == EventLine(events[0]) + "\n" + rest;
      FindDialoguesOfEvents(events[1..]);
      if events[0].Dialogue? {
        MatchEventLine(events[0], rest);
      } else {
        SkipOtherLine(events[0].line, rest);
      }
    }
  }

  // ---------------------------------------------------------------------
  // Override stripping: re.sub(r'{\\[^}]*}', '', text)

  /** Removes, left to right, every `{\` ... `}` span (up to the first
      closing brace after the opening `{\`). */
  function StripOverrides(s: string): (r: string)
    ensures |r| <= |s|
    decreases |s|
  {
    if s == [] then []
    else if |s| >= 2 && s[0] == '{' && s[1] == '\\' then
      match IndexOf(s[2..], "}")
      case Some(j) => StripOverrides(s[2 + j + 1..])
      case None => [s[0]] + StripOverrides(s[1..])
    else [s[0]] + StripOverrides(s[1..])
  }

  /** Dialogue text as a sequence of plain runs and override blocks. */
  datatype Piece = Plain(text: string) | Override(body: string)

  /** Plain dialogue text: braces may occur (ASS brace comments such as
      `{note}`), but no `{` is followed by a backslash within the run. */
  predicate PlainRun(t: string)
  {
    forall k | 0 <= k < |t| && t[k] == '{' :: k + 1 < |t| && t[k + 1] != '\\'
  }

  predicate WellFormedPiece(p: Piece)
  {
    match p
    case Plain(t) => PlainRun(t)
    case Override(b) => '}' !in b
  }

  function RenderPieces(ps: seq<Piece>): string
  {
    if ps == [] then ""
    else
      match ps[0]
      case Plain(t) => t + RenderPieces(ps[1..])
      case Override(b) => "{\\" + b + "}" + RenderPieces(ps[1..])
  }

  function PlainText(ps: seq<Piece>): string
  {
    if ps == [] then ""
    else
      match ps[0]
      case Plain(t) => t + PlainText(ps[1..])
      case Override(_) => PlainText(ps[1..])
  }

  /** A text not opening with `{` keeps its first character. */
  lemma StripOverridesPlainHead(s: string)
    requires s != [] && s[0] != '{'
    ensures StripOverrides(s) == [s[0]] + StripOverrides(s[1..])
  {
  }

  /** A `{` that does not open a closed `{\…}` span (no backslash after
      it, or no `}` later on) is kept like any other character. */
  lemma StripOverridesKeepsBrace(s: string)
    requires s != [] && s[0] == '{'
    requires |s| < 2 || s[1] != '\\' || !Contains(s[2..], "}")
    ensures StripOverrides(s) == [s[0]] + StripOverrides(s[1..])
  {
    if |s| >= 2 && s[1] == '\\' {
      assert IndexOf(s[2..], "}").None?;
    }
  }

  lemma PlainRunHead(t: string)
    requires t != [] && t[0] == '{' && PlainRun(t)
    ensures |t| >= 2 && t[1] != '\\'
  {
  }

  lemma PlainRunTail(t: string)
    requires t != [] && PlainRun(t)
    ensures PlainRun(t[1..])
  {
    forall k | 0 <= k < |t[1..]| && t[1..][k] == '{'
      ensures k + 1 < |t[1..]| && t[1..][k + 1] != '\\'
    {
      assert t[k + 1] == '{';
    }
  }

  /** The first character of a plain run survives stripping, whatever
      follows the run. */
  lemma StripOverridesRunHead(t: string, x: string)
    requires t != [] && (t[0] != '{' || (|t| >= 2 && t[1] != '\\'))
    ensures StripOverrides(t + x) == [t[0]] + StripOverrides(t[1..] + x)
  {
    var s := t + x;
    assert s[0] == t[0] && s[1..] == t[1..] + x;
    if t[0] == '{' {
      assert s[1] == t[1];
      StripOverridesKeepsBrace(s);
    } else {
      StripOverridesPlainHead(s);
    }
  }

  lemma ConsTail(t: string, rest: string)
    requires t != []
    ensures [t[0]] + (t[1..] + rest) == t + rest
  {
    assert [t[0]] + t[1..] == t;
  }

  /** Plain text passes through unchanged, whatever follows it. */
  lemma {:induction false} StripOverridesPlainPrefix(t: string, x: string)
    requires PlainRun(t)
    ensures StripOverrides(t + x) == t + StripOverrides(x)
    decreases |t|
  {
    if t != [] {
      if t[0] == '{' {
        PlainRunHead(t);
      }
      var rest := StripOverrides(x);
      StripOverridesRunHead(t, x);
      PlainRunTail(t);
      StripOverridesPlainPrefix(t[1..], x);
      calc {
        StripOverrides(t + x);
        [t[0]] + StripOverrides(t[1..] + x);
        [t[0]] + (t[1..] + rest);
        { ConsTail(t, rest); }
        t + rest;
      }
    } else {
      assert t + x == x;
    }
  }

  lemma StripOverridesBlock(b: string, x: string)
    requires '}' !in b
    ensures StripOverrides("{\\" + b + "}" + x) == StripOverrides(x)
  {
    var s := "{\\" + b + "}" + x;
    var inner := s[2..];
    assert inner == b + "}" + x;
    assert OccursAt(inner, "}", |b|) by { assert inner[|b|..|b| + 1] == "}"; }
    forall k: nat | k < |b| ensures !OccursAt(inner, "}", k) {
      assert inner[k] == b[k];
      assert inner[k..k + 1] == [inner[k]];
    }
    assert IndexOf(inner, "}") == Some(|b|);
    assert s[2 + |b| + 1..] == x;
  }

  /** Stripping removes exactly the override blocks and keeps every plain
      run, in order. */
  lemma {:induction false} StripOverridesOfPieces(ps: seq<Piece>)
    requires forall i | 0 <= i < |ps| :: WellFormedPiece(ps[i])
    ensures StripOverrides(RenderPieces(ps)) == PlainText(ps)
    decreases |ps|
  {
    if ps != [] {
      StripOverridesOfPieces(ps[1..]);
      match ps[0]
      case Plain(t) =>
        StripOverridesPlainPrefix(t, RenderPieces(ps[1..]));
      case Override(b) =>
        StripOverridesBlock(b, RenderPieces(ps[1..]));
    }
  }

  // ---------------------------------------------------------------------
  // ASS/SSA handling and sampling

  /** The ASS/SSA branch: cut the header, then, if any dialogue line
      matches, keep the dialogue texts joined by spaces with override
      blocks removed; otherwise keep the cut content as it is. */
  function AssDialogueText(content: string): string
  {
    var section := EventsSegment(content);
    var texts := FindDialogues(section);
    if texts == [] then section else StripOverrides(Join(texts, " "))
  }

  /** Applies the ASS/SSA branch when the path ends, case-sensitively, in
      `.ass` or `.ssa`. */
  function NormalizeText(path: string, content: string): string
  {
    if EndsWith(path, ".ass") || EndsWith(path, ".ssa") then AssDialogueText(content) else content
  }

  /** When dialogue lines match, the text is their captures, space-joined,
      with override blocks removed. */
  lemma AssDialogueTextFromSection(content: string, section: string, texts: seq<string>)
    requires EventsSegment(content) == section && FindDialogues(section) == texts && texts != []
    ensures AssDialogueText(content) == StripOverrides(Join(texts, " "))
  {
  }

  /** When no dialogue line matches, the cut segment is kept as it is. */
  lemma AssDialogueTextWithoutDialogue(content: string)
    requires FindDialogues(EventsSegment(content)) == []
    ensures AssDialogueText(content) == EventsSegment(content)
    ensures !Contains(content, EventsMarker) ==> AssDialogueText(content) == content
  {
    EventsSegmentCut(content);
  }

  /** A script with a header, the `[Events]` marker and well-formed event
      lines (the `Format:` line and comments among them) is reduced to the
      dialogue texts, space-separated, stripped of override blocks; with no
      dialogue line at all, to the events section unchanged. */
  lemma {:induction false} AssDialogueTextOfScript(header: string, events: seq<Event>)
    requires !Contains(header, EventsMarker)
    requires !Contains("\n" + RenderEvents(events), EventsMarker)
    requires forall i | 0 <= i < |events| :: WellFormedEvent(events[i])
    ensures EventTexts(events) != [] ==>
      AssDialogueText(header + EventsMarker + "\n" + RenderEvents(events))
        == StripOverrides(Join(EventTexts(events), " "))
    ensures EventTexts(events) == [] ==>
      AssDialogueText(header + EventsMarker + "\n" + RenderEvents(events))
        == "\n" + RenderEvents(events)
  {
    var body := "\n" + RenderEvents(events);
    var script := header + EventsMarker + body;
    assert header + EventsMarker + "\n" + RenderEvents(events) == script;
    EventsSegmentOfScript(header, body);
    FindDialoguesOfEvents(events);
  }

  predicate IsLongLine(line: string)
  {
    |line| > LongLineThreshold
  }

  predicate IsContentLine(line: string)
  {
    !IsBlank(line)
  }

  predicate HasLongLine(lines: seq<string>)
  {
    exists i | 0 <= i < |lines| :: IsLongLine(lines[i])
  }

  lemma FilterKeepsWitness(s: seq<string>, p: string -> bool, i: nat)
    requires i < |s| && p(s[i])
    ensures s[i] in Filter(s, p)
  {
    assert s[i] in multiset(s);
    assert multiset(Filter(s, p))[s[i]] > 0;
  }

  lemma LongLinesExist(lines: seq<string>)
    ensures HasLongLine(lines) <==> Filter(lines, IsLongLine) != []
  {
    if HasLongLine(lines) {
      var i :| 0 <= i < |lines| && IsLongLine(lines[i]);
      FilterKeepsWitness(lines, IsLongLine, i);
    }
  }

  /** The qualifying lines before truncation: the long lines if there are
      any, otherwise the non-blank lines. */
  function Qualifying(lines: seq<string>): (r: seq<string>)
    ensures HasLongLine(lines) ==> r == Filter(lines, IsLongLine) && r != []
    ensures !HasLongLine(lines) ==> r == Filter(lines, IsContentLine)
  {
    var long := Filter(lines, IsLongLine);
    LongLinesExist(lines);
    if long != [] then long else Filter(lines, IsContentLine)
  }

  lemma TakeQualifyingProperties(lines: seq<string>)
    ensures var q := Qualifying(lines); var r := Take(q, SampleLineLimit);
      && |r| == (if |q| < SampleLineLimit then |q| else SampleLineLimit)
      && (forall i | 0 <= i < |r| :: r[i] == q[i])
      && IsSubsequence(r, lines)
      && (forall i | 0 <= i < |r| :: r[i] in lines)
      && (HasLongLine(lines) ==> forall i | 0 <= i < |r| :: IsLongLine(r[i]))
      && (!HasLongLine(lines) ==> forall i | 0 <= i < |r| :: !IsBlank(r[i]))
  {
    var chosen := Qualifying(lines);
    var r := Take(chosen, SampleLineLimit);
    TakeIsSubsequence(chosen, SampleLineLimit);
    SubsequenceTransitive(r, chosen, lines);
    SubsequenceElements(r, lines);
    assert forall i | 0 <= i < |r| :: r[i] == chosen[i];
  }

  /** The lines of the sample: the first twenty qualifying lines (all of
      them when fewer qualify), taken in order from the content's lines;
      long lines only if there is one, else non-blank ones. */
  function SampleLines(content: string): (r: seq<string>)
    ensures var q := Qualifying(Split(content, '\n'));
      && |r| == (if |q| < SampleLineLimit then |q| else SampleLineLimit)
      && (forall i | 0 <= i < |r| :: r[i] == q[i])
    ensures IsSubsequence(r, Split(content, '\n'))
    ensures forall i | 0 <= i < |r| :: '\n' !in r[i]
    ensures HasLongLine(Split(content, '\n')) ==> forall i | 0 <= i < |r| :: IsLongLine(r[i])
    ensures !HasLongLine(Split(content, '\n')) ==> forall i | 0 <= i < |r| :: !IsBlank(r[i])
  {
    var lines := Split(content, '\n');
    TakeQualifyingProperties(lines);
    Take(Qualifying(lines), SampleLineLimit)
  }

  /** The text handed to the language identifier, or `None` when the
      twenty-line sample is empty or whitespace only. */
  function Sample(content: string): (r: Option<string>)
    ensures r.Some? ==> !IsBlank(r.value) && Split(r.value, '\n') == SampleLines(content)
    ensures r.None? <==> forall i | 0 <= i < |SampleLines(content)| :: IsBlank(SampleLines(content)[i])
  {
    var lines := SampleLines(content);
    var sample := Join(lines, "\n");
    JoinBlank(lines, "\n");
    if IsBlank(sample) then None
    else
      SplitJoin(lines, '\n');
      Some(sample)
  }

  /** When at most twenty lines qualify, every qualifying line is in the
      sample. */
  lemma SampleKeepsAllWhenFew(content: string, i: nat)
    requires var lines := Split(content, '\n');
      i < |lines| && |Qualifying(lines)| <= SampleLineLimit
      && (IsLongLine(lines[i]) || (!HasLongLine(lines) && !IsBlank(lines[i])))
    ensures Split(content, '\n')[i] in SampleLines(content)
  {
    var lines := Split(content, '\n');
    if HasLongLine(lines) {
      FilterKeepsWitness(lines, IsLongLine, i);
    } else {
      FilterKeepsWitness(lines, IsContentLine, i);
    }
  }

  /** Without long lines, no sample means no non-blank line. */
  lemma NoSampleWithoutContentLines(content: string)
    requires !HasLongLine(Split(content, '\n')) && Sample(content).None?
    ensures Filter(Split(content, '\n'), IsContentLine) == []
  {
    var chosen := Filter(Split(content, '\n'), IsContentLine);
    assert SampleLines(content) == Take(chosen, SampleLineLimit);
    assert SampleLines(content) == [];
  }

  lemma BlankLinesOfEmptyFilter(lines: seq<string>)
    requires Filter(lines, IsContentLine) == []
    ensures forall i | 0 <= i < |lines| :: IsBlank(lines[i])
  {
    forall i | 0 <= i < |lines| ensures IsBlank(lines[i]) {
      assert lines[i] in multiset(lines);
    }
  }

  /** Lines that are all blank give no sample. */
  lemma SampleFromBlankLines(content: string)
    requires forall i | 0 <= i < |Split(content, '\n')| :: IsBlank(Split(content, '\n')[i])
    ensures Sample(content).None?
  {
    var lines := Split(content, '\n');
    var sampled := SampleLines(content);
    SubsequenceElements(sampled, lines);
    forall k | 0 <= k < |sampled| ensures IsBlank(sampled[k]) {
      assert sampled[k] in lines;
    }
  }

  /** Without long lines the sample is empty exactly when the whole
      content is blank. */
  lemma SampleOfShortLines(content: string)
    requires !HasLongLine(Split(content, '\n'))
    ensures Sample(content).None? <==> IsBlank(content)
  {
    var lines := Split(content, '\n');
    JoinSplit(content, '\n');
    JoinBlank(lines, "\n");
    if Sample(content).None? {
      NoSampleWithoutContentLines(content);
      BlankLinesOfEmptyFilter(lines);
    }
    if IsBlank(content) {
      SampleFromBlankLines(content);
    }
  }

  /** `detect_text_subtitle_language`: `content` is the decoded file, or
      `None` when it could be read in neither UTF-8 nor Latin-1. */
  function DetectTextLanguage(path: string, content: Option<string>, detect: string -> Option<string>): (r: Option<string>)
    ensures content.None? ==> r == None
    ensures content.Some? && Sample(NormalizeText(path, content.value)).None? ==> r == None
    ensures content.Some? && Sample(NormalizeText(path, content.value)).Some? ==>
              r == detect(Sample(NormalizeText(path, content.value)).value)
  {
    match content
    case None => None
    case Some(c) =>
      match Sample(NormalizeText(path, c))
      case None => None
      case Some(s) => detect(s)
  }

  /** A blank sample gives no language whatever the identifier would have
      answered: the identifier is not consulted. */
  lemma BlankSampleSkipsIdentifier(path: string, content: string, d1: string -> Option<string>, d2: string -> Option<string>)
    requires Sample(NormalizeText(path, content)).None?
    ensures DetectTextLanguage(path, Some(content), d1) == DetectTextLanguage(path, Some(content), d2) == None
  {
  }
}
