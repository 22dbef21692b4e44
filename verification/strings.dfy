/** The Python string operations the detector relies on, written out:
    `str.split` and `str.join` with a single-character separator,
    `str.strip()` emptiness, `str.lower()` on ASCII, `startswith`/`endswith`
    and substring search (`in`, `str.split(marker)`). */
module Strings {
  import opened Wrappers

  /** Python's `str.isspace()` for one code point: the characters that
      `str.strip()` with no argument removes. */
  predicate IsSpace(c: char)
  {
    ('\t' <= c <= '\r') || ('\U{1c}' <= c <= ' ') || c == '\U{85}' || c == '\U{a0}'
    || c == '\U{1680}' || ('\U{2000}' <= c <= '\U{200a}') || c == '\U{2028}' || c == '\U{2029}'
    || c == '\U{202f}' || c == '\U{205f}' || c == '\U{3000}'
  }

  /** `not s.strip()`: the string is empty or whitespace only. */
  predicate IsBlank(s: string)
  {
    forall i | 0 <= i < |s| :: IsSpace(s[i])
  }

  predicate IsAsciiLetter(c: char)
  {
    ('a' <= c <= 'z') || ('A' <= c <= 'Z')
  }

  function LowerChar(c: char): (r: char)
    ensures IsAsciiLetter(c) <==> IsAsciiLetter(r)
    ensures 'A' <= c <= 'Z' ==> r as int == c as int + 32
    ensures !('A' <= c <= 'Z') ==> r == c
  {
    if 'A' <= c <= 'Z' then (c as int + 32) as char else c
  }

  /** `s.lower()`, restricted to ASCII letters. */
  function Lower(s: string): (r: string)
    ensures |r| == |s|
    ensures forall i | 0 <= i < |s| :: r[i] == LowerChar(s[i])
  {
    seq(|s|, i requires 0 <= i < |s| => LowerChar(s[i]))
  }

  predicate StartsWith(s: string, prefix: string)
  {
    |prefix| <= |s| && s[..|prefix|] == prefix
  }

  predicate EndsWith(s: string, suffix: string)
  {
    |suffix| <= |s| && s[|s| - |suffix|..] == suffix
  }

  /** `s.split(sep)` for a one-character separator: the maximal
      separator-free pieces, always at least one. */
  function Split(s: string, sep: char): (r: seq<string>)
    ensures |r| >= 1
    ensures forall i | 0 <= i < |r| :: sep !in r[i]
  {
    if s == [] then [""]
    else if s[0] == sep then [""] + Split(s[1..], sep)
    else
      var rest := Split(s[1..], sep);
      [[s[0]] + rest[0]] + rest[1..]
  }

  /** `sep.join(parts)` */
  function Join(parts: seq<string>, sep: string): string
  {
    if |parts| == 0 then ""
    else if |parts| == 1 then parts[0]
    else parts[0] + sep + Join(parts[1..], sep)
  }

  lemma JoinConsHead(c: string, parts: seq<string>, sep: string)
    requires |parts| >= 1
    ensures Join([c + parts[0]] + parts[1..], sep) == c + Join(parts, sep)
  {
    var l := [c + parts[0]] + parts[1..];
    assert l[1..] == parts[1..];
  }

  /** Joining the pieces of a split gives back the original text. */
  lemma {:induction false} JoinSplit(s: string, sep: char)
    ensures Join(Split(s, sep), [sep]) == s
    decreases |s|
  {
    if s != [] {
      var rest := Split(s[1..], sep);
      JoinSplit(s[1..], sep);
      if s[0] == sep {
        var l := [""] + rest;
        assert l[1..] == rest;
        assert Join(l, [sep]) == "" + [sep] + Join(rest, [sep]);
        assert [sep] + s[1..] == s;
      } else {
        JoinConsHead([s[0]], rest, [sep]);
        assert [s[0]] + s[1..] == s;
      }
    }
  }

  lemma {:induction false} SplitNoSeparator(p: string, sep: char)
    requires sep !in p
    ensures Split(p, sep) == [p]
    decreases |p|
  {
    if p != [] {
      SplitNoSeparator(p[1..], sep);
      assert [p[0]] + p[1..] == p;
    }
  }

  lemma {:induction false} SplitPieceThenSeparator(p: string, sep: char, t: string)
    requires sep !in p
    ensures Split(p + [sep] + t, sep) == [p] + Split(t, sep)
    decreases |p|
  {
    var s := p + [sep] + t;
    if p == [] {
      assert s[1..] == t;
    } else {
      assert s[1..] == p[1..] + [sep] + t;
      SplitPieceThenSeparator(p[1..], sep, t);
      assert [p[0]] + p[1..] == p;
    }
  }

  /** Splitting a join of separator-free pieces gives back the pieces. */
  lemma {:induction false} SplitJoin(parts: seq<string>, sep: char)
    requires |parts| >= 1
    requires forall i | 0 <= i < |parts| :: sep !in parts[i]
    ensures Split(Join(parts, [sep]), sep) == parts
    decreases |parts|
  {
    if |parts| == 1 {
      SplitNoSeparator(parts[0], sep);
    } else {
      SplitJoin(parts[1..], sep);
      SplitPieceThenSeparator(parts[0], sep, Join(parts[1..], [sep]));
      assert [parts[0]] + parts[1..] == parts;
    }
  }

  /** A join of blank pieces with a blank separator is blank, and a join
      that contains a non-blank piece is not. */
  lemma {:induction false} JoinBlank(parts: seq<string>, sep: string)
    requires IsBlank(sep)
    ensures IsBlank(Join(parts, sep)) <==> forall i | 0 <= i < |parts| :: IsBlank(parts[i])
    decreases |parts|
  {
    if |parts| > 1 {
      JoinBlank(parts[1..], sep);
      var j := Join(parts[1..], sep);
      var all := parts[0] + sep + j;
      assert forall k | 0 <= k < |parts[0]| :: all[k] == parts[0][k];
      assert forall k | 0 <= k < |j| :: all[|parts[0]| + |sep| + k] == j[k];
      assert forall k | 0 <= k < |sep| :: all[|parts[0]| + k] == sep[k];
      if forall i | 0 <= i < |parts| :: IsBlank(parts[i]) {
        assert IsBlank(parts[0]);
        assert forall i | 0 <= i < |parts| - 1 :: parts[1..][i] == parts[i + 1];
      }
      if IsBlank(all) {
        forall i | 0 <= i < |parts| ensures IsBlank(parts[i]) {
          if i > 0 { assert parts[i] == parts[1..][i - 1]; }
        }
      }
    }
  }

  /** A match of `pat` starts at position `k` of `s`. */
  predicate OccursAt(s: string, pat: string, k: nat)
  {
    k + |pat| <= |s| && s[k..k + |pat|] == pat
  }

  /** `pat in s` */
  predicate Contains(s: string, pat: string)
  {
    exists k: nat | k <= |s| :: OccursAt(s, pat, k)
  }

  function IndexFrom(s: string, pat: string, from: nat): (r: Option<nat>)
    requires from <= |s|
    ensures r.Some? ==> from <= r.value && OccursAt(s, pat, r.value)
    ensures r.Some? ==> forall k: nat | from <= k < r.value :: !OccursAt(s, pat, k)
    ensures r.None? ==> forall k: nat | from <= k <= |s| :: !OccursAt(s, pat, k)
    decreases |s| - from
  {
    if OccursAt(s, pat, from) then Some(from)
    else if from == |s| then None
    else IndexFrom(s, pat, from + 1)
  }

  /** `s.find(pat)`: the position of the first occurrence of `pat`, if any. */
  function IndexOf(s: string, pat: string): (r: Option<nat>)
    ensures r.Some? <==> Contains(s, pat)
    ensures r.Some? ==> OccursAt(s, pat, r.value)
    ensures r.Some? ==> forall k: nat | k < r.value :: !OccursAt(s, pat, k)
  {
    IndexFrom(s, pat, 0)
  }

  /** An occurrence with none before it is the one `find` reports. */
  lemma IndexOfAt(s: string, pat: string, k: nat)
    requires OccursAt(s, pat, k)
    requires forall j: nat | j < k :: !OccursAt(s, pat, j)
    ensures IndexOf(s, pat) == Some(k)
  {
    assert k <= |s|;
    assert Contains(s, pat);
  }
}
