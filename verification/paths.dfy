/** File-name handling: POSIX `os.path.splitext` and `os.path.join`, and the
    name `extract_subtitle_track` gives an extracted track
    (`track_<index>.<ext>`, the extension chosen from the codec). */
module Paths {
  import opened Wrappers
  import opened Strings

  /** Position of the last `c` in `s`, or -1 (Python's `str.rfind`). */
  function LastIndex(s: string, c: char): (r: int)
    ensures -1 <= r < |s|
    ensures r >= 0 ==> s[r] == c
    ensures forall k | r < k < |s| :: s[k] != c
  {
    if s == [] then -1
    else if s[|s| - 1] == c then |s| - 1
    else LastIndex(s[..|s| - 1], c)
  }

  /** Some character of `p` at a position in `[lo, hi)` is not a dot. */
  predicate NonDotBetween(p: string, lo: int, hi: int)
  {
    exists k | lo <= k < hi && 0 <= k < |p| :: p[k] != '.'
  }

  /** `os.path.splitext(p)[1]` on POSIX: from the last dot of the last path
      component to the end, unless that component has nothing but dots
      before its last dot (so `.bashrc` has no extension). */
  function SplitExtension(p: string): (ext: string)
    ensures ext == [] || (EndsWith(p, ext) && ext[0] == '.' && '.' !in ext[1..] && '/' !in ext)
    ensures ext != [] ==> NonDotBetween(p, LastIndex(p, '/') + 1, |p| - |ext|)
    ensures ext != [] <==> exists d | LastIndex(p, '/') < d < |p| ::
              p[d] == '.' && NonDotBetween(p, LastIndex(p, '/') + 1, d)
  {
    var sep := LastIndex(p, '/');
    var dot := LastIndex(p, '.');
    if dot > sep && NonDotBetween(p, sep + 1, dot) then p[dot..] else ""
  }

  /** `os.path.join(dir, name)` for two components on POSIX. */
  function JoinPath(dir: string, name: string): (r: string)
    ensures EndsWith(r, name)
  {
    if StartsWith(name, "/") then name
    else if dir == [] || EndsWith(dir, "/") then dir + name
    else dir + "/" + name
  }

  /** A suffix no longer than the last component is decided by the last
      component alone. */
  lemma JoinPathEndsWith(dir: string, name: string, suffix: string)
    requires |suffix| <= |name|
    ensures EndsWith(JoinPath(dir, name), suffix) <==> EndsWith(name, suffix)
  {
    var r := JoinPath(dir, name);
    assert r[|r| - |name|..] == name;
    assert r[|r| - |suffix|..] == name[|name| - |suffix|..];
  }

  predicate IsDigit(c: char)
  {
    '0' <= c <= '9'
  }

  predicate AllDigits(s: string)
  {
    forall i | 0 <= i < |s| :: IsDigit(s[i])
  }

  function DigitChar(d: nat): (c: char)
    requires d < 10
    ensures IsDigit(c) && c as int - '0' as int == d
  {
    ('0' as int + d) as char
  }

  /** `str(n)` for a non-negative integer. */
  function Decimal(n: nat): (r: string)
    ensures |r| >= 1 && AllDigits(r)
  {
    if n < 10 then [DigitChar(n)] else Decimal(n / 10) + [DigitChar(n % 10)]
  }

  /** `int(s)` for a string of decimal digits. */
  function ParseDecimal(s: string): nat
    requires AllDigits(s)
  {
    if s == [] then 0
    else
      assert IsDigit(s[|s| - 1]);
      ParseDecimal(s[..|s| - 1]) * 10 + (s[|s| - 1] as int - '0' as int)
  }

  lemma {:induction false} ParseDecimalOfDecimal(n: nat)
    ensures ParseDecimal(Decimal(n)) == n
  {
    if n >= 10 {
      var d := Decimal(n);
      assert d[..|d| - 1] == Decimal(n / 10);
      ParseDecimalOfDecimal(n / 10);
    }
  }

  /** The codec table of `extract_subtitle_track`; any codec not in the
      table (the empty name included) gets `sub`. */
  function ExtensionFor(codec: string): (ext: string)
    ensures codec == "ass" ==> ext == "ass"
    ensures codec == "subrip" ==> ext == "srt"
    ensures codec == "hdmv_pgs_subtitle" ==> ext == "sup"
    ensures codec == "dvd_subtitle" ==> ext == "sub"
    ensures codec != "ass" && codec != "subrip" && codec != "hdmv_pgs_subtitle" && codec != "dvd_subtitle"
            ==> ext == "sub"
    ensures ext == "ass" <==> codec == "ass"
    ensures |ext| == 3 && '.' !in ext && '/' !in ext
  {
    if codec == "ass" then "ass"
    else if codec == "subrip" then "srt"
    else if codec == "hdmv_pgs_subtitle" then "sup"
    else "sub"
  }

  /** The file name `extract_subtitle_track` writes stream `index` to. */
  function OutputName(index: nat, codec: string): (r: string)
    ensures StartsWith(r, "track_") && '/' !in r
    ensures |r| >= 4 && r[|r| - 4..] == "." + ExtensionFor(codec)
  {
    assert "track_" + Decimal(index) + "." + ExtensionFor(codec)
        == ("track_" + Decimal(index)) + ("." + ExtensionFor(codec));
    "track_" + Decimal(index) + "." + ExtensionFor(codec)
  }

  /** Recovers the stream index and the extension from an output name:
      the inverse of `OutputName`. */
  function ParseOutputName(name: string): Option<(nat, string)>
  {
    if StartsWith(name, "track_") then ParseNumberedExtension(name[6..]) else None
  }

  /** `<digits>.<ext>` split at its first dot into the number and `ext`. */
  function ParseNumberedExtension(rest: string): Option<(nat, string)>
  {
    match IndexOf(rest, ".")
    case None => None
    case Some(d) =>
      if d > 0 && AllDigits(rest[..d]) then Some((ParseDecimal(rest[..d]), rest[d + 1..])) else None
  }

  lemma PrefixThenRest(prefix: string, rest: string)
    ensures StartsWith(prefix + rest, prefix) && (prefix + rest)[|prefix|..] == rest
  {
  }

  /** The first dot after a run of digits is the one that ends it. */
  lemma FirstDotAfterDigits(digits: string, ext: string)
    requires AllDigits(digits)
    ensures IndexOf(digits + "." + ext, ".") == Some(|digits|)
  {
    var rest := digits + "." + ext;
    forall k: nat | k < |digits| ensures !OccursAt(rest, ".", k) {
      assert rest[k] == digits[k] && IsDigit(digits[k]);
      assert rest[k..k + 1] == [rest[k]];
    }
    assert rest[|digits|..|digits| + 1] == ".";
    IndexOfAt(rest, ".", |digits|);
  }

  lemma ParseNumberedExtensionOf(digits: string, ext: string)
    requires |digits| >= 1 && AllDigits(digits)
    ensures ParseNumberedExtension(digits + "." + ext) == Some((ParseDecimal(digits), ext))
  {
    var rest := digits + "." + ext;
    FirstDotAfterDigits(digits, ext);
    assert rest[..|digits|] == digits && rest[|digits| + 1..] == ext;
  }

  lemma ParseOutputNameOf(digits: string, ext: string)
    requires |digits| >= 1 && AllDigits(digits)
    ensures ParseOutputName("track_" + digits + "." + ext) == Some((ParseDecimal(digits), ext))
  {
    var rest := digits + "." + ext;
    assert "track_" + digits + "." + ext == "track_" + rest;
    PrefixThenRest("track_", rest);
    ParseNumberedExtensionOf(digits, ext);
  }

  /** An output name determines the stream index and the extension. */
  lemma OutputNameRoundTrip(index: nat, codec: string)
    ensures ParseOutputName(OutputName(index, codec)) == Some((index, ExtensionFor(codec)))
  {
    ParseOutputNameOf(Decimal(index), ExtensionFor(codec));
    ParseDecimalOfDecimal(index);
  }

  /** Two tracks share an output name only if they have the same index and
      their codecs map to the same extension. */
  lemma OutputNameInjective(i: nat, c: string, j: nat, d: string)
    requires OutputName(i, c) == OutputName(j, d)
    ensures i == j && ExtensionFor(c) == ExtensionFor(d)
  {
    OutputNameRoundTrip(i, c);
    OutputNameRoundTrip(j, d);
  }

  /** The extracted file carries the ASS/SSA suffix that switches on ASS
      dialogue extraction exactly when the codec is `ass`. */
  lemma OutputNameAssSuffix(dir: string, index: nat, codec: string)
    ensures EndsWith(JoinPath(dir, OutputName(index, codec)), ".ass") <==> codec == "ass"
    ensures !EndsWith(JoinPath(dir, OutputName(index, codec)), ".ssa")
  {
    var ext := ExtensionFor(codec);
    var name := OutputName(index, codec);
    var tail := name[|name| - 4..];
    assert ext == tail[1..] && ".ass"[1..] == "ass" && ".ssa"[1..] == "ssa";
    assert EndsWith(name, ".ass") <==> tail == ".ass";
    assert EndsWith(name, ".ssa") <==> tail == ".ssa";
    JoinPathEndsWith(dir, name, ".ass");
    JoinPathEndsWith(dir, name, ".ssa");
  }
}
