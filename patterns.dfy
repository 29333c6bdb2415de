/**
 * Hand-written matchers for the two regular expressions of the updater, with
 * `Regex.Match` semantics: the leftmost position where the pattern matches wins, and
 * each `\d+` or `[\w\-]*` takes the longest run it can.
 */
module Patterns {
  import opened Wrappers
  import opened Strings
  import opened Versions

  /** The literal part of `ReleaseRegex` (Main.cs line 41). */
  const ReleasePrefix: string := "/pardeike/Harmony/releases/tag/v"

  /** The literal start of the asset pattern built at Main.cs line 92. */
  const DownloadPrefix: string := "/pardeike/Harmony/releases/download/v"

  /** The leftmost start `b` in `from..n` at which `at` matches, with the end `at(b)` gives. */
  function Leftmost(n: nat, from: nat, at: nat -> Option<nat>): (r: Option<(nat, nat)>)
    ensures r.Some? ==> from <= r.value.0 <= n && at(r.value.0) == Some(r.value.1)
    ensures r.Some? ==> forall j :: from <= j < r.value.0 ==> at(j).None?
    ensures r.None? ==> forall j :: from <= j <= n ==> at(j).None?
    decreases n + 1 - from
  {
    if from > n then None
    else if at(from).Some? then Some((from, at(from).value))
    else Leftmost(n, from + 1, at)
  }

  /** `at` matches at `b`, ending at `e`, and at no position before `b`. */
  predicate IsLeftmost(at: nat -> Option<nat>, b: nat, e: nat) {
    at(b) == Some(e) && forall j :: 0 <= j < b ==> at(j).None?
  }

  /** When `at` fails everywhere before `b` and matches at `b`, the leftmost match is at `b`. */
  lemma LeftmostAt(n: nat, at: nat -> Option<nat>, b: nat)
    requires b <= n && at(b).Some?
    requires forall j :: 0 <= j < b ==> at(j).None?
    ensures Leftmost(n, 0, at) == Some((b, at(b).value))
  {
  }

  /** The end of the longest run of digits starting at `i`. */
  function DigitRun(s: string, i: nat): (j: nat)
    requires i <= |s|
    ensures i <= j <= |s|
    ensures forall k :: i <= k < j ==> IsDigit(s[k])
    ensures j < |s| ==> !IsDigit(s[j])
    decreases |s| - i
  {
    if i < |s| && IsDigit(s[i]) then DigitRun(s, i + 1) else i
  }

  /**
   * `\d+(\.\d+){n}` at `i`: the end of the match. The runs before a dot cannot give back
   * a digit (a dot must follow them) and the last one is greedy, so the match is unique.
   */
  function NumbersAt(s: string, i: nat, n: nat): (r: Option<nat>)
    requires i <= |s|
    ensures r.Some? ==> i < r.value <= |s|
    decreases n
  {
    var j := DigitRun(s, i);
    if j == i then None
    else if n == 0 then Some(j)
    else if j < |s| && s[j] == '.' then NumbersAt(s, j + 1, n - 1)
    else None
  }

  /** What `NumbersAt` accepts is `n + 1` digit runs separated by dots. */
  lemma {:induction false} NumbersAtShape(s: string, i: nat, n: nat)
    requires i <= |s| && NumbersAt(s, i, n).Some?
    ensures IsDotted(s[i..NumbersAt(s, i, n).value], n + 1)
    decreases n
  {
    var j := DigitRun(s, i);
    var e := NumbersAt(s, i, n).value;
    assert IsNumber(s[i..j]);
    if n == 0 {
      IsDottedSingle(s[i..j]);
    } else {
      NumbersAtShape(s, j + 1, n - 1);
      assert s[i..e] == s[i..j] + ['.'] + s[j + 1..e];
      IsDottedCons(s[i..j], s[j + 1..e], n);
    }
  }

  /** A digit run that stops before a non-digit is exactly what `DigitRun` takes. */
  lemma {:induction false} DigitRunExact(s: string, i: nat, d: string)
    requires OccursAt(s, d, i) && AllDigits(d)
    requires i + |d| == |s| || !IsDigit(s[i + |d|])
    ensures DigitRun(s, i) == i + |d|
    decreases |d|
  {
    if d != [] {
      assert s[i] == s[i..i + |d|][0] == d[0];
      assert s[i + 1..i + 1 + |d[1..]|] == s[i..i + |d|][1..];
      DigitRunExact(s, i + 1, d[1..]);
    }
  }

  /** A leading digit run followed by a dot hands the rest of the match to the next run. */
  lemma NumbersAtStep(s: string, i: nat, first: string, n: nat)
    requires IsNumber(first) && OccursAt(s, first + ['.'], i)
    ensures NumbersAt(s, i, n + 1) == NumbersAt(s, i + |first| + 1, n)
  {
    OccursAtConcat(s, first, ['.'], i);
    assert s[i + |first|] == s[i + |first|..i + |first| + 1][0];
    DigitRunExact(s, i, first);
  }

  /** Digit runs joined by dots and followed by a non-digit are matched by `NumbersAt` to their end. */
  lemma {:induction false} NumbersAtFinds(s: string, i: nat, parts: seq<string>)
    requires |parts| >= 1 && forall k :: 0 <= k < |parts| ==> IsNumber(parts[k])
    requires OccursAt(s, Join(parts, '.'), i)
    requires i + |Join(parts, '.')| == |s| || !IsDigit(s[i + |Join(parts, '.')|])
    ensures NumbersAt(s, i, |parts| - 1) == Some(i + |Join(parts, '.')|)
    decreases |parts|
  {
    if |parts| == 1 {
      assert Join(parts, '.') == parts[0];
      NumbersAtOne(s, i, parts[0]);
    } else {
      var j := i + |parts[0]| + 1;
      var rest := parts[1..];
      var e := i + |Join(parts, '.')|;
      NumbersAtSplit(s, i, parts);
      assert forall k :: 0 <= k < |rest| ==> rest[k] == parts[k + 1];
      calc {
        NumbersAt(s, i, |parts| - 1);
        NumbersAt(s, j, |rest| - 1);
        { NumbersAtFinds(s, j, rest); }
        Some(j + |Join(rest, '.')|);
        Some(e);
      }
    }
  }

  /** A single digit run followed by a non-digit is matched exactly. */
  lemma NumbersAtOne(s: string, i: nat, d: string)
    requires IsNumber(d) && OccursAt(s, d, i)
    requires i + |d| == |s| || !IsDigit(s[i + |d|])
    ensures NumbersAt(s, i, 0) == Some(i + |d|)
  {
    DigitRunExact(s, i, d);
  }

  /** The first run and dot of several dot-joined runs, and where the rest starts. */
  lemma NumbersAtSplit(s: string, i: nat, parts: seq<string>)
    requires |parts| >= 2 && IsNumber(parts[0])
    requires OccursAt(s, Join(parts, '.'), i)
    ensures OccursAt(s, Join(parts[1..], '.'), i + |parts[0]| + 1)
    ensures |Join(parts, '.')| == |parts[0]| + 1 + |Join(parts[1..], '.')|
    ensures NumbersAt(s, i, |parts| - 1) == NumbersAt(s, i + |parts[0]| + 1, |parts[1..]| - 1)
  {
    var first := parts[0];
    var rest := Join(parts[1..], '.');
    assert Join(parts, '.') == (first + ['.']) + rest;
    OccursAtConcat(s, first + ['.'], rest, i);
    var n := |parts| - 2;
    assert |parts| - 1 == n + 1 && |parts[1..]| - 1 == n;
    NumbersAtStep(s, i, first, n);
  }

  /** The release-tag pattern `\/pardeike\/Harmony\/releases\/tag\/v(\d+\.\d+\.\d+\.\d+)` at `i`: the end of the match. */
  function ReleaseAt(s: string, i: nat): (r: Option<nat>)
    ensures r.Some? ==> i + |ReleasePrefix| < r.value <= |s| && OccursAt(s, ReleasePrefix, i)
  {
    if i <= |s| && OccursAt(s, ReleasePrefix, i) then NumbersAt(s, i + |ReleasePrefix|, 3) else None
  }

  /** The release pattern as a matcher over the start positions of `line`. */
  function ReleaseMatcher(line: string): nat -> Option<nat> {
    (i: nat) => ReleaseAt(line, i)
  }

  /** A successful `ReleaseRegex` match: its whole value and its first capture group. */
  datatype ReleaseTag = ReleaseTag(path: string, version: string)

  /**
   * Where `ReleaseRegex.Match(line)` lies: the start and end of the leftmost match, or
   * `None` when the pattern fits nowhere in `line`.
   */
  function ReleaseMatch(line: string): (m: Option<(nat, nat)>)
    ensures m.Some? ==> m.value.0 < m.value.1 <= |line| && IsLeftmost(ReleaseMatcher(line), m.value.0, m.value.1)
    ensures m.None? <==> forall i :: 0 <= i <= |line| ==> ReleaseAt(line, i).None?
  {
    var at := ReleaseMatcher(line);
    var m := Leftmost(|line|, 0, at);
    if m.Some? then
      assert at(m.value.0) == ReleaseAt(line, m.value.0);
      m
    else
      assert forall i :: 0 <= i <= |line| ==> ReleaseAt(line, i).None? by {
        forall i | 0 <= i <= |line|
          ensures ReleaseAt(line, i).None?
        {
          assert at(i).None?;
        }
      }
      m
  }

  /**
   * `ReleaseRegex.Match(line)`: the text of the leftmost match and its version group. A
   * match is the release prefix followed by a four-part version and occurs in `line`.
   */
  function MatchRelease(line: string): (r: Option<ReleaseTag>)
    ensures r.Some? ==>
      && r.value.path == ReleasePrefix + r.value.version
      && IsDottedQuad(r.value.version)
      && Contains(line, r.value.path)
    ensures r.Some? <==> ReleaseMatch(line).Some?
    ensures r.Some? ==> r.value.path == line[ReleaseMatch(line).value.0..ReleaseMatch(line).value.1]
    ensures r.None? <==> forall i :: 0 <= i <= |line| ==> ReleaseAt(line, i).None?
  {
    match ReleaseMatch(line)
    case None => None
    case Some((b, e)) =>
      ReleaseShape(line, b, e);
      Some(ReleaseTag(line[b..e], line[b + |ReleasePrefix|..e]))
  }

  /** What the release pattern matches is the release prefix followed by a four-part version. */
  lemma ReleaseShape(line: string, b: nat, e: nat)
    requires ReleaseAt(line, b) == Some(e)
    ensures b + |ReleasePrefix| < e <= |line|
    ensures line[b..e] == ReleasePrefix + line[b + |ReleasePrefix|..e]
    ensures IsDottedQuad(line[b + |ReleasePrefix|..e])
    ensures Contains(line, line[b..e])
  {
    var start := b + |ReleasePrefix|;
    NumbersAtShape(line, start, 3);
    assert line[b..e] == line[b..start] + line[start..e];
    assert OccursAt(line, line[b..e], b);
  }

  /**
   * A line that holds a release link, e.g. `<a href="/pardeike/Harmony/releases/tag/v2.3.6.0">`,
   * yields that link and its version.
   */
  lemma MatchReleaseFinds(pre: string, version: string, post: string)
    requires '/' !in pre
    requires IsDottedQuad(version)
    requires post == [] || !IsDigit(post[0])
    ensures MatchRelease(pre + ReleasePrefix + version + post) == Some(ReleaseTag(ReleasePrefix + version, version))
  {
    var line := pre + ReleasePrefix + version + post;
    var at := ReleaseMatcher(line);
    assert forall j :: 0 <= j < |pre| ==> line[j] == pre[j];
    ReleaseNotBefore(line, |pre|);
    ReleaseFoundAt(pre, version, post);
    LeftmostAt(|line|, at, |pre|);
    SlicesOfConcat(pre, ReleasePrefix, version, post);
  }

  /** No release match starts before `n` when no '/' does. */
  lemma ReleaseNotBefore(line: string, n: nat)
    requires n <= |line| && forall j :: 0 <= j < n ==> line[j] != '/'
    ensures forall j :: 0 <= j < n ==> ReleaseMatcher(line)(j).None?
  {
    forall j | 0 <= j < n
      ensures ReleaseAt(line, j).None?
    {
      assert !OccursAt(line, ReleasePrefix, j) by {
        if j + |ReleasePrefix| <= |line| {
          assert line[j..j + |ReleasePrefix|][0] == line[j];
        }
      }
    }
  }

  /** A four-part version followed by a non-digit is matched by `NumbersAt` to its end. */
  lemma DottedQuadFound(a: string, version: string, post: string)
    requires IsDottedQuad(version)
    requires post == [] || !IsDigit(post[0])
    ensures NumbersAt(a + version + post, |a|, 3) == Some(|a| + |version|)
  {
    var line := a + version + post;
    var parts := Split(version, '.');
    OccursInMiddle(a, version, post);
    JoinSplit(version, '.');
    assert |parts| - 1 == 3;
    assert |a| + |version| < |line| ==> line[|a| + |version|] == post[0];
    NumbersAtFinds(line, |a|, parts);
  }

  /** The release pattern matches a release link up to the end of its version. */
  lemma ReleaseFoundAt(pre: string, version: string, post: string)
    requires IsDottedQuad(version)
    requires post == [] || !IsDigit(post[0])
    ensures ReleaseAt(pre + ReleasePrefix + version + post, |pre|) == Some(|pre| + |ReleasePrefix| + |version|)
  {
    SlicesOfConcat(pre, ReleasePrefix, version, post);
    DottedQuadFound(pre + ReleasePrefix, version, post);
  }

  /** In the asset pattern an unescaped '.' stands for any character but '\n'; every other character for itself. */
  predicate CharMatches(p: char, c: char) {
    if p == '.' then c != '\n' else c == p
  }

  /** `pat`, read as a regular expression whose only metacharacter is '.', matches `s` at `i`. */
  predicate PatternAt(s: string, i: nat, pat: string) {
    i + |pat| <= |s| && forall k :: 0 <= k < |pat| ==> CharMatches(pat[k], s[i + k])
  }

  /** `[\w\-]`: a letter, a digit, '_' or '-'. */
  predicate IsNameChar(c: char) {
    'a' <= c <= 'z' || 'A' <= c <= 'Z' || '0' <= c <= '9' || c == '_' || c == '-'
  }

  /** The end of the longest `[\w\-]*` run starting at `i`. */
  function NameRun(s: string, i: nat): (j: nat)
    requires i <= |s|
    ensures i <= j <= |s|
    ensures forall k :: i <= k < j ==> IsNameChar(s[k])
    ensures j < |s| ==> !IsNameChar(s[j])
    decreases |s| - i
  {
    if i < |s| && IsNameChar(s[i]) then NameRun(s, i + 1) else i
  }

  /** The part of the asset pattern before the name run. */
  function AssetHead(version: string): string {
    DownloadPrefix + version + "/Harmony"
  }

  /** The part of the asset pattern after the name run and its dot. */
  function AssetTail(version: string): string {
    version + ".zip"
  }

  /** Neither part of the asset pattern holds a newline when the version does not. */
  lemma AssetPartsWithoutNewline(version: string)
    requires '\n' !in version
    ensures '\n' !in AssetHead(version) && '\n' !in AssetTail(version)
  {
  }

  /**
   * The asset pattern `/pardeike/Harmony/releases/download/v{v}/Harmony[\w\-]*\.{v}.zip`
   * for version text `v`, at `i`: the end of the match. `[\w\-]*` cannot give back a
   * character, since `\.` must follow it.
   */
  function AssetAt(s: string, i: nat, version: string): (r: Option<nat>)
    ensures r.Some? ==> i < r.value <= |s|
  {
    var head := AssetHead(version);
    if i <= |s| && PatternAt(s, i, head) then
      var j := NameRun(s, i + |head|);
      var tail := AssetTail(version);
      if j < |s| && s[j] == '.' && PatternAt(s, j + 1, tail) then Some(j + 1 + |tail|) else None
    else None
  }

  /** The asset pattern for `version` as a matcher over the start positions of `line`. */
  function AssetMatcher(line: string, version: string): nat -> Option<nat> {
    (i: nat) => AssetAt(line, i, version)
  }

  /**
   * The text the asset pattern for `version` stands for: the head pattern, a run of
   * `[\w\-]`, a dot, and the tail pattern.
   */
  predicate IsAssetText(t: string, version: string) {
    var head := AssetHead(version);
    var tail := AssetTail(version);
    && |head| + 1 + |tail| <= |t|
    && PatternAt(t, 0, head)
    && (forall k :: |head| <= k < |t| - |tail| - 1 ==> IsNameChar(t[k]))
    && t[|t| - |tail| - 1] == '.'
    && PatternAt(t, |t| - |tail|, tail)
  }

  /** A pattern matched inside `s[b..e]` is matched by that slice, shifted by `b`. */
  lemma PatternAtSlice(s: string, b: nat, e: nat, i: nat, pat: string)
    requires b <= i && i + |pat| <= e <= |s| && PatternAt(s, i, pat)
    ensures PatternAt(s[b..e], i - b, pat)
  {
    forall k | 0 <= k < |pat|
      ensures CharMatches(pat[k], s[b..e][i - b + k])
    {
      assert s[b..e][i - b + k] == s[i + k];
    }
  }

  /** What the asset pattern matches at `b` is text of the asset pattern's shape. */
  lemma AssetShape(line: string, b: nat, e: nat, version: string)
    requires AssetAt(line, b, version) == Some(e)
    ensures b < e <= |line| && IsAssetText(line[b..e], version)
  {
    var head := AssetHead(version);
    var tail := AssetTail(version);
    var j := NameRun(line, b + |head|);
    assert PatternAt(line, b, head) && j < |line| && line[j] == '.' && PatternAt(line, j + 1, tail) && e == j + 1 + |tail|;
    SliceShape(line, b, j, e, head, tail);
  }

  /**
   * A slice of `line` that matches `head` at its start, holds name characters up to `j`,
   * a dot at `j` and matches `tail` after it, seen from the slice.
   */
  lemma SliceShape(line: string, b: nat, j: nat, e: nat, head: string, tail: string)
    requires b + |head| <= j && e == j + 1 + |tail| <= |line|
    requires PatternAt(line, b, head) && line[j] == '.' && PatternAt(line, j + 1, tail)
    requires forall k :: b + |head| <= k < j ==> IsNameChar(line[k])
    ensures var t := line[b..e];
      && |head| + 1 + |tail| <= |t|
      && PatternAt(t, 0, head)
      && (forall k :: |head| <= k < |t| - |tail| - 1 ==> IsNameChar(t[k]))
      && t[|t| - |tail| - 1] == '.'
      && PatternAt(t, |t| - |tail|, tail)
  {
    var t := line[b..e];
    PatternAtSlice(line, b, e, b, head);
    PatternAtSlice(line, b, e, j + 1, tail);
    assert forall k :: 0 <= k < |t| ==> t[k] == line[b + k];
  }

  /**
   * Where `zipPathRegex.Match(line)` lies: the start and end of the leftmost match, or
   * `None` when the asset pattern fits nowhere in `line`.
   */
  function AssetMatch(line: string, version: string): (m: Option<(nat, nat)>)
    ensures m.Some? ==> m.value.0 < m.value.1 <= |line| && IsLeftmost(AssetMatcher(line, version), m.value.0, m.value.1)
    ensures m.None? <==> forall i :: 0 <= i <= |line| ==> AssetAt(line, i, version).None?
  {
    var at := AssetMatcher(line, version);
    var m := Leftmost(|line|, 0, at);
    if m.Some? then
      assert at(m.value.0) == AssetAt(line, m.value.0, version);
      m
    else
      assert forall i :: 0 <= i <= |line| ==> AssetAt(line, i, version).None? by {
        forall i | 0 <= i <= |line|
          ensures AssetAt(line, i, version).None?
        {
          assert at(i).None?;
        }
      }
      m
  }

  /**
   * `zipPathRegex.Match(line).Value`: the text of the leftmost match, which has the shape
   * of the asset pattern, or `None` when the pattern fits nowhere in `line`.
   */
  function MatchAsset(line: string, version: string): (r: Option<string>)
    ensures r.Some? ==> Contains(line, r.value) && IsAssetText(r.value, version)
    ensures r.Some? <==> AssetMatch(line, version).Some?
    ensures r.Some? ==> r.value == line[AssetMatch(line, version).value.0..AssetMatch(line, version).value.1]
    ensures r.None? <==> forall i :: 0 <= i <= |line| ==> AssetAt(line, i, version).None?
  {
    match AssetMatch(line, version)
    case None => None
    case Some((b, e)) =>
      AssetShape(line, b, e, version);
      assert OccursAt(line, line[b..e], b);
      Some(line[b..e])
  }

  /** The path of an asset named `Harmony<name>.<version>.zip` of release `version`. */
  function AssetPath(version: string, name: string): string {
    AssetHead(version) + (name + (['.'] + AssetTail(version)))
  }

  /** Literal text without '\n' matches itself as a pattern. */
  lemma PatternMatchesItself(s: string, i: nat, pat: string)
    requires OccursAt(s, pat, i) && '\n' !in pat
    ensures PatternAt(s, i, pat)
  {
    forall k | 0 <= k < |pat|
      ensures CharMatches(pat[k], s[i + k])
    {
      assert s[i + k] == s[i..i + |pat|][k];
    }
  }

  /** A name run that stops before a non-name character is exactly what `NameRun` takes. */
  lemma {:induction false} NameRunExact(s: string, i: nat, name: string)
    requires OccursAt(s, name, i) && forall k :: 0 <= k < |name| ==> IsNameChar(name[k])
    requires i + |name| == |s| || !IsNameChar(s[i + |name|])
    ensures NameRun(s, i) == i + |name|
    decreases |name|
  {
    if name != [] {
      assert s[i] == s[i..i + |name|][0] == name[0];
      assert s[i + 1..i + 1 + |name[1..]|] == s[i..i + |name|][1..];
      NameRunExact(s, i + 1, name[1..]);
    }
  }

  /** A line that holds the link of an asset of the release yields exactly that asset path. */
  lemma MatchAssetFinds(pre: string, version: string, name: string, post: string)
    requires '/' !in pre
    requires '\n' !in version
    requires forall k :: 0 <= k < |name| ==> IsNameChar(name[k])
    ensures MatchAsset(pre + AssetPath(version, name) + post, version) == Some(AssetPath(version, name))
  {
    var path := AssetPath(version, name);
    var line := pre + path + post;
    OccursInMiddle(pre, path, post);
    assert forall j :: 0 <= j < |pre| ==> line[j] == pre[j];
    AssetNotBefore(line, version, |pre|);
    AssetFoundAt(line, |pre|, version, name);
    LeftmostAt(|line|, AssetMatcher(line, version), |pre|);
  }

  /** No asset match starts before `n` when no '/' does. */
  lemma AssetNotBefore(line: string, version: string, n: nat)
    requires n <= |line| && forall j :: 0 <= j < n ==> line[j] != '/'
    ensures forall j :: 0 <= j < n ==> AssetMatcher(line, version)(j).None?
  {
    var head := AssetHead(version);
    assert head[0] == '/';
    forall j | 0 <= j < n
      ensures AssetAt(line, j, version).None?
    {
      if j + |head| <= |line| {
        assert !CharMatches(head[0], line[j + 0]);
      }
    }
  }

  /** The asset pattern matches an asset path exactly to its end. */
  lemma AssetFoundAt(line: string, b: nat, version: string, name: string)
    requires OccursAt(line, AssetPath(version, name), b)
    requires '\n' !in version
    requires forall k :: 0 <= k < |name| ==> IsNameChar(name[k])
    ensures AssetAt(line, b, version) == Some(b + |AssetPath(version, name)|)
  {
    AssetPartsWithoutNewline(version);
    PartsFoundAt(line, b, AssetHead(version), name, AssetTail(version));
  }

  /** The three parts of an asset path, each matched where it occurs. */
  lemma PartsFoundAt(line: string, b: nat, head: string, name: string, tail: string)
    requires OccursAt(line, head + (name + (['.'] + tail)), b)
    requires '\n' !in head && '\n' !in tail
    requires forall k :: 0 <= k < |name| ==> IsNameChar(name[k])
    ensures PatternAt(line, b, head)
    ensures NameRun(line, b + |head|) == b + |head| + |name| < |line|
    ensures line[b + |head| + |name|] == '.'
    ensures PatternAt(line, b + |head| + |name| + 1, tail)
  {
    OccursAtConcat(line, head, name + (['.'] + tail), b);
    var j := b + |head|;
    OccursAtConcat(line, name, ['.'] + tail, j);
    OccursAtConcat(line, ['.'], tail, j + |name|);
    var d := j + |name|;
    assert d < |line| && line[d] == line[d..d + 1][0] == '.';
    assert !IsNameChar(line[d]);
    PatternMatchesItself(line, b, head);
    NameRunExact(line, j, name);
    assert NameRun(line, j) == d;
    PatternMatchesItself(line, d + 1, tail);
  }
}
