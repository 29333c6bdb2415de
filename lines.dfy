/** The updater's local `GetLines`: split on '\n', trim every piece, drop the empty ones. */
module Lines {
  import opened Wrappers
  import opened Strings

  /** `Char.IsWhiteSpace`: the characters `String.Trim()` removes. */
  predicate IsWhiteSpace(c: char) {
    || c == ' '
    || '\t' <= c <= '\r'
    || c == '\U{85}' || c == '\U{A0}' || c == '\U{1680}'
    || '\U{2000}' <= c <= '\U{200A}'
    || c == '\U{2028}' || c == '\U{2029}' || c == '\U{202F}' || c == '\U{205F}' || c == '\U{3000}'
  }

  /** Neither starts nor ends with white space. */
  predicate IsTrimmed(s: string) {
    |s| > 0 ==> !IsWhiteSpace(s[0]) && !IsWhiteSpace(s[|s| - 1])
  }

  /** `s.TrimStart()`: the longest suffix of `s` that does not start with white space. */
  function TrimStart(s: string): (r: string)
    ensures |r| <= |s| && r == s[|s| - |r|..]
    ensures |r| > 0 ==> !IsWhiteSpace(r[0])
  {
    if |s| > 0 && IsWhiteSpace(s[0]) then TrimStart(s[1..]) else s
  }

  /** Everything `TrimStart` removes is white space. */
  lemma {:induction false} TrimStartRemovesWhiteSpace(s: string)
    ensures forall i :: 0 <= i < |s| - |TrimStart(s)| ==> IsWhiteSpace(s[i])
  {
    if |s| > 0 && IsWhiteSpace(s[0]) {
      TrimStartRemovesWhiteSpace(s[1..]);
      assert forall i :: 1 <= i < |s| ==> s[i] == s[1..][i - 1];
    }
  }

  /** `s.TrimEnd()`: the longest prefix of `s` that does not end with white space. */
  function TrimEnd(s: string): (r: string)
    ensures |r| <= |s| && r == s[..|r|]
    ensures |r| > 0 ==> !IsWhiteSpace(r[|r| - 1])
  {
    if |s| > 0 && IsWhiteSpace(s[|s| - 1]) then TrimEnd(s[..|s| - 1]) else s
  }

  /** Everything `TrimEnd` removes is white space. */
  lemma {:induction false} TrimEndRemovesWhiteSpace(s: string)
    ensures forall i :: |TrimEnd(s)| <= i < |s| ==> IsWhiteSpace(s[i])
  {
    if |s| > 0 && IsWhiteSpace(s[|s| - 1]) {
      TrimEndRemovesWhiteSpace(s[..|s| - 1]);
      assert forall i :: 0 <= i < |s| - 1 ==> s[i] == s[..|s| - 1][i];
    }
  }

  /** `r` is `s` without its first `i` characters and some further ones at the end, all of them white space. */
  ghost predicate StripsWhiteSpace(s: string, r: string, i: nat) {
    && i + |r| <= |s|
    && s[i..i + |r|] == r
    && (forall k :: 0 <= k < i ==> IsWhiteSpace(s[k]))
    && (forall k :: i + |r| <= k < |s| ==> IsWhiteSpace(s[k]))
  }

  /** `s.Trim()`: `s` with its leading and trailing white space removed. */
  function Trim(s: string): (r: string)
    ensures IsTrimmed(r)
  {
    TrimEnd(TrimStart(s))
  }

  /**
   * What `Trim` removes is white space only, and what remains is a contiguous piece
   * of `s`.
   */
  lemma {:induction false} TrimStrips(s: string)
    ensures StripsWhiteSpace(s, Trim(s), |s| - |TrimStart(s)|)
  {
    var t := TrimStart(s);
    var i := |s| - |t|;
    TrimSlice(s);
    TrimStartRemovesWhiteSpace(s);
    TrimEndStrips(t, i, s);
  }

  /** `Trim(s)` is the piece of `s` that starts where `TrimStart` leaves off. */
  lemma {:induction false} TrimSlice(s: string)
    ensures var i := |s| - |TrimStart(s)|;
      i + |Trim(s)| <= |s| && s[i..i + |Trim(s)|] == Trim(s)
  {
    var t := TrimStart(s);
    var r := TrimEnd(t);
    var i := |s| - |t|;
    PrefixOfSuffix(s, t, r);
    assert s[i..i + |r|] == r;
  }

  /** A prefix `r` of a suffix `t` of `s` is the slice of `s` where `t` starts. */
  lemma PrefixOfSuffix(s: string, t: string, r: string)
    requires |t| <= |s| && t == s[|s| - |t|..]
    requires |r| <= |t| && r == t[..|r|]
    ensures s[|s| - |t|..|s| - |t| + |r|] == r
  {
    assert forall k :: 0 <= k < |r| ==> r[k] == t[k] == s[|s| - |t| + k];
  }

  /** What `TrimEnd` removes from the suffix `t` of `s` is white space of `s`. */
  lemma {:induction false} TrimEndStrips(t: string, i: nat, s: string)
    requires i + |t| == |s| && t == s[i..]
    ensures forall k :: i + |TrimEnd(t)| <= k < |s| ==> IsWhiteSpace(s[k])
  {
    TrimEndRemovesWhiteSpace(t);
    forall k | i + |TrimEnd(t)| <= k < |s|
      ensures IsWhiteSpace(s[k])
    {
      assert s[k] == t[k - i];
    }
  }

  /** Trimming adds no character: every character of `Trim(s)` is one of `s`. */
  lemma {:induction false} TrimKeepsCharacters(s: string, c: char)
    ensures c in Trim(s) ==> c in s
  {
    var i := |s| - |TrimStart(s)|;
    var r := Trim(s);
    TrimSlice(s);
    assert i + |r| <= |s| && s[i..i + |r|] == r;
    SliceKeepsCharacters(s, i, r, c);
  }

  /** A character of a slice of `s` is a character of `s`. */
  lemma SliceKeepsCharacters(s: string, i: nat, r: string, c: char)
    requires i + |r| <= |s| && s[i..i + |r|] == r
    ensures c in r ==> c in s
  {
    if c in r {
      var m :| 0 <= m < |r| && r[m] == c;
      assert s[i..i + |r|][m] == s[i + m];
    }
  }

  /** Trimming a string that is already trimmed changes nothing. */
  lemma {:induction false} TrimTrimmed(s: string)
    requires IsTrimmed(s)
    ensures Trim(s) == s
  {
  }

  /** `Trim` leaves nothing exactly when the string is all white space. */
  lemma {:induction false} TrimEmpty(s: string)
    ensures Trim(s) == "" <==> forall i :: 0 <= i < |s| ==> IsWhiteSpace(s[i])
  {
    TrimStrips(s);
    var t := TrimStart(s);
    assert forall k :: 0 <= k < |t| ==> t[k] == s[|s| - |t| + k];
  }

  /**
   * A piece of the text as `GetLines` keeps it: `None` when it is all white space,
   * otherwise the piece trimmed.
   */
  function NonBlank(piece: string): (r: Option<string>)
    ensures r.Some? ==> r.value != "" && IsTrimmed(r.value)
    ensures r.None? <==> forall i :: 0 <= i < |piece| ==> IsWhiteSpace(piece[i])
    ensures r.Some? ==> r.value == Trim(piece)
  {
    TrimEmpty(piece);
    var t := Trim(piece);
    if t == "" then None else Some(t)
  }

  /** `GetLines(s)`: split on '\n', trim every piece, drop the empty ones. */
  function GetLines(text: string): seq<string> {
    FilterMap(Split(text, '\n'), NonBlank)
  }

  /** No line `GetLines` returns is empty, holds a line break, or changes when trimmed. */
  lemma {:induction false} GetLinesClean(text: string)
    ensures forall k :: 0 <= k < |GetLines(text)| ==>
      && GetLines(text)[k] != ""
      && Trim(GetLines(text)[k]) == GetLines(text)[k]
      && '\n' !in GetLines(text)[k]
  {
    var pieces := Split(text, '\n');
    var lines := GetLines(text);
    forall k | 0 <= k < |lines|
      ensures Trim(lines[k]) == lines[k] && '\n' !in lines[k]
    {
      var i :| 0 <= i < |pieces| && NonBlank(pieces[i]) == Some(lines[k]);
      NonBlankClean(pieces[i]);
    }
  }

  /** A piece without a line break that `GetLines` keeps stays without one, and is its own trim. */
  lemma {:induction false} NonBlankClean(piece: string)
    requires '\n' !in piece && NonBlank(piece).Some?
    ensures Trim(NonBlank(piece).value) == NonBlank(piece).value
    ensures '\n' !in NonBlank(piece).value
  {
    var t := Trim(piece);
    TrimTrimmed(t);
    TrimKeepsCharacters(piece, '\n');
  }

  /** Lines keep their order: the lines of two texts joined by '\n' are the lines of the first, then of the second. */
  lemma {:induction false} GetLinesAppend(a: string, b: string)
    ensures GetLines(a + "\n" + b) == GetLines(a) + GetLines(b)
  {
    SplitAtSeparator(a, '\n', b);
    FilterMapAppend(Split(a, '\n'), Split(b, '\n'), NonBlank);
  }

  /** A line as `GetLines` returns it: non-empty, trimmed and free of line breaks. */
  predicate IsCleanLine(line: string) {
    line != "" && IsTrimmed(line) && '\n' !in line
  }

  /**
   * `GetLines` undoes joining with '\n' when every line is non-empty, trimmed and
   * free of line breaks: nothing is lost, reordered or altered.
   */
  lemma {:induction false} GetLinesJoin(lines: seq<string>)
    requires |lines| >= 1
    requires forall k :: 0 <= k < |lines| ==> IsCleanLine(lines[k])
    ensures GetLines(Join(lines, '\n')) == lines
  {
    if |lines| == 1 {
      GetLinesSingle(lines[0]);
    } else {
      var rest := lines[1..];
      assert forall k :: 0 <= k < |rest| ==> rest[k] == lines[k + 1];
      calc {
        GetLines(Join(lines, '\n'));
        GetLines(lines[0] + "\n" + Join(rest, '\n'));
        { GetLinesAppend(lines[0], Join(rest, '\n')); }
        GetLines(lines[0]) + GetLines(Join(rest, '\n'));
        { GetLinesSingle(lines[0]); GetLinesJoin(rest); }
        [lines[0]] + rest;
        lines;
      }
    }
  }

  /** A text without a line break gives no line when it is all white space, else its trim. */
  lemma {:induction false} GetLinesPiece(piece: string)
    requires '\n' !in piece
    ensures (forall i :: 0 <= i < |piece| ==> IsWhiteSpace(piece[i])) ==> GetLines(piece) == []
    ensures (exists i :: 0 <= i < |piece| && !IsWhiteSpace(piece[i])) ==> GetLines(piece) == [Trim(piece)]
  {
    SplitWithoutSeparator(piece, '\n');
    assert GetLines(piece) == FilterMap([piece], NonBlank);
    if NonBlank(piece).Some? {
      assert FilterMap([piece], NonBlank)[0] == Trim(piece);
    }
  }

  /** A single non-empty, trimmed line without a break is read back as itself. */
  lemma {:induction false} GetLinesSingle(line: string)
    requires IsCleanLine(line)
    ensures GetLines(line) == [line]
  {
    SplitWithoutSeparator(line, '\n');
    TrimTrimmed(line);
    assert FilterMap([line], NonBlank) == [line];
  }
}
