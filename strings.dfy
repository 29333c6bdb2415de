/**
 * The .NET string operations the updater relies on, over `seq<char>`:
 * `String.Split(char)`, `String.Contains(string)` and `String.Replace(string, string)`,
 * all ordinal.
 */
module Strings {
  import opened Wrappers


  predicate IsDigit(c: char) {
    '0' <= c <= '9'
  }

  predicate AllDigits(s: string) {
    forall i :: 0 <= i < |s| ==> IsDigit(s[i])
  }

  /** A non-empty run of ASCII digits (what one `\d+` of the source's patterns accepts). */
  predicate IsNumber(s: string) {
    |s| > 0 && AllDigits(s)
  }

  /**
   * `s.Split(sep)`: the pieces between separators, in order, empty pieces kept,
   * so a string with `n` separators yields `n + 1` pieces.
   */
  function Split(s: string, sep: char): (parts: seq<string>)
    ensures |parts| >= 1
    ensures forall k :: 0 <= k < |parts| ==> sep !in parts[k]
    decreases |s|
  {
    if s == [] then [""]
    else
      var rest := Split(s[1..], sep);
      if s[0] == sep then [""] + rest
      else [[s[0]] + rest[0]] + rest[1..]
  }

  /** The inverse of `Split`: the pieces glued back together with `sep`. */
  function Join(parts: seq<string>, sep: char): string
    requires |parts| >= 1
  {
    if |parts| == 1 then parts[0] else parts[0] + [sep] + Join(parts[1..], sep)
  }

  /** A string without the separator is a single piece. */
  lemma {:induction false} SplitWithoutSeparator(s: string, sep: char)
    requires sep !in s
    ensures Split(s, sep) == [s]
  {
    if s != [] {
      SplitWithoutSeparator(s[1..], sep);
      assert [s[0]] + s[1..] == s;
    }
  }

  /** Splitting distributes over a separator: the pieces of `a` followed by the pieces of `b`. */
  lemma {:induction false} SplitAtSeparator(a: string, sep: char, b: string)
    ensures Split(a + [sep] + b, sep) == Split(a, sep) + Split(b, sep)
    decreases |a|
  {
    if a == [] {
      assert a + [sep] + b == [sep] + b;
      assert ([sep] + b)[1..] == b;
    } else {
      assert (a + [sep] + b)[1..] == a[1..] + [sep] + b;
      SplitAtSeparator(a[1..], sep, b);
    }
  }

  /** Joining the pieces of a split gives the string back. */
  lemma {:induction false} JoinSplit(s: string, sep: char)
    ensures Join(Split(s, sep), sep) == s
    decreases |s|
  {
    if s != [] {
      JoinSplit(s[1..], sep);
      var rest := Split(s[1..], sep);
      if s[0] == sep {
        assert Split(s, sep) == [""] + rest;
        assert ([""] + rest)[1..] == rest;
      } else if |rest| == 1 {
        assert Split(s, sep) == [[s[0]] + rest[0]];
      } else {
        assert Join(rest, sep) == rest[0] + [sep] + Join(rest[1..], sep);
        var parts := [[s[0]] + rest[0]] + rest[1..];
        assert parts[1..] == rest[1..];
      }
    }
  }

  /** Splitting pieces that were joined gives the pieces back, when no piece holds the separator. */
  lemma {:induction false} SplitJoin(parts: seq<string>, sep: char)
    requires |parts| >= 1
    requires forall k :: 0 <= k < |parts| ==> sep !in parts[k]
    ensures Split(Join(parts, sep), sep) == parts
  {
    SplitWithoutSeparator(parts[0], sep);
    if |parts| > 1 {
      SplitJoin(parts[1..], sep);
      SplitAtSeparator(parts[0], sep, Join(parts[1..], sep));
      assert [parts[0]] + parts[1..] == parts;
    }
  }

  /** `s` holds `sub` starting at index `i`. */
  predicate OccursAt(s: string, sub: string, i: nat) {
    i + |sub| <= |s| && s[i..i + |sub|] == sub
  }

  /** An occurrence of `a + b` is an occurrence of `a` followed by one of `b`. */
  lemma OccursAtConcat(s: string, a: string, b: string, i: nat)
    requires OccursAt(s, a + b, i)
    ensures OccursAt(s, a, i) && OccursAt(s, b, i + |a|)
  {
    assert s[i..i + |a|] == s[i..i + |a + b|][..|a|];
    assert s[i + |a|..i + |a| + |b|] == s[i..i + |a + b|][|a|..];
  }

  /** The middle part of a concatenation occurs right after the first part. */
  lemma OccursInMiddle(a: string, b: string, c: string)
    ensures OccursAt(a + b + c, b, |a|)
  {
    assert (a + b + c)[|a|..|a| + |b|] == b;
  }

  /** Slices of a four-part concatenation. */
  lemma SlicesOfConcat(a: string, b: string, c: string, d: string)
    ensures (a + b + c + d)[|a|..|a| + |b| + |c|] == b + c
    ensures (a + b + c + d)[|a| + |b|..|a| + |b| + |c|] == c
    ensures OccursAt(a + b + c + d, b, |a|)
  {
    assert (a + b + c + d)[|a|..|a| + |b|] == b;
  }

  /** An occurrence starts with the first character of what occurs. */
  lemma OccursAtHead(s: string, sub: string, j: nat)
    requires sub != [] && OccursAt(s, sub, j)
    ensures s[j] == sub[0]
  {
    assert s[j..j + |sub|][0] == s[j];
  }

  /** `s.Contains(sub)` (ordinal). */
  predicate Contains(s: string, sub: string) {
    exists i | 0 <= i <= |s| :: OccursAt(s, sub, i)
  }

  /**
   * `s.Replace(from, to)` (ordinal): occurrences of `from` are found left to right,
   * without overlap, and each is replaced by `to`.
   */
  function Replace(s: string, from: string, to: string): string
    requires from != []
    decreases |s|
  {
    if |s| < |from| then s
    else if s[..|from|] == from then to + Replace(s[|from|..], from, to)
    else [s[0]] + Replace(s[1..], from, to)
  }

  /** Text that cannot start an occurrence passes through `Replace` unchanged. */
  lemma {:induction false} ReplaceSkips(a: string, b: string, from: string, to: string)
    requires from != [] && from[0] !in a
    ensures Replace(a + b, from, to) == a + Replace(b, from, to)
    decreases |a|
  {
    if a != [] {
      if |a + b| >= |from| {
        assert (a + b)[..|from|][0] == a[0] != from[0];
        assert (a + b)[1..] == a[1..] + b;
        ReplaceSkips(a[1..], b, from, to);
        calc {
          Replace(a + b, from, to);
          [a[0]] + Replace(a[1..] + b, from, to);
          [a[0]] + (a[1..] + Replace(b, from, to));
          { assert [a[0]] + a[1..] == a; }
          a + Replace(b, from, to);
        }
      } else {
        assert Replace(a + b, from, to) == a + b;
        assert Replace(b, from, to) == b;
      }
    } else {
      assert a + b == b;
    }
  }

  /** A string without any occurrence of `from` is left as it is. */
  lemma {:induction false} ReplaceWithoutOccurrence(s: string, from: string, to: string)
    requires from != [] && !Contains(s, from)
    ensures Replace(s, from, to) == s
    decreases |s|
  {
    if |s| >= |from| {
      assert !OccursAt(s, from, 0);
      assert s[..|from|] != from;
      forall i | 0 <= i <= |s[1..]|
        ensures !OccursAt(s[1..], from, i)
      {
        assert !OccursAt(s, from, i + 1);
        if i + |from| <= |s[1..]| {
          assert s[1..][i..i + |from|] == s[i + 1..i + 1 + |from|];
        }
      }
      ReplaceWithoutOccurrence(s[1..], from, to);
    }
  }

  /** A single occurrence, with nothing before or after it that could start another, is replaced. */
  lemma ReplaceOnce(a: string, from: string, b: string, to: string)
    requires from != [] && from[0] !in a && from[0] !in b
    ensures Replace(a + from + b, from, to) == a + to + b
  {
    calc {
      Replace(a + from + b, from, to);
      { assert a + from + b == a + (from + b); }
      Replace(a + (from + b), from, to);
      { ReplaceSkips(a, from + b, from, to); }
      a + Replace(from + b, from, to);
      { assert (from + b)[..|from|] == from && (from + b)[|from|..] == b; }
      a + (to + Replace(b, from, to));
      { ReplaceSkips(b, [], from, to); assert b + [] == b; }
      a + to + b;
    }
  }

  /**
   * `xs.Select(f).Where(r => r succeeded).Select(r => r.value)`: the results of `f` that
   * are present, in the order of `xs`.
   */
  function FilterMap<T>(xs: seq<string>, f: string -> Option<T>): (r: seq<T>)
    ensures |r| <= |xs|
    ensures r == [] <==> forall i :: 0 <= i < |xs| ==> f(xs[i]).None?
    ensures forall k :: 0 <= k < |r| ==> exists i :: 0 <= i < |xs| && f(xs[i]) == Some(r[k])
  {
    if xs == [] then []
    else
      var rest := FilterMap(xs[1..], f);
      assert forall i :: 1 <= i < |xs| ==> xs[i] == xs[1..][i - 1];
      match f(xs[0])
      case None => rest
      case Some(y) => [y] + rest
  }

  /** `FilterMap` keeps the order: the results for a concatenation are concatenated. */
  lemma {:induction false} FilterMapAppend<T>(a: seq<string>, b: seq<string>, f: string -> Option<T>)
    ensures FilterMap(a + b, f) == FilterMap(a, f) + FilterMap(b, f)
  {
    if a != [] {
      assert (a + b)[1..] == a[1..] + b;
      FilterMapAppend(a[1..], b, f);
    } else {
      assert a + b == b;
    }
  }
}
