/**
 * `System.Version` as the updater uses it: four components compared left to right,
 * parsed from the dotted text that file metadata and release tags carry.
 */
module Versions {
  import opened Wrappers
  import opened Strings

  /** `Int32.MaxValue`: the largest value a `Version` component can hold. */
  const Int32Max: nat := 0x7FFF_FFFF

  datatype Version = Version(major: nat, minor: nat, build: nat, revision: nat)

  /** Every component fits the 32-bit field that holds it. */
  predicate InRange(v: Version) {
    v.major <= Int32Max && v.minor <= Int32Max && v.build <= Int32Max && v.revision <= Int32Max
  }

  /** `a < b` for `Version`: the first component that differs decides. */
  predicate Less(a: Version, b: Version) {
    || a.major < b.major
    || (a.major == b.major && a.minor < b.minor)
    || (a.major == b.major && a.minor == b.minor && a.build < b.build)
    || (a.major == b.major && a.minor == b.minor && a.build == b.build && a.revision < b.revision)
  }

  /** `a <= b` for `Version`. */
  predicate LessEq(a: Version, b: Version) {
    Less(a, b) || a == b
  }

  /** The order is a strict total order: irreflexive, transitive, and any two versions compare. */
  lemma LessIsStrictTotalOrder(a: Version, b: Version, c: Version)
    ensures !Less(a, a)
    ensures Less(a, b) && Less(b, c) ==> Less(a, c)
    ensures Less(a, b) || a == b || Less(b, a)
    ensures !(Less(a, b) && Less(b, a))
  {
  }

  /** `LessEq` is transitive and is the negation of `Less` the other way round. */
  lemma LessEqFacts(a: Version, b: Version, c: Version)
    ensures LessEq(a, b) && LessEq(b, c) ==> LessEq(a, c)
    ensures LessEq(a, b) <==> !Less(b, a)
  {
  }

  function DigitValue(c: char): nat
    requires IsDigit(c)
  {
    c as int - '0' as int
  }

  function DigitChar(d: nat): (c: char)
    requires d < 10
    ensures IsDigit(c) && DigitValue(c) == d
  {
    ('0' as int + d) as char
  }

  /** The number a run of decimal digits denotes (leading zeros allowed, as `Int32.Parse` does). */
  function Value(s: string): nat
    requires AllDigits(s)
  {
    if s == [] then 0 else Value(s[..|s| - 1]) * 10 + DigitValue(s[|s| - 1])
  }

  /** The canonical decimal text of `n`, without leading zeros (`Int32.ToString()`). */
  function Decimal(n: nat): (s: string)
    ensures IsNumber(s) && Value(s) == n
    ensures |s| > 1 ==> s[0] != '0'
  {
    if n < 10 then [DigitChar(n)]
    else
      var s := Decimal(n / 10) + [DigitChar(n % 10)];
      assert s[..|s| - 1] == Decimal(n / 10);
      s
  }

  /** One component: a non-empty digit run whose value fits in an `Int32`. */
  function ParseComponent(s: string): (r: Option<nat>)
  {
    if IsNumber(s) && Value(s) <= Int32Max then Some(Value(s)) else None
  }

  /** `count` digit runs separated by dots. */
  predicate IsDotted(s: string, count: nat) {
    var parts := Split(s, '.');
    |parts| == count && forall k :: 0 <= k < count ==> IsNumber(parts[k])
  }

  /** The textual grammar of a four-part version: four digit runs separated by dots. */
  predicate IsDottedQuad(s: string) {
    IsDotted(s, 4)
  }

  /** A single number is one dotted part. */
  lemma IsDottedSingle(a: string)
    requires IsNumber(a)
    ensures IsDotted(a, 1)
  {
    assert '.' !in a by {
      assert forall k :: 0 <= k < |a| ==> IsDigit(a[k]);
    }
    SplitWithoutSeparator(a, '.');
  }

  /** A number, a dot and `n` dotted parts make `n + 1` dotted parts. */
  lemma IsDottedCons(a: string, b: string, n: nat)
    requires IsNumber(a) && IsDotted(b, n)
    ensures IsDotted(a + ['.'] + b, n + 1)
  {
    assert '.' !in a by {
      assert forall k :: 0 <= k < |a| ==> IsDigit(a[k]);
    }
    SplitWithoutSeparator(a, '.');
    SplitAtSeparator(a, '.', b);
    var parts := Split(a + ['.'] + b, '.');
    assert parts == [a] + Split(b, '.');
    assert forall k :: 1 <= k < |parts| ==> parts[k] == Split(b, '.')[k - 1];
  }

  /**
   * `Version.Parse(s)` for four-part text. Text outside the grammar and components
   * beyond `Int32.MaxValue` are failures, never a lesser version.
   */
  function ParseVersion(s: string): (r: Option<Version>)
    ensures r.Some? ==> IsDottedQuad(s) && InRange(r.value)
    ensures r.None? && IsDottedQuad(s) ==>
      exists k :: 0 <= k < 4 && Value(Split(s, '.')[k]) > Int32Max
    ensures r.Some? ==>
      var parts := Split(s, '.');
      r.value == Version(Value(parts[0]), Value(parts[1]), Value(parts[2]), Value(parts[3]))
  {
    var parts := Split(s, '.');
    if |parts| != 4 then None
    else
      match (ParseComponent(parts[0]), ParseComponent(parts[1]), ParseComponent(parts[2]), ParseComponent(parts[3]))
      case (Some(a), Some(b), Some(c), Some(d)) => Some(Version(a, b, c, d))
      case _ => None
  }

  /** `Version.ToString()`: the four components in decimal, joined by dots. */
  function ToString(v: Version): (s: string)
    ensures IsDottedQuad(s)
  {
    var a, b, c, d := Decimal(v.major), Decimal(v.minor), Decimal(v.build), Decimal(v.revision);
    IsDottedSingle(d);
    IsDottedCons(c, d, 1);
    IsDottedCons(b, c + ['.'] + d, 2);
    IsDottedCons(a, b + ['.'] + (c + ['.'] + d), 3);
    assert a + "." + b + "." + c + "." + d == a + ['.'] + (b + ['.'] + (c + ['.'] + d));
    a + "." + b + "." + c + "." + d
  }

  /** A version printed with `ToString` (as in the backup file name) parses back to itself. */
  lemma {:induction false} ParseToString(v: Version)
    requires InRange(v)
    ensures ParseVersion(ToString(v)) == Some(v)
  {
    var parts := [Decimal(v.major), Decimal(v.minor), Decimal(v.build), Decimal(v.revision)];
    forall k | 0 <= k < 4
      ensures '.' !in parts[k]
    {
      assert AllDigits(parts[k]);
    }
    assert Join(parts[3..], '.') == parts[3];
    assert Join(parts[2..], '.') == parts[2] + "." + parts[3] by {
      assert parts[2..][1..] == parts[3..];
    }
    assert Join(parts[1..], '.') == parts[1] + "." + parts[2] + "." + parts[3] by {
      assert parts[1..][1..] == parts[2..];
    }
    assert Join(parts, '.') == ToString(v) by {
      assert parts[1..] == parts[1..];
    }
    SplitJoin(parts, '.');
  }
}
