/** The few string operations of Python's `str` that the agents use. */
module Strings {

  /** `"".join(parts)`: the parts laid end to end. */
  function Concat(parts: seq<string>): string {
    if parts == [] then "" else Concat(parts[..|parts| - 1]) + parts[|parts| - 1]
  }

  /** The texts `f` gives the elements of `xs`, in order, laid end to end. */
  function ConcatMap<T>(xs: seq<T>, f: T -> string): string {
    if xs == [] then "" else ConcatMap(xs[..|xs| - 1], f) + f(xs[|xs| - 1])
  }

  /** The texts `f` gives the elements of `xs`, last element first, laid end to end. */
  function ConcatMapReversed<T>(xs: seq<T>, f: T -> string): string {
    if xs == [] then "" else f(xs[|xs| - 1]) + ConcatMapReversed(xs[..|xs| - 1], f)
  }

  lemma {:induction false} ConcatMapAppend<T>(a: seq<T>, b: seq<T>, f: T -> string)
    ensures ConcatMap(a + b, f) == ConcatMap(a, f) + ConcatMap(b, f)
  {
    if b == [] {
      assert a + b == a;
    } else {
      assert (a + b)[..|a + b| - 1] == a + b[..|b| - 1];
      ConcatMapAppend(a, b[..|b| - 1], f);
    }
  }

  lemma {:induction false} ConcatMapReversedAppend<T>(a: seq<T>, b: seq<T>, f: T -> string)
    ensures ConcatMapReversed(a + b, f) == ConcatMapReversed(b, f) + ConcatMapReversed(a, f)
  {
    if b == [] {
      assert a + b == a;
    } else {
      assert (a + b)[..|a + b| - 1] == a + b[..|b| - 1];
      ConcatMapReversedAppend(a, b[..|b| - 1], f);
    }
  }

  /** Elements whose text is empty contribute nothing. */
  lemma {:induction false} ConcatMapReversedEmpty<T>(xs: seq<T>, f: T -> string)
    requires forall i :: 0 <= i < |xs| ==> f(xs[i]) == ""
    ensures ConcatMapReversed(xs, f) == ""
  {
    if xs != [] {
      ConcatMapReversedEmpty(xs[..|xs| - 1], f);
    }
  }

  /** `pattern` occurs in `s` at index `i`. */
  predicate OccursAt(s: string, pattern: string, i: int) {
    0 <= i && i + |pattern| <= |s| && s[i..i + |pattern|] == pattern
  }

  /** `pattern not in s`. */
  predicate Absent(s: string, pattern: string) {
    forall i :: 0 <= i <= |s| - |pattern| ==> !OccursAt(s, pattern, i)
  }

  /**
   * `s.replace(pattern, replacement)`: scanning from the left, every occurrence of
   * `pattern` that does not overlap an earlier replaced one becomes `replacement`.
   */
  function ReplaceAll(s: string, pattern: string, replacement: string): string
    requires pattern != ""
    decreases |s|
  {
    if |s| < |pattern| then s
    else if s[..|pattern|] == pattern then replacement + ReplaceAll(s[|pattern|..], pattern, replacement)
    else [s[0]] + ReplaceAll(s[1..], pattern, replacement)
  }

  /** A string that does not contain the pattern is left as it is. */
  lemma {:induction false} ReplaceAbsent(s: string, pattern: string, replacement: string)
    requires pattern != ""
    requires Absent(s, pattern)
    ensures ReplaceAll(s, pattern, replacement) == s
    decreases |s|
  {
    if |s| >= |pattern| {
      assert !OccursAt(s, pattern, 0);
      assert s[..|pattern|] != pattern;
      forall i | 0 <= i <= |s[1..]| - |pattern|
        ensures !OccursAt(s[1..], pattern, i)
      {
        assert !OccursAt(s, pattern, i + 1);
        assert s[1..][i..i + |pattern|] == s[i + 1..i + 1 + |pattern|];
      }
      ReplaceAbsent(s[1..], pattern, replacement);
      assert [s[0]] + s[1..] == s;
    }
  }

  /** A pattern is absent from `prefix + rest` when it is absent from `rest` and no
      character of `prefix` is the pattern's first character. */
  lemma AbsentAfterPrefix(prefix: string, rest: string, pattern: string)
    requires pattern != ""
    requires forall k :: 0 <= k < |prefix| ==> prefix[k] != pattern[0]
    requires Absent(rest, pattern)
    ensures Absent(prefix + rest, pattern)
  {
    var s := prefix + rest;
    forall i | 0 <= i <= |s| - |pattern|
      ensures !OccursAt(s, pattern, i)
    {
      if i < |prefix| {
        assert s[i..i + |pattern|][0] == prefix[i];
      } else {
        assert s[i..i + |pattern|] == rest[i - |prefix|..i - |prefix| + |pattern|];
        assert !OccursAt(rest, pattern, i - |prefix|);
      }
    }
  }

  /** A pattern is absent from `[c] + s` when it is absent from `s` and does not start at `c`. */
  lemma AbsentAfterChar(c: char, s: string, pattern: string)
    requires Absent(s, pattern)
    requires !OccursAt([c] + s, pattern, 0)
    ensures Absent([c] + s, pattern)
  {
    forall i | 1 <= i <= |[c] + s| - |pattern|
      ensures !OccursAt([c] + s, pattern, i)
    {
      assert ([c] + s)[i..i + |pattern|] == s[i - 1..i - 1 + |pattern|];
      assert !OccursAt(s, pattern, i - 1);
    }
  }

  /**
   * `s.split(sep)[0]`: the part of `s` before the first `sep`, or all of `s`
   * when `sep` does not occur.
   */
  function BeforeFirst(s: string, sep: char): (r: string)
    ensures r <= s
    ensures sep !in r
    ensures |r| == |s| || s[|r|] == sep
  {
    if s == [] || s[0] == sep then "" else [s[0]] + BeforeFirst(s[1..], sep)
  }
}
