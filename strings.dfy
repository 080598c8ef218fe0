/**
 * The few `str` operations of Rust's standard library that the launcher uses, on
 * `seq<char>`: `find`, `split`, `join`, `trim`, `trim_matches`, `replace`,
 * `to_lowercase`, `starts_with` and `ends_with`. Whitespace and case are ASCII only.
 */
module Strings {
  import opened Wrappers
  import opened Seqs

  /** ASCII whitespace: space and the control characters tab to carriage return. */
  predicate IsWhitespace(c: char) {
    c == ' ' || '\t' <= c <= '\r'
  }

  /** `to_lowercase` of one ASCII character. */
  function LowerChar(c: char): char {
    if 'A' <= c <= 'Z' then (c as int + 32) as char else c
  }

  function ToLower(s: string): (r: string)
    ensures |r| == |s|
    ensures forall i :: 0 <= i < |s| ==> r[i] == LowerChar(s[i])
  {
    seq(|s|, i requires 0 <= i < |s| => LowerChar(s[i]))
  }

  predicate StartsWith(s: string, prefix: string) {
    |prefix| <= |s| && s[..|prefix|] == prefix
  }

  predicate EndsWith(s: string, suffix: string) {
    |suffix| <= |s| && s[|s| - |suffix|..] == suffix
  }

  /** `find(c)`: the index of the first `c` in `s`, if any. */
  function IndexOf(s: string, c: char): (r: Option<nat>)
    ensures r.None? <==> c !in s
    ensures r.Some? ==> r.value < |s| && s[r.value] == c && c !in s[..r.value]
  {
    FirstIndex(s, c)
  }

  /** `parts.join(sep)` */
  function Join(parts: seq<string>, sep: string): string
    decreases |parts|
  {
    if |parts| == 0 then ""
    else if |parts| == 1 then parts[0]
    else parts[0] + sep + Join(parts[1..], sep)
  }

  /** `s.split(c)`: always at least one piece, no piece contains `c`, and joining
      the pieces with `c` gives `s` back. */
  function Split(s: string, c: char): (r: seq<string>)
    ensures |r| >= 1
    ensures forall i :: 0 <= i < |r| ==> c !in r[i]
    ensures Join(r, [c]) == s
    decreases |s|
  {
    match IndexOf(s, c)
    case None => [s]
    case Some(i) =>
      var rest := Split(s[i + 1..], c);
      assert s == s[..i] + [c] + s[i + 1..];
      [s[..i]] + rest
  }

  lemma SplitWithout(s: string, c: char)
    requires c !in s
    ensures Split(s, c) == [s]
  {
  }

  /** Splitting at a first separator peels off the piece before it. */
  lemma SplitPrefix(p: string, c: char, rest: string)
    requires c !in p
    ensures Split(p + [c] + rest, c) == [p] + Split(rest, c)
  {
    var s := p + [c] + rest;
    assert s[|p|] == c && s[..|p|] == p;
    assert IndexOf(s, c) == Some(|p|);
    assert s[|p| + 1..] == rest;
  }

  /** `split` undoes `join` when no piece contains the separator. */
  lemma {:induction false} SplitJoin(parts: seq<string>, c: char)
    requires |parts| >= 1
    requires forall i :: 0 <= i < |parts| ==> c !in parts[i]
    ensures Split(Join(parts, [c]), c) == parts
    decreases |parts|
  {
    if |parts| == 1 {
      SplitWithout(parts[0], c);
    } else {
      assert c !in parts[0];
      SplitJoin(parts[1..], c);
      SplitPrefix(parts[0], c, Join(parts[1..], [c]));
      assert [parts[0]] + parts[1..] == parts;
    }
  }

  /** `s.split(c).last()`: the text after the final `c`, or all of `s`. */
  function LastSegment(s: string, c: char): (r: string)
    ensures c !in r
    ensures |r| <= |s| && r == s[|s| - |r|..]
    ensures |r| < |s| ==> s[|s| - |r| - 1] == c
    decreases |s|
  {
    if s == [] then []
    else if s[|s| - 1] == c then []
    else
      var r := LastSegment(s[..|s| - 1], c);
      assert s[..|s| - 1][|s| - 1 - |r|..] + [s[|s| - 1]] == s[|s| - |r| - 1..];
      r + [s[|s| - 1]]
  }

  /** The segment found by `LastSegment` is the last piece of `Split`. */
  lemma {:induction false} LastSegmentOfSplit(s: string, c: char)
    ensures LastSegment(s, c) == Split(s, c)[|Split(s, c)| - 1]
    decreases |s|
  {
    if c !in s {
      LastSegmentWithout(s, c);
      SplitWithout(s, c);
    } else {
      var i := IndexOf(s, c).value;
      var rest := s[i + 1..];
      var pieces := Split(rest, c);
      assert Split(s, c) == [s[..i]] + pieces;
      assert Split(s, c)[|Split(s, c)| - 1] == pieces[|pieces| - 1];
      LastSegmentOfSplit(rest, c);
      LastSegmentFrom(s, i, c);
    }
  }

  lemma LastSegmentFrom(s: string, i: nat, c: char)
    requires i < |s| && s[i] == c
    ensures LastSegment(s, c) == LastSegment(s[i + 1..], c)
  {
    assert s == s[..i] + [c] + s[i + 1..];
    LastSegmentAfter(s[..i], s[i + 1..], c);
  }

  lemma {:induction false} LastSegmentWithout(s: string, c: char)
    requires c !in s
    ensures LastSegment(s, c) == s
    decreases |s|
  {
    if s != [] {
      LastSegmentWithout(s[..|s| - 1], c);
      assert s[..|s| - 1] + [s[|s| - 1]] == s;
    }
  }

  lemma {:induction false} LastSegmentAfter(p: string, rest: string, c: char)
    ensures LastSegment(p + [c] + rest, c) == LastSegment(rest, c)
    decreases |rest|
  {
    var s := p + [c] + rest;
    if rest == [] {
      assert s[|s| - 1] == c;
    } else {
      assert s[|s| - 1] == rest[|rest| - 1];
      if rest[|rest| - 1] != c {
        assert s[..|s| - 1] == p + [c] + rest[..|rest| - 1];
        LastSegmentAfter(p, rest[..|rest| - 1], c);
      }
    }
  }

  /** `trim_start_matches` for a set of characters given as a predicate. */
  function TrimStartBy(s: string, drop: char -> bool): string
    decreases |s|
  {
    if s != [] && drop(s[0]) then TrimStartBy(s[1..], drop) else s
  }

  /** What is left is a suffix that does not start with a dropped character, and
      everything cut is dropped. */
  lemma {:induction false} TrimStartByShape(s: string, drop: char -> bool)
    ensures var r := TrimStartBy(s, drop);
      |r| <= |s| && r == s[|s| - |r|..] && (r == [] || !drop(r[0]))
      && forall i :: 0 <= i < |s| - |r| ==> drop(s[i])
    decreases |s|
  {
    if s != [] && drop(s[0]) {
      TrimStartByShape(s[1..], drop);
      var r := TrimStartBy(s, drop);
      forall i | 0 <= i < |s| - |r| ensures drop(s[i]) {
        if i > 0 {
          assert s[i] == s[1..][i - 1];
        }
      }
    }
  }

  /** `trim_end_matches` for a set of characters given as a predicate. */
  function TrimEndBy(s: string, drop: char -> bool): string
    decreases |s|
  {
    if s != [] && drop(s[|s| - 1]) then TrimEndBy(s[..|s| - 1], drop) else s
  }

  /** What is left is a prefix that does not end with a dropped character, and
      everything cut is dropped. */
  lemma {:induction false} TrimEndByShape(s: string, drop: char -> bool)
    ensures var r := TrimEndBy(s, drop);
      |r| <= |s| && r == s[..|r|] && (r == [] || !drop(r[|r| - 1]))
      && forall i :: |r| <= i < |s| ==> drop(s[i])
    decreases |s|
  {
    if s != [] && drop(s[|s| - 1]) {
      TrimEndByShape(s[..|s| - 1], drop);
      var r := TrimEndBy(s, drop);
      forall i | |r| <= i < |s| ensures drop(s[i]) {
        if i < |s| - 1 {
          assert s[i] == s[..|s| - 1][i];
        }
      }
    }
  }

  /** Both ends. */
  function TrimBy(s: string, drop: char -> bool): string {
    TrimEndBy(TrimStartBy(s, drop), drop)
  }

  /** The result neither starts nor ends with a dropped character and holds only
      characters of `s`. */
  lemma TrimByShape(s: string, drop: char -> bool)
    ensures var r := TrimBy(s, drop);
      |r| <= |s| && (r == [] || (!drop(r[0]) && !drop(r[|r| - 1])))
      && forall k :: 0 <= k < |r| ==> r[k] in s
  {
    var a := TrimStartBy(s, drop);
    TrimStartByShape(s, drop);
    TrimEndByShape(a, drop);
    var r := TrimEndBy(a, drop);
    assert forall k :: 0 <= k < |r| ==> r[k] == a[k] == s[|s| - |a| + k];
  }

  /** Nothing to trim: the string is returned as it is. */
  lemma TrimByKeeps(s: string, drop: char -> bool)
    requires s == [] || (!drop(s[0]) && !drop(s[|s| - 1]))
    ensures TrimBy(s, drop) == s
  {
  }

  lemma TrimByIdempotent(s: string, drop: char -> bool)
    ensures TrimBy(TrimBy(s, drop), drop) == TrimBy(s, drop)
  {
    TrimByShape(s, drop);
    TrimByKeeps(TrimBy(s, drop), drop);
  }

  /** `trim()` */
  function Trim(s: string): string {
    TrimBy(s, IsWhitespace)
  }

  /** `trim_matches(c)` */
  function TrimMatches(s: string, c: char): string {
    TrimBy(s, x => x == c)
  }

  /** `replace(c, t)`: every `c` becomes `t`, everything else is kept in order. */
  function Replace(s: string, c: char, t: string): (r: string)
    ensures c !in s ==> r == s
    ensures forall k :: 0 <= k < |r| ==> r[k] in s || r[k] in t
    ensures forall k :: 0 <= k < |r| ==> c in t || r[k] != c
    decreases |s|
  {
    if s == [] then []
    else
      var rest := Replace(s[1..], c, t);
      var head := if s[0] == c then t else [s[0]];
      assert forall k :: 0 <= k < |rest| ==> (head + rest)[|head| + k] == rest[k];
      head + rest
  }

  /** `replace` works piece by piece. */
  lemma {:induction false} ReplaceAppend(s: string, t: string, c: char, u: string)
    ensures Replace(s + t, c, u) == Replace(s, c, u) + Replace(t, c, u)
    decreases |s|
  {
    if s == [] {
      assert s + t == t;
    } else {
      assert (s + t)[1..] == s[1..] + t;
      ReplaceAppend(s[1..], t, c, u);
    }
  }
}
