/**
 * Helpers of src/utils.rs (repeated word for word in src/helpers.rs): the argument
 * sandwich, app-name sanitising and boolean parsing.
 */
module Utils {
  import opened Wrappers
  import opened Seqs
  import opened Strings
  import opened Configs

  /** The injection marker: where a parent argument list takes its child's arguments. */
  const Marker: string := "%!"

  /** The merged argument list: the child replaces the parent's first marker, or is
      appended when the parent has none. */
  function Sandwich(parent: seq<string>, child: seq<string>): seq<string> {
    match FirstIndex(parent, Marker)
    case Some(p) => parent[..p] + child + parent[p + 1..]
    case None => parent + child
  }

  /** `sandwich_args`: find the marker, then build the result by extending a fresh list
      (or the parent itself when there is no marker). */
  method SandwichArgs(parent: seq<string>, child: seq<string>) returns (r: seq<string>)
    ensures r == Sandwich(parent, child)
  {
    var pos := 0;
    while pos < |parent| && parent[pos] != Marker
      invariant 0 <= pos <= |parent|
      invariant Marker !in parent[..pos]
    {
      assert parent[..pos + 1] == parent[..pos] + [parent[pos]];
      pos := pos + 1;
    }
    if pos < |parent| {
      FirstIndexAt(parent, Marker, pos);
      var finalArgs := [];
      finalArgs := finalArgs + parent[..pos];
      finalArgs := finalArgs + child;
      finalArgs := finalArgs + parent[pos + 1..];
      r := finalArgs;
    } else {
      assert parent[..pos] == parent;
      var fallback := parent;
      fallback := fallback + child;
      r := fallback;
    }
  }

  /** An element-by-element reading of the merge: copy the parent until its first
      marker, put the child there and copy the rest; at the end, append the child. */
  function InjectChild(parent: seq<string>, child: seq<string>): seq<string>
    decreases |parent|
  {
    if parent == [] then child
    else if parent[0] == Marker then child + parent[1..]
    else [parent[0]] + InjectChild(parent[1..], child)
  }

  lemma {:induction false} SandwichIsInjectChild(parent: seq<string>, child: seq<string>)
    ensures Sandwich(parent, child) == InjectChild(parent, child)
    decreases |parent|
  {
    if parent == [] {
    } else if parent[0] == Marker {
      FirstIndexAt(parent, Marker, 0);
      assert Sandwich(parent, child) == child + parent[1..];
    } else {
      var tail := parent[1..];
      SandwichIsInjectChild(tail, child);
      assert parent == [parent[0]] + tail;
      SandwichCons(parent[0], tail, child);
      assert InjectChild(parent, child) == [parent[0]] + InjectChild(tail, child);
    }
  }

  /** An element other than the marker in front of the parent stays in front. */
  lemma SandwichCons(x: string, tail: seq<string>, child: seq<string>)
    requires x != Marker
    ensures Sandwich([x] + tail, child) == [x] + Sandwich(tail, child)
  {
    var parent := [x] + tail;
    assert parent[1..] == tail;
    if Marker in tail {
      var p := FirstIndex(tail, Marker).value;
      assert parent[..p + 1] == [x] + tail[..p];
      FirstIndexAt(parent, Marker, p + 1);
      assert parent[p + 2..] == tail[p + 1..];
      assert parent[..p + 1] + child + parent[p + 2..] == [x] + (tail[..p] + child + tail[p + 1..]);
    } else {
      assert Marker !in parent;
      assert parent + child == [x] + (tail + child);
    }
  }

  /** With a marker at its first index `p`, the result is the parent before `p`, the
      whole child, then the parent after `p`; later markers are kept as they are. */
  lemma SandwichAtMarker(parent: seq<string>, child: seq<string>, p: nat)
    requires p < |parent| && parent[p] == Marker && Marker !in parent[..p]
    ensures Sandwich(parent, child) == parent[..p] + child + parent[p + 1..]
    ensures |Sandwich(parent, child)| == |parent| - 1 + |child|
    ensures forall i :: p < i < |parent| ==> Sandwich(parent, child)[i - 1 + |child|] == parent[i]
  {
    FirstIndexAt(parent, Marker, p);
    var r := Sandwich(parent, child);
    forall i | p < i < |parent| ensures r[i - 1 + |child|] == parent[i] {
      assert r[i - 1 + |child|] == parent[p + 1..][i - p - 1];
    }
  }

  /** Without a marker the child is appended. */
  lemma SandwichWithoutMarker(parent: seq<string>, child: seq<string>)
    requires Marker !in parent
    ensures Sandwich(parent, child) == parent + child
    ensures |Sandwich(parent, child)| == |parent| + |child|
  {
  }

  /** The merge loses exactly one marker when the parent has one, and nothing else. */
  lemma SandwichElements(parent: seq<string>, child: seq<string>)
    ensures Marker in parent ==>
      multiset(Sandwich(parent, child)) + multiset{Marker} == multiset(parent) + multiset(child)
    ensures Marker !in parent ==>
      multiset(Sandwich(parent, child)) == multiset(parent) + multiset(child)
  {
    if Marker in parent {
      var p := FirstIndex(parent, Marker).value;
      assert parent == parent[..p] + [Marker] + parent[p + 1..];
      calc {
        multiset(parent) + multiset(child);
        multiset(parent[..p] + [Marker] + parent[p + 1..]) + multiset(child);
        multiset(parent[..p]) + multiset{Marker} + multiset(parent[p + 1..]) + multiset(child);
        multiset(parent[..p] + child + parent[p + 1..]) + multiset{Marker};
      }
    }
  }

  /** Two nested merges equal one merge of the inner result, as long as the middle list
      carries its own marker: wrapping a wrapper injects the innermost arguments at the
      middle list's marker, wherever the outer list's marker is. */
  lemma {:induction false} SandwichNests(outer: seq<string>, middle: seq<string>, inner: seq<string>)
    requires Marker in middle
    ensures Sandwich(Sandwich(outer, middle), inner) == Sandwich(outer, Sandwich(middle, inner))
    decreases |outer|
  {
    SandwichIsInjectChild(outer, middle);
    SandwichIsInjectChild(middle, inner);
    SandwichIsInjectChild(outer, Sandwich(middle, inner));
    SandwichIsInjectChild(InjectChild(outer, middle), inner);
    if outer == [] {
    } else if outer[0] == Marker {
      var q := FirstIndex(middle, Marker).value;
      var rest := outer[1..];
      var m := middle + rest;
      assert InjectChild(outer, middle) == middle + rest;
      FirstIndexAt(middle + rest, Marker, q);
      assert (middle + rest)[..q] == middle[..q];
      assert (middle + rest)[q + 1..] == middle[q + 1..] + rest;
      SandwichIsInjectChild(middle + rest, inner);
    } else {
      var rest := outer[1..];
      SandwichNests(rest, middle, inner);
      SandwichIsInjectChild(rest, middle);
      SandwichIsInjectChild(rest, Sandwich(middle, inner));
      SandwichIsInjectChild(InjectChild(rest, middle), inner);
      var head := [outer[0]];
      assert InjectChild(outer, middle) == head + InjectChild(rest, middle);
      InjectChildHead(outer[0], InjectChild(rest, middle), inner);
    }
  }

  lemma InjectChildHead(x: string, s: seq<string>, child: seq<string>)
    requires x != Marker
    ensures InjectChild([x] + s, child) == [x] + InjectChild(s, child)
  {
    assert ([x] + s)[1..] == s;
  }

  /** `sanitize_app_name`: trimmed, spaces turned into `_`, backslashes into `/`, and
      leading and trailing `/` cut. */
  function SanitizeAppName(name: string): (r: string)
    ensures ' ' !in r && '\\' !in r
    ensures r == [] || (r[0] != '/' && r[|r| - 1] != '/')
  {
    var spaced := Replace(Trim(name), ' ', "_");
    var slashed := Replace(spaced, '\\', "/");
    assert ' ' !in spaced;
    assert forall k :: 0 <= k < |slashed| ==> slashed[k] != ' ' by {
      forall k | 0 <= k < |slashed| ensures slashed[k] != ' ' {
        assert slashed[k] in spaced || slashed[k] in "/";
      }
    }
    TrimByShape(slashed, x => x == '/');
    var r := TrimMatches(slashed, '/');
    r
  }

  /** A name with nothing to sanitise: no space, no backslash, and neither
      whitespace nor `/` at either end. */
  predicate CleanName(name: string) {
    ' ' !in name && '\\' !in name
    && (name == [] || (!IsWhitespace(name[0]) && !IsWhitespace(name[|name| - 1])
                       && name[0] != '/' && name[|name| - 1] != '/'))
  }

  /** A clean name is kept as it is. */
  lemma SanitizeKeepsClean(name: string)
    requires CleanName(name)
    ensures SanitizeAppName(name) == name
  {
    TrimByKeeps(name, IsWhitespace);
    TrimByKeeps(name, x => x == '/');
  }

  /** The three stages of `sanitize_app_name`, one at a time. */
  lemma SanitizeStages(name: string, spaced: string, r: string)
    requires Trim(name) == name && Replace(name, ' ', "_") == spaced
    requires Replace(spaced, '\\', "/") == r && TrimMatches(r, '/') == r
    ensures SanitizeAppName(name) == r
  {
  }

  /** Two clean words one space apart are joined by `_`. */
  lemma SanitizeSpace(a: string, b: string)
    requires CleanName(a) && CleanName(b) && a != [] && b != []
    ensures SanitizeAppName(a + " " + b) == a + "_" + b
  {
    var name := a + " " + b;
    assert name[0] == a[0] && name[|name| - 1] == b[|b| - 1];
    TrimByKeeps(name, IsWhitespace);
    ReplaceAppend(a + " ", b, ' ', "_");
    ReplaceAppend(a, " ", ' ', "_");
    assert Replace(" ", ' ', "_") == "_";
    var joined := a + "_" + b;
    assert Replace(name, ' ', "_") == joined;
    assert '\\' !in joined;
    assert joined[0] == a[0] && joined[|joined| - 1] == b[|b| - 1];
    TrimByKeeps(joined, x => x == '/');
    SanitizeStages(name, joined, joined);
  }

  /** A backslash becomes `/`: `a\b` is sanitised to `a/b`. */
  lemma SanitizeBackslash(a: string, b: string)
    requires CleanName(a) && CleanName(b) && a != [] && b != []
    ensures SanitizeAppName(a + "\\" + b) == a + "/" + b
  {
    var name := a + "\\" + b;
    assert name[0] == a[0] && name[|name| - 1] == b[|b| - 1];
    TrimByKeeps(name, IsWhitespace);
    assert ' ' !in name;
    ReplaceAppend(a + "\\", b, '\\', "/");
    ReplaceAppend(a, "\\", '\\', "/");
    assert Replace("\\", '\\', "/") == "/";
    var joined := a + "/" + b;
    assert Replace(name, '\\', "/") == joined;
    assert joined[0] == a[0] && joined[|joined| - 1] == b[|b| - 1];
    TrimByKeeps(joined, x => x == '/');
    SanitizeStages(name, name, joined);
  }

  const TrueWords: set<string> := {"1", "true", "yes", "y", "on"}
  const FalseWords: set<string> := {"0", "false", "no", "n", "off"}

  /** `parse_bool`: lower-cased, trimmed, then looked up in the two word lists. */
  function ParseBool(s: string): Option<bool> {
    var t := Trim(ToLower(s));
    if t in TrueWords then Some(true)
    else if t in FalseWords then Some(false)
    else None
  }

  /** A word with no capitals and no padding is its own normal form. */
  lemma NormalWord(w: string)
    requires forall i :: 0 <= i < |w| ==> !('A' <= w[i] <= 'Z')
    requires w == [] || (!IsWhitespace(w[0]) && !IsWhitespace(w[|w| - 1]))
    ensures Trim(ToLower(w)) == w
  {
    assert ToLower(w) == w;
    TrimByKeeps(w, IsWhitespace);
  }

  /** What `bool::to_string` writes, `parse_bool` reads back. */
  lemma ParseBoolText(b: bool)
    ensures ParseBool(BoolText(b)) == Some(b)
  {
    if b {
      NormalWord("true");
      assert "true" in TrueWords;
    } else {
      NormalWord("false");
      assert "false" !in TrueWords && "false" in FalseWords;
    }
  }

  /** The truth table: each listed word reads as its value, and no word is in both
      lists. */
  lemma ParseBoolWords(w: string)
    requires w in TrueWords || w in FalseWords
    ensures ParseBool(w) == Some(w in TrueWords)
    ensures !(w in TrueWords && w in FalseWords)
  {
    NormalWord(w);
  }

  /** The whole table: after lower-casing and trimming, a word of the first list
      reads as true, a word of the second as false, and anything else as nothing. */
  lemma ParseBoolTable(s: string)
    ensures ParseBool(s) == Some(true) <==> Trim(ToLower(s)) in TrueWords
    ensures ParseBool(s) == Some(false) <==> Trim(ToLower(s)) in FalseWords
    ensures ParseBool(s).None? <==> Trim(ToLower(s)) !in TrueWords + FalseWords
  {
    var t := Trim(ToLower(s));
    if t in TrueWords {
      ParseBoolWords(t);
    }
  }

  lemma LowerKeepsWhitespace(c: char)
    ensures IsWhitespace(LowerChar(c)) == IsWhitespace(c)
  {
  }

  lemma {:induction false} LowerTrimStart(s: string)
    ensures ToLower(TrimStartBy(s, IsWhitespace)) == TrimStartBy(ToLower(s), IsWhitespace)
    decreases |s|
  {
    if s != [] {
      LowerKeepsWhitespace(s[0]);
      assert ToLower(s)[1..] == ToLower(s[1..]);
      LowerTrimStart(s[1..]);
    }
  }

  lemma {:induction false} LowerTrimEnd(s: string)
    ensures ToLower(TrimEndBy(s, IsWhitespace)) == TrimEndBy(ToLower(s), IsWhitespace)
    decreases |s|
  {
    if s != [] {
      LowerKeepsWhitespace(s[|s| - 1]);
      assert ToLower(s)[..|s| - 1] == ToLower(s[..|s| - 1]);
      LowerTrimEnd(s[..|s| - 1]);
    }
  }

  /** Lower-casing and trimming commute, since no letter is whitespace. */
  lemma LowerTrim(s: string)
    ensures ToLower(Trim(s)) == Trim(ToLower(s))
  {
    LowerTrimStart(s);
    LowerTrimEnd(TrimStartBy(s, IsWhitespace));
  }

  /** `parse_bool` ignores letter case and surrounding whitespace. */
  lemma ParseBoolNormalises(s: string)
    ensures ParseBool(ToLower(s)) == ParseBool(s)
    ensures ParseBool(Trim(s)) == ParseBool(s)
  {
    assert ToLower(ToLower(s)) == ToLower(s);
    LowerTrim(s);
    TrimByIdempotent(ToLower(s), IsWhitespace);
  }
}
