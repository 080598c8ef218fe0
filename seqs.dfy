/** Generic facts about sequences that several parts of the launcher rely on. */
module Seqs {
  import opened Wrappers

  /** `iter().position(|y| y == x)`: the index of the first `x` in `s`, if any. */
  function FirstIndex<T(==)>(s: seq<T>, x: T): (r: Option<nat>)
    ensures r.None? <==> x !in s
    ensures r.Some? ==> r.value < |s| && s[r.value] == x && x !in s[..r.value]
  {
    if s == [] then None
    else if s[0] == x then Some(0)
    else match FirstIndex(s[1..], x)
      case None => None
      case Some(i) => assert s[1..][..i] == s[1..i + 1]; Some(i + 1)
  }

  /** An index that holds `x` with no `x` before it is the first index. */
  lemma FirstIndexAt<T>(s: seq<T>, x: T, p: nat)
    requires p < |s| && s[p] == x && x !in s[..p]
    ensures FirstIndex(s, x) == Some(p)
  {
  }

  ghost predicate Distinct<T>(s: seq<T>) {
    forall i, j :: 0 <= i < j < |s| ==> s[i] != s[j]
  }

  /** A duplicate-free sequence drawn from a finite set is no longer than the set. */
  lemma {:induction false} DistinctBound<T>(s: seq<T>, keys: set<T>)
    requires Distinct(s)
    requires forall i :: 0 <= i < |s| ==> s[i] in keys
    ensures |s| <= |keys|
    decreases |s|
  {
    if s != [] {
      var last := s[|s| - 1];
      var init := s[..|s| - 1];
      forall i | 0 <= i < |init| ensures init[i] in keys - {last} {
        assert init[i] == s[i] && s[i] != s[|s| - 1];
      }
      DistinctBound(init, keys - {last});
    }
  }

  /** Some duplicate-free listing of a finite set, in an unspecified order. */
  ghost function Enumerate<T(!new)>(xs: set<T>): (r: seq<T>)
    ensures |r| == |xs| && Distinct(r)
    ensures forall x :: x in r <==> x in xs
    decreases |xs|
  {
    if xs == {} then []
    else
      var x :| x in xs;
      var rest := Enumerate(xs - {x});
      assert forall i :: 0 <= i < |rest| ==> ([x] + rest)[i + 1] == rest[i];
      [x] + rest
  }
}
