/** The list operations the store is built from: a comprehension with a
    condition, a slice, and the orderings they keep. */
module Seqs {

  function Min(a: int, b: int): int { if a <= b then a else b }

  /** `[x for x in s if keep(x)]`. */
  function Filter<T>(s: seq<T>, keep: T -> bool): (r: seq<T>)
    ensures |r| <= |s|
    ensures forall i :: 0 <= i < |r| ==> r[i] in s && keep(r[i])
    ensures forall i :: 0 <= i < |s| && keep(s[i]) ==> s[i] in r
  {
    if s == [] then []
    else
      assert s == [s[0]] + s[1..];
      if keep(s[0]) then [s[0]] + Filter(s[1..], keep) else Filter(s[1..], keep)
  }

  /** An element survives the comprehension exactly when it was in s and passes. */
  lemma FilterMember<T>(s: seq<T>, keep: T -> bool, x: T)
    ensures x in Filter(s, keep) <==> x in s && keep(x)
  {
    var r := Filter(s, keep);
    if x in r {
      var i :| 0 <= i < |r| && r[i] == x;
    }
    if x in s && keep(x) {
      var j :| 0 <= j < |s| && s[j] == x;
    }
  }

  /** `s[skip : skip + limit]` for a non-negative skip and limit: at most
      `limit` elements, starting at position `skip`, none past the end. */
  function Window<T>(s: seq<T>, skip: nat, limit: nat): (r: seq<T>)
    ensures |r| == if skip >= |s| then 0 else Min(limit, |s| - skip)
    ensures forall k :: 0 <= k < |r| ==> r[k] == s[skip + k]
  {
    if skip >= |s| then [] else s[skip .. skip + Min(limit, |s| - skip)]
  }

  /** The elements of s have strictly increasing keys. */
  ghost predicate IncreasingBy<T>(s: seq<T>, key: T -> int)
  {
    forall i, j :: 0 <= i < j < |s| ==> key(s[i]) < key(s[j])
  }

  /** Dropping elements keeps the remaining ones in their order. */
  lemma {:induction false} FilterIncreasing<T>(s: seq<T>, keep: T -> bool, key: T -> int)
    requires IncreasingBy(s, key)
    ensures IncreasingBy(Filter(s, keep), key)
  {
    if s != [] {
      var rest := Filter(s[1..], keep);
      FilterIncreasing(s[1..], keep, key);
      if keep(s[0]) {
        var r := [s[0]] + rest;
        forall j | 0 < j < |r| ensures key(r[0]) < key(r[j]) {
          assert r[j] in s[1..];
          var k :| 0 <= k < |s[1..]| && s[1..][k] == r[j];
          assert s[k + 1] == r[j];
        }
      }
    }
  }

  /** A sequence with strictly increasing keys has no repeated element. */
  lemma {:induction false} CardOfIncreasing<T>(s: seq<T>, key: T -> int)
    requires IncreasingBy(s, key)
    ensures |set x | x in s| == |s|
  {
    if s != [] {
      var n := |s| - 1;
      var init := s[..n];
      assert IncreasingBy(init, key);
      CardOfIncreasing(init, key);
      assert (set x | x in s) == (set x | x in init) + {s[n]} by {
        assert s == init + [s[n]];
      }
      assert s[n] !in (set x | x in init);
    }
  }
}
