/**
  Sequence operations that stand in for the document store's queries.
  A collection is a sequence in natural (insertion) order:
  - `find` with a filter is `Filter`,
  - `find_one` with a filter is `FirstIndex` (the first matching document),
  - `delete_many` keeps the complement of a `Filter`,
  - `find_one` sorted descending on an id field gives `Max` of the ids.
 */
module Seqs {

  datatype Option<T> = None | Some(value: T)

  /** The elements of `s` that satisfy `p`, in the order they have in `s`. */
  function Filter<T>(s: seq<T>, p: T -> bool): (r: seq<T>)
    ensures |r| <= |s|
  {
    if |s| == 0 then []
    else Filter(s[..|s| - 1], p) + (if p(s[|s| - 1]) then [s[|s| - 1]] else [])
  }

  /** An element is kept by `Filter` exactly when it is in the input and satisfies `p`. */
  lemma {:induction false} FilterMembers<T>(s: seq<T>, p: T -> bool)
    ensures forall i :: 0 <= i < |Filter(s, p)| ==> Filter(s, p)[i] in s && p(Filter(s, p)[i])
    ensures forall i :: 0 <= i < |s| && p(s[i]) ==> s[i] in Filter(s, p)
  {
    if |s| != 0 {
      var init, last := s[..|s| - 1], s[|s| - 1];
      FilterMembers(init, p);
      assert s == init + [last];
      var f := Filter(init, p);
      assert Filter(s, p) == f + (if p(last) then [last] else []);
      forall i | 0 <= i < |s| && p(s[i]) ensures s[i] in Filter(s, p) {
        if i < |init| {
          assert s[i] == init[i];
        }
      }
    }
  }

  /** `a` can be obtained from `b` by dropping elements (order is kept). */
  ghost predicate SubseqOf<T>(a: seq<T>, b: seq<T>)
    decreases |b|
  {
    if b == [] then a == []
    else
      SubseqOf(a, b[..|b| - 1])
      || (a != [] && a[|a| - 1] == b[|b| - 1] && SubseqOf(a[..|a| - 1], b[..|b| - 1]))
  }

  /** Index of the first element of `s` that satisfies `p`, if there is one. */
  function FirstIndex<T>(s: seq<T>, p: T -> bool): (r: Option<nat>)
    ensures r.Some? ==> r.value < |s| && p(s[r.value]) && forall j :: 0 <= j < r.value ==> !p(s[j])
    ensures r.None? ==> forall j :: 0 <= j < |s| ==> !p(s[j])
  {
    if s == [] then None
    else if p(s[0]) then Some(0)
    else
      match FirstIndex(s[1..], p)
      case None => assert forall j :: 1 <= j < |s| ==> s[j] == s[1..][j - 1]; None
      case Some(i) => assert forall j :: 1 <= j < |s| ==> s[j] == s[1..][j - 1]; Some(i + 1)
  }

  /** The largest element of a non-empty sequence. */
  function Max(s: seq<int>): (m: int)
    requires s != []
    ensures m in s
    ensures forall i :: 0 <= i < |s| ==> s[i] <= m
  {
    if |s| == 1 then s[0]
    else
      var rest := Max(s[1..]);
      assert forall i :: 1 <= i < |s| ==> s[i] == s[1..][i - 1];
      if s[0] < rest then rest else s[0]
  }

  /** No two positions of `s` carry the same key. */
  ghost predicate UniqueBy<T>(s: seq<T>, key: T -> int)
  {
    forall i, j :: 0 <= i < j < |s| ==> key(s[i]) != key(s[j])
  }

  /** Filtering only drops elements: the result is a subsequence of the input. */
  lemma {:induction false} FilterIsSubseq<T>(s: seq<T>, p: T -> bool)
    ensures SubseqOf(Filter(s, p), s)
  {
    if s != [] {
      var init, last := s[..|s| - 1], s[|s| - 1];
      FilterIsSubseq(init, p);
      var f := Filter(init, p);
      if p(last) {
        assert Filter(s, p) == f + [last];
        assert (f + [last])[..|f|] == f;
      } else {
        assert Filter(s, p) == f;
      }
    }
  }

  /** A filter that every element passes changes nothing. */
  lemma {:induction false} FilterKeepsAll<T>(s: seq<T>, p: T -> bool)
    requires forall i :: 0 <= i < |s| ==> p(s[i])
    ensures Filter(s, p) == s
  {
    if s != [] {
      var init, last := s[..|s| - 1], s[|s| - 1];
      assert s == init + [last];
      FilterKeepsAll(init, p);
    }
  }

  /**
    Removing the one position that fails `p` is the same as filtering by `p`:
    this is how `delete_one` on a unique key relates to "keep every other document".
   */
  lemma {:induction false} RemoveOnlyFailing<T>(s: seq<T>, p: T -> bool, i: nat)
    requires i < |s|
    requires !p(s[i])
    requires forall j :: 0 <= j < |s| && j != i ==> p(s[j])
    ensures s[..i] + s[i + 1..] == Filter(s, p)
  {
    var init, last := s[..|s| - 1], s[|s| - 1];
    assert forall j :: 0 <= j < |init| ==> init[j] == s[j];
    if i == |s| - 1 {
      FilterKeepsAll(init, p);
      assert s[i + 1..] == [];
    } else {
      assert p(last) && !p(init[i]);
      RemoveOnlyFailing(init, p, i);
      assert s == init + [last];
      SpliceThenAppend(init, last, i);
    }
  }

  /** Removing position `i` commutes with appending an element at the end. */
  lemma SpliceThenAppend<T>(init: seq<T>, last: T, i: nat)
    requires i < |init|
    ensures (init + [last])[..i] + (init + [last])[i + 1..] == init[..i] + init[i + 1..] + [last]
  {
    var s := init + [last];
    assert s[..i] == init[..i];
    assert s[i + 1..] == init[i + 1..] + [last];
  }

  /** Filtering keeps keys unique. */
  lemma {:induction false} FilterPreservesUnique<T>(s: seq<T>, p: T -> bool, key: T -> int)
    requires UniqueBy(s, key)
    ensures UniqueBy(Filter(s, p), key)
  {
    if s != [] {
      var init, last := s[..|s| - 1], s[|s| - 1];
      assert UniqueBy(init, key) by {
        forall i, j | 0 <= i < j < |init| ensures key(init[i]) != key(init[j]) {
          assert init[i] == s[i] && init[j] == s[j];
        }
      }
      FilterPreservesUnique(init, p, key);
      FilterMembers(init, p);
      var f := Filter(init, p);
      if p(last) {
        forall i | 0 <= i < |f| ensures key(f[i]) != key(last) {
          assert f[i] in init;
          var j :| 0 <= j < |init| && init[j] == f[i];
          assert s[j] == f[i];
        }
        var r := f + [last];
        assert Filter(s, p) == r;
        forall i, j | 0 <= i < j < |r| ensures key(r[i]) != key(r[j]) {
          if j < |f| {
            assert r[i] == f[i] && r[j] == f[j];
          } else {
            assert r[i] == f[i] && r[j] == last;
          }
        }
      } else {
        assert Filter(s, p) == f;
      }
    }
  }

  /**
    Two complementary filters split a sequence: together they keep every
    element exactly as often as it occurs.
   */
  lemma {:induction false} FilterSplit<T>(s: seq<T>, p: T -> bool, q: T -> bool)
    requires forall x :: q(x) <==> !p(x)
    ensures multiset(Filter(s, p)) + multiset(Filter(s, q)) == multiset(s)
  {
    if s != [] {
      var init, last := s[..|s| - 1], s[|s| - 1];
      assert s == init + [last];
      FilterSplit(init, p, q);
    }
  }

  /** Replacing the element at `i` under unique keys replaces exactly the element with that key. */
  lemma UpdateByKey<T>(s: seq<T>, key: T -> int, i: nat, x: T)
    requires UniqueBy(s, key) && i < |s|
    ensures |s[i := x]| == |s|
    ensures forall j :: 0 <= j < |s| && key(s[j]) == key(s[i]) ==> j == i
    ensures forall j :: 0 <= j < |s| ==> s[i := x][j] == if key(s[j]) == key(s[i]) then x else s[j]
  {
    UniqueKeyAt(s, key, i);
  }

  /** In a sequence with unique keys, the position holding a key is the only one. */
  lemma UniqueKeyAt<T>(s: seq<T>, key: T -> int, i: nat)
    requires UniqueBy(s, key) && i < |s|
    ensures forall j :: 0 <= j < |s| && j != i ==> key(s[j]) != key(s[i])
  {
    forall j | 0 <= j < |s| && j != i ensures key(s[j]) != key(s[i]) {
      if j < i {
        assert key(s[j]) != key(s[i]);
      } else {
        assert key(s[i]) != key(s[j]);
      }
    }
  }

  /** Appending an element whose key is new keeps keys unique. */
  lemma {:induction false} AppendKeepsUnique<T>(s: seq<T>, x: T, key: T -> int)
    requires UniqueBy(s, key)
    requires forall i :: 0 <= i < |s| ==> key(s[i]) != key(x)
    ensures UniqueBy(s + [x], key)
  {
    var r := s + [x];
    forall i, j | 0 <= i < j < |r| ensures key(r[i]) != key(r[j]) {
      assert r[i] == s[i];
      if j < |s| {
        assert r[j] == s[j];
      }
    }
  }

  /** After appending a match to a sequence with none, the match is found at the end. */
  lemma FirstIndexAfterAppend<T>(s: seq<T>, p: T -> bool, x: T)
    requires FirstIndex(s, p).None? && p(x)
    ensures FirstIndex(s + [x], p) == Some(|s|)
  {
    assert (s + [x])[|s|] == x;
    assert forall j :: 0 <= j < |s| ==> (s + [x])[j] == s[j];
  }

  /** Replacing the first match by another match leaves the first match where it was. */
  lemma FirstIndexAfterUpdate<T>(s: seq<T>, p: T -> bool, i: nat, x: T)
    requires FirstIndex(s, p) == Some(i) && p(x)
    ensures FirstIndex(s[i := x], p) == Some(i)
  {
    assert p(s[i := x][i]);
    assert forall j :: 0 <= j < i ==> s[i := x][j] == s[j];
  }
}
