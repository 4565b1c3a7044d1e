/** Python's `sorted(xs, key=..., reverse=True)`: descending by key, equal keys in input order. */
module Sorting {

  function Insert<T>(key: T -> real, x: T, s: seq<T>): seq<T> {
    if s == [] || key(s[|s| - 1]) >= key(x) then s + [x]
    else Insert(key, x, s[..|s| - 1]) + [s[|s| - 1]]
  }

  function SortDesc<T>(key: T -> real, s: seq<T>): seq<T> {
    if s == [] then [] else Insert(key, s[|s| - 1], SortDesc(key, s[..|s| - 1]))
  }

  ghost predicate Descending<T>(key: T -> real, s: seq<T>) {
    forall i, j :: 0 <= i < j < |s| ==> key(s[i]) >= key(s[j])
  }

  /** The elements with key `v`, in order. */
  ghost function WithKey<T>(key: T -> real, v: real, s: seq<T>): seq<T> {
    if s == [] then [] else
    WithKey(key, v, s[..|s| - 1]) + if key(s[|s| - 1]) == v then [s[|s| - 1]] else []
  }

  lemma {:induction false} InsertPermutes<T>(key: T -> real, x: T, s: seq<T>)
    ensures multiset(Insert(key, x, s)) == multiset(s) + multiset{x}
  {
    if s != [] && key(s[|s| - 1]) < key(x) {
      InsertPermutes(key, x, s[..|s| - 1]);
      assert s == s[..|s| - 1] + [s[|s| - 1]];
    }
  }

  lemma {:induction false} InsertBounded<T>(key: T -> real, x: T, s: seq<T>, bound: real)
    requires key(x) >= bound && forall i :: 0 <= i < |s| ==> key(s[i]) >= bound
    ensures forall i :: 0 <= i < |Insert(key, x, s)| ==> key(Insert(key, x, s)[i]) >= bound
  {
    if s != [] && key(s[|s| - 1]) < key(x) { InsertBounded(key, x, s[..|s| - 1], bound); }
  }

  lemma {:induction false} InsertDescends<T>(key: T -> real, x: T, s: seq<T>)
    requires Descending(key, s)
    ensures Descending(key, Insert(key, x, s))
  {
    if s != [] && key(s[|s| - 1]) < key(x) {
      var init, last := s[..|s| - 1], s[|s| - 1];
      InsertDescends(key, x, init);
      InsertBounded(key, x, init, key(last));
    }
  }

  lemma {:induction false} InsertStable<T>(key: T -> real, x: T, s: seq<T>, v: real)
    requires Descending(key, s)
    ensures WithKey(key, v, Insert(key, x, s)) == WithKey(key, v, s + [x])
  {
    assert (s + [x])[..|s|] == s;
    if s != [] && key(s[|s| - 1]) < key(x) {
      var init, last := s[..|s| - 1], s[|s| - 1];
      InsertStable(key, x, init, v);
      assert (init + [x])[..|init|] == init;
      var r := Insert(key, x, init);
      assert (r + [last])[..|r|] == r;
    }
  }

  /** The result is a descending permutation of the input in which equal keys keep their order. */
  lemma {:induction false} SortDescCorrect<T>(key: T -> real, s: seq<T>)
    ensures Descending(key, SortDesc(key, s))
    ensures multiset(SortDesc(key, s)) == multiset(s)
    ensures forall v :: WithKey(key, v, SortDesc(key, s)) == WithKey(key, v, s)
  {
    if s != [] {
      var init, last := s[..|s| - 1], s[|s| - 1];
      assert s == init + [last];
      SortDescCorrect(key, init);
      var r := SortDesc(key, init);
      InsertDescends(key, last, r);
      InsertPermutes(key, last, r);
      forall v ensures WithKey(key, v, SortDesc(key, s)) == WithKey(key, v, s) {
        InsertStable(key, last, r, v);
        assert (r + [last])[..|r|] == r;
      }
    }
  }

  /** Sorting neither adds nor drops elements. */
  lemma SortDescMembers<T>(key: T -> real, s: seq<T>)
    ensures |SortDesc(key, s)| == |s|
    ensures forall x :: x in SortDesc(key, s) <==> x in s
  {
    SortDescCorrect(key, s);
    var r := SortDesc(key, s);
    assert |multiset(r)| == |r| && |multiset(s)| == |s|;
    forall x ensures x in r <==> x in s {
      assert x in r <==> x in multiset(r);
      assert x in s <==> x in multiset(s);
    }
  }

  /** The inserted element goes right after the keys it does not beat. */
  lemma {:induction false} InsertSplits<T>(key: T -> real, x: T, s: seq<T>) returns (k: nat)
    requires Descending(key, s)
    ensures k <= |s| && Insert(key, x, s) == s[..k] + [x] + s[k..]
    ensures forall i :: 0 <= i < |s| ==> (key(s[i]) >= key(x) <==> i < k)
  {
    if s == [] || key(s[|s| - 1]) >= key(x) {
      k := |s|;
    } else {
      var init, last := s[..|s| - 1], s[|s| - 1];
      k := InsertSplits(key, x, init);
      assert s[..k] == init[..k] && s[k..] == init[k..] + [last];
    }
  }
}
