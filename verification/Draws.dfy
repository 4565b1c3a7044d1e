/** Python's `random.Random`: every draw is an arbitrary value of its range, so results hold for every seed. */
module Draws {

  method RandInt(lo: int, hi: int) returns (k: int)
    requires lo <= hi
    ensures lo <= k <= hi
  {
    k :| lo <= k <= hi;
  }

  /** `rng.random() < p` for some probability strictly between 0 and 1. */
  method Coin() returns (b: bool) {
    b := *;
  }

  function Swap<T>(s: seq<T>, i: nat, j: nat): seq<T>
    requires i < |s| && j < |s|
  {
    s[i := s[j]][j := s[i]]
  }

  lemma SwapPermutes<T>(s: seq<T>, i: nat, j: nat)
    requires i < |s| && j < |s|
    ensures multiset(Swap(s, i, j)) == multiset(s)
  {
  }

  /** `rng.shuffle`: some permutation. */
  method Shuffle<T>(s: seq<T>) returns (r: seq<T>)
    ensures multiset(r) == multiset(s)
  {
    r := s;
    var i := |s| - 1;
    while i >= 1
      invariant i <= |s| - 1 && |r| == |s| && multiset(r) == multiset(s)
    {
      var j := RandInt(0, i);
      SwapPermutes(r, i, j);
      r := Swap(r, i, j);
      i := i - 1;
    }
  }
}
