/**
 The two in-place truncations of a pair of token lists: `truncate_seq_pair`
 (bert/create_pretraining_data.py), which removes from either end at random, and
 `_truncate_seq_pair` (bert/run_classifier.py), which only pops.
 */
module Truncation {
  import opened Draws
  import opened Numbers

  class TokenList {
    var items: seq<string>

    constructor (items: seq<string>)
      ensures this.items == items
    {
      this.items := items;
    }

    method DeleteFirst()
      requires items != []
      modifies this
      ensures items == old(items)[1..]
    {
      items := items[1..];
    }

    method Pop()
      requires items != []
      modifies this
      ensures items == old(items)[..|old(items)| - 1]
    {
      items := items[..|items| - 1];
    }
  }

  /** The lengths that are left: the shorter list is spared until both are down to half of `m`. */
  function LengthA(a: nat, b: nat, m: nat): int {
    if a + b <= m then a else Min(a, Max(m - b, (m + 1) / 2))
  }

  function LengthB(a: nat, b: nat, m: nat): int {
    if a + b <= m then b else Min(b, Max(m - a, m / 2))
  }

  /** One step of either loop: shorten the strictly longer list, or the second one. */
  lemma LengthStep(a: nat, b: nat, m: nat)
    requires a + b > m
    ensures a > b ==> LengthA(a - 1, b, m) == LengthA(a, b, m) && LengthB(a - 1, b, m) == LengthB(a, b, m)
    ensures a <= b ==> b > 0 && LengthA(a, b - 1, m) == LengthA(a, b, m) && LengthB(a, b - 1, m) == LengthB(a, b, m)
  {
  }

  /** Nothing is cut that need not be: the remaining lengths add up to `m` whenever anything was cut. */
  lemma LengthsFillBudget(a: nat, b: nat, m: nat)
    ensures 0 <= LengthA(a, b, m) <= a && 0 <= LengthB(a, b, m) <= b
    ensures LengthA(a, b, m) + LengthB(a, b, m) == Min(a + b, m)
  {
  }

  /**
   Where the cut falls when the two lists do not fit: a list that leaves the other one half of the budget
   is spared; otherwise both are cut to half of it, an odd place going to the first.
   */
  lemma CutFallsOnLonger(a: nat, b: nat, m: nat)
    requires a + b > m
    ensures 2 * b <= m ==> LengthB(a, b, m) == b && LengthA(a, b, m) == m - b
    ensures 2 * a <= m + 1 ==> LengthA(a, b, m) == a && LengthB(a, b, m) == m - a
    ensures 2 * a >= m && 2 * b >= m ==>
              && LengthA(a, b, m) + LengthB(a, b, m) == m
              && 0 <= LengthA(a, b, m) - LengthB(a, b, m) <= 1
  {
  }

  /**
   Two non-empty lists stay non-empty under every truncation to `m` exactly when `m` is at least 2,
   which is what the assertions after truncation rely on.
   */
  lemma StayNonemptyIff(m: nat)
    ensures (forall a: nat, b: nat :: a >= 1 && b >= 1 ==> LengthA(a, b, m) >= 1 && LengthB(a, b, m) >= 1) <==> m >= 2
  {
    if m < 2 { assert LengthA(1, 1, m) < 1 || LengthB(1, 1, m) < 1; }
  }

  ghost predicate SliceAt(sub: seq<string>, whole: seq<string>, i: int) {
    0 <= i && i + |sub| <= |whole| && whole[i..i + |sub|] == sub
  }

  /** A contiguous part. */
  ghost predicate IsSlice(sub: seq<string>, whole: seq<string>) {
    exists i :: SliceAt(sub, whole, i)
  }

  lemma SliceShrinks(sub: seq<string>, whole: seq<string>)
    requires IsSlice(sub, whole) && sub != []
    ensures IsSlice(sub[1..], whole) && IsSlice(sub[..|sub| - 1], whole)
  {
    var i :| SliceAt(sub, whole, i);
    assert SliceAt(sub[1..], whole, i + 1);
    assert SliceAt(sub[..|sub| - 1], whole, i);
  }

  /** `a` and `b` are what truncation to `m` may leave of `a0` and `b0`. */
  ghost predicate Truncates(a0: seq<string>, b0: seq<string>, m: nat, a: seq<string>, b: seq<string>) {
    && |a| == LengthA(|a0|, |b0|, m) && IsSlice(a, a0)
    && |b| == LengthB(|a0|, |b0|, m) && IsSlice(b, b0)
  }

  method TruncateSeqPair(tokensA: TokenList, tokensB: TokenList, maxNumTokens: int) returns (ok: bool)
    requires tokensA != tokensB
    modifies tokensA, tokensB
    ensures ok <==> maxNumTokens >= 0
    ensures ok ==> Truncates(old(tokensA.items), old(tokensB.items), maxNumTokens, tokensA.items, tokensB.items)
    ensures IsSlice(tokensA.items, old(tokensA.items)) && IsSlice(tokensB.items, old(tokensB.items))
  {
    ghost var a0, b0 := tokensA.items, tokensB.items;
    assert SliceAt(a0, a0, 0) && SliceAt(b0, b0, 0);
    while true
      invariant IsSlice(tokensA.items, a0) && IsSlice(tokensB.items, b0)
      invariant maxNumTokens >= 0 ==>
        && LengthA(|tokensA.items|, |tokensB.items|, maxNumTokens) == LengthA(|a0|, |b0|, maxNumTokens)
        && LengthB(|tokensA.items|, |tokensB.items|, maxNumTokens) == LengthB(|a0|, |b0|, maxNumTokens)
      decreases |tokensA.items| + |tokensB.items|
    {
      var totalLength := |tokensA.items| + |tokensB.items|;
      if totalLength <= maxNumTokens {
        return true;
      }
      var trunc := if |tokensA.items| > |tokensB.items| then tokensA else tokensB;
      if maxNumTokens >= 0 { LengthStep(|tokensA.items|, |tokensB.items|, maxNumTokens); }
      if |trunc.items| < 1 {
        return false;
      }
      SliceShrinks(trunc.items, if trunc == tokensA then a0 else b0);
      var front := Coin();
      if front {
        trunc.DeleteFirst();
      } else {
        trunc.Pop();
      }
    }
  }

  /** The classifier's variant keeps prefixes; `ok` is false where popping an empty list would fail. */
  method TruncateSeqPairPrefix(tokensA: TokenList, tokensB: TokenList, maxLength: int) returns (ok: bool)
    requires tokensA != tokensB
    modifies tokensA, tokensB
    ensures ok <==> maxLength >= 0
    ensures ok ==>
      && |tokensA.items| == LengthA(|old(tokensA.items)|, |old(tokensB.items)|, maxLength)
      && |tokensB.items| == LengthB(|old(tokensA.items)|, |old(tokensB.items)|, maxLength)
    ensures tokensA.items <= old(tokensA.items) && tokensB.items <= old(tokensB.items)
  {
    ghost var a0, b0 := tokensA.items, tokensB.items;
    while true
      invariant tokensA.items <= a0 && tokensB.items <= b0
      invariant maxLength >= 0 ==>
        && LengthA(|tokensA.items|, |tokensB.items|, maxLength) == LengthA(|a0|, |b0|, maxLength)
        && LengthB(|tokensA.items|, |tokensB.items|, maxLength) == LengthB(|a0|, |b0|, maxLength)
      decreases |tokensA.items| + |tokensB.items|
    {
      var totalLength := |tokensA.items| + |tokensB.items|;
      if totalLength <= maxLength {
        return true;
      }
      if maxLength >= 0 { LengthStep(|tokensA.items|, |tokensB.items|, maxLength); }
      if |tokensA.items| > |tokensB.items| {
        tokensA.Pop();
      } else if tokensB.items == [] {
        return false;
      } else {
        tokensB.Pop();
      }
    }
  }
}
