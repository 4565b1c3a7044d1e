/**
 `create_masked_lm_predictions`: candidate groups, a budgeted greedy selection over a shuffle of them,
 and the masked output. `forced` is the `must_mask` list of FinBERT's variant
 (data/prep/create_sentiment_data.py); with no forced words it is the original
 (bert/create_pretraining_data.py).
 */
module Masking {
  import opened Text
  import opened Sorting
  import opened Draws
  import WordPiece

  predicate IsSpecial(token: string) {
    token == "[CLS]" || token == "[SEP]"
  }

  // ---------- candidate groups ----------

  function NewGroup(cands: seq<seq<nat>>, i: nat): seq<seq<nat>> {
    cands + [[i]]
  }

  function ExtendGroup(cands: seq<seq<nat>>, i: nat): seq<seq<nat>>
    requires cands != []
  {
    cands[..|cands| - 1] + [cands[|cands| - 1] + [i]]
  }

  /** Extend the last group, if there is one, or open a new one. */
  function LastStep(c: seq<seq<nat>>, i: nat, extend: bool): seq<seq<nat>> {
    if extend && |c| >= 1 then ExtendGroup(c, i) else NewGroup(c, i)
  }

  function AddPosition(
    cands: seq<seq<nat>>, i: nat, token: string, wholeWord: bool, forced: set<string>): seq<seq<nat>>
  {
    if IsSpecial(token) then cands
    else
      var c := if token in forced then NewGroup(cands, i) else cands;
      LastStep(c, i, wholeWord && WordPiece.IsContinuation(token))
  }

  /** The groups of positions that are masked together. */
  function Candidates(tokens: seq<string>, wholeWord: bool, forced: set<string>): seq<seq<nat>> {
    if tokens == [] then []
    else
      var n := |tokens| - 1;
      AddPosition(Candidates(tokens[..n], wholeWord, forced), n, tokens[n], wholeWord, forced)
  }

  lemma CandidatesSnoc(tokens: seq<string>, wholeWord: bool, forced: set<string>, i: nat)
    requires i < |tokens|
    ensures Candidates(tokens[..i + 1], wholeWord, forced) ==
              AddPosition(Candidates(tokens[..i], wholeWord, forced), i, tokens[i], wholeWord, forced)
  {
    assert tokens[..i + 1][..i] == tokens[..i];
  }

  method CollectCandidates(
    tokens: seq<string>, wholeWord: bool, forced: set<string>)
    returns (candIndexes: seq<seq<nat>>)
    ensures candIndexes == Candidates(tokens, wholeWord, forced)
  {
    candIndexes := [];
    for i := 0 to |tokens|
      invariant candIndexes == Candidates(tokens[..i], wholeWord, forced)
    {
      CandidatesSnoc(tokens, wholeWord, forced, i);
      var token := tokens[i];
      if token == "[CLS]" || token == "[SEP]" {
        continue;
      }
      if token in forced {
        candIndexes := NewGroup(candIndexes, i);
      }
      if wholeWord && |candIndexes| >= 1 && WordPiece.IsContinuation(token) {
        candIndexes := ExtendGroup(candIndexes, i);
      } else {
        candIndexes := NewGroup(candIndexes, i);
      }
    }
    assert tokens[..|tokens|] == tokens;
  }

  /** The positions of the tokens that are not special, in order. */
  function Maskable(tokens: seq<string>): seq<nat> {
    if tokens == [] then []
    else
      var n := |tokens| - 1;
      Maskable(tokens[..n]) + if IsSpecial(tokens[n]) then [] else [n]
  }

  /** The maskable positions in order, those of forced words twice. */
  function Listed(tokens: seq<string>, forced: set<string>): seq<nat> {
    if tokens == [] then []
    else
      var n := |tokens| - 1;
      Listed(tokens[..n], forced) +
      if IsSpecial(tokens[n]) then [] else if tokens[n] in forced then [n, n] else [n]
  }

  lemma FlattenNewGroup(cands: seq<seq<nat>>, i: nat)
    ensures Flatten(NewGroup(cands, i)) == Flatten(cands) + [i]
    ensures cands != [] ==> Flatten(ExtendGroup(cands, i)) == Flatten(cands) + [i]
  {
    FlattenSnoc(cands, [i]);
    if cands != [] {
      var k := |cands| - 1;
      assert cands == cands[..k] + [cands[k]];
      FlattenSnoc(cands[..k], cands[k]);
      FlattenSnoc(cands[..k], cands[k] + [i]);
    }
  }

  lemma FlattenLastStep(c: seq<seq<nat>>, i: nat, extend: bool)
    ensures Flatten(LastStep(c, i, extend)) == Flatten(c) + [i]
  {
    FlattenNewGroup(c, i);
  }

  lemma FlattenTwoSteps(c: seq<seq<nat>>, i: nat, extend: bool)
    ensures Flatten(LastStep(NewGroup(c, i), i, extend)) == Flatten(c) + [i, i]
  {
    FlattenNewGroup(c, i);
    FlattenLastStep(NewGroup(c, i), i, extend);
    assert Flatten(c) + [i] + [i] == Flatten(c) + [i, i];
  }

  /** The groups, read one after another, list the maskable positions in order, those of forced words twice. */
  lemma {:induction false} GroupsList(tokens: seq<string>, wholeWord: bool, forced: set<string>)
    ensures Flatten(Candidates(tokens, wholeWord, forced)) == Listed(tokens, forced)
  {
    if tokens != [] {
      var n: nat := |tokens| - 1;
      GroupsList(tokens[..n], wholeWord, forced);
      var c := Candidates(tokens[..n], wholeWord, forced);
      FlattenLastStep(c, n, wholeWord && WordPiece.IsContinuation(tokens[n]));
      FlattenTwoSteps(c, n, wholeWord && WordPiece.IsContinuation(tokens[n]));
    }
  }

  lemma {:induction false} NothingForced(tokens: seq<string>)
    ensures Listed(tokens, {}) == Maskable(tokens)
  {
    if tokens != [] { NothingForced(tokens[..|tokens| - 1]); }
  }

  /** Without forced words the groups, read one after another, are the maskable positions: a partition. */
  lemma GroupsPartition(tokens: seq<string>, wholeWord: bool)
    ensures Flatten(Candidates(tokens, wholeWord, {})) == Maskable(tokens)
  {
    GroupsList(tokens, wholeWord, {});
    NothingForced(tokens);
  }

  /** Without whole-word masking every group is one position. */
  lemma {:induction false} GroupsAreSingle(tokens: seq<string>, forced: set<string>)
    ensures forall k :: 0 <= k < |Candidates(tokens, false, forced)| ==> |Candidates(tokens, false, forced)[k]| == 1
  {
    if tokens != [] { GroupsAreSingle(tokens[..|tokens| - 1], forced); }
  }

  /**
   Group `k` is a word: after its first position come only `##` pieces, and its first is no `##` piece
   unless it is forced or opens the first group.
   */
  ghost predicate IsWordGroup(tokens: seq<string>, forced: set<string>, k: nat, g: seq<nat>) {
    && g != [] && (forall j :: 0 <= j < |g| ==> g[j] < |tokens|)
    && (forall j :: 0 < j < |g| ==> WordPiece.IsContinuation(tokens[g[j]]))
    && (k == 0 || tokens[g[0]] in forced || !WordPiece.IsContinuation(tokens[g[0]]))
  }

  ghost predicate AreWordGroups(tokens: seq<string>, forced: set<string>, cands: seq<seq<nat>>) {
    forall k :: 0 <= k < |cands| ==> IsWordGroup(tokens, forced, k, cands[k])
  }

  lemma WordGroupsSnoc(tokens: seq<string>, forced: set<string>, cands: seq<seq<nat>>, t: string)
    requires AreWordGroups(tokens, forced, cands)
    ensures AreWordGroups(tokens + [t], forced, AddPosition(cands, |tokens|, t, true, forced))
  {
    var r := AddPosition(cands, |tokens|, t, true, forced);
    forall k | 0 <= k < |r| ensures IsWordGroup(tokens + [t], forced, k, r[k]) {
      if k < |cands| { assert IsWordGroup(tokens, forced, k, cands[k]); }
    }
  }

  /** With whole-word masking the groups are words; with nothing forced a `##` piece opens only the first. */
  lemma {:induction false} GroupsAreWords(tokens: seq<string>, forced: set<string>)
    ensures AreWordGroups(tokens, forced, Candidates(tokens, true, forced))
  {
    if tokens != [] {
      var init, t := tokens[..|tokens| - 1], tokens[|tokens| - 1];
      GroupsAreWords(init, forced);
      WordGroupsSnoc(init, forced, Candidates(init, true, forced), t);
      assert init + [t] == tokens;
    }
  }

  predicate Ascending(s: seq<nat>) {
    forall i, j :: 0 <= i < j < |s| ==> s[i] < s[j]
  }

  lemma {:induction false} MaskableAscends(tokens: seq<string>)
    ensures Ascending(Maskable(tokens))
    ensures forall i :: 0 <= i < |Maskable(tokens)| ==>
        Maskable(tokens)[i] < |tokens| && !IsSpecial(tokens[Maskable(tokens)[i]])
  {
    if tokens != [] { MaskableAscends(tokens[..|tokens| - 1]); }
  }

  // ---------- repetitions ----------

  ghost predicate NoRepeats<T>(s: seq<T>) {
    forall i, j :: 0 <= i < j < |s| ==> s[i] != s[j]
  }

  lemma RepeatCounts<T>(s: seq<T>, i: nat, j: nat)
    requires i < j < |s| && s[i] == s[j]
    ensures multiset(s)[s[i]] >= 2
  {
    assert s == s[..i] + [s[i]] + s[i + 1..j] + [s[i]] + s[j + 1..];
  }

  lemma {:induction false} CountsWithoutRepeats<T>(s: seq<T>, x: T)
    requires NoRepeats(s)
    ensures multiset(s)[x] <= 1
  {
    if s != [] {
      var init, last := s[..|s| - 1], s[|s| - 1];
      assert s == init + [last];
      CountsWithoutRepeats(init, x);
      assert last !in multiset(init) by {
        assert forall i :: 0 <= i < |init| ==> init[i] == s[i] != last;
      }
    }
  }

  /** Repetition-freedom seen through the multiset of elements, which shuffling does not change. */
  lemma NoRepeatsIsCount<T(!new)>(s: seq<T>)
    ensures NoRepeats(s) <==> forall x :: multiset(s)[x] <= 1
  {
    if NoRepeats(s) {
      forall x ensures multiset(s)[x] <= 1 { CountsWithoutRepeats(s, x); }
    } else {
      var i, j :| 0 <= i < j < |s| && s[i] == s[j];
      RepeatCounts(s, i, j);
    }
  }

  function Without<T>(s: seq<T>, k: nat): seq<T>
    requires k < |s|
  {
    s[..k] + s[k + 1..]
  }

  lemma WithoutOne<T>(s: seq<T>, k: nat)
    requires k < |s|
    ensures multiset(s) == multiset(Without(s, k)) + multiset{s[k]}
    ensures multiset(Without(s, k)) == multiset(s) - multiset{s[k]}
  {
    assert s == s[..k] + [s[k]] + s[k + 1..];
  }

  lemma MiddleOut(a: seq<nat>, b: seq<nat>, c: seq<nat>)
    ensures multiset(a + b + c) == multiset(a + c) + multiset(b)
  {
  }

  lemma {:induction false} FlattenParts(gs: seq<seq<nat>>, k: nat)
    requires k < |gs|
    ensures Flatten(gs) == Flatten(gs[..k]) + gs[k] + Flatten(gs[k + 1..])
  {
    if k == 0 {
      assert gs[..0] == [] && [] + gs[0] == gs[0];
    } else {
      FlattenParts(gs[1..], k - 1);
      assert gs[1..][..k - 1] == gs[1..k] && gs[1..][k..] == gs[k + 1..];
      assert gs[..k][0] == gs[0] && gs[..k][1..] == gs[1..k];
    }
  }

  lemma FlattenWithout(gs: seq<seq<nat>>, k: nat)
    requires k < |gs|
    ensures multiset(Flatten(gs)) == multiset(Flatten(Without(gs, k))) + multiset(gs[k])
  {
    FlattenParts(gs, k);
    FlattenConcat(gs[..k], gs[k + 1..]);
    MiddleOut(Flatten(gs[..k]), gs[k], Flatten(gs[k + 1..]));
  }

  /** Flattening a shuffled list of groups shuffles the positions. */
  lemma {:induction false} FlattenShuffled(s: seq<seq<nat>>, t: seq<seq<nat>>)
    requires multiset(s) == multiset(t)
    ensures multiset(Flatten(s)) == multiset(Flatten(t))
    decreases |s|
  {
    if s == [] {
      assert |t| == |multiset(t)| == 0;
    } else {
      assert s[0] in multiset(t);
      var k :| 0 <= k < |t| && t[k] == s[0];
      WithoutOne(s, 0);
      WithoutOne(t, k);
      FlattenShuffled(Without(s, 0), Without(t, k));
      FlattenWithout(s, 0);
      FlattenWithout(t, k);
    }
  }

  /** A group's positions are among those of the flattened list. */
  lemma {:induction false} MemberOfFlatten(gs: seq<seq<nat>>, x: nat)
    ensures x in Flatten(gs) <==> exists k :: 0 <= k < |gs| && x in gs[k]
  {
    if gs != [] {
      MemberOfFlatten(gs[1..], x);
      if x in Flatten(gs[1..]) {
        var k :| 0 <= k < |gs[1..]| && x in gs[1..][k];
        assert x in gs[k + 1];
      }
      if exists k :: 0 <= k < |gs| && x in gs[k] {
        var k :| 0 <= k < |gs| && x in gs[k];
        if k > 0 { assert x in gs[1..][k - 1]; }
      }
    }
  }

  // ---------- selection ----------

  predicate Overlaps(g: seq<nat>, covered: seq<nat>) {
    exists i :: 0 <= i < |g| && g[i] in covered
  }

  /** The groups that the selection loop masks, in loop order. */
  function Selected(groups: seq<seq<nat>>, num: int): seq<seq<nat>> {
    if groups == [] then []
    else
      var chosen := Selected(groups[..|groups| - 1], num);
      var g := groups[|groups| - 1];
      var masked := Flatten(chosen);
      if |masked| >= num || |masked| + |g| > num || Overlaps(g, masked) then chosen else chosen + [g]
  }

  /** Once the budget is used up nothing more is selected. */
  lemma {:induction false} FullStays(groups: seq<seq<nat>>, num: int, k: nat)
    requires k <= |groups| && |Flatten(Selected(groups[..k], num))| >= num
    ensures Selected(groups, num) == Selected(groups[..k], num)
  {
    if k == |groups| {
      assert groups[..k] == groups;
    } else {
      var init := groups[..|groups| - 1];
      assert init[..k] == groups[..k];
      FullStays(init, num, k);
    }
  }

  /** The budget is never exceeded, and every selected group is a candidate that fits it. */
  lemma {:induction false} SelectionInBudget(groups: seq<seq<nat>>, num: int)
    ensures Selected(groups, num) == [] || |Flatten(Selected(groups, num))| <= num
    ensures forall k :: 0 <= k < |Selected(groups, num)| ==>
        Selected(groups, num)[k] in groups && |Selected(groups, num)[k]| <= num
  {
    if groups != [] {
      var init, g := groups[..|groups| - 1], groups[|groups| - 1];
      SelectionInBudget(init, num);
      FlattenSnoc(Selected(init, num), g);
      assert forall h :: h in init ==> h in groups;
    }
  }

  /** The final assertion, that the predictions are within the budget, holds exactly for budgets of at least 0. */
  lemma BudgetAssertionIff(groups: seq<seq<nat>>, num: int)
    ensures |Flatten(Selected(groups, num))| <= num <==> num >= 0
  {
    SelectionInBudget(groups, num);
    if Selected(groups, num) == [] { assert Flatten(Selected(groups, num)) == []; }
  }

  /** No unselected candidate could still be added: it does not fit or touches a masked position. */
  lemma {:induction false} SelectionIsMaximal(groups: seq<seq<nat>>, num: int, k: nat)
    requires k < |groups| && groups[k] != []
    ensures || groups[k] in Selected(groups, num)
            || |Flatten(Selected(groups, num))| + |groups[k]| > num
            || Overlaps(groups[k], Flatten(Selected(groups, num)))
  {
    var n := |groups| - 1;
    var init, g := groups[..n], groups[n];
    var before := Selected(init, num);
    FlattenSnoc(before, g);
    if k < n {
      assert init[k] == groups[k];
      SelectionIsMaximal(init, num, k);
      if Overlaps(init[k], Flatten(before)) {
        var i :| 0 <= i < |init[k]| && init[k][i] in Flatten(before);
        assert groups[k][i] in Flatten(Selected(groups, num));
      }
    }
  }

  /** Selection is greedy in the shuffled order: a group that fits on top of the earlier ones is the next selected. */
  lemma {:induction false} SelectionIsGreedy(groups: seq<seq<nat>>, num: int, k: nat)
    requires k < |groups|
    ensures Selected(groups[..k], num) <= Selected(groups, num)
    ensures var before := Selected(groups[..k], num);
            groups[k] != [] && |Flatten(before)| + |groups[k]| <= num && !Overlaps(groups[k], Flatten(before)) ==>
              before + [groups[k]] <= Selected(groups, num)
  {
    var n := |groups| - 1;
    var init := groups[..n];
    if k < n {
      assert init[..k] == groups[..k] && init[k] == groups[k];
      SelectionIsGreedy(init, num, k);
    }
  }

  /** If no candidate that fits repeats a position, no position is selected twice, even if candidates overlap. */
  lemma {:induction false} SelectionHasNoRepeats(groups: seq<seq<nat>>, num: int)
    requires forall k :: 0 <= k < |groups| && |groups[k]| <= num ==> NoRepeats(groups[k])
    ensures NoRepeats(Flatten(Selected(groups, num)))
  {
    if groups != [] {
      var init, g := groups[..|groups| - 1], groups[|groups| - 1];
      assert forall k :: 0 <= k < |init| ==> init[k] == groups[k];
      SelectionHasNoRepeats(init, num);
      var masked := Flatten(Selected(init, num));
      FlattenSnoc(Selected(init, num), g);
      if Selected(groups, num) != Selected(init, num) {
        assert |g| <= num && !Overlaps(g, masked);
        AppendHasNoRepeats(masked, g);
      }
    }
  }

  lemma AppendHasNoRepeats(s: seq<nat>, g: seq<nat>)
    requires NoRepeats(s) && NoRepeats(g) && !Overlaps(g, s)
    ensures NoRepeats(s + g)
  {
    var r := s + g;
    forall i, j | 0 <= i < j < |r| ensures r[i] != r[j] {
      if i < |s| <= j {
        assert r[j] == g[j - |s|] && g[j - |s|] !in s;
      }
    }
  }

  // ---------- the original variant ----------

  /** Shuffled candidate groups of the original variant share no position. */
  lemma ShuffledGroupsDisjoint(tokens: seq<string>, wholeWord: bool, shuffled: seq<seq<nat>>)
    requires multiset(shuffled) == multiset(Candidates(tokens, wholeWord, {}))
    ensures NoRepeats(Flatten(shuffled)) && multiset(Flatten(shuffled)) == multiset(Maskable(tokens))
  {
    GroupsPartition(tokens, wholeWord);
    FlattenShuffled(shuffled, Candidates(tokens, wholeWord, {}));
    MaskableAscends(tokens);
    NoRepeatsIsCount(Maskable(tokens));
    NoRepeatsIsCount(Flatten(shuffled));
  }

  /** Two groups of a repetition-free list that share a position are the same group. */
  lemma {:induction false} SharedPositionSameGroup(gs: seq<seq<nat>>, i: nat, j: nat, x: nat)
    requires NoRepeats(Flatten(gs)) && i < j < |gs| && x in gs[i]
    ensures x !in gs[j]
  {
    var first, rest := gs[0], Flatten(gs[1..]);
    assert Flatten(gs) == first + rest;
    if i > 0 {
      assert NoRepeats(rest) by {
        forall a, b | 0 <= a < b < |rest| ensures rest[a] != rest[b] {
          assert Flatten(gs)[|first| + a] == rest[a] && Flatten(gs)[|first| + b] == rest[b];
        }
      }
      SharedPositionSameGroup(gs[1..], i - 1, j - 1, x);
    } else {
      var a :| 0 <= a < |first| && first[a] == x;
      assert Flatten(gs)[a] == x;
      assert forall b :: 0 <= b < |rest| ==> rest[b] == Flatten(gs)[|first| + b];
      assert x !in rest;
      MemberOfFlatten(gs[1..], x);
      assert gs[1..][j - 1] == gs[j];
    }
  }

  /**
   For every shuffle the original variant masks a union of complete, disjoint candidate groups, stays
   within the budget, and leaves out no group that would still fit.
   */
  lemma MaskingForEveryShuffle(tokens: seq<string>, wholeWord: bool, num: int, shuffled: seq<seq<nat>>)
    requires multiset(shuffled) == multiset(Candidates(tokens, wholeWord, {}))
    ensures NoRepeats(Flatten(Selected(shuffled, num)))
    ensures Selected(shuffled, num) == [] || |Flatten(Selected(shuffled, num))| <= num
    ensures forall g :: g in Selected(shuffled, num) ==> g in Candidates(tokens, wholeWord, {})
    ensures forall g :: g in Candidates(tokens, wholeWord, {}) && g != [] && g !in Selected(shuffled, num) ==>
              |Flatten(Selected(shuffled, num))| + |g| > num
  {
    var cands, chosen := Candidates(tokens, wholeWord, {}), Selected(shuffled, num);
    ShuffledGroupsDisjoint(tokens, wholeWord, shuffled);
    SelectionInBudget(shuffled, num);
    forall k | 0 <= k < |shuffled| ensures NoRepeats(shuffled[k]) { GroupHasNoRepeats(shuffled, k); }
    SelectionHasNoRepeats(shuffled, num);
    forall g | g in chosen ensures g in cands {
      assert g in multiset(shuffled);
      assert g in multiset(cands);
    }
    forall g | g in cands && g != [] && g !in chosen ensures |Flatten(chosen)| + |g| > num {
      assert g in multiset(cands);
      assert g in multiset(shuffled);
      var k :| 0 <= k < |shuffled| && shuffled[k] == g;
      SelectionIsMaximal(shuffled, num, k);
      if Overlaps(g, Flatten(chosen)) { OverlapMeansSelected(shuffled, num, k); }
    }
  }

  lemma {:induction false} GroupHasNoRepeats(gs: seq<seq<nat>>, k: nat)
    requires NoRepeats(Flatten(gs)) && k < |gs|
    ensures NoRepeats(gs[k])
  {
    var first, rest := gs[0], Flatten(gs[1..]);
    assert Flatten(gs) == first + rest;
    if k == 0 {
      assert forall a :: 0 <= a < |first| ==> first[a] == Flatten(gs)[a];
    } else {
      assert forall a :: 0 <= a < |rest| ==> rest[a] == Flatten(gs)[|first| + a];
      GroupHasNoRepeats(gs[1..], k - 1);
    }
  }

  /** Among disjoint groups only a selected one can touch the masked positions. */
  lemma OverlapMeansSelected(gs: seq<seq<nat>>, num: int, k: nat)
    requires NoRepeats(Flatten(gs)) && k < |gs| && Overlaps(gs[k], Flatten(Selected(gs, num)))
    ensures gs[k] in Selected(gs, num)
  {
    var chosen := Selected(gs, num);
    var i :| 0 <= i < |gs[k]| && gs[k][i] in Flatten(chosen);
    var x := gs[k][i];
    MemberOfFlatten(chosen, x);
    var c :| 0 <= c < |chosen| && x in chosen[c];
    SelectionInBudget(gs, num);
    var j :| 0 <= j < |gs| && gs[j] == chosen[c];
    if j < k { SharedPositionSameGroup(gs, j, k, x); }
    if k < j { SharedPositionSameGroup(gs, k, j, x); }
  }

  // ---------- the forced variant ----------

  ghost predicate ForcedPiece(tokens: seq<string>, forced: set<string>, i: int) {
    0 <= i < |tokens| && !IsSpecial(tokens[i]) && tokens[i] in forced && WordPiece.IsContinuation(tokens[i])
  }

  ghost predicate RepeatsAt(cands: seq<seq<nat>>, k: int) {
    0 <= k < |cands| && !NoRepeats(cands[k])
  }

  /** Some candidate group repeats a position. */
  ghost predicate HasRepeatingGroup(cands: seq<seq<nat>>) {
    exists k :: RepeatsAt(cands, k)
  }

  ghost predicate RepeatingFits(cands: seq<seq<nat>>, num: int, k: int) {
    RepeatsAt(cands, k) && |cands[k]| <= num
  }

  /** Positions in groups stay below the next position, so later additions are new. */
  lemma {:induction false} GroupsBelow(tokens: seq<string>, wholeWord: bool, forced: set<string>)
    ensures forall k :: 0 <= k < |Candidates(tokens, wholeWord, forced)| ==>
              forall i :: 0 <= i < |Candidates(tokens, wholeWord, forced)[k]| ==>
                  Candidates(tokens, wholeWord, forced)[k][i] < |tokens|
    ensures forall k :: 0 <= k < |Candidates(tokens, wholeWord, forced)| ==>
        Candidates(tokens, wholeWord, forced)[k] != []
  {
    if tokens != [] { GroupsBelow(tokens[..|tokens| - 1], wholeWord, forced); }
  }

  /**
   A candidate group repeats a position exactly when whole-word masking is on and some forced word is a
   `##` piece.
   */
  lemma {:induction false} RepeatingGroupIff(tokens: seq<string>, wholeWord: bool, forced: set<string>)
    ensures HasRepeatingGroup(Candidates(tokens, wholeWord, forced)) <==>
        wholeWord && exists i :: ForcedPiece(tokens, forced, i)
  {
    if tokens != [] {
      var n := |tokens| - 1;
      var init, t := tokens[..n], tokens[n];
      RepeatingGroupIff(init, wholeWord, forced);
      GroupsBelow(init, wholeWord, forced);
      var c := Candidates(init, wholeWord, forced);
      StepRepeats(c, n, t, wholeWord, forced);
      assert forall i :: 0 <= i < n ==> (ForcedPiece(init, forced, i) <==> ForcedPiece(tokens, forced, i));
      assert ForcedPiece(tokens, forced, n) <==> !IsSpecial(t) && t in forced && WordPiece.IsContinuation(t);
    }
  }

  lemma StepRepeats(c: seq<seq<nat>>, n: nat, t: string, wholeWord: bool, forced: set<string>)
    requires forall k :: 0 <= k < |c| ==> forall i :: 0 <= i < |c[k]| ==> c[k][i] < n
    ensures HasRepeatingGroup(AddPosition(c, n, t, wholeWord, forced)) <==>
              HasRepeatingGroup(c) || (wholeWord && !IsSpecial(t) && t in forced && WordPiece.IsContinuation(t))
  {
    var r := AddPosition(c, n, t, wholeWord, forced);
    var hit := wholeWord && !IsSpecial(t) && t in forced && WordPiece.IsContinuation(t);
    if hit {
      assert r == c + [[n] + [n]];
      assert r[|c|][0] == r[|c|][1];
      assert RepeatsAt(r, |c|);
    } else if HasRepeatingGroup(c) {
      var k :| RepeatsAt(c, k);
      var i, j :| 0 <= i < j < |c[k]| && c[k][i] == c[k][j];
      assert r[k][i] == r[k][j];
      assert RepeatsAt(r, k);
    } else {
      forall k | 0 <= k < |r| ensures NoRepeats(r[k]) {
        if k < |c| { assert !RepeatsAt(c, k); }
      }
    }
  }

  /** Some shuffle makes the selection predict a position twice. */
  ghost predicate CanRepeat(tokens: seq<string>, wholeWord: bool, forced: set<string>, num: int) {
    exists shuffled :: IsShuffle(shuffled, tokens, wholeWord, forced) && !NoRepeats(Flatten(Selected(shuffled, num)))
  }

  ghost predicate IsShuffle(shuffled: seq<seq<nat>>, tokens: seq<string>, wholeWord: bool, forced: set<string>) {
    multiset(shuffled) == multiset(Candidates(tokens, wholeWord, forced))
  }

  /** A position can be predicted twice exactly when a repeating candidate group fits the budget. */
  lemma DoublePredictionByGroups(tokens: seq<string>, wholeWord: bool, forced: set<string>, num: int)
    ensures CanRepeat(tokens, wholeWord, forced, num) <==>
              exists k :: RepeatingFits(Candidates(tokens, wholeWord, forced), num, k)
  {
    var cands := Candidates(tokens, wholeWord, forced);
    if k :| RepeatingFits(cands, num, k) {
      var shuffled := RepeatSurvives(cands, k, num);
      assert IsShuffle(shuffled, tokens, wholeWord, forced);
    } else {
      forall g | g in cands && |g| <= num ensures NoRepeats(g) {
        var k :| 0 <= k < |cands| && cands[k] == g;
        assert !RepeatingFits(cands, num, k);
      }
      forall shuffled | IsShuffle(shuffled, tokens, wholeWord, forced)
        ensures NoRepeats(Flatten(Selected(shuffled, num)))
      {
        ShuffleWithoutRepeats(cands, shuffled, num);
      }
    }
  }

  /** A token that joins the group before it. */
  predicate Joins(token: string, forced: set<string>) {
    !IsSpecial(token) && token !in forced && WordPiece.IsContinuation(token)
  }

  /** How many tokens from `i` on join a group opened before: unforced `##` pieces, special tokens aside. */
  function RunLength(tokens: seq<string>, forced: set<string>, i: nat): nat
    decreases |tokens| - i
  {
    if i >= |tokens| then 0
    else if IsSpecial(tokens[i]) then RunLength(tokens, forced, i + 1)
    else if Joins(tokens[i], forced) then 1 + RunLength(tokens, forced, i + 1)
    else 0
  }

  /** No token from `i` on opens a new group. */
  predicate StillOpen(tokens: seq<string>, forced: set<string>, i: nat) {
    forall k :: i <= k < |tokens| ==> IsSpecial(tokens[k]) || Joins(tokens[k], forced)
  }

  lemma {:induction false} RunLengthSnoc(tokens: seq<string>, forced: set<string>, i: nat, t: string)
    requires i <= |tokens|
    ensures RunLength(tokens + [t], forced, i) ==
              RunLength(tokens, forced, i) + if StillOpen(tokens, forced, i) && Joins(t, forced) then 1 else 0
    ensures StillOpen(tokens + [t], forced, i) <==>
              StillOpen(tokens, forced, i) && (IsSpecial(t) || Joins(t, forced))
    decreases |tokens| - i
  {
    var more := tokens + [t];
    if i < |tokens| {
      assert more[i] == tokens[i];
      RunLengthSnoc(tokens, forced, i + 1, t);
      assert StillOpen(tokens, forced, i) <==>
             (IsSpecial(tokens[i]) || Joins(tokens[i], forced)) && StillOpen(tokens, forced, i + 1);
      assert StillOpen(more, forced, i) <==>
             (IsSpecial(more[i]) || Joins(more[i], forced)) && StillOpen(more, forced, i + 1);
    } else {
      assert more[i] == t;
      assert RunLength(more, forced, i + 1) == 0;
    }
  }

  /**
   Group `k` is the one that the forced piece at `i` opens: it holds position `i` twice and those of the
   following run, and it is the last group while the run lasts.
   */
  ghost predicate OpenedAt(tokens: seq<string>, forced: set<string>, cands: seq<seq<nat>>, k: int, i: nat) {
    && RepeatsAt(cands, k) && ForcedPiece(tokens, forced, i)
    && |cands[k]| == 2 + RunLength(tokens, forced, i + 1)
    && (k == |cands| - 1 <==> StillOpen(tokens, forced, i + 1))
  }

  lemma ForcedPieceSnoc(tokens: seq<string>, forced: set<string>, t: string, i: int)
    ensures i < |tokens| ==> (ForcedPiece(tokens + [t], forced, i) <==> ForcedPiece(tokens, forced, i))
    ensures ForcedPiece(tokens + [t], forced, |tokens|) <==> !IsSpecial(t) && t in forced && WordPiece.IsContinuation(t)
  {
    assert 0 <= i < |tokens| ==> (tokens + [t])[i] == tokens[i];
  }

  ghost predicate Below(cands: seq<seq<nat>>, n: nat) {
    && (forall k :: 0 <= k < |cands| ==> cands[k] != [])
    && (forall k, i :: 0 <= k < |cands| && 0 <= i < |cands[k]| ==> cands[k][i] < n)
  }

  /** Adding a position to the last group or behind it neither makes nor undoes a repetition in an old group. */
  lemma OldGroupKeepsRepeating(c: seq<seq<nat>>, n: nat, t: string, forced: set<string>, k: int)
    requires Below(c, n) && 0 <= k < |c|
    ensures var r := AddPosition(c, n, t, true, forced);
            && k < |r| && (RepeatsAt(r, k) <==> RepeatsAt(c, k))
            && |r[k]| == |c[k]| + (if k == |c| - 1 && Joins(t, forced) then 1 else 0)
            && (k == |r| - 1 <==> k == |c| - 1 && (IsSpecial(t) || Joins(t, forced)))
  {
    var r := AddPosition(c, n, t, true, forced);
    if k == |c| - 1 && Joins(t, forced) {
      assert r[k] == c[k] + [n];
      AppendedRepeats(c[k], n);
    } else {
      assert r[k] == c[k];
    }
  }

  lemma AppendedRepeats(g: seq<nat>, n: nat)
    requires forall i :: 0 <= i < |g| ==> g[i] < n
    ensures NoRepeats(g + [n]) <==> NoRepeats(g)
  {
    if !NoRepeats(g) {
      var i, j :| 0 <= i < j < |g| && g[i] == g[j];
      assert (g + [n])[i] == (g + [n])[j];
    }
  }

  lemma OpenedAtSnoc(tokens: seq<string>, forced: set<string>, c: seq<seq<nat>>, t: string, k: int, i: nat)
    requires Below(c, |tokens|) && OpenedAt(tokens, forced, c, k, i)
    ensures OpenedAt(tokens + [t], forced, AddPosition(c, |tokens|, t, true, forced), k, i)
  {
    OldGroupKeepsRepeating(c, |tokens|, t, forced, k);
    ForcedPieceSnoc(tokens, forced, t, i);
    RunLengthSnoc(tokens, forced, i + 1, t);
  }

  /** A new group repeats exactly when a forced piece opens it. */
  lemma NewGroupOpened(tokens: seq<string>, forced: set<string>, c: seq<seq<nat>>, t: string)
    requires Below(c, |tokens|)
    ensures var r := AddPosition(c, |tokens|, t, true, forced);
            && (forall k :: k >= |c| && RepeatsAt(r, k) ==> OpenedAt(tokens + [t], forced, r, k, |tokens|))
            && (ForcedPiece(tokens + [t], forced, |tokens|) ==> OpenedAt(tokens + [t], forced, r, |c|, |tokens|))
  {
    var n := |tokens|;
    var r := AddPosition(c, n, t, true, forced);
    ForcedPieceSnoc(tokens, forced, t, n);
    if ForcedPiece(tokens + [t], forced, n) {
      assert r == c + [[n] + [n]];
      assert r[|c|][0] == r[|c|][1];
      assert RepeatsAt(r, |c|);
      assert RunLength(tokens + [t], forced, n + 1) == 0 && StillOpen(tokens + [t], forced, n + 1);
    }
  }

  ghost predicate IsOpened(tokens: seq<string>, forced: set<string>, cands: seq<seq<nat>>, k: int) {
    exists i :: OpenedAt(tokens, forced, cands, k, i)
  }

  ghost predicate Opens(tokens: seq<string>, forced: set<string>, cands: seq<seq<nat>>, i: nat) {
    exists k :: OpenedAt(tokens, forced, cands, k, i)
  }

  lemma OldGroupsOpened(tokens: seq<string>, forced: set<string>, c: seq<seq<nat>>, t: string, k: int)
    requires Below(c, |tokens|) && 0 <= k < |c| && (RepeatsAt(c, k) ==> IsOpened(tokens, forced, c, k))
    ensures var r := AddPosition(c, |tokens|, t, true, forced);
            RepeatsAt(r, k) ==> IsOpened(tokens + [t], forced, r, k)
  {
    OldGroupKeepsRepeating(c, |tokens|, t, forced, k);
    if RepeatsAt(c, k) {
      var i: nat :| OpenedAt(tokens, forced, c, k, i);
      OpenedAtSnoc(tokens, forced, c, t, k, i);
    }
  }

  lemma OldPiecesOpen(tokens: seq<string>, forced: set<string>, c: seq<seq<nat>>, t: string, i: nat)
    requires Below(c, |tokens|) && i < |tokens| && (ForcedPiece(tokens, forced, i) ==> Opens(tokens, forced, c, i))
    ensures ForcedPiece(tokens + [t], forced, i) ==>
              Opens(tokens + [t], forced, AddPosition(c, |tokens|, t, true, forced), i)
  {
    ForcedPieceSnoc(tokens, forced, t, i);
    if ForcedPiece(tokens, forced, i) {
      var k :| OpenedAt(tokens, forced, c, k, i);
      OpenedAtSnoc(tokens, forced, c, t, k, i);
    }
  }

  /** With whole-word masking the repeating groups are exactly those that forced pieces open. */
  ghost predicate Correspond(tokens: seq<string>, forced: set<string>, cands: seq<seq<nat>>) {
    && (forall k :: RepeatsAt(cands, k) ==> IsOpened(tokens, forced, cands, k))
    && (forall i: nat :: ForcedPiece(tokens, forced, i) ==> Opens(tokens, forced, cands, i))
  }

  lemma CorrespondSnoc(tokens: seq<string>, forced: set<string>, c: seq<seq<nat>>, t: string)
    requires Below(c, |tokens|) && Correspond(tokens, forced, c)
    ensures Correspond(tokens + [t], forced, AddPosition(c, |tokens|, t, true, forced))
  {
    var r := AddPosition(c, |tokens|, t, true, forced);
    NewGroupOpened(tokens, forced, c, t);
    forall k | RepeatsAt(r, k) ensures IsOpened(tokens + [t], forced, r, k) {
      if k < |c| { OldGroupsOpened(tokens, forced, c, t, k); }
    }
    forall i: nat | ForcedPiece(tokens + [t], forced, i) ensures Opens(tokens + [t], forced, r, i) {
      if i < |tokens| { OldPiecesOpen(tokens, forced, c, t, i); }
    }
  }

  lemma {:induction false} RepeatingGroupsAreOpened(tokens: seq<string>, forced: set<string>)
    ensures Correspond(tokens, forced, Candidates(tokens, true, forced))
  {
    if tokens != [] {
      var init, t := tokens[..|tokens| - 1], tokens[|tokens| - 1];
      RepeatingGroupsAreOpened(init, forced);
      GroupsBelow(init, true, forced);
      CorrespondSnoc(init, forced, Candidates(init, true, forced), t);
      assert init + [t] == tokens;
    }
  }

  /** A forced `##` piece that, doubled, fits the budget together with the pieces that follow it. */
  ghost predicate DoubledFits(tokens: seq<string>, forced: set<string>, num: int, i: int) {
    ForcedPiece(tokens, forced, i) && 2 + RunLength(tokens, forced, i + 1) <= num
  }

  lemma FittingGroupIff(tokens: seq<string>, forced: set<string>, num: int)
    ensures (exists k :: RepeatingFits(Candidates(tokens, true, forced), num, k)) <==>
              exists i :: DoubledFits(tokens, forced, num, i)
  {
    var cands := Candidates(tokens, true, forced);
    RepeatingGroupsAreOpened(tokens, forced);
    if exists k :: RepeatingFits(cands, num, k) {
      var k :| RepeatingFits(cands, num, k);
      assert IsOpened(tokens, forced, cands, k);
      var i: nat :| OpenedAt(tokens, forced, cands, k, i);
      assert DoubledFits(tokens, forced, num, i);
    }
    if exists i :: DoubledFits(tokens, forced, num, i) {
      var i :| DoubledFits(tokens, forced, num, i);
      assert Opens(tokens, forced, cands, i);
      var k :| OpenedAt(tokens, forced, cands, k, i);
      assert RepeatingFits(cands, num, k);
    }
  }

  /**
   Some shuffle predicts a position twice exactly when whole-word masking is on and some forced word is a
   `##` piece that fits the budget, counted twice, together with the run of `##` pieces behind it.
   */
  lemma DoublePredictionIff(tokens: seq<string>, wholeWord: bool, forced: set<string>, num: int)
    ensures CanRepeat(tokens, wholeWord, forced, num) <==> wholeWord && exists i :: DoubledFits(tokens, forced, num, i)
  {
    DoublePredictionByGroups(tokens, wholeWord, forced, num);
    if wholeWord {
      FittingGroupIff(tokens, forced, num);
    } else {
      RepeatingGroupIff(tokens, wholeWord, forced);
    }
  }

  /** For one, a forced `##b` after `a` can be predicted twice exactly when the budget has two places. */
  lemma ForcedPiecePredictedTwice(num: int)
    ensures CanRepeat(["a", "##b"], true, {"##b"}, num) <==> num >= 2
  {
    DoublePredictionIff(["a", "##b"], true, {"##b"}, num);
    assert ForcedPiece(["a", "##b"], {"##b"}, 1) && RunLength(["a", "##b"], {"##b"}, 2) == 0;
    assert DoubledFits(["a", "##b"], {"##b"}, num, 1) <==> num >= 2;
    assert forall i :: DoubledFits(["a", "##b"], {"##b"}, num, i) ==> i == 1;
  }

  lemma RepeatSurvives(cands: seq<seq<nat>>, k: nat, num: int) returns (shuffled: seq<seq<nat>>)
    requires k < |cands| && !NoRepeats(cands[k]) && |cands[k]| <= num
    ensures multiset(shuffled) == multiset(cands) && !NoRepeats(Flatten(Selected(shuffled, num)))
  {
    shuffled := [cands[k]] + Without(cands, k);
    WithoutOne(cands, k);
    FirstIsSelected(shuffled, num);
  }

  lemma ShuffleWithoutRepeats(cands: seq<seq<nat>>, shuffled: seq<seq<nat>>, num: int)
    requires multiset(shuffled) == multiset(cands)
    requires forall g :: g in cands && |g| <= num ==> NoRepeats(g)
    ensures NoRepeats(Flatten(Selected(shuffled, num)))
  {
    forall k | 0 <= k < |shuffled| && |shuffled[k]| <= num ensures NoRepeats(shuffled[k]) {
      assert shuffled[k] in multiset(shuffled);
      assert shuffled[k] in multiset(cands);
      assert shuffled[k] in cands;
    }
    SelectionHasNoRepeats(shuffled, num);
  }

  /** A first group that fits is selected, so its repetition survives. */
  lemma {:induction false} FirstIsSelected(groups: seq<seq<nat>>, num: int)
    requires groups != [] && !NoRepeats(groups[0]) && |groups[0]| <= num
    ensures Selected(groups, num) != [] && Selected(groups, num)[0] == groups[0]
    ensures !NoRepeats(Flatten(Selected(groups, num)))
  {
    var init := groups[..|groups| - 1];
    if |groups| == 1 {
      assert init == [] && Flatten(Selected(init, num)) == [];
      assert |groups[0]| > 0;
    } else {
      assert init[0] == groups[0];
      FirstIsSelected(init, num);
    }
    var chosen := Selected(groups, num);
    var i, j :| 0 <= i < j < |groups[0]| && groups[0][i] == groups[0][j];
    assert Flatten(chosen) == chosen[0] + Flatten(chosen[1..]);
    assert Flatten(chosen)[i] == Flatten(chosen)[j];
  }

  // ---------- masking and labels ----------

  ghost predicate Allowed(masked: string, original: string, vocabWords: seq<string>) {
    masked == "[MASK]" || masked == original || masked in vocabWords
  }

  /** `output` is `tokens` with replacements at the positions `at` only. */
  ghost predicate MaskedAt(tokens: seq<string>, output: seq<string>, at: seq<nat>, vocabWords: seq<string>) {
    && |output| == |tokens|
    && forall i :: 0 <= i < |tokens| ==>
        if i in at then Allowed(output[i], tokens[i], vocabWords) else output[i] == tokens[i]
  }

  method MaskGroup(tokens: seq<string>, output: seq<string>, ghost at: seq<nat>, g: seq<nat>, vocabWords: seq<string>)
    returns (out: seq<string>)
    requires MaskedAt(tokens, output, at, vocabWords) && vocabWords != []
    requires forall i :: 0 <= i < |g| ==> g[i] < |tokens|
    ensures MaskedAt(tokens, out, at + g, vocabWords)
  {
    out := output;
    for k := 0 to |g|
      invariant MaskedAt(tokens, out, at + g[..k], vocabWords)
    {
      var index := g[k];
      var maskedToken := "[MASK]";
      var mask := Coin();
      if !mask {
        var keep := Coin();
        if keep {
          maskedToken := tokens[index];
        } else {
          var r := RandInt(0, |vocabWords| - 1);
          maskedToken := vocabWords[r];
        }
      }
      assert at + g[..k + 1] == at + g[..k] + [index];
      out := out[index := maskedToken];
    }
    assert g[..|g|] == g;
  }

  ghost predicate PositionsBelow(groups: seq<seq<nat>>, n: nat) {
    forall k :: 0 <= k < |groups| ==> forall i :: 0 <= i < |groups[k]| ==> groups[k][i] < n
  }

  method SelectAndMask(tokens: seq<string>, groups: seq<seq<nat>>, numToPredict: int, vocabWords: seq<string>)
    returns (output: seq<string>, masked: seq<nat>)
    requires PositionsBelow(groups, |tokens|) && vocabWords != []
    ensures masked == Flatten(Selected(groups, numToPredict))
    ensures MaskedAt(tokens, output, masked, vocabWords)
  {
    output := tokens;
    masked := [];
    for k := 0 to |groups|
      invariant masked == Flatten(Selected(groups[..k], numToPredict))
      invariant MaskedAt(tokens, output, masked, vocabWords)
    {
      assert groups[..k + 1][..k] == groups[..k] && groups[..k + 1][k] == groups[k];
      if |masked| >= numToPredict {
        FullStays(groups, numToPredict, k);
        return;
      }
      var g := groups[k];
      if |masked| + |g| > numToPredict {
        continue;
      }
      if Overlaps(g, masked) {
        continue;
      }
      FlattenSnoc(Selected(groups[..k], numToPredict), g);
      output := MaskGroup(tokens, output, masked, g, vocabWords);
      masked := masked + g;
    }
    assert groups[..|groups|] == groups;
  }

  function IndexKey(): nat -> real { (i: nat) => -(i as real) }

  /** The masked positions in ascending order. */
  function SortPositions(masked: seq<nat>): seq<nat> {
    SortDesc(IndexKey(), masked)
  }

  lemma SortPositionsCorrect(masked: seq<nat>)
    ensures multiset(SortPositions(masked)) == multiset(masked)
    ensures forall i, j :: 0 <= i < j < |SortPositions(masked)| ==> SortPositions(masked)[i] <= SortPositions(masked)[j]
    ensures forall x :: x in SortPositions(masked) <==> x in masked
    ensures NoRepeats(masked) ==> Ascending(SortPositions(masked))
  {
    SortDescCorrect(IndexKey(), masked);
    SortDescMembers(IndexKey(), masked);
    var r := SortPositions(masked);
    forall i, j | 0 <= i < j < |r| ensures r[i] <= r[j] {
      assert IndexKey()(r[i]) >= IndexKey()(r[j]);
    }
    if NoRepeats(masked) {
      NoRepeatsIsCount(masked);
      NoRepeatsIsCount(r);
    }
  }

  function Labels(tokens: seq<string>, positions: seq<nat>): seq<string>
    requires forall k :: 0 <= k < |positions| ==> positions[k] < |tokens|
  {
    seq(|positions|, k requires 0 <= k < |positions| => tokens[positions[k]])
  }

  /** Writing the labels back. */
  function Restore(output: seq<string>, positions: seq<nat>, labels: seq<string>): seq<string>
    requires |positions| == |labels| && forall k :: 0 <= k < |positions| ==> positions[k] < |output|
    decreases |positions|
  {
    if positions == [] then output
    else Restore(output[positions[0] := labels[0]], positions[1..], labels[1..])
  }

  /** The labels undo the masking. */
  lemma {:induction false} RestoreUndoes(tokens: seq<string>, output: seq<string>, positions: seq<nat>)
    requires |output| == |tokens| && forall k :: 0 <= k < |positions| ==> positions[k] < |tokens|
    requires forall i: nat :: i < |tokens| && i !in positions ==> output[i] == tokens[i]
    ensures Restore(output, positions, Labels(tokens, positions)) == tokens
    decreases |positions|
  {
    if positions != [] {
      var p := positions[0];
      var out' := output[p := tokens[p]];
      assert Labels(tokens, positions)[1..] == Labels(tokens, positions[1..]);
      forall i: nat | i < |tokens| && i !in positions[1..] ensures out'[i] == tokens[i] {
        if i != p { assert positions == [p] + positions[1..]; }
      }
      RestoreUndoes(tokens, out', positions[1..]);
    }
  }

  /** The outcome of the whole function for one shuffle of the candidates. */
  ghost predicate IsMasking(
    tokens: seq<string>, shuffled: seq<seq<nat>>, num: int, vocabWords: seq<string>,
    output: seq<string>, positions: seq<nat>, labels: seq<string>)
  {
    && positions == SortPositions(Flatten(Selected(shuffled, num)))
    && MaskedAt(tokens, output, positions, vocabWords)
    && (forall k :: 0 <= k < |positions| ==> positions[k] < |tokens|)
    && labels == Labels(tokens, positions)
    && Restore(output, positions, labels) == tokens
  }

  /** The budget: the rounded count, but at least one position and at most the maximum. */
  function NumToPredict(maxPredictionsPerSeq: int, rounded: int): (num: int)
    ensures num <= maxPredictionsPerSeq
    ensures num == maxPredictionsPerSeq || (num >= 1 && num == rounded) || (num == 1 && rounded <= 1)
    ensures 1 <= rounded <= maxPredictionsPerSeq ==> num == rounded
    ensures rounded <= 1 <= maxPredictionsPerSeq ==> num == 1
  {
    var atLeastOne := if rounded > 1 then rounded else 1;
    if maxPredictionsPerSeq < atLeastOne then maxPredictionsPerSeq else atLeastOne
  }

  /** The outcome for some shuffle. */
  ghost predicate Masks(
    tokens: seq<string>, wholeWord: bool, forced: set<string>, num: int, vocabWords: seq<string>,
    output: seq<string>, positions: seq<nat>, labels: seq<string>)
  {
    exists shuffled ::
      IsShuffle(shuffled, tokens, wholeWord, forced) &&
          IsMasking(tokens, shuffled, num, vocabWords, output, positions, labels)
  }

  /** `rounded` stands for `int(round(len(tokens) * masked_lm_prob))`. */
  method CreateMaskedLmPredictions(
    tokens: seq<string>, wholeWord: bool, forced: set<string>, maxPredictionsPerSeq: int, rounded: int,
    vocabWords: seq<string>)
    returns (output: seq<string>, positions: seq<nat>, labels: seq<string>)
    requires vocabWords != []
    ensures Masks(tokens, wholeWord, forced, NumToPredict(maxPredictionsPerSeq, rounded), vocabWords, output, positions,
                  labels)
  {
    var candIndexes := CollectCandidates(tokens, wholeWord, forced);
    var groups := Shuffle(candIndexes);
    var numToPredict := NumToPredict(maxPredictionsPerSeq, rounded);
    GroupsBelow(tokens, wholeWord, forced);
    ShuffledBelow(candIndexes, groups, |tokens|);
    var masked;
    output, masked := SelectAndMask(tokens, groups, numToPredict, vocabWords);
    SelectedBelow(groups, numToPredict, |tokens|);
    SortPositionsCorrect(masked);
    positions := SortPositions(masked);
    assert forall k :: 0 <= k < |positions| ==> positions[k] in positions && positions[k] in masked;
    labels := Labels(tokens, positions);
    RestoreUndoes(tokens, output, positions);
    assert IsShuffle(groups, tokens, wholeWord, forced);
    assert IsMasking(tokens, groups, numToPredict, vocabWords, output, positions, labels);
  }

  lemma ShuffledBelow(cands: seq<seq<nat>>, shuffled: seq<seq<nat>>, n: nat)
    requires PositionsBelow(cands, n) && multiset(shuffled) == multiset(cands)
    ensures PositionsBelow(shuffled, n)
  {
    forall k | 0 <= k < |shuffled| ensures forall i :: 0 <= i < |shuffled[k]| ==> shuffled[k][i] < n {
      assert shuffled[k] in multiset(shuffled);
      assert shuffled[k] in multiset(cands);
      var j :| 0 <= j < |cands| && cands[j] == shuffled[k];
    }
  }

  lemma SelectedBelow(groups: seq<seq<nat>>, num: int, n: nat)
    requires PositionsBelow(groups, n)
    ensures forall x: nat :: x in Flatten(Selected(groups, num)) ==> x < n
  {
    SelectionInBudget(groups, num);
    var chosen := Selected(groups, num);
    forall x: nat | x in Flatten(chosen) ensures x < n {
      MemberOfFlatten(chosen, x);
      var k :| 0 <= k < |chosen| && x in chosen[k];
      var j :| 0 <= j < |groups| && groups[j] == chosen[k];
      var i :| 0 <= i < |groups[j]| && groups[j][i] == x;
    }
  }

  /** In the original variant the masked positions come out strictly ascending, within the budget. */
  lemma MaskedPositionsAscend(
    tokens: seq<string>, wholeWord: bool, shuffled: seq<seq<nat>>, num: int, vocabWords: seq<string>,
    output: seq<string>, positions: seq<nat>, labels: seq<string>)
    requires IsShuffle(shuffled, tokens, wholeWord, {})
    requires IsMasking(tokens, shuffled, num, vocabWords, output, positions, labels)
    ensures Ascending(positions) && (positions == [] || |positions| <= num)
    ensures forall k :: 0 <= k < |positions| ==> !IsSpecial(tokens[positions[k]])
  {
    MaskingForEveryShuffle(tokens, wholeWord, num, shuffled);
    var masked := Flatten(Selected(shuffled, num));
    SortPositionsCorrect(masked);
    assert |positions| == |multiset(positions)| == |masked|;
    ShuffledGroupsDisjoint(tokens, wholeWord, shuffled);
    MaskableAscends(tokens);
    SelectionInBudget(shuffled, num);
    forall k | 0 <= k < |positions| ensures !IsSpecial(tokens[positions[k]]) {
      assert positions[k] in masked;
      SelectedAreMaskable(tokens, shuffled, num, positions[k]);
    }
  }

  lemma SelectedAreMaskable(tokens: seq<string>, shuffled: seq<seq<nat>>, num: int, x: nat)
    requires multiset(Flatten(shuffled)) == multiset(Maskable(tokens)) && x in Flatten(Selected(shuffled, num))
    ensures x < |tokens| && !IsSpecial(tokens[x])
  {
    var chosen := Selected(shuffled, num);
    SelectionInBudget(shuffled, num);
    MemberOfFlatten(chosen, x);
    var k :| 0 <= k < |chosen| && x in chosen[k];
    var j :| 0 <= j < |shuffled| && shuffled[j] == chosen[k];
    MemberOfFlatten(shuffled, x);
    assert x in multiset(Flatten(shuffled));
    assert x in multiset(Maskable(tokens));
    MaskableAscends(tokens);
  }
}
