/**
 `get_final_text` (bert/run_squad.py): projecting a tokenized prediction back onto the original
 text through the ranks of the non-space characters.
 */
module Alignment {
  import opened Text
  import opened BasicTokenizer

  /** How many non-space characters stand before position `i`. */
  function Rank(text: string, i: nat): nat
    requires i <= |text|
  {
    |NonSpace(text[..i])|
  }

  /** The position of the non-space character of rank `r`. */
  function IndexOfRank(text: string, r: nat): (i: nat)
    requires r < |NonSpace(text)|
    ensures i < |text| && text[i] != ' ' && Rank(text, i) == r
  {
    var n := |text| - 1;
    if text[n] != ' ' && |NonSpace(text[..n])| == r then n
    else
      var i := IndexOfRank(text[..n], r);
      assert text[..n][..i] == text[..i];
      i
  }

  lemma {:induction false} RankMonotone(text: string, i: nat, j: nat)
    requires i <= j <= |text|
    ensures Rank(text, i) <= Rank(text, j)
    ensures i < j && text[i] != ' ' ==> Rank(text, i) < Rank(text, j)
    decreases j - i
  {
    if i < j {
      var next := text[..i + 1];
      assert next == text[..i] + [text[i]];
      DropConcat(Blank(), text[..i], [text[i]]);
      DropOne(Blank(), text[i]);
      RankMonotone(text, i + 1, j);
    }
  }

  /** A non-space character is the one at its own rank. */
  lemma IndexOfOwnRank(text: string, i: nat)
    requires i < |text| && text[i] != ' '
    ensures Rank(text, i) < |NonSpace(text)| && IndexOfRank(text, Rank(text, i)) == i
  {
    assert text[..|text|] == text;
    RankMonotone(text, i, |text|);
    var j := IndexOfRank(text, Rank(text, i));
    if j < i { RankMonotone(text, j, i); } else if i < j { RankMonotone(text, i, j); }
  }

  /** The conditions under which the alignment heuristic does not give up. */
  predicate Aligns(pred: string, orig: string, tok: string) {
    && Find(tok, pred) != -1
    && |NonSpace(orig)| == |NonSpace(tok)|
    && pred != "" && pred[0] != ' ' && pred[|pred| - 1] != ' '
  }

  lemma AlignedEnds(pred: string, orig: string, tok: string)
    requires Aligns(pred, orig, tok)
    ensures var start := Find(tok, pred);
            var end := start + |pred| - 1;
            && 0 <= start <= end < |tok| && tok[start] != ' ' && tok[end] != ' '
            && Rank(tok, start) <= Rank(tok, end) < |NonSpace(orig)|
  {
    var start := Find(tok, pred);
    var end := start + |pred| - 1;
    FoundEnds(pred, tok);
    RankMonotone(tok, start, end);
    IndexOfOwnRank(tok, end);
  }

  /** The slice of `orig` that carries the ranks `pred` has in `tok`, or all of `orig`. */
  function FinalText(pred: string, orig: string, tok: string): string {
    if !Aligns(pred, orig, tok) then orig
    else
      AlignedEnds(pred, orig, tok);
      var start := Find(tok, pred);
      var first := IndexOfRank(orig, Rank(tok, start));
      var last := IndexOfRank(orig, Rank(tok, start + |pred| - 1));
      assert first <= last + 1 by { SliceIsForward(orig, Rank(tok, start), Rank(tok, start + |pred| - 1)); }
      orig[first..last + 1]
  }

  lemma SliceIsForward(text: string, r: nat, q: nat)
    requires r <= q < |NonSpace(text)|
    ensures IndexOfRank(text, r) <= IndexOfRank(text, q)
  {
    var i, j := IndexOfRank(text, r), IndexOfRank(text, q);
    if j < i { RankMonotone(text, j, i); }
  }

  // ---------- the code ----------

  method StripSpaces(text: string) returns (nsText: string, nsToS: seq<nat>)
    ensures nsText == NonSpace(text) && |nsToS| == |nsText|
    ensures forall r :: 0 <= r < |nsToS| ==> nsToS[r] == IndexOfRank(text, r)
  {
    nsText := "";
    nsToS := [];
    for i := 0 to |text|
      invariant nsText == NonSpace(text[..i]) && |nsToS| == |nsText|
      invariant forall r :: 0 <= r < |nsToS| ==> nsToS[r] == IndexOfRank(text[..i], r)
    {
      assert text[..i + 1][..i] == text[..i] && text[..i + 1][i] == text[i];
      if text[i] == ' ' {
        continue;
      }
      nsToS := nsToS + [i];
      nsText := nsText + [text[i]];
    }
    assert text[..|text|] == text;
  }

  /** `tok_s_to_ns_map`: from positions of non-space characters to their ranks. */
  method InvertMap(text: string, nsToS: seq<nat>) returns (sToNs: map<int, nat>)
    requires |nsToS| == |NonSpace(text)|
    requires forall r :: 0 <= r < |nsToS| ==> nsToS[r] == IndexOfRank(text, r)
    ensures forall i :: i in sToNs <==> 0 <= i < |text| && text[i] != ' '
    ensures forall i :: i in sToNs ==> sToNs[i] == Rank(text, i)
  {
    sToNs := map[];
    for r := 0 to |nsToS|
      invariant forall i :: i in sToNs ==> 0 <= i < |text| && text[i] != ' ' && sToNs[i] == Rank(text, i)
      invariant forall q :: 0 <= q < r ==> nsToS[q] in sToNs
    {
      sToNs := sToNs[nsToS[r] := r];
    }
    forall i: nat | i < |text| && text[i] != ' ' ensures i in sToNs {
      IndexOfOwnRank(text, i);
      assert nsToS[Rank(text, i)] == i;
    }
  }

  method GetFinalText(u: Unicode, predText: string, origText: string, doLowerCase: bool) returns (r: string)
    ensures r == FinalText(predText, origText, Join(BasicTokens(u, doLowerCase, origText)))
    ensures var tok := Join(BasicTokens(u, doLowerCase, origText));
            && IsSubstring(r, origText)
            && (Find(tok, predText) == -1 || |NonSpace(origText)| != |NonSpace(tok)| ==> r == origText)
  {
    var tokens := Tokenize(u, doLowerCase, origText);
    r := Project(predText, origText, Join(tokens));
    FinalTextIsSlice(predText, origText, Join(tokens));
    FallbackIsOriginal(predText, origText, Join(tokens));
  }

  /** Wherever the code gives up it returns the original text. */
  lemma FallbackIsOriginal(pred: string, orig: string, tok: string)
    ensures Find(tok, pred) == -1 || |NonSpace(orig)| != |NonSpace(tok)| ==> FinalText(pred, orig, tok) == orig
    ensures pred == "" || pred[0] == ' ' || pred[|pred| - 1] == ' ' ==> FinalText(pred, orig, tok) == orig
  {
  }

  /** The result is always a slice of the original text. */
  lemma FinalTextIsSlice(pred: string, orig: string, tok: string)
    ensures IsSubstring(FinalText(pred, orig, tok), orig)
  {
    if Aligns(pred, orig, tok) {
      FinalTextCoversRanks(pred, orig, tok);
      var first: nat, last: nat :|
        CoversRanks(pred, orig, tok, first, last) && FinalText(pred, orig, tok) == orig[first..last + 1];
      assert OccursAt(FinalText(pred, orig, tok), orig, first);
    } else {
      assert OccursAt(orig, orig, 0);
    }
  }

  lemma FoundEnds(pred: string, tok: string)
    requires Find(tok, pred) != -1
    ensures var start := Find(tok, pred);
            if pred == "" then start == 0
            else
              && 0 <= start < start + |pred| <= |tok|
              && tok[start] == pred[0] && tok[start + |pred| - 1] == pred[|pred| - 1]
  {
    var start := Find(tok, pred);
    if pred == "" {
      assert OccursAt(pred, tok, 0);
    } else {
      assert tok[start..start + |pred|][0] == tok[start];
      assert tok[start..start + |pred|][|pred| - 1] == tok[start + |pred| - 1];
    }
  }

  /** The heuristic gives up exactly when one of the code's four tests fails. */
  lemma AlignsIffMapped(pred: string, orig: string, tok: string)
    requires Find(tok, pred) != -1
    ensures var start := Find(tok, pred);
            var end := start + |pred| - 1;
            Aligns(pred, orig, tok) <==>
              && |NonSpace(orig)| == |NonSpace(tok)|
              && 0 <= start < |tok| && tok[start] != ' '
              && 0 <= end < |tok| && tok[end] != ' '
  {
    FoundEnds(pred, tok);
  }

  lemma FinalTextIsProjection(pred: string, orig: string, tok: string)
    requires Aligns(pred, orig, tok)
    ensures var start := Find(tok, pred);
            var end := start + |pred| - 1;
            && 0 <= start <= end < |tok|
            && Rank(tok, start) < |NonSpace(orig)| && Rank(tok, end) < |NonSpace(orig)|
            && IndexOfRank(orig, Rank(tok, start)) <= IndexOfRank(orig, Rank(tok, end))
            && FinalText(pred, orig, tok) ==
                orig[IndexOfRank(orig, Rank(tok, start))..IndexOfRank(orig, Rank(tok, end)) + 1]
  {
    AlignedEnds(pred, orig, tok);
    var start := Find(tok, pred);
    SliceIsForward(orig, Rank(tok, start), Rank(tok, start + |pred| - 1));
  }

  datatype Positions = Unmapped | Mapped(first: nat, last: nat)

  /** The two ends of the prediction, mapped into the original text if both can be. */
  method MapEnds(predText: string, origText: string, tokText: string, startPosition: nat) returns (r: Positions)
    requires |NonSpace(origText)| == |NonSpace(tokText)|
    ensures var end := startPosition + |predText| - 1;
            if 0 <= startPosition < |tokText| && tokText[startPosition] != ' ' && 0 <= end < |tokText| &&
                tokText[end] != ' '
            then Rank(tokText, startPosition) < |NonSpace(origText)| && Rank(tokText, end) < |NonSpace(origText)| &&
                 r == Mapped(IndexOfRank(origText, Rank(tokText, startPosition)),
                             IndexOfRank(origText, Rank(tokText, end)))
            else r == Unmapped
  {
    var endPosition := startPosition + |predText| - 1;
    var origNs, origNsToS := StripSpaces(origText);
    var tokNs, tokNsToS := StripSpaces(tokText);
    var tokSToNs := InvertMap(tokText, tokNsToS);
    if startPosition !in tokSToNs || endPosition !in tokSToNs {
      return Unmapped;
    }
    IndexOfOwnRank(tokText, startPosition);
    IndexOfOwnRank(tokText, endPosition);
    r := Mapped(origNsToS[tokSToNs[startPosition]], origNsToS[tokSToNs[endPosition]]);
  }

  method Project(predText: string, origText: string, tokText: string) returns (r: string)
    ensures r == FinalText(predText, origText, tokText)
  {
    var startPosition := Find(tokText, predText);
    if startPosition == -1 {
      return origText;
    }
    AlignsIffMapped(predText, origText, tokText);
    var origNs, _ := StripSpaces(origText);
    var tokNs, _ := StripSpaces(tokText);
    if |origNs| != |tokNs| {
      return origText;
    }
    var ends := MapEnds(predText, origText, tokText, startPosition);
    if ends.Unmapped? {
      return origText;
    }
    FinalTextIsProjection(predText, origText, tokText);
    r := origText[ends.first..ends.last + 1];
  }

  // ---------- what the projection guarantees ----------

  lemma NonSpaceSlice(text: string, i: nat, j: nat)
    requires i <= j <= |text|
    ensures Rank(text, i) <= Rank(text, j) <= |NonSpace(text)|
    ensures NonSpace(text[i..j]) == NonSpace(text)[Rank(text, i)..Rank(text, j)]
  {
    RankMonotone(text, i, j);
    assert text[..|text|] == text;
    RankMonotone(text, j, |text|);
    assert text[..j] == text[..i] + text[i..j];
    assert text == text[..j] + text[j..];
    DropConcat(Blank(), text[..i], text[i..j]);
    DropConcat(Blank(), text[..j], text[j..]);
  }

  /** Just past a non-space character the rank is one higher. */
  lemma RankStep(text: string, i: nat)
    requires i < |text| && text[i] != ' '
    ensures Rank(text, i + 1) == Rank(text, i) + 1
  {
    assert text[..i + 1] == text[..i] + [text[i]];
    DropConcat(Blank(), text[..i], [text[i]]);
    DropOne(Blank(), text[i]);
  }

  /** `orig[first..last + 1]` starts and ends on non-space characters of the ranks `pred` has in `tok`. */
  ghost predicate CoversRanks(pred: string, orig: string, tok: string, first: nat, last: nat) {
    && first <= last < |orig| && orig[first] != ' ' && orig[last] != ' '
    && 0 <= Find(tok, pred)
    && Rank(orig, first) == Rank(tok, Find(tok, pred))
    && Rank(orig, last + 1) == Rank(tok, Find(tok, pred) + |pred|)
  }

  /**
   Whenever the heuristic does not give up, the result is a slice of the original text that starts
   and ends on non-space characters and covers exactly the non-space ranks that the prediction has
   in the tokenized text.
   */
  lemma FinalTextCoversRanks(pred: string, orig: string, tok: string)
    requires Aligns(pred, orig, tok)
    ensures exists first: nat, last: nat ::
              CoversRanks(pred, orig, tok, first, last) && FinalText(pred, orig, tok) == orig[first..last + 1]
  {
    AlignedEnds(pred, orig, tok);
    var start := Find(tok, pred);
    var end := start + |pred| - 1;
    SliceIsForward(orig, Rank(tok, start), Rank(tok, end));
    RankStep(tok, end);
    RankStep(orig, IndexOfRank(orig, Rank(tok, end)));
    assert CoversRanks(pred, orig, tok, IndexOfRank(orig, Rank(tok, start)), IndexOfRank(orig, Rank(tok, end)));
  }

  /** A slice that covers the ranks of the prediction has its characters, if the two texts have the same ones. */
  lemma CoveredCharacters(pred: string, orig: string, tok: string, first: nat, last: nat)
    requires CoversRanks(pred, orig, tok, first, last) && Find(tok, pred) + |pred| <= |tok|
    requires NonSpace(orig) == NonSpace(tok)
    ensures NonSpace(orig[first..last + 1]) == NonSpace(tok[Find(tok, pred)..Find(tok, pred) + |pred|])
  {
    NonSpaceSlice(orig, first, last + 1);
    NonSpaceSlice(tok, Find(tok, pred), Find(tok, pred) + |pred|);
  }

  /** If both texts have the same non-space characters, the result has those of the prediction. */
  lemma FinalTextKeepsCharacters(pred: string, orig: string, tok: string)
    requires Aligns(pred, orig, tok) && NonSpace(orig) == NonSpace(tok)
    ensures NonSpace(FinalText(pred, orig, tok)) == NonSpace(pred)
  {
    FinalTextCoversRanks(pred, orig, tok);
    var first: nat, last: nat :|
      CoversRanks(pred, orig, tok, first, last) && FinalText(pred, orig, tok) == orig[first..last + 1];
    assert OccursAt(pred, tok, Find(tok, pred));
    CoveredCharacters(pred, orig, tok, first, last);
  }

  /** The result is empty exactly when the original text is. */
  lemma FinalTextEmptyOnlyForEmpty(pred: string, orig: string, tok: string)
    ensures FinalText(pred, orig, tok) == "" <==> orig == ""
  {
    if Aligns(pred, orig, tok) { FinalTextCoversRanks(pred, orig, tok); }
  }
}
