/**
 The sliding document windows of `convert_examples_to_features` and the "max context"
 arbitration of `_check_is_max_context`. The score `min(left, right) + 0.01 * length` is kept
 exact by scaling it by 100.
 */
module Windows {
  import opened Numbers

  datatype DocSpan = DocSpan(start: nat, length: nat) {
    function End(): int { start + length - 1 }
    predicate Covers(position: int) { start <= position <= End() }
    predicate Contains(first: int, last: int) { start <= first && last <= End() }
    function Score(position: int): int { 100 * Min(position - start, End() - position) + length }
  }

  /**
   The windows over `n` tokens: each starts one step after its predecessor, every window but the
   last is full and stops short of the end, and the last one ends with the document.
   */
  ghost predicate Tiling(spans: seq<DocSpan>, n: nat, size: int, step: int) {
    && (n == 0 <==> spans == [])
    && (spans != [] ==> spans[0].start == 0 && spans[|spans| - 1].End() == n - 1)
    && (forall k :: 0 <= k < |spans| ==> 1 <= spans[k].length <= size)
    && (forall k :: 0 <= k < |spans| - 1 ==>
          spans[k].length == size && spans[k].End() < n - 1 && spans[k + 1].start == spans[k].start + step)
  }

  /** Windows so far, with the next start strictly inside the document. */
  ghost predicate PartialTiling(spans: seq<DocSpan>, n: nat, size: int, step: int, next: int) {
    && (spans == [] <==> next == 0)
    && (spans != [] ==> spans[0].start == 0 && next == spans[|spans| - 1].start + step < n)
    && (forall k :: 0 <= k < |spans| ==> 1 <= spans[k].length == size && spans[k].End() < n - 1)
    && (forall k :: 0 <= k < |spans| - 1 ==> spans[k + 1].start == spans[k].start + step)
  }

  lemma TilingExtends(spans: seq<DocSpan>, n: nat, size: int, step: int, next: nat, length: nat)
    requires PartialTiling(spans, n, size, step, next) && 1 <= step <= size && next < n && length == Min(size, n - next)
    ensures next + length == n ==> Tiling(spans + [DocSpan(next, length)], n, size, step)
    ensures next + length < n ==>
        PartialTiling(spans + [DocSpan(next, length)], n, size, step, next + Min(length, step))
  {
  }

  method DocSpans(n: nat, maxTokensForDoc: int, docStride: int) returns (spans: seq<DocSpan>)
    requires maxTokensForDoc >= 1 && docStride >= 1
    ensures Tiling(spans, n, maxTokensForDoc, Min(maxTokensForDoc, docStride))
  {
    spans := [];
    var startOffset := 0;
    while startOffset < n
      invariant 0 <= startOffset
      invariant PartialTiling(spans, n, maxTokensForDoc, Min(maxTokensForDoc, docStride), startOffset)
      decreases n - startOffset
    {
      var length := n - startOffset;
      if length > maxTokensForDoc {
        length := maxTokensForDoc;
      }
      TilingExtends(spans, n, maxTokensForDoc, Min(maxTokensForDoc, docStride), startOffset, length);
      spans := spans + [DocSpan(startOffset, length)];
      if startOffset + length == n {
        return;
      }
      startOffset := startOffset + Min(length, docStride);
    }
  }

  // ---------- the shape of a tiling ----------

  /** Window starts and ends move right together. */
  lemma {:induction false} WindowsAdvance(spans: seq<DocSpan>, n: nat, size: int, step: int, j: nat, k: nat)
    requires Tiling(spans, n, size, step) && step >= 1 && j < k < |spans|
    ensures spans[j].start + step <= spans[k].start
    ensures spans[j].End() < n - 1 && spans[j].End() <= spans[k].End() <= n - 1
    ensures k < |spans| - 1 ==> spans[j].End() + step <= spans[k].End()
    ensures spans[k].length <= spans[j].length
  {
    if j + 1 < k { WindowsAdvance(spans, n, size, step, j, k - 1); }
  }

  /**
   The windows are fixed by the document length, the window size and the stride: window `k` starts
   at `k` steps, and a further window exists exactly while the current one stops short.
   */
  lemma {:induction false} TilingClosedForm(spans: seq<DocSpan>, n: nat, size: int, step: int, k: nat)
    requires Tiling(spans, n, size, step) && step >= 1 && size >= 1
    ensures k < |spans| ==> spans[k].start == k * step && spans[k].length == Min(size, n - k * step)
    ensures k < |spans| <==> n > 0 && (k == 0 || (k - 1) * step + size < n)
  {
    if k > 0 {
      TilingClosedForm(spans, n, size, step, k - 1);
      if k < |spans| {
        assert k * step == (k - 1) * step + step;
      } else if k > |spans| && spans != [] {
        var last := |spans| - 1;
        TilingClosedForm(spans, n, size, step, last);
        assert (k - 2) * step <= (k - 1) * step;
      }
    }
  }

  // ---------- coverage ----------

  /** The last window that starts at or before `first` contains every short enough span from there. */
  lemma {:induction false} SpanFits(spans: seq<DocSpan>, n: nat, size: int, step: int, first: nat, last: nat, k: nat)
      returns (w: nat)
    requires Tiling(spans, n, size, step) && 1 <= step <= size
    requires first <= last < n && last - first + 1 <= size - step + 1
    requires k < |spans| && spans[k].start <= first
    ensures w < |spans| && spans[w].Contains(first, last)
    decreases |spans| - k
  {
    if k == |spans| - 1 || first < spans[k + 1].start {
      w := k;
    } else {
      w := SpanFits(spans, n, size, step, first, last, k + 1);
    }
  }

  /** The `m` tokens from `first` on lie wholly inside one of the windows. */
  ghost predicate InSomeWindow(spans: seq<DocSpan>, first: int, m: int) {
    exists w :: 0 <= w < |spans| && spans[w].Contains(first, first + m - 1)
  }

  /**
   Which answers survive the windowing: all answers of `m` pieces lie wholly inside some window
   exactly when the document fits one window or `m` is at most `size - step + 1`.
   */
  lemma AnswersSurvive(spans: seq<DocSpan>, n: nat, size: int, step: int, m: nat)
    requires Tiling(spans, n, size, step) && 1 <= step <= size && 1 <= m <= n
    ensures (forall first: nat :: first + m <= n ==> InSomeWindow(spans, first, m))
            <==> (n <= size || m <= size - step + 1)
  {
    if n <= size || m <= size - step + 1 {
      forall first: nat | first + m <= n ensures InSomeWindow(spans, first, m) {
        if n <= size {
          assert spans[0].Contains(first, first + m - 1);
        } else {
          var w := SpanFits(spans, n, size, step, first, first + m - 1, 0);
        }
      }
    } else {
      // the answer that starts just before the second window, or as late as the document allows
      var first := Min(step - 1, n - m);
      if InSomeWindow(spans, first, m) {
        var w :| 0 <= w < |spans| && spans[w].Contains(first, first + m - 1);
        if w > 0 { WindowsAdvance(spans, n, size, step, 0, w); }
        assert false;
      }
    }
  }

  // ---------- max context ----------

  /** Window `w` covers the position, beats every earlier covering window and is not beaten by a later one. */
  ghost predicate IsBest(spans: seq<DocSpan>, position: int, w: int) {
    && 0 <= w < |spans| && spans[w].Covers(position)
    && (forall v :: 0 <= v < w && spans[v].Covers(position) ==> spans[v].Score(position) < spans[w].Score(position))
    && (forall v :: w < v < |spans| && spans[v].Covers(position) ==>
        spans[v].Score(position) <= spans[w].Score(position))
  }

  method CheckIsMaxContext(spans: seq<DocSpan>, curSpanIndex: nat, position: int) returns (isMax: bool)
    ensures isMax <==> IsBest(spans, position, curSpanIndex)
  {
    var bestScore := 0;
    var bestSpanIndex := -1;
    for i := 0 to |spans|
      invariant -1 <= bestSpanIndex < i
      invariant bestSpanIndex == -1 ==> forall v :: 0 <= v < i ==> !spans[v].Covers(position)
      invariant bestSpanIndex >= 0 ==>
          IsBest(spans[..i], position, bestSpanIndex) && bestScore == spans[bestSpanIndex].Score(position)
    {
      var docSpan := spans[i];
      var end := docSpan.start + docSpan.length - 1;
      if position < docSpan.start {
        continue;
      }
      if position > end {
        continue;
      }
      var numLeftContext := position - docSpan.start;
      var numRightContext := end - position;
      var score := 100 * Min(numLeftContext, numRightContext) + docSpan.length;
      if bestSpanIndex == -1 || score > bestScore {
        bestScore := score;
        bestSpanIndex := i;
      }
    }
    assert spans[..|spans|] == spans;
    isMax := curSpanIndex == bestSpanIndex;
  }

  /**
   Maximum context in terms of positions: against every other covering window the best one has more
   context on its shorter side, where a hundred tokens of length weigh as much as one of context; of
   windows that weigh the same the earliest is best.
   */
  lemma BestIffMostContext(spans: seq<DocSpan>, p: int, w: int)
    ensures IsBest(spans, p, w) <==>
              && 0 <= w < |spans| && spans[w].start <= p < spans[w].start + spans[w].length
              && forall v :: 0 <= v < |spans| && spans[v].start <= p < spans[v].start + spans[v].length ==>
                   var context := Min(p - spans[w].start, spans[w].start + spans[w].length - 1 - p);
                   var other := Min(p - spans[v].start, spans[v].start + spans[v].length - 1 - p);
                   || 100 * (other - context) < spans[w].length - spans[v].length
                   || (100 * (other - context) == spans[w].length - spans[v].length && w <= v)
  {
    forall v | 0 <= v < |spans|
      ensures spans[v].Score(p) ==
                100 * Min(p - spans[v].start, spans[v].start + spans[v].length - 1 - p) + spans[v].length
      ensures spans[v].Covers(p) <==> spans[v].start <= p < spans[v].start + spans[v].length
    {
    }
  }

  /** As long as lengths differ by less than a hundred, no covering window has more context than the best. */
  lemma BestHasMostContext(spans: seq<DocSpan>, p: int, w: int, v: int)
    requires IsBest(spans, p, w) && 0 <= v < |spans| && spans[v].start <= p < spans[v].start + spans[v].length
    ensures var context := Min(p - spans[w].start, spans[w].start + spans[w].length - 1 - p);
            var other := Min(p - spans[v].start, spans[v].start + spans[v].length - 1 - p);
            && 100 * (other - context) <= spans[w].length - spans[v].length
            && (spans[w].length - spans[v].length < 100 ==> other <= context)
            && (other == context && spans[v].length == spans[w].length ==> w <= v)
  {
    BestIffMostContext(spans, p, w);
  }

  /** Two best windows for one position coincide. */
  lemma BestIsUnique(spans: seq<DocSpan>, position: int, w: int, v: int)
    requires IsBest(spans, position, w) && IsBest(spans, position, v)
    ensures w == v
  {
  }

  /** Some window is best for every position that any of the first `k` windows covers. */
  lemma {:induction false} BestAmong(spans: seq<DocSpan>, position: int, k: nat) returns (w: nat)
    requires k <= |spans| && exists v :: 0 <= v < k && spans[v].Covers(position)
    ensures w < k && IsBest(spans[..k], position, w)
  {
    var last := k - 1;
    if exists v :: 0 <= v < last && spans[v].Covers(position) {
      w := BestAmong(spans, position, last);
      if spans[last].Covers(position) && spans[last].Score(position) > spans[w].Score(position) {
        w := last;
      }
    } else {
      w := last;
    }
  }

  /** Every document token is max-context in one window and only one. */
  lemma MaxContextExactlyOnce(spans: seq<DocSpan>, n: nat, size: int, step: int, position: nat)
    requires Tiling(spans, n, size, step) && 1 <= step <= size && position < n
    ensures exists w :: IsBest(spans, position, w) && forall v :: IsBest(spans, position, v) ==> v == w
  {
    var c := SpanFits(spans, n, size, step, position, position, 0);
    assert spans[c].Covers(position);
    var w := BestAmong(spans, position, |spans|);
    assert spans[..|spans|] == spans;
    forall v | IsBest(spans, position, v) ensures v == w { BestIsUnique(spans, position, v, w); }
  }

  /** Moving right never favours the left one of two windows: the score difference only grows. */
  lemma ScoreGapGrows(left: DocSpan, right: DocSpan, p: int, q: int)
    requires left.start <= right.start && left.End() <= right.End() && p <= q
    ensures right.Score(q) - left.Score(q) >= right.Score(p) - left.Score(p)
  {
  }

  /** The max-context window never moves left as the position moves right. */
  lemma MaxContextMonotone(spans: seq<DocSpan>, n: nat, size: int, step: int, p: nat, q: nat, w: nat, v: nat)
    requires Tiling(spans, n, size, step) && 1 <= step <= size
    requires p <= q < n && IsBest(spans, p, w) && IsBest(spans, q, v)
    ensures w <= v
  {
    if v < w {
      WindowsAdvance(spans, n, size, step, v, w);
      ScoreGapGrows(spans[v], spans[w], p, q);
      assert false;
    }
  }

  /**
   No window is idle: the middle token of every window but the last, and the last token of the
   document for the last window, have their maximum context there.
   */
  lemma EveryWindowOwnsAToken(spans: seq<DocSpan>, n: nat, size: int, step: int, w: nat)
    requires Tiling(spans, n, size, step) && 1 <= step <= size && w < |spans|
    ensures IsBest(spans, if w == |spans| - 1 then n - 1 else spans[w].start + size / 2, w)
  {
    var position := if w == |spans| - 1 then n - 1 else spans[w].start + size / 2;
    forall v | 0 <= v < w && spans[v].Covers(position)
      ensures spans[v].Score(position) < spans[w].Score(position)
    {
      WindowsAdvance(spans, n, size, step, v, w);
    }
    forall v | w < v < |spans| && spans[v].Covers(position)
      ensures spans[v].Score(position) <= spans[w].Score(position)
    {
      WindowsAdvance(spans, n, size, step, w, v);
    }
  }

  /**
   The max-context regions are consecutive contiguous blocks in window order: the tokens owned by a
   window are exactly those between its first and its last owned token, and the block of a window
   ends before the block of the next one begins.
   */
  lemma MaxContextBlocks(spans: seq<DocSpan>, n: nat, size: int, step: int, p: nat, q: nat, r: nat, w: nat)
    requires Tiling(spans, n, size, step) && 1 <= step <= size && p <= q <= r < n
    ensures IsBest(spans, p, w) && IsBest(spans, r, w) ==> IsBest(spans, q, w)
    ensures IsBest(spans, p, w + 1) ==> !IsBest(spans, q, w)
  {
    MaxContextExactlyOnce(spans, n, size, step, q);
    var v :| IsBest(spans, q, v);
    if IsBest(spans, p, w) && IsBest(spans, r, w) {
      MaxContextMonotone(spans, n, size, step, p, q, w, v);
      MaxContextMonotone(spans, n, size, step, q, r, v, w);
    }
    if IsBest(spans, p, w + 1) && IsBest(spans, q, w) {
      MaxContextMonotone(spans, n, size, step, p, q, w + 1, w);
    }
  }
}
