/**
 `write_predictions` and `_get_best_indexes` (bert/run_squad.py): collecting span candidates over the
 windows of an example, ranking them, removing duplicate texts and deciding the answer.
 Logits are real numbers; the softmax over the final scores is left aside.
 */
module NBest {
  import opened Wrappers
  import opened Sorting
  import opened Features

  // ---------- the best indexes ----------

  datatype Scored = Scored(index: nat, logit: real)

  function Enumerated(logits: seq<real>): seq<Scored> {
    seq(|logits|, i requires 0 <= i < |logits| => Scored(i, logits[i]))
  }

  function ScoreKey(): Scored -> real { (p: Scored) => p.logit }

  function RankedIndexes(logits: seq<real>): seq<Scored> {
    SortDesc(ScoreKey(), Enumerated(logits))
  }

  /** The indexes of the `n` highest logits, best first. */
  function Best(logits: seq<real>, n: int): seq<nat> {
    var s := RankedIndexes(logits);
    seq(if n < 0 then 0 else if n < |s| then n else |s|, i requires 0 <= i < |s| => s[i].index)
  }

  method GetBestIndexes(logits: seq<real>, nBestSize: int) returns (bestIndexes: seq<nat>)
    ensures bestIndexes == Best(logits, nBestSize)
  {
    var indexAndScore := RankedIndexes(logits);
    bestIndexes := [];
    for i := 0 to |indexAndScore|
      invariant |bestIndexes| == i && (i == 0 || i <= nBestSize)
      invariant forall k :: 0 <= k < i ==> bestIndexes[k] == indexAndScore[k].index
    {
      if i >= nBestSize {
        break;
      }
      bestIndexes := bestIndexes + [indexAndScore[i].index];
    }
  }

  /** Higher logit first; on a tie the lower index first. */
  ghost predicate Precedes(logits: seq<real>, i: nat, j: nat) {
    i < |logits| && j < |logits| && (logits[i] > logits[j] || (logits[i] == logits[j] && i < j))
  }

  ghost predicate Ranked(logits: seq<real>, s: seq<Scored>) {
    && (forall a :: 0 <= a < |s| ==> s[a].index < |logits| && s[a].logit == logits[s[a].index])
    && (forall a, b :: 0 <= a < b < |s| ==> Precedes(logits, s[a].index, s[b].index))
  }

  lemma {:induction false} InsertPrecedes(logits: seq<real>, k: nat, s: seq<Scored>, j: nat)
    requires k < |logits| && Precedes(logits, k, j)
    requires forall a :: 0 <= a < |s| ==> Precedes(logits, s[a].index, j)
    ensures forall a :: 0 <= a < |Insert(ScoreKey(), Scored(k, logits[k]), s)| ==>
              Precedes(logits, Insert(ScoreKey(), Scored(k, logits[k]), s)[a].index, j)
  {
    if s != [] && s[|s| - 1].logit < logits[k] { InsertPrecedes(logits, k, s[..|s| - 1], j); }
  }

  lemma {:induction false} InsertRanked(logits: seq<real>, k: nat, s: seq<Scored>)
    requires k < |logits| && Ranked(logits, s) && forall a :: 0 <= a < |s| ==> s[a].index < k
    ensures Ranked(logits, Insert(ScoreKey(), Scored(k, logits[k]), s))
    ensures forall a :: 0 <= a < |Insert(ScoreKey(), Scored(k, logits[k]), s)| ==>
        Insert(ScoreKey(), Scored(k, logits[k]), s)[a].index <= k
  {
    if s != [] && s[|s| - 1].logit < logits[k] {
      var init, last := s[..|s| - 1], s[|s| - 1];
      InsertRanked(logits, k, init);
      InsertPrecedes(logits, k, init, last.index);
    }
  }

  lemma {:induction false} SortRanked(logits: seq<real>, k: nat)
    requires k <= |logits|
    ensures Ranked(logits, SortDesc(ScoreKey(), Enumerated(logits)[..k]))
    ensures forall a :: 0 <= a < |SortDesc(ScoreKey(), Enumerated(logits)[..k])| ==>
              SortDesc(ScoreKey(), Enumerated(logits)[..k])[a].index < k
  {
    if k > 0 {
      SortRanked(logits, k - 1);
      var s := Enumerated(logits)[..k];
      assert s[..k - 1] == Enumerated(logits)[..k - 1] && s[k - 1] == Scored(k - 1, logits[k - 1]);
      InsertRanked(logits, k - 1, SortDesc(ScoreKey(), s[..k - 1]));
    }
  }

  lemma BestMember(logits: seq<real>, n: int, b: nat)
    ensures b < |Best(logits, n)| ==> RankedIndexes(logits)[b].index in Best(logits, n)
  {
    if b < |Best(logits, n)| { assert Best(logits, n)[b] == RankedIndexes(logits)[b].index; }
  }

  /**
   `Best` lists as many distinct indexes as asked for and available, in strictly descending rank,
   and no index left out outranks one listed.
   */
  lemma BestIsTop(logits: seq<real>, n: int)
    ensures |Best(logits, n)| == if n < 0 then 0 else if n < |logits| then n else |logits|
    ensures forall a, b :: 0 <= a < b < |Best(logits, n)| ==> Precedes(logits, Best(logits, n)[a], Best(logits, n)[b])
    ensures forall a, i: nat :: 0 <= a < |Best(logits, n)| && i < |logits| && i !in Best(logits, n) ==>
              Precedes(logits, Best(logits, n)[a], i)
    ensures forall a :: 0 <= a < |Best(logits, n)| ==> Best(logits, n)[a] < |logits|
  {
    assert Enumerated(logits)[..|logits|] == Enumerated(logits);
    SortRanked(logits, |logits|);
    SortDescMembers(ScoreKey(), Enumerated(logits));
    var s, best := RankedIndexes(logits), Best(logits, n);
    forall a, i: nat | 0 <= a < |best| && i < |logits| && i !in best ensures Precedes(logits, best[a], i) {
      var x := Scored(i, logits[i]);
      assert Enumerated(logits)[i] == x;
      assert x in Enumerated(logits) && x in s;
      var b :| 0 <= b < |s| && s[b] == x;
      BestMember(logits, n, b);
    }
  }

  // ---------- candidates ----------

  datatype Prelim = Prelim(featureIndex: nat, startIndex: nat, endIndex: nat, startLogit: real, endLogit: real)

  /** A span of document tokens of one window, started where that window has maximum context. */
  ghost predicate ValidSpan(f: Feature, maxAnswerLength: int, s: nat, e: nat) {
    && s < |f.tokens| && e < |f.tokens| && s in f.tokenToOrigMap && e in f.tokenToOrigMap
    && s in f.tokenIsMaxContext && f.tokenIsMaxContext[s]
    && s <= e && e - s + 1 <= maxAnswerLength
  }

  ghost predicate IsCandidateOf(f: Feature, index: nat, r: RawResult, n: int, maxAnswerLength: int, p: Prelim) {
    && p.featureIndex == index
    && p.startIndex in Best(r.startLogits, n) && p.endIndex in Best(r.endLogits, n)
    && p.startIndex < |r.startLogits| && p.endIndex < |r.endLogits|
    && ValidSpan(f, maxAnswerLength, p.startIndex, p.endIndex)
    && p.startLogit == r.startLogits[p.startIndex] && p.endLogit == r.endLogits[p.endIndex]
  }

  ghost predicate HasResults(features: seq<Feature>, results: map<int, RawResult>) {
    forall i :: 0 <= i < |features| ==>
      && features[i].uniqueId in results
      && results[features[i].uniqueId].startLogits != [] && results[features[i].uniqueId].endLogits != []
  }

  ghost predicate IsCandidate(
    features: seq<Feature>, results: map<int, RawResult>, n: int, maxAnswerLength: int, p: Prelim)
    requires HasResults(features, results)
  {
    && p.featureIndex < |features|
    && IsCandidateOf(features[p.featureIndex], p.featureIndex, results[features[p.featureIndex].uniqueId], n,
                     maxAnswerLength, p)
  }

  /** The two inner loops: the candidates of one window. */
  method WindowCandidates(f: Feature, index: nat, r: RawResult, n: int, maxAnswerLength: int) returns (ps: seq<Prelim>)
    ensures forall p :: p in ps <==> IsCandidateOf(f, index, r, n, maxAnswerLength, p)
  {
    var startIndexes := GetBestIndexes(r.startLogits, n);
    var endIndexes := GetBestIndexes(r.endLogits, n);
    BestIsTop(r.startLogits, n);
    ps := [];
    for i := 0 to |startIndexes|
      invariant forall p :: p in ps <==>
          IsCandidateOf(f, index, r, n, maxAnswerLength, p) && p.startIndex in startIndexes[..i]
    {
      var more := CandidatesFrom(f, index, r, n, maxAnswerLength, startIndexes[i], endIndexes);
      ps := ps + more;
      assert startIndexes[..i + 1] == startIndexes[..i] + [startIndexes[i]];
    }
    assert startIndexes[..|startIndexes|] == startIndexes;
  }

  method CandidatesFrom(
    f: Feature, index: nat, r: RawResult, n: int, maxAnswerLength: int, startIndex: nat, endIndexes: seq<nat>)
    returns (ps: seq<Prelim>)
    requires startIndex in Best(r.startLogits, n) && startIndex < |r.startLogits| && endIndexes == Best(r.endLogits, n)
    ensures forall p :: p in ps <==> IsCandidateOf(f, index, r, n, maxAnswerLength, p) && p.startIndex == startIndex
  {
    ps := [];
    BestIsTop(r.endLogits, n);
    for j := 0 to |endIndexes|
      invariant forall p :: p in ps <==>
        IsCandidateOf(f, index, r, n, maxAnswerLength, p) && p.startIndex == startIndex && p.endIndex in endIndexes[..j]
    {
      var endIndex := endIndexes[j];
      assert endIndexes[..j + 1] == endIndexes[..j] + [endIndex];
      if startIndex >= |f.tokens| {
        continue;
      }
      if endIndex >= |f.tokens| {
        continue;
      }
      if startIndex !in f.tokenToOrigMap {
        continue;
      }
      if endIndex !in f.tokenToOrigMap {
        continue;
      }
      if !(startIndex in f.tokenIsMaxContext && f.tokenIsMaxContext[startIndex]) {
        continue;
      }
      if endIndex < startIndex {
        continue;
      }
      var length := endIndex - startIndex + 1;
      if length > maxAnswerLength {
        continue;
      }
      ps := ps + [Prelim(index, startIndex, endIndex, r.startLogits[startIndex], r.endLogits[endIndex])];
    }
    assert endIndexes[..|endIndexes|] == endIndexes;
  }

  // ---------- the null score ----------

  const LARGE := 1000000.0

  function NullOf(features: seq<Feature>, results: map<int, RawResult>, i: nat): real
    requires HasResults(features, results) && i < |features|
  {
    var r := results[features[i].uniqueId];
    r.startLogits[0] + r.endLogits[0]
  }

  datatype NullScore = NullScore(score: real, featureIndex: nat, startLogit: real, endLogit: real)

  /** The first window with the lowest null score, unless every window scores at least a million. */
  ghost predicate IsNullScore(features: seq<Feature>, results: map<int, RawResult>, upTo: nat, s: NullScore)
    requires HasResults(features, results) && upTo <= |features|
  {
    if forall i :: 0 <= i < upTo ==> NullOf(features, results, i) >= LARGE then s == NullScore(LARGE, 0, 0.0, 0.0)
    else
      && s.featureIndex < upTo && s.score == NullOf(features, results, s.featureIndex) < LARGE
      && s.startLogit == results[features[s.featureIndex].uniqueId].startLogits[0]
      && s.endLogit == results[features[s.featureIndex].uniqueId].endLogits[0]
      && (forall i :: 0 <= i < upTo ==> s.score <= NullOf(features, results, i))
      && (forall i :: 0 <= i < s.featureIndex ==> s.score < NullOf(features, results, i))
  }

  /**
   On the logits alone: the null score is the lowest sum of a window's two logits at position 0, with the
   logits of that window, or a million if no window scores less.
   */
  lemma NullScoreIsLowest(features: seq<Feature>, results: map<int, RawResult>, s: NullScore, i: nat)
    requires HasResults(features, results) && IsNullScore(features, results, |features|, s) && i < |features|
    ensures var r := results[features[i].uniqueId];
            s.score <= r.startLogits[0] + r.endLogits[0] || s == NullScore(1000000.0, 0, 0.0, 0.0)
    ensures s.score == 1000000.0 || (s.score < 1000000.0 && s.score == s.startLogit + s.endLogit)
    ensures s.score == 1000000.0 ==>
              results[features[i].uniqueId].startLogits[0] + results[features[i].uniqueId].endLogits[0] >= 1000000.0
  {
    assert NullOf(features, results, i) ==
           results[features[i].uniqueId].startLogits[0] + results[features[i].uniqueId].endLogits[0];
  }

  method Collect(features: seq<Feature>, results: map<int, RawResult>, n: int, maxAnswerLength: int, version2: bool)
    returns (prelims: seq<Prelim>, nul: NullScore)
    requires HasResults(features, results)
    ensures forall p :: p in prelims <==> IsCandidate(features, results, n, maxAnswerLength, p)
    ensures version2 ==> IsNullScore(features, results, |features|, nul)
  {
    prelims := [];
    nul := NullScore(LARGE, 0, 0.0, 0.0);
    for i := 0 to |features|
      invariant forall p :: p in prelims <==>
          IsCandidate(features, results, n, maxAnswerLength, p) && p.featureIndex < i
      invariant version2 ==> IsNullScore(features, results, i, nul)
    {
      var result := results[features[i].uniqueId];
      if version2 {
        var featureNullScore := result.startLogits[0] + result.endLogits[0];
        assert featureNullScore == NullOf(features, results, i);
        if featureNullScore < nul.score {
          nul := NullScore(featureNullScore, i, result.startLogits[0], result.endLogits[0]);
        }
      }
      var more := WindowCandidates(features[i], i, result, n, maxAnswerLength);
      prelims := prelims + more;
    }
  }

  // ---------- the n-best list ----------

  datatype Entry = Entry(text: string, startLogit: real, endLogit: real)

  function PrelimKey(): Prelim -> real { (p: Prelim) => p.startLogit + p.endLogit }

  /** The text of a prediction; start index 0 marks the null prediction. */
  function TextOf(finalText: Prelim -> string, p: Prelim): string {
    if p.startIndex > 0 then finalText(p) else ""
  }

  function EntryOf(finalText: Prelim -> string, p: Prelim): Entry {
    Entry(TextOf(finalText, p), p.startLogit, p.endLogit)
  }

  /** The entry has the prediction's final text, empty for the null prediction, and its two logits. */
  ghost predicate IsEntry(finalText: Prelim -> string, p: Prelim, e: Entry) {
    && e.startLogit == p.startLogit && e.endLogit == p.endLogit
    && (p.startIndex > 0 ==> e.text == finalText(p)) && (p.startIndex == 0 ==> e.text == "")
  }

  /** Final texts of real predictions are never empty, and there is at most one null prediction. */
  ghost predicate Rankable(finalText: Prelim -> string, ps: seq<Prelim>) {
    && (forall i :: 0 <= i < |ps| && ps[i].startIndex > 0 ==> finalText(ps[i]) != "")
    && (forall i, j :: 0 <= i < j < |ps| ==> ps[i].startIndex > 0 || ps[j].startIndex > 0)
  }

  ghost predicate DistinctTexts(nbest: seq<Entry>) {
    forall a, b :: 0 <= a < b < |nbest| ==> nbest[a].text != nbest[b].text
  }

  /** Entry `a` stands for prediction `j`: it has its text and was made from it or an earlier one. */
  ghost predicate Represents(
    finalText: Prelim -> string, ps: seq<Prelim>, nbest: seq<Entry>, src: seq<nat>, a: nat, j: nat)
  {
    a < |nbest| && a < |src| && j < |ps| && src[a] <= j && nbest[a].text == TextOf(finalText, ps[j])
  }

  ghost predicate IsRepresented(
    finalText: Prelim -> string, ps: seq<Prelim>, nbest: seq<Entry>, src: seq<nat>, j: nat)
  {
    exists a :: Represents(finalText, ps, nbest, src, a, j)
  }

  /** The list was full before prediction `j` came up. */
  ghost predicate FullBefore(n: int, src: seq<nat>, j: nat) {
    |src| >= n && forall a :: 0 <= a < |src| ==> src[a] < j
  }

  /**
   `nbest` lists, in order, the first prediction of every text, until it is full: entry `a` comes from
   prediction `src[a]`, and each of the first `upTo` predictions is represented or met a full list.
   */
  ghost predicate Deduplicates(
    finalText: Prelim -> string, ps: seq<Prelim>, n: int, upTo: nat, nbest: seq<Entry>, src: seq<nat>)
  {
    && upTo <= |ps| && |src| == |nbest| && (nbest == [] || |nbest| <= n)
    && (forall a :: 0 <= a < |src| ==>
        src[a] < upTo && nbest[a] == EntryOf(finalText, ps[src[a]]) && IsEntry(finalText, ps[src[a]], nbest[a]))
    && (forall a, b :: 0 <= a < b < |src| ==> src[a] < src[b])
    && DistinctTexts(nbest)
    && (forall j :: 0 <= j < upTo ==> IsRepresented(finalText, ps, nbest, src, j) || FullBefore(n, src, j))
  }

  /** `nbest` keeps the first prediction of every text, until it is full. */
  ghost predicate KeepsFirsts(finalText: Prelim -> string, ps: seq<Prelim>, n: int, nbest: seq<Entry>) {
    exists src :: Deduplicates(finalText, ps, n, |ps|, nbest, src)
  }

  method SelectNBest(ps: seq<Prelim>, n: int, finalText: Prelim -> string) returns (nbest: seq<Entry>)
    requires Rankable(finalText, ps)
    ensures KeepsFirsts(finalText, ps, n, nbest)
  {
    var seen: set<string> := {};
    nbest := [];
    ghost var src: seq<nat> := [];
    for i := 0 to |ps|
      invariant Deduplicates(finalText, ps, n, i, nbest, src)
      invariant seen == Texts(nbest)
    {
      if |nbest| >= n {
        FullKeeps(finalText, ps, n, i, nbest, src);
        return;
      }
      var pred := ps[i];
      var text := "";
      if pred.startIndex > 0 {
        text := finalText(pred);
        if text in seen {
          SkipKeeps(finalText, ps, n, i, nbest, src);
          continue;
        }
      }
      NewText(finalText, ps, n, i, nbest, src);
      ExtendKeeps(finalText, ps, n, i, nbest, src);
      TextsSnoc(nbest, Entry(text, pred.startLogit, pred.endLogit));
      seen := seen + {text};
      nbest := nbest + [Entry(text, pred.startLogit, pred.endLogit)];
      src := src + [i];
    }
  }

  function Texts(nbest: seq<Entry>): set<string> {
    set a | 0 <= a < |nbest| :: nbest[a].text
  }

  lemma TextsSnoc(nbest: seq<Entry>, x: Entry)
    ensures Texts(nbest + [x]) == Texts(nbest) + {x.text}
  {
    var more := nbest + [x];
    assert more[|nbest|] == x;
    assert forall a :: 0 <= a < |nbest| ==> more[a] == nbest[a];
  }

  lemma FullKeeps(finalText: Prelim -> string, ps: seq<Prelim>, n: int, i: nat, nbest: seq<Entry>, src: seq<nat>)
    requires Deduplicates(finalText, ps, n, i, nbest, src) && |nbest| >= n
    ensures Deduplicates(finalText, ps, n, |ps|, nbest, src)
  {
  }

  lemma SkipKeeps(finalText: Prelim -> string, ps: seq<Prelim>, n: int, i: nat, nbest: seq<Entry>, src: seq<nat>)
    requires Deduplicates(finalText, ps, n, i, nbest, src) && i < |ps| && TextOf(finalText, ps[i]) in Texts(nbest)
    ensures Deduplicates(finalText, ps, n, i + 1, nbest, src)
  {
    var a :| 0 <= a < |nbest| && nbest[a].text == TextOf(finalText, ps[i]);
    assert Represents(finalText, ps, nbest, src, a, i);
    assert IsRepresented(finalText, ps, nbest, src, i);
  }

  /** The null text is new when the null prediction is met. */
  lemma NewText(finalText: Prelim -> string, ps: seq<Prelim>, n: int, i: nat, nbest: seq<Entry>, src: seq<nat>)
    requires Rankable(finalText, ps) && Deduplicates(finalText, ps, n, i, nbest, src) && i < |ps|
    requires ps[i].startIndex > 0 ==> TextOf(finalText, ps[i]) !in Texts(nbest)
    ensures forall a :: 0 <= a < |nbest| ==> nbest[a].text != TextOf(finalText, ps[i])
  {
    forall a | 0 <= a < |nbest| ensures nbest[a].text != TextOf(finalText, ps[i]) {
      assert src[a] < i;
    }
  }

  lemma ExtendKeeps(finalText: Prelim -> string, ps: seq<Prelim>, n: int, i: nat, nbest: seq<Entry>, src: seq<nat>)
    requires Deduplicates(finalText, ps, n, i, nbest, src) && i < |ps| && |nbest| < n
    requires forall a :: 0 <= a < |nbest| ==> nbest[a].text != TextOf(finalText, ps[i])
    ensures Deduplicates(finalText, ps, n, i + 1, nbest + [EntryOf(finalText, ps[i])], src + [i])
  {
    var nbest', src' := nbest + [EntryOf(finalText, ps[i])], src + [i];
    forall j | 0 <= j < i + 1 ensures IsRepresented(finalText, ps, nbest', src', j) {
      if j < i {
        assert IsRepresented(finalText, ps, nbest, src, j);
        var a :| Represents(finalText, ps, nbest, src, a, j);
        assert Represents(finalText, ps, nbest', src', a, j);
      } else {
        assert Represents(finalText, ps, nbest', src', |nbest|, j);
      }
    }
  }

  /**
   The list is in descending score, every entry has the best score among the predictions of its text,
   and a prediction whose text is missing scores no better than any entry of a full list.
   */
  lemma ListedAreBest(
    finalText: Prelim -> string, ps: seq<Prelim>, n: int, nbest: seq<Entry>, src: seq<nat>, a: nat, j: nat)
    requires Deduplicates(finalText, ps, n, |ps|, nbest, src) && Descending(PrelimKey(), ps)
    requires a < |nbest| && j < |ps|
    ensures forall b :: a <= b < |nbest| ==>
        nbest[a].startLogit + nbest[a].endLogit >= nbest[b].startLogit + nbest[b].endLogit
    ensures nbest[a].text == TextOf(finalText, ps[j]) ==>
        nbest[a].startLogit + nbest[a].endLogit >= ps[j].startLogit + ps[j].endLogit
    ensures TextOf(finalText, ps[j]) !in Texts(nbest) ==>
        |nbest| == n && nbest[a].startLogit + nbest[a].endLogit >= ps[j].startLogit + ps[j].endLogit
  {
    assert forall i :: 0 <= i < |ps| ==> PrelimKey()(ps[i]) == ps[i].startLogit + ps[i].endLogit;
    forall b | a <= b < |nbest|
      ensures nbest[a].startLogit + nbest[a].endLogit >= nbest[b].startLogit + nbest[b].endLogit
    {
      assert a < b ==> PrelimKey()(ps[src[a]]) >= PrelimKey()(ps[src[b]]);
    }
    assert IsRepresented(finalText, ps, nbest, src, j) || FullBefore(n, src, j);
    if IsRepresented(finalText, ps, nbest, src, j) {
      var c: nat :| Represents(finalText, ps, nbest, src, c, j);
      assert src[c] < j ==> PrelimKey()(ps[src[c]]) >= PrelimKey()(ps[j]);
      assert nbest[c].text in Texts(nbest);
    } else {
      assert PrelimKey()(ps[src[a]]) >= PrelimKey()(ps[j]);
    }
  }

  // ---------- the decision ----------

  /** The first real prediction in rank order, if any, and with room for it, is the first non-empty entry. */
  lemma FirstNonEmpty(finalText: Prelim -> string, ps: seq<Prelim>, n: int, nbest: seq<Entry>, src: seq<nat>, j: nat)
    requires Rankable(finalText, ps) && Deduplicates(finalText, ps, n, |ps|, nbest, src)
    requires j < |ps| && ps[j].startIndex > 0 && forall i :: 0 <= i < j ==> ps[i].startIndex == 0
    ensures j <= 1
    ensures n > j ==> j < |nbest| && nbest[j] == EntryOf(finalText, ps[j]) && (j == 1 ==> nbest[0].text == "")
    ensures n <= j ==> forall a :: 0 <= a < |nbest| ==> nbest[a].text == ""
  {
    assert j <= 1;
    assert IsRepresented(finalText, ps, nbest, src, 0) || FullBefore(n, src, 0);
    FullNeedsRoom(n, src, 0);
    FullNeedsRoom(n, src, 1);
    if n >= 1 {
      var a: nat :| Represents(finalText, ps, nbest, src, a, 0);
      IncreasingAtLeast(src, a);
      if j == 1 && n >= 2 {
        assert IsRepresented(finalText, ps, nbest, src, 1);
        var b: nat :| Represents(finalText, ps, nbest, src, b, 1);
        assert nbest[a].text == "" && nbest[b].text != "";
        IncreasingAtLeast(src, b);
      }
    }
  }

  lemma {:induction false} IncreasingAtLeast(src: seq<nat>, a: nat)
    requires a < |src| && forall i, j :: 0 <= i < j < |src| ==> src[i] < src[j]
    ensures src[a] >= a
  {
    if a > 0 { IncreasingAtLeast(src, a - 1); }
  }

  /** A list that was full before prediction `j` has at most `j` places. */
  lemma FullNeedsRoom(n: int, src: seq<nat>, j: nat)
    requires forall i, k :: 0 <= i < k < |src| ==> src[i] < src[k]
    ensures FullBefore(n, src, j) ==> n <= j
  {
    if FullBefore(n, src, j) && src != [] { IncreasingAtLeast(src, |src| - 1); }
  }

  /** Without a real prediction there is no non-empty entry. */
  lemma OnlyNull(finalText: Prelim -> string, ps: seq<Prelim>, n: int, nbest: seq<Entry>, src: seq<nat>)
    requires Deduplicates(finalText, ps, n, |ps|, nbest, src)
    requires forall i :: 0 <= i < |ps| ==> ps[i].startIndex == 0
    ensures forall a :: 0 <= a < |nbest| ==> nbest[a].text == ""
  {
  }

  function NullPrelim(nul: NullScore): Prelim {
    Prelim(nul.featureIndex, 0, 0, nul.startLogit, nul.endLogit)
  }

  /** The predictions in rank order, the null prediction among them in version 2 mode. */
  function RankedPrelims(prelims: seq<Prelim>, version2: bool, nul: NullScore): seq<Prelim> {
    SortDesc(PrelimKey(), if version2 then prelims + [NullPrelim(nul)] else prelims)
  }

  ghost predicate RealPrelims(finalText: Prelim -> string, prelims: seq<Prelim>) {
    forall i :: 0 <= i < |prelims| ==> prelims[i].startIndex > 0 && finalText(prelims[i]) != ""
  }

  /** Sorting the real predictions. */
  lemma RankReals(finalText: Prelim -> string, prelims: seq<Prelim>)
    requires RealPrelims(finalText, prelims)
    ensures var reals := SortDesc(PrelimKey(), prelims);
            RealPrelims(finalText, reals) && Descending(PrelimKey(), reals) && forall p :: p in reals <==> p in prelims
  {
    var reals := SortDesc(PrelimKey(), prelims);
    SortDescCorrect(PrelimKey(), prelims);
    SortDescMembers(PrelimKey(), prelims);
    forall i | 0 <= i < |reals| ensures reals[i].startIndex > 0 && finalText(reals[i]) != "" {
      assert reals[i] in prelims;
    }
  }

  function WithNull(reals: seq<Prelim>, k: nat, nul: NullScore): seq<Prelim>
    requires k <= |reals|
  {
    reals[..k] + [NullPrelim(nul)] + reals[k..]
  }

  lemma WithNullRankable(finalText: Prelim -> string, reals: seq<Prelim>, k: nat, nul: NullScore)
    requires RealPrelims(finalText, reals) && k <= |reals|
    ensures Rankable(finalText, WithNull(reals, k, nul))
  {
    var ps := WithNull(reals, k, nul);
    forall i | 0 <= i < |ps| && i != k ensures ps[i].startIndex > 0 && finalText(ps[i]) != "" {
      assert ps[i] == reals[if i < k then i else i - 1];
    }
    assert ps[k].startIndex == 0;
  }

  /** In rank order the null prediction stands right after the real ones it does not beat. */
  lemma RankedShape(finalText: Prelim -> string, prelims: seq<Prelim>, nul: NullScore) returns (k: nat)
    requires RealPrelims(finalText, prelims)
    ensures var reals := SortDesc(PrelimKey(), prelims);
            && k <= |reals| && RankedPrelims(prelims, true, nul) == WithNull(reals, k, nul)
            && (reals != [] ==> (k > 0 <==> reals[0].startLogit + reals[0].endLogit >= nul.startLogit + nul.endLogit))
  {
    RankReals(finalText, prelims);
    var reals := SortDesc(PrelimKey(), prelims);
    var all := prelims + [NullPrelim(nul)];
    assert all[..|prelims|] == prelims;
    k := InsertSplits(PrelimKey(), NullPrelim(nul), reals);
    if reals != [] { assert PrelimKey()(reals[0]) == reals[0].startLogit + reals[0].endLogit; }
  }

  ghost predicate IsMax(features: seq<Feature>, results: map<int, RawResult>, n: int, maxAnswerLength: int, p: Prelim)
    requires HasResults(features, results)
  {
    && IsCandidate(features, results, n, maxAnswerLength, p)
    && forall q :: IsCandidate(features, results, n, maxAnswerLength, q) ==>
        q.startLogit + q.endLogit <= p.startLogit + p.endLogit
  }

  /** The kept entries, with the null entry in version 2 mode if its text is missing, or a nonce if there are none. */
  ghost predicate Completes(version2: bool, nul: NullScore, kept: seq<Entry>, nbest: seq<Entry>) {
    nbest == if version2 then (if "" in Texts(kept) then kept else kept + [Entry("", nul.startLogit, nul.endLogit)])
             else if kept == [] then [Entry("empty", 0.0, 0.0)] else kept
  }

  ghost predicate IsNBest(
    finalText: Prelim -> string, ps: seq<Prelim>, n: int, version2: bool, nul: NullScore, nbest: seq<Entry>)
  {
    exists kept: seq<Entry> :: KeepsFirsts(finalText, ps, n, kept) && Completes(version2, nul, kept, nbest)
  }

  /** The list of an example. */
  method FinishNBest(ps: seq<Prelim>, n: int, finalText: Prelim -> string, version2: bool, nul: NullScore)
    returns (nbest: seq<Entry>)
    requires Rankable(finalText, ps)
    ensures IsNBest(finalText, ps, n, version2, nul, nbest)
  {
    nbest := SelectNBest(ps, n, finalText);
    ghost var kept := nbest;
    if version2 {
      if "" !in Texts(nbest) {
        nbest := nbest + [Entry("", nul.startLogit, nul.endLogit)];
      }
    }
    if nbest == [] {
      nbest := [Entry("empty", 0.0, 0.0)];
    }
    assert KeepsFirsts(finalText, ps, n, kept) && Completes(version2, nul, kept, nbest);
  }

  ghost predicate EmptyTextOnce(nbest: seq<Entry>) {
    exists a ::
      0 <= a < |nbest| && nbest[a].text == "" && forall b :: 0 <= b < |nbest| && nbest[b].text == "" ==> b == a
  }

  lemma KeptAreDistinct(finalText: Prelim -> string, ps: seq<Prelim>, n: int, kept: seq<Entry>)
    requires KeepsFirsts(finalText, ps, n, kept)
    ensures DistinctTexts(kept)
  {
    var src :| Deduplicates(finalText, ps, n, |ps|, kept, src);
  }

  lemma DistinctMeansOnce(nbest: seq<Entry>, a: nat)
    requires DistinctTexts(nbest) && a < |nbest| && nbest[a].text == ""
    ensures EmptyTextOnce(nbest)
  {
  }

  lemma CompletedTexts(version2: bool, nul: NullScore, kept: seq<Entry>, nbest: seq<Entry>)
    requires DistinctTexts(kept) && Completes(version2, nul, kept, nbest)
    ensures nbest != [] && DistinctTexts(nbest)
    ensures version2 ==> EmptyTextOnce(nbest)
  {
    if version2 {
      if "" in Texts(kept) {
        var a :| 0 <= a < |kept| && kept[a].text == "";
        DistinctMeansOnce(nbest, a);
      } else {
        assert forall a :: 0 <= a < |kept| ==> kept[a].text in Texts(kept);
        DistinctMeansOnce(nbest, |kept|);
      }
    }
  }

  /** Texts are distinct, there is one at least, and in version 2 mode the empty text occurs exactly once. */
  lemma NBestTexts(
    finalText: Prelim -> string, ps: seq<Prelim>, n: int, version2: bool, nul: NullScore, nbest: seq<Entry>)
    requires IsNBest(finalText, ps, n, version2, nul, nbest)
    ensures nbest != [] && DistinctTexts(nbest)
    ensures version2 ==> EmptyTextOnce(nbest)
  {
    var kept: seq<Entry> :| KeepsFirsts(finalText, ps, n, kept) && Completes(version2, nul, kept, nbest);
    KeptAreDistinct(finalText, ps, n, kept);
    CompletedTexts(version2, nul, kept, nbest);
  }

  /** Entry `a` is the first with a non-empty text. */
  ghost predicate FirstText(nbest: seq<Entry>, a: int) {
    0 <= a < |nbest| && nbest[a].text != "" && forall b :: 0 <= b < a ==> nbest[b].text == ""
  }

  ghost predicate NoText(nbest: seq<Entry>) {
    forall a :: 0 <= a < |nbest| ==> nbest[a].text == ""
  }

  /** `best_non_null_entry`. */
  method BestNonNull(nbest: seq<Entry>) returns (best: Option<Entry>)
    ensures best.None? <==> NoText(nbest)
    ensures best.Some? ==> exists a :: FirstText(nbest, a) && nbest[a] == best.value
  {
    best := None;
    for i := 0 to |nbest|
      invariant best.None? <==> NoText(nbest[..i])
      invariant best.Some? ==> exists a :: FirstText(nbest, a) && nbest[a] == best.value
    {
      if best.None? {
        if nbest[i].text != "" {
          best := Some(nbest[i]);
          assert forall b :: 0 <= b < i ==> nbest[b] == nbest[..i][b];
          assert FirstText(nbest, i);
        }
      }
    }
    assert nbest[..|nbest|] == nbest;
  }

  /** Of the kept entries the first non-empty one is the top real prediction, if there is room for it. */
  lemma FirstKeptIsTop(
    finalText: Prelim -> string, reals: seq<Prelim>, k: nat, nul: NullScore, n: int, kept: seq<Entry>)
    requires RealPrelims(finalText, reals) && k <= |reals|
    requires KeepsFirsts(finalText, WithNull(reals, k, nul), n, kept)
    ensures reals != [] && n > (if k == 0 then 1 else 0) ==>
              FirstText(kept, if k == 0 then 1 else 0) && kept[if k == 0 then 1 else 0] == EntryOf(finalText, reals[0])
    ensures !(reals != [] && n > (if k == 0 then 1 else 0)) ==> NoText(kept)
  {
    var ps := WithNull(reals, k, nul);
    var src :| Deduplicates(finalText, ps, n, |ps|, kept, src);
    WithNullRankable(finalText, reals, k, nul);
    if reals == [] {
      OnlyNull(finalText, ps, n, kept, src);
    } else {
      FirstNonEmpty(finalText, ps, n, kept, src, if k == 0 then 1 else 0);
    }
  }

  lemma CompletedFirstText(nul: NullScore, kept: seq<Entry>, nbest: seq<Entry>, a: nat)
    requires Completes(true, nul, kept, nbest)
    ensures FirstText(kept, a) ==> FirstText(nbest, a) && nbest[a] == kept[a]
    ensures NoText(kept) ==> NoText(nbest)
  {
  }

  /** Appending the null entry changes nothing about it. */
  lemma FirstTextIsTop(
    finalText: Prelim -> string, reals: seq<Prelim>, k: nat, nul: NullScore, n: int, nbest: seq<Entry>)
    requires RealPrelims(finalText, reals) && k <= |reals|
    requires IsNBest(finalText, WithNull(reals, k, nul), n, true, nul, nbest)
    ensures reals != [] && n > (if k == 0 then 1 else 0) ==>
              FirstText(nbest, if k == 0 then 1 else 0) &&
                  nbest[if k == 0 then 1 else 0] == EntryOf(finalText, reals[0])
    ensures !(reals != [] && n > (if k == 0 then 1 else 0)) ==> NoText(nbest)
  {
    var kept: seq<Entry> :| KeepsFirsts(finalText, WithNull(reals, k, nul), n, kept) &&
        Completes(true, nul, kept, nbest);
    FirstKeptIsTop(finalText, reals, k, nul, n, kept);
    CompletedFirstText(nul, kept, nbest, if k == 0 then 1 else 0);
  }

  /** In version 1 mode the first entry is the top prediction, or the nonce. */
  lemma FirstIsTop(finalText: Prelim -> string, ps: seq<Prelim>, n: int, nul: NullScore, nbest: seq<Entry>)
    requires RealPrelims(finalText, ps) && IsNBest(finalText, ps, n, false, nul, nbest)
    ensures nbest != [] && nbest[0].text == if ps != [] && n >= 1 then finalText(ps[0]) else "empty"
  {
    var kept: seq<Entry> :| KeepsFirsts(finalText, ps, n, kept) && Completes(false, nul, kept, nbest);
    var src :| Deduplicates(finalText, ps, n, |ps|, kept, src);
    if ps != [] { FirstNonEmpty(finalText, ps, n, kept, src, 0); }
  }

  /** `ps` lists all candidates, and the null prediction in version 2 mode, in descending score. */
  ghost predicate RanksAll(
    features: seq<Feature>, results: map<int, RawResult>, n: int, maxAnswerLength: int, version2: bool, nul: NullScore,
    ps: seq<Prelim>)
    requires HasResults(features, results)
  {
    && Descending(PrelimKey(), ps)
    && (forall a, b :: 0 <= a < b < |ps| ==> ps[a].startLogit + ps[a].endLogit >= ps[b].startLogit + ps[b].endLogit)
    && forall p :: p in ps <==>
        IsCandidate(features, results, n, maxAnswerLength, p) ||
        (version2 && p == Prelim(nul.featureIndex, 0, 0, nul.startLogit, nul.endLogit))
  }

  lemma RankedRanksAll(
    features: seq<Feature>, results: map<int, RawResult>, n: int, maxAnswerLength: int, version2: bool, nul: NullScore,
    prelims: seq<Prelim>)
    requires HasResults(features, results)
    requires forall p :: p in prelims <==> IsCandidate(features, results, n, maxAnswerLength, p)
    ensures RanksAll(features, results, n, maxAnswerLength, version2, nul, RankedPrelims(prelims, version2, nul))
  {
    var all := if version2 then prelims + [NullPrelim(nul)] else prelims;
    SortDescCorrect(PrelimKey(), all);
    SortDescMembers(PrelimKey(), all);
    var ps := SortDesc(PrelimKey(), all);
    forall a, b | 0 <= a < b < |ps|
      ensures ps[a].startLogit + ps[a].endLogit >= ps[b].startLogit + ps[b].endLogit
    {
      assert PrelimKey()(ps[a]) >= PrelimKey()(ps[b]);
    }
  }

  /**
   No candidate is lost without cause: its text is in the list with a score at least its own, or the list
   has all the entries asked for and each of these scores at least as much.
   */
  lemma NBestCoversCandidates(
    features: seq<Feature>, results: map<int, RawResult>, n: int, maxAnswerLength: int, version2: bool, nul: NullScore,
    finalText: Prelim -> string, ps: seq<Prelim>, nbest: seq<Entry>, p: Prelim)
    requires HasResults(features, results) && RanksAll(features, results, n, maxAnswerLength, version2, nul, ps)
    requires IsNBest(finalText, ps, n, version2, nul, nbest)
    requires IsCandidate(features, results, n, maxAnswerLength, p)
    ensures Covered(TextOf(finalText, p), p.startLogit + p.endLogit, n, nbest)
  {
    var j := RankOf(features, results, n, maxAnswerLength, version2, nul, ps, p);
    RankedAreCovered(finalText, ps, n, version2, nul, nbest, j);
  }

  lemma RankOf(
    features: seq<Feature>, results: map<int, RawResult>, n: int, maxAnswerLength: int, version2: bool, nul: NullScore,
    ps: seq<Prelim>, p: Prelim)
    returns (j: nat)
    requires HasResults(features, results) && RanksAll(features, results, n, maxAnswerLength, version2, nul, ps)
    requires IsCandidate(features, results, n, maxAnswerLength, p)
    ensures j < |ps| && ps[j] == p
  {
    assert p in ps;
    j :| 0 <= j < |ps| && ps[j] == p;
  }

  lemma RankedAreCovered(
    finalText: Prelim -> string, ps: seq<Prelim>, n: int, version2: bool, nul: NullScore, nbest: seq<Entry>, j: nat)
    requires Descending(PrelimKey(), ps) && IsNBest(finalText, ps, n, version2, nul, nbest) && j < |ps|
    ensures Covered(TextOf(finalText, ps[j]), ps[j].startLogit + ps[j].endLogit, n, nbest)
  {
    var kept: seq<Entry> :| KeepsFirsts(finalText, ps, n, kept) && Completes(version2, nul, kept, nbest);
    KeptCover(finalText, ps, n, kept, j);
    CoveredByMore(TextOf(finalText, ps[j]), ps[j].startLogit + ps[j].endLogit, n, kept, nbest);
  }

  ghost predicate Covered(text: string, score: real, n: int, nbest: seq<Entry>) {
    || (exists a :: 0 <= a < |nbest| && nbest[a].text == text && nbest[a].startLogit + nbest[a].endLogit >= score)
    || (|nbest| >= n && forall a :: 0 <= a < |nbest| && a < n ==> nbest[a].startLogit + nbest[a].endLogit >= score)
  }

  lemma KeptCover(finalText: Prelim -> string, ps: seq<Prelim>, n: int, kept: seq<Entry>, j: nat)
    requires KeepsFirsts(finalText, ps, n, kept) && Descending(PrelimKey(), ps) && j < |ps|
    ensures Covered(TextOf(finalText, ps[j]), ps[j].startLogit + ps[j].endLogit, n, kept)
  {
    var src :| Deduplicates(finalText, ps, n, |ps|, kept, src);
    assert IsRepresented(finalText, ps, kept, src, j) || FullBefore(n, src, j);
    forall a | 0 <= a < |kept|
      ensures kept[a].text == TextOf(finalText, ps[j]) ==>
          kept[a].startLogit + kept[a].endLogit >= ps[j].startLogit + ps[j].endLogit
      ensures TextOf(finalText, ps[j]) !in Texts(kept) ==>
          |kept| == n && kept[a].startLogit + kept[a].endLogit >= ps[j].startLogit + ps[j].endLogit
    {
      ListedAreBest(finalText, ps, n, kept, src, a, j);
    }
  }

  lemma CoveredByMore(text: string, score: real, n: int, kept: seq<Entry>, nbest: seq<Entry>)
    requires Covered(text, score, n, kept) && kept <= nbest
    ensures Covered(text, score, n, nbest)
  {
    if a :| 0 <= a < |kept| && kept[a].text == text && kept[a].startLogit + kept[a].endLogit >= score {
      assert nbest[a] == kept[a];
    }
  }

  /** The top of the sorted candidates is a maximum. */
  lemma TopIsMax(
    features: seq<Feature>, results: map<int, RawResult>, n: int, maxAnswerLength: int, prelims: seq<Prelim>,
    reals: seq<Prelim>)
    requires HasResults(features, results)
    requires forall p :: p in prelims <==> IsCandidate(features, results, n, maxAnswerLength, p)
    requires Descending(PrelimKey(), reals) && forall p :: p in reals <==> p in prelims
    ensures reals != [] ==> IsMax(features, results, n, maxAnswerLength, reals[0]) && n >= 1
    ensures reals == [] <==> !exists p :: IsCandidate(features, results, n, maxAnswerLength, p)
  {
    if reals != [] {
      assert reals[0] in reals;
      forall q | IsCandidate(features, results, n, maxAnswerLength,
                             q) ensures q.startLogit + q.endLogit <= reals[0].startLogit + reals[0].endLogit {
        assert q in reals;
        var i :| 0 <= i < |reals| && reals[i] == q;
        assert PrelimKey()(reals[0]) >= PrelimKey()(reals[i]);
      }
    } else {
      forall p ensures !IsCandidate(features, results, n, maxAnswerLength, p) { assert p !in reals; }
    }
  }

  /** What the whole computation promises for version 2 mode, in terms of the candidates alone. */
  ghost predicate Version2Answer(
    features: seq<Feature>, results: map<int, RawResult>, n: int, maxAnswerLength: int, threshold: real,
    finalText: Prelim -> string, nul: NullScore, answer: Option<string>)
    requires HasResults(features, results)
  {
    && IsNullScore(features, results, |features|, nul)
    && (answer.Some? <==> exists p :: IsCandidate(features, results, n, maxAnswerLength, p) &&
                                      (n >= 2 || p.startLogit + p.endLogit >= nul.startLogit + nul.endLogit))
    && (answer.Some? ==> exists p :: IsMax(features, results, n, maxAnswerLength, p) &&
                                     answer.value == if nul.score - (p.startLogit + p.endLogit) > threshold then ""
                                     else finalText(p))
  }

  /** And for version 1 mode: the text of a best candidate, or a nonce without candidates. */
  ghost predicate Version1Answer(
    features: seq<Feature>, results: map<int, RawResult>, n: int, maxAnswerLength: int, finalText: Prelim -> string,
    answer: Option<string>)
    requires HasResults(features, results)
  {
    if exists p :: IsCandidate(features, results, n, maxAnswerLength, p)
    then exists p :: IsMax(features, results, n, maxAnswerLength, p) && answer == Some(finalText(p))
    else answer == Some("empty")
  }

  lemma DecideVersion2(
    features: seq<Feature>, results: map<int, RawResult>, n: int, maxAnswerLength: int, threshold: real,
    finalText: Prelim -> string, nul: NullScore, answer: Option<string>, reals: seq<Prelim>, k: nat)
    requires HasResults(features, results) && IsNullScore(features, results, |features|, nul)
    requires RealPrelims(finalText, reals) && k <= |reals|
    requires reals != [] ==> IsMax(features, results, n, maxAnswerLength, reals[0]) && n >= 1
    requires reals != [] ==> (k > 0 <==> reals[0].startLogit + reals[0].endLogit >= nul.startLogit + nul.endLogit)
    requires reals == [] <==> !exists p :: IsCandidate(features, results, n, maxAnswerLength, p)
    requires answer == if reals != [] && n > (if k == 0 then 1 else 0)
                       then Some(if nul.score - (reals[0].startLogit + reals[0].endLogit) > threshold then ""
                                 else finalText(reals[0])) else None
    ensures Version2Answer(features, results, n, maxAnswerLength, threshold, finalText, nul, answer)
  {
    if reals != [] {
      assert IsCandidate(features, results, n, maxAnswerLength, reals[0]);
    }
  }

  /**
   The answer to one example; `None` stands for the failure of the code when version 2 mode finds no
   non-empty entry.
   */
  method PredictExample(
    features: seq<Feature>, results: map<int, RawResult>, n: int, maxAnswerLength: int, version2: bool,
    threshold: real, finalText: Prelim -> string)
    returns (answer: Option<string>, nbest: seq<Entry>, nul: NullScore)
    requires HasResults(features, results) && (version2 ==> features != [])
    requires forall p :: IsCandidate(features, results, n, maxAnswerLength, p) ==>
        p.startIndex > 0 && finalText(p) != ""
    ensures nbest != [] && DistinctTexts(nbest) && (version2 ==> EmptyTextOnce(nbest))
    ensures exists ps ::
              && RanksAll(features, results, n, maxAnswerLength, version2, nul, ps)
              && IsNBest(finalText, ps, n, version2, nul, nbest)
    ensures version2 ==> Version2Answer(features, results, n, maxAnswerLength, threshold, finalText, nul, answer)
    ensures !version2 ==> Version1Answer(features, results, n, maxAnswerLength, finalText, answer)
  {
    var prelims;
    prelims, nul := Collect(features, results, n, maxAnswerLength, version2);
    assert forall i :: 0 <= i < |prelims| ==> prelims[i] in prelims;
    RankReals(finalText, prelims);
    ghost var reals := SortDesc(PrelimKey(), prelims);
    TopIsMax(features, results, n, maxAnswerLength, prelims, reals);
    RankedRanksAll(features, results, n, maxAnswerLength, version2, nul, prelims);
    if version2 {
      answer, nbest := PredictVersion2(prelims, n, threshold, finalText, nul);
      ghost var k := RankedShape(finalText, prelims, nul);
      DecideVersion2(features, results, n, maxAnswerLength, threshold, finalText, nul, answer, reals, k);
    } else {
      answer, nbest := PredictVersion1(prelims, n, finalText, nul);
    }
    NBestTexts(finalText, RankedPrelims(prelims, version2, nul), n, version2, nul, nbest);
  }

  method PredictVersion2(prelims: seq<Prelim>, n: int, threshold: real, finalText: Prelim -> string, nul: NullScore)
    returns (answer: Option<string>, nbest: seq<Entry>)
    requires RealPrelims(finalText, prelims)
    ensures IsNBest(finalText, RankedPrelims(prelims, true, nul), n, true, nul, nbest)
    ensures var reals := SortDesc(PrelimKey(), prelims);
            answer == if reals != [] &&
            n > (if reals[0].startLogit + reals[0].endLogit >= nul.startLogit + nul.endLogit then 0 else 1)
                      then Some(if nul.score - (reals[0].startLogit + reals[0].endLogit) > threshold then ""
                                else finalText(reals[0])) else None
  {
    var ps := RankedPrelims(prelims, true, nul);
    ghost var reals := SortDesc(PrelimKey(), prelims);
    RankReals(finalText, prelims);
    ghost var k := RankedShape(finalText, prelims, nul);
    WithNullRankable(finalText, reals, k, nul);
    nbest := FinishNBest(ps, n, finalText, true, nul);
    FirstTextIsTop(finalText, reals, k, nul, n, nbest);
    var best := BestNonNull(nbest);
    if best.None? {
      answer := None;
    } else {
      var scoreDiff := nul.score - best.value.startLogit - best.value.endLogit;
      answer := if scoreDiff > threshold then Some("") else Some(best.value.text);
    }
  }

  method PredictVersion1(prelims: seq<Prelim>, n: int, finalText: Prelim -> string, nul: NullScore)
    returns (answer: Option<string>, nbest: seq<Entry>)
    requires RealPrelims(finalText, prelims)
    ensures IsNBest(finalText, RankedPrelims(prelims, false, nul), n, false, nul, nbest)
    ensures var reals := SortDesc(PrelimKey(), prelims);
            answer == if reals != [] && n >= 1 then Some(finalText(reals[0])) else Some("empty")
  {
    var ps := RankedPrelims(prelims, false, nul);
    RankReals(finalText, prelims);
    nbest := FinishNBest(ps, n, finalText, false, nul);
    FirstIsTop(finalText, ps, n, nul, nbest);
    answer := Some(nbest[0].text);
  }
}
