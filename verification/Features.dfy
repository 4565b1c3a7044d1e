/**
 `convert_examples_to_features` and `_improve_answer_span` (bert/run_squad.py): from words to pieces
 to windows, with the maps that lead back and the training labels.
 */
module Features {
  import opened Text
  import opened Windows
  import opened Numbers

  type Tokenizer = string -> seq<string>

  /** The words of an annotated answer; -1, from an offset before the first word, is read as Python reads it. */
  datatype Answer = NoAnswer | Impossible | Span(startPosition: int, endPosition: int, text: string)

  datatype SquadExample = SquadExample(questionText: string, docTokens: seq<string>, answer: Answer)

  datatype Feature = Feature(
    uniqueId: int,
    exampleIndex: nat, docSpanIndex: nat,
    tokens: seq<string>, tokenToOrigMap: map<int, nat>,
    tokenIsMaxContext: map<int, bool>,
    inputMask: seq<int>, segmentIds: seq<int>,
    startPosition: int, endPosition: int)

  /** The network's start and end logits for one feature. */
  datatype RawResult = RawResult(startLogits: seq<real>, endLogits: seq<real>)

  // ---------- words and pieces ----------

  /** Where the pieces of word `i` begin. */
  function WordStart(tok: Tokenizer, words: seq<string>, i: nat): nat
    requires i <= |words|
  {
    |FlatMap(tok, words[..i])|
  }

  ghost predicate InWord(tok: Tokenizer, words: seq<string>, w: nat, k: nat) {
    w < |words| && WordStart(tok, words, w) <= k < WordStart(tok, words, w + 1)
  }

  method IndexPieces(tok: Tokenizer, docTokens: seq<string>)
    returns (tokToOrigIndex: seq<nat>, origToTokIndex: seq<nat>, allDocTokens: seq<string>)
    ensures allDocTokens == FlatMap(tok, docTokens)
    ensures AreWordStarts(tok, docTokens, origToTokIndex)
    ensures |tokToOrigIndex| == |allDocTokens|
    ensures forall k :: 0 <= k < |allDocTokens| ==> InWord(tok, docTokens, tokToOrigIndex[k], k)
  {
    tokToOrigIndex, origToTokIndex, allDocTokens := [], [], [];
    for i := 0 to |docTokens|
      invariant allDocTokens == FlatMap(tok, docTokens[..i])
      invariant |origToTokIndex| == i && |tokToOrigIndex| == |allDocTokens|
      invariant forall j :: 0 <= j < i ==> origToTokIndex[j] == WordStart(tok, docTokens, j)
      invariant forall k :: 0 <= k < |allDocTokens| ==> InWord(tok, docTokens, tokToOrigIndex[k], k)
    {
      origToTokIndex := origToTokIndex + [|allDocTokens|];
      var subTokens := tok(docTokens[i]);
      ghost var before := allDocTokens;
      assert docTokens[..i + 1] == docTokens[..i] + [docTokens[i]];
      FlatMapSnoc(tok, docTokens[..i], docTokens[i]);
      for j := 0 to |subTokens|
        invariant allDocTokens == before + subTokens[..j]
        invariant |tokToOrigIndex| == |allDocTokens|
        invariant forall k :: 0 <= k < |allDocTokens| ==> InWord(tok, docTokens, tokToOrigIndex[k], k)
      {
        tokToOrigIndex := tokToOrigIndex + [i];
        allDocTokens := allDocTokens + [subTokens[j]];
      }
    }
    assert docTokens[..|docTokens|] == docTokens;
  }

  lemma WordStartMonotone(tok: Tokenizer, words: seq<string>, i: nat, j: nat)
    requires i <= j <= |words|
    ensures WordStart(tok, words, i) <= WordStart(tok, words, j)
  {
    assert words[..j] == words[..i] + words[i..j];
    FlatMapConcat(tok, words[..i], words[i..j]);
  }

  /** Later pieces belong to the same or later words. */
  lemma WordOfPieceMonotone(tok: Tokenizer, words: seq<string>, w: nat, k: nat, v: nat, l: nat)
    requires InWord(tok, words, w, k) && InWord(tok, words, v, l) && k <= l
    ensures w <= v
  {
    if v < w { WordStartMonotone(tok, words, v + 1, w); }
  }

  /** The pieces between two word starts are the pieces of the words between. */
  lemma PiecesBetween(tok: Tokenizer, words: seq<string>, i: nat, j: nat)
    requires i <= j <= |words|
    ensures WordStart(tok, words, i) <= WordStart(tok, words, j) <= |FlatMap(tok, words)|
    ensures FlatMap(tok, words)[WordStart(tok, words, i)..WordStart(tok, words, j)] == FlatMap(tok, words[i..j])
  {
    var a, b, c := words[..i], words[i..j], words[j..];
    assert words[..j] == a + b && words == (a + b) + c;
    FlatMapThree(tok, a, b, c);
    MiddleOf(FlatMap(tok, a), FlatMap(tok, b), FlatMap(tok, c));
  }

  lemma FlatMapThree(tok: Tokenizer, a: seq<string>, b: seq<string>, c: seq<string>)
    ensures FlatMap(tok, a + b) == FlatMap(tok, a) + FlatMap(tok, b)
    ensures FlatMap(tok, (a + b) + c) == (FlatMap(tok, a) + FlatMap(tok, b)) + FlatMap(tok, c)
  {
    FlatMapConcat(tok, a, b);
    FlatMapConcat(tok, a + b, c);
  }

  lemma MiddleOf<T>(a: seq<T>, b: seq<T>, c: seq<T>)
    ensures ((a + b) + c)[|a|..|a + b|] == b
  {
  }

  // ---------- improving the answer span ----------

  ghost predicate Matches(pieces: seq<string>, text: string, s: int, e: int) {
    0 <= s <= e < |pieces| && Join(pieces[s..e + 1]) == text
  }

  /** The earliest start with a match and, from there, the latest end; the input span if nothing matches. */
  ghost predicate IsImproved(pieces: seq<string>, text: string, inStart: int, inEnd: int, s: int, e: int) {
    if exists a, b :: inStart <= a && b <= inEnd && Matches(pieces, text, a, b) then
      && inStart <= s && e <= inEnd && Matches(pieces, text, s, e)
      && (forall a, b :: inStart <= a < s && b <= inEnd ==> !Matches(pieces, text, a, b))
      && (forall b :: e < b <= inEnd ==> !Matches(pieces, text, s, b))
    else
      s == inStart && e == inEnd
  }

  /** The inner loop: the latest end that matches from this start, or none. */
  method LatestMatch(docTokens: seq<string>, start: int, inputEnd: int, text: string) returns (end: int)
    requires 0 <= start <= inputEnd < |docTokens|
    ensures start - 1 <= end <= inputEnd && (end >= start ==> Matches(docTokens, text, start, end))
    ensures forall b :: end < b <= inputEnd ==> !Matches(docTokens, text, start, b)
  {
    end := inputEnd;
    while end >= start
      invariant start - 1 <= end <= inputEnd
      invariant forall b :: end < b <= inputEnd ==> !Matches(docTokens, text, start, b)
    {
      var textSpan := Join(docTokens[start..end + 1]);
      if textSpan == text {
        return;
      }
      end := end - 1;
    }
  }

  ghost predicate NoMatchFrom(pieces: seq<string>, text: string, from: int, to: int, inEnd: int) {
    forall a, b :: from <= a < to && b <= inEnd ==> !Matches(pieces, text, a, b)
  }

  lemma FirstMatchIsImproved(pieces: seq<string>, text: string, inStart: int, inEnd: int, s: int, e: int)
    requires inStart <= s && e <= inEnd && Matches(pieces, text, s, e)
    requires NoMatchFrom(pieces, text, inStart, s, inEnd)
    requires forall b :: e < b <= inEnd ==> !Matches(pieces, text, s, b)
    ensures IsImproved(pieces, text, inStart, inEnd, s, e)
  {
  }

  method ImproveAnswerSpan(
    docTokens: seq<string>, inputStart: int, inputEnd: int, tok: Tokenizer, origAnswerText: string)
    returns (newStart: int, newEnd: int)
    requires 0 <= inputStart && inputEnd < |docTokens|
    ensures IsImproved(docTokens, Join(tok(origAnswerText)), inputStart, inputEnd, newStart, newEnd)
  {
    var tokAnswerText := Join(tok(origAnswerText));
    newStart := inputStart;
    while newStart <= inputEnd
      invariant inputStart <= newStart
      invariant NoMatchFrom(docTokens, tokAnswerText, inputStart, newStart, inputEnd)
    {
      newEnd := LatestMatch(docTokens, newStart, inputEnd, tokAnswerText);
      if newEnd >= newStart {
        FirstMatchIsImproved(docTokens, tokAnswerText, inputStart, inputEnd, newStart, newEnd);
        return;
      }
      NoMatchAtStart(docTokens, tokAnswerText, inputStart, newStart, inputEnd);
      newStart := newStart + 1;
    }
    newStart, newEnd := inputStart, inputEnd;
  }

  lemma NoMatchAtStart(pieces: seq<string>, text: string, from: int, start: int, inEnd: int)
    requires NoMatchFrom(pieces, text, from, start, inEnd)
    requires forall b :: start - 1 < b <= inEnd ==> !Matches(pieces, text, start, b)
    ensures NoMatchFrom(pieces, text, from, start + 1, inEnd)
  {
  }

  /** For pieces as tokenizers make them, equal joined texts are equal lists of pieces. */
  lemma MatchIsExact(isSpace: char -> bool, pieces: seq<string>, answer: seq<string>, s: int, e: int)
    requires isSpace(' ') && AllWords(isSpace, pieces) && AllWords(isSpace, answer)
    ensures Matches(pieces, Join(answer), s, e) <==> 0 <= s <= e < |pieces| && pieces[s..e + 1] == answer
  {
    if 0 <= s <= e < |pieces| { JoinInjective(isSpace, pieces[s..e + 1], answer); }
  }

  // ---------- one window ----------

  function Repeat(x: int, n: nat): seq<int> {
    seq(n, _ => x)
  }

  lemma RepeatSnoc(x: int, n: nat)
    ensures Repeat(x, n) + [x] == Repeat(x, n + 1)
  {
  }

  lemma SliceSnoc(pieces: seq<string>, start: nat, i: nat)
    requires start + i < |pieces|
    ensures pieces[start..start + i + 1] == pieces[start..start + i] + [pieces[start + i]]
  {
  }

  /** Positions of a feature's tokens that hold document pieces. */
  predicate InDocument(queryLength: nat, span: DocSpan, i: int) {
    queryLength + 2 <= i < queryLength + 2 + span.length
  }

  ghost predicate MapsWindow(
    spans: seq<DocSpan>, k: nat, queryLength: nat, tokToOrig: seq<nat>, upTo: nat,
    toOrig: map<int, nat>, isMax: map<int, bool>)
  {
    && k < |spans| && upTo <= spans[k].length && spans[k].start + spans[k].length <= |tokToOrig|
    && MapsWords(spans[k].start, queryLength, tokToOrig, upTo, toOrig)
    && MapsContext(spans, k, queryLength, upTo, isMax)
  }

  /** The words of the window's first `upTo` pieces, by token position. */
  ghost predicate MapsWords(start: nat, queryLength: nat, tokToOrig: seq<nat>, upTo: nat, toOrig: map<int, nat>)
    requires start + upTo <= |tokToOrig|
  {
    && (forall i :: i in toOrig <==> queryLength + 2 <= i < queryLength + 2 + upTo)
    && (forall i :: i in toOrig ==> toOrig[i] == tokToOrig[start + i - queryLength - 2])
  }

  /** Whether window `k` is the maximum context of its first `upTo` pieces, by token position. */
  ghost predicate MapsContext(spans: seq<DocSpan>, k: nat, queryLength: nat, upTo: nat, isMax: map<int, bool>)
    requires k < |spans|
  {
    && (forall i :: i in isMax <==> queryLength + 2 <= i < queryLength + 2 + upTo)
    && (forall i :: i in isMax ==> (isMax[i] <==> IsBest(spans, spans[k].start + i - queryLength - 2, k)))
  }

  method LayOutQuery(query: seq<string>) returns (tokens: seq<string>, segmentIds: seq<int>)
    ensures tokens == ["[CLS]"] + query + ["[SEP]"] && segmentIds == Repeat(0, |query| + 2)
  {
    tokens, segmentIds := ["[CLS]"], [0];
    for i := 0 to |query|
      invariant tokens == ["[CLS]"] + query[..i] && segmentIds == Repeat(0, i + 1)
    {
      tokens := tokens + [query[i]];
      segmentIds := segmentIds + [0];
    }
    tokens := tokens + ["[SEP]"];
    segmentIds := segmentIds + [0];
  }

  lemma MapsExtend(
    spans: seq<DocSpan>, k: nat, queryLength: nat, tokToOrig: seq<nat>, upTo: nat,
    toOrig: map<int, nat>, isMax: map<int, bool>, best: bool)
    requires MapsWindow(spans, k, queryLength, tokToOrig, upTo, toOrig, isMax) && upTo < spans[k].length
    requires best <==> IsBest(spans, spans[k].start + upTo, k)
    ensures MapsWindow(spans, k, queryLength, tokToOrig, upTo + 1,
                       toOrig[queryLength + 2 + upTo := tokToOrig[spans[k].start + upTo]],
                       isMax[queryLength + 2 + upTo := best])
  {
    WordsExtend(spans[k].start, queryLength, tokToOrig, upTo, toOrig);
    ContextExtends(spans, k, queryLength, upTo, isMax, best);
  }

  lemma WordsExtend(start: nat, queryLength: nat, tokToOrig: seq<nat>, upTo: nat, toOrig: map<int, nat>)
    requires start + upTo < |tokToOrig| && MapsWords(start, queryLength, tokToOrig, upTo, toOrig)
    ensures MapsWords(start, queryLength, tokToOrig, upTo + 1,
                      toOrig[queryLength + 2 + upTo := tokToOrig[start + upTo]])
  {
  }

  lemma ContextExtends(spans: seq<DocSpan>, k: nat, queryLength: nat, upTo: nat, isMax: map<int, bool>, best: bool)
    requires k < |spans| && MapsContext(spans, k, queryLength, upTo, isMax)
    requires best <==> IsBest(spans, spans[k].start + upTo, k)
    ensures MapsContext(spans, k, queryLength, upTo + 1, isMax[queryLength + 2 + upTo := best])
  {
  }

  /** One document piece of the window: its word and whether this window is its maximum context. */
  method MapToken(
    spans: seq<DocSpan>, k: nat, queryLength: nat, tokToOrig: seq<nat>, i: nat, toOrig: map<int, nat>,
    isMax: map<int, bool>)
    returns (toOrig': map<int, nat>, isMax': map<int, bool>)
    requires MapsWindow(spans, k, queryLength, tokToOrig, i, toOrig, isMax) && i < spans[k].length
    ensures MapsWindow(spans, k, queryLength, tokToOrig, i + 1, toOrig', isMax')
  {
    var splitTokenIndex := spans[k].start + i;
    var isMaxContext := CheckIsMaxContext(spans, k, splitTokenIndex);
    MapsExtend(spans, k, queryLength, tokToOrig, i, toOrig, isMax, isMaxContext);
    toOrig' := toOrig[queryLength + 2 + i := tokToOrig[splitTokenIndex]];
    isMax' := isMax[queryLength + 2 + i := isMaxContext];
  }

  method LayOutWindow(query: seq<string>, pieces: seq<string>, tokToOrig: seq<nat>, spans: seq<DocSpan>, k: nat)
    returns (tokens: seq<string>, toOrig: map<int, nat>, isMax: map<int, bool>, segmentIds: seq<int>)
    requires k < |spans| && |tokToOrig| == |pieces| && spans[k].start + spans[k].length <= |pieces|
    ensures tokens ==
              ["[CLS]"] + query + ["[SEP]"] + pieces[spans[k].start..spans[k].start + spans[k].length] + ["[SEP]"]
    ensures MapsWindow(spans, k, |query|, tokToOrig, spans[k].length, toOrig, isMax)
    ensures segmentIds == Repeat(0, |query| + 2) + Repeat(1, spans[k].length + 1)
  {
    var span := spans[k];
    toOrig, isMax := map[], map[];
    tokens, segmentIds := LayOutQuery(query);
    ghost var head, zeros := tokens, segmentIds;
    for i := 0 to span.length
      invariant tokens == head + pieces[span.start..span.start + i]
      invariant segmentIds == zeros + Repeat(1, i)
      invariant MapsWindow(spans, k, |query|, tokToOrig, i, toOrig, isMax)
    {
      toOrig, isMax := MapToken(spans, k, |query|, tokToOrig, i, toOrig, isMax);
      tokens := tokens + [pieces[span.start + i]];
      segmentIds := segmentIds + [1];
      SliceSnoc(pieces, span.start, i);
      RepeatSnoc(1, i);
    }
    tokens := tokens + ["[SEP]"];
    segmentIds := segmentIds + [1];
    RepeatSnoc(1, span.length);
  }

  /** The maps of a whole window, looked up at one position. */
  lemma WindowLookup(
    spans: seq<DocSpan>, k: nat, queryLength: nat, tokToOrig: seq<nat>, toOrig: map<int, nat>, isMax: map<int, bool>,
    i: int)
    requires k < |spans| && MapsWindow(spans, k, queryLength, tokToOrig, spans[k].length, toOrig, isMax)
    ensures i in toOrig <==> InDocument(queryLength, spans[k], i)
    ensures i in isMax <==> InDocument(queryLength, spans[k], i)
    ensures i in toOrig ==> 0 <= spans[k].start + i - queryLength - 2 < |tokToOrig| &&
                            toOrig[i] == tokToOrig[spans[k].start + i - queryLength - 2]
    ensures i in isMax ==> (isMax[i] <==> IsBest(spans, spans[k].start + i - queryLength - 2, k))
  {
  }

  /** Zero padding up to the sequence length; the three length assertions of the code hold. */
  method Pad(tokenCount: nat, segmentIds: seq<int>, maxSeqLength: nat) returns (inputMask: seq<int>, padded: seq<int>)
    requires |segmentIds| == tokenCount <= maxSeqLength
    ensures inputMask == Repeat(1, tokenCount) + Repeat(0, maxSeqLength - tokenCount)
    ensures padded == segmentIds + Repeat(0, maxSeqLength - tokenCount)
    ensures |inputMask| == |padded| == maxSeqLength
  {
    inputMask := Repeat(1, tokenCount);
    padded := segmentIds;
    while |inputMask| < maxSeqLength
      invariant tokenCount <= |inputMask| <= maxSeqLength
      invariant inputMask == Repeat(1, tokenCount) + Repeat(0, |inputMask| - tokenCount)
      invariant padded == segmentIds + Repeat(0, |inputMask| - tokenCount)
    {
      inputMask := inputMask + [0];
      padded := padded + [0];
    }
  }

  // ---------- the features of an example ----------

  /** The first tokens of the question, as many as allowed. */
  function Query(tok: Tokenizer, ex: SquadExample, maxQueryLength: nat): (query: seq<string>)
    ensures query <= tok(ex.questionText) && |query| <= maxQueryLength
    ensures query == tok(ex.questionText) || |query| == maxQueryLength
  {
    var q := tok(ex.questionText);
    if |q| > maxQueryLength then q[..maxQueryLength] else q
  }

  /** Positions as the character map of the paragraph yields them: -1, or a word of a paragraph that has some. */
  predicate ValidAnswer(ex: SquadExample) {
    ex.answer.Span? ==>
      && -1 <= ex.answer.startPosition < |ex.docTokens| && -1 <= ex.answer.endPosition < |ex.docTokens|
      && ex.docTokens != []
  }

  predicate AllValid(examples: seq<SquadExample>) {
    forall i :: 0 <= i < |examples| ==> ValidAnswer(examples[i])
  }

  /** The word at which the answer's pieces begin; Python's index -1 is the last word. */
  function FirstWord(ex: SquadExample): nat
    requires ex.answer.Span? && ValidAnswer(ex)
  {
    if ex.answer.startPosition == -1 then |ex.docTokens| - 1 else ex.answer.startPosition
  }

  function FirstPiece(tok: Tokenizer, ex: SquadExample): nat
    requires ex.answer.Span? && ValidAnswer(ex)
  {
    WordStart(tok, ex.docTokens, FirstWord(ex))
  }

  function PastLastPiece(tok: Tokenizer, ex: SquadExample): nat
    requires ex.answer.Span? && ValidAnswer(ex)
  {
    WordStart(tok, ex.docTokens, ex.answer.endPosition + 1)
  }

  /** The improved piece span of the annotated answer. */
  ghost predicate IsTokSpan(tok: Tokenizer, ex: SquadExample, s: int, e: int)
    requires ex.answer.Span? && ValidAnswer(ex)
  {
    IsImproved(FlatMap(tok, ex.docTokens), Join(tok(ex.answer.text)),
               WordStart(tok, ex.docTokens,
                         if ex.answer.startPosition == -1 then |ex.docTokens| - 1 else ex.answer.startPosition),
               WordStart(tok, ex.docTokens, ex.answer.endPosition + 1) - 1, s, e)
  }

  /** Everything that `convert_examples_to_features` writes into the feature of window `k`. */
  ghost predicate IsFeature(
    tok: Tokenizer, ex: SquadExample, query: seq<string>, tokToOrig: seq<nat>, spans: seq<DocSpan>,
    maxSeqLength: nat, s: int, e: int, k: nat, f: Feature)
  {
    var pieces := FlatMap(tok, ex.docTokens);
    && k < |spans| && spans[k].start + spans[k].length <= |pieces| && f.docSpanIndex == k
    && f.tokens == ["[CLS]"] + query + ["[SEP]"] + pieces[spans[k].start..spans[k].start + spans[k].length] + ["[SEP]"]
    && MapsWindow(spans, k, |query|, tokToOrig, spans[k].length, f.tokenToOrigMap, f.tokenIsMaxContext)
    && |f.tokens| <= maxSeqLength
    && f.inputMask == Repeat(1, |f.tokens|) + Repeat(0, maxSeqLength - |f.tokens|)
    && f.segmentIds == Repeat(0, |query| + 2) + Repeat(1, spans[k].length + 1) + Repeat(0, maxSeqLength - |f.tokens|)
    && (ex.answer.Span? && spans[k].Contains(s, e) ==>
          f.startPosition == s - spans[k].start + |query| + 2 && f.endPosition == e - spans[k].start + |query| + 2)
    && (!(ex.answer.Span? && spans[k].Contains(s, e)) ==> f.startPosition == 0 && f.endPosition == 0)
  }

  lemma AnswerPiecesInside(tok: Tokenizer, ex: SquadExample)
    requires ex.answer.Span? && ValidAnswer(ex)
    ensures PastLastPiece(tok, ex) <= |FlatMap(tok, ex.docTokens)|
    ensures ex.answer.endPosition == |ex.docTokens| - 1 ==> PastLastPiece(tok, ex) == |FlatMap(tok, ex.docTokens)|
  {
    assert ex.docTokens[..|ex.docTokens|] == ex.docTokens;
    WordStartMonotone(tok, ex.docTokens, ex.answer.endPosition + 1, |ex.docTokens|);
  }

  /** The pieces of the annotated words, before improvement. */
  method AnnotatedPieces(ex: SquadExample, origToTok: seq<nat>, pieceCount: nat) returns (tokStart: int, tokEnd: int)
    requires ex.answer.Span? && ValidAnswer(ex) && |origToTok| == |ex.docTokens|
    ensures tokStart == origToTok[FirstWord(ex)]
    ensures ex.answer.endPosition < |ex.docTokens| - 1 ==> tokEnd + 1 == origToTok[ex.answer.endPosition + 1]
    ensures ex.answer.endPosition == |ex.docTokens| - 1 ==> tokEnd == pieceCount - 1
  {
    tokStart := origToTok[if ex.answer.startPosition == -1 then |origToTok| - 1 else ex.answer.startPosition];
    if ex.answer.endPosition < |ex.docTokens| - 1 {
      var nextStart: int := origToTok[ex.answer.endPosition + 1];
      tokEnd := nextStart - 1;
    } else {
      tokEnd := pieceCount - 1;
    }
  }

  ghost predicate AreWordStarts(tok: Tokenizer, words: seq<string>, starts: seq<nat>) {
    |starts| == |words| && forall i :: 0 <= i < |starts| ==> starts[i] == WordStart(tok, words, i)
  }

  method AnswerPieces(
    tok: Tokenizer, ex: SquadExample, origToTok: seq<nat>, pieces: seq<string>)
    returns (s: int, e: int)
    requires ex.answer.Span? && ValidAnswer(ex) && pieces == FlatMap(tok, ex.docTokens)
    requires AreWordStarts(tok, ex.docTokens, origToTok)
    ensures IsTokSpan(tok, ex, s, e)
  {
    AnswerPiecesInside(tok, ex);
    var tokStart, tokEnd := AnnotatedPieces(ex, origToTok, |pieces|);
    assert tokStart == FirstPiece(tok, ex) && tokEnd == PastLastPiece(tok, ex) - 1;
    s, e := ImproveAnswerSpan(pieces, tokStart, tokEnd, tok, ex.answer.text);
  }

  /** The body of the window loop. */
  method MakeFeature(
    tok: Tokenizer, ex: SquadExample, exampleIndex: nat, uniqueId: int, maxSeqLength: nat, query: seq<string>,
    pieces: seq<string>, tokToOrig: seq<nat>, docSpans: seq<DocSpan>, k: nat, tokStart: int, tokEnd: int)
    returns (f: Feature)
    requires pieces == FlatMap(tok, ex.docTokens) && |tokToOrig| == |pieces|
    requires k < |docSpans| && docSpans[k].End() < |pieces| && docSpans[k].length + |query| + 3 <= maxSeqLength
    ensures f.uniqueId == uniqueId && f.exampleIndex == exampleIndex
    ensures IsFeature(tok, ex, query, tokToOrig, docSpans, maxSeqLength, tokStart, tokEnd, k, f)
  {
    var span := docSpans[k];
    var tokens, toOrig, isMax, segmentIds := LayOutWindow(query, pieces, tokToOrig, docSpans, k);
    var inputMask, padded := Pad(|tokens|, segmentIds, maxSeqLength);
    var startPosition, endPosition := 0, 0;
    if ex.answer.Span? {
      var docStart := span.start;
      var docEnd := span.start + span.length - 1;
      if tokStart >= docStart && tokEnd <= docEnd {
        var docOffset := |query| + 2;
        startPosition := tokStart - docStart + docOffset;
        endPosition := tokEnd - docStart + docOffset;
      }
    }
    f := Feature(uniqueId, exampleIndex, k, tokens, toOrig, isMax, inputMask, padded, startPosition, endPosition);
  }

  /** Every window of a tiling lies inside the document. */
  lemma WindowInside(spans: seq<DocSpan>, n: nat, size: int, step: int, k: nat)
    requires Tiling(spans, n, size, step) && k < |spans|
    ensures spans[k].End() < n && 1 <= spans[k].length <= size
  {
  }

  /** The features of one example, with the windows, word indexes and answer span they were made from. */
  ghost predicate AreFeatures(
    tok: Tokenizer, ex: SquadExample, exampleIndex: nat, uniqueId: int, maxSeqLength: nat, query: seq<string>,
    tokToOrig: seq<nat>, spans: seq<DocSpan>, s: int, e: int, features: seq<Feature>, upTo: nat)
  {
    && |features| == upTo
    && forall k :: 0 <= k < upTo ==>
         && features[k].uniqueId == uniqueId + k && features[k].exampleIndex == exampleIndex
         && IsFeature(tok, ex, query, tokToOrig, spans, maxSeqLength, s, e, k, features[k])
  }

  /** All that `ConvertExample` promises about its features and the windows, indexes and span behind them. */
  ghost predicate IsConversion(
    tok: Tokenizer, ex: SquadExample, exampleIndex: nat, uniqueId: int, maxSeqLength: nat, docStride: int,
    query: seq<string>, spans: seq<DocSpan>, tokToOrig: seq<nat>, s: int, e: int, features: seq<Feature>)
    requires ValidAnswer(ex)
  {
    var size := maxSeqLength - |query| - 3;
    && size >= 1 && Tiling(spans, |FlatMap(tok, ex.docTokens)|, size, Min(size, docStride))
    && |tokToOrig| == |FlatMap(tok, ex.docTokens)|
    && (forall k :: 0 <= k < |tokToOrig| ==> InWord(tok, ex.docTokens, tokToOrig[k], k))
    && (ex.answer.Span? ==> IsTokSpan(tok, ex, s, e))
    && AreFeatures(tok, ex, exampleIndex, uniqueId, maxSeqLength, query, tokToOrig, spans, s, e, features, |spans|)
  }

  /** The features follow from some windows, word indexes and answer span. */
  ghost predicate Converts(
    tok: Tokenizer, ex: SquadExample, exampleIndex: nat, uniqueId: int, maxSeqLength: nat, docStride: int,
    query: seq<string>, features: seq<Feature>)
    requires ValidAnswer(ex)
  {
    exists spans, tokToOrig, s, e ::
      IsConversion(tok, ex, exampleIndex, uniqueId, maxSeqLength, docStride, query, spans, tokToOrig, s, e, features)
  }

  lemma ConversionFound(
    tok: Tokenizer, ex: SquadExample, exampleIndex: nat, uniqueId: int, maxSeqLength: nat, docStride: int,
    query: seq<string>, spans: seq<DocSpan>, tokToOrig: seq<nat>, s: int, e: int, features: seq<Feature>)
    requires ValidAnswer(ex) && |query| + 3 < maxSeqLength
    requires Tiling(spans, |FlatMap(tok, ex.docTokens)|, maxSeqLength - |query| - 3,
                    Min(maxSeqLength - |query| - 3, docStride))
    requires |tokToOrig| == |FlatMap(tok, ex.docTokens)|
    requires forall k :: 0 <= k < |tokToOrig| ==> InWord(tok, ex.docTokens, tokToOrig[k], k)
    requires ex.answer.Span? ==> IsTokSpan(tok, ex, s, e)
    requires AreFeatures(tok, ex, exampleIndex, uniqueId, maxSeqLength, query, tokToOrig, spans, s, e, features,
                         |spans|)
    ensures Converts(tok, ex, exampleIndex, uniqueId, maxSeqLength, docStride, query, features)
  {
    assert IsConversion(tok, ex, exampleIndex, uniqueId, maxSeqLength, docStride, query, spans, tokToOrig, s, e,
                        features);
  }

  method ConvertExample(
    tok: Tokenizer, ex: SquadExample, exampleIndex: nat, uniqueId: int, maxSeqLength: nat, docStride: int,
    maxQueryLength: nat)
    returns (features: seq<Feature>)
    requires maxSeqLength > maxQueryLength + 3 && docStride >= 1 && ValidAnswer(ex)
    ensures Converts(tok, ex, exampleIndex, uniqueId, maxSeqLength, docStride, Query(tok, ex, maxQueryLength), features)
  {
    var query := tok(ex.questionText);
    if |query| > maxQueryLength {
      query := query[..maxQueryLength];
    }
    var tokToOrig, origToTok, pieces := IndexPieces(tok, ex.docTokens);
    var tokStart, tokEnd := -1, -1;
    if ex.answer.Span? {
      tokStart, tokEnd := AnswerPieces(tok, ex, origToTok, pieces);
    }
    var maxTokensForDoc := maxSeqLength - |query| - 3;
    var docSpans := DocSpans(|pieces|, maxTokensForDoc, docStride);
    features := MakeFeatures(tok, ex, exampleIndex, uniqueId, maxSeqLength, query, pieces, tokToOrig, docSpans,
                             Min(maxTokensForDoc, docStride), tokStart, tokEnd);
    ConversionFound(tok, ex, exampleIndex, uniqueId, maxSeqLength, docStride, query, docSpans, tokToOrig, tokStart,
                    tokEnd, features);
  }

  /** The window loop. */
  method MakeFeatures(
    tok: Tokenizer, ex: SquadExample, exampleIndex: nat, uniqueId: int, maxSeqLength: nat, query: seq<string>,
    pieces: seq<string>, tokToOrig: seq<nat>, docSpans: seq<DocSpan>, ghost step: int, tokStart: int, tokEnd: int)
    returns (features: seq<Feature>)
    requires pieces == FlatMap(tok, ex.docTokens) && |tokToOrig| == |pieces|
    requires Tiling(docSpans, |pieces|, maxSeqLength - |query| - 3, step)
    ensures AreFeatures(tok, ex, exampleIndex, uniqueId, maxSeqLength, query, tokToOrig, docSpans, tokStart, tokEnd,
                        features, |docSpans|)
  {
    features := [];
    for k := 0 to |docSpans|
      invariant AreFeatures(tok, ex, exampleIndex, uniqueId, maxSeqLength, query, tokToOrig, docSpans, tokStart, tokEnd,
                            features, k)
    {
      WindowInside(docSpans, |pieces|, maxSeqLength - |query| - 3, step, k);
      var f := MakeFeature(tok, ex, exampleIndex, uniqueId + k, maxSeqLength, query, pieces, tokToOrig, docSpans, k,
                           tokStart, tokEnd);
      features := features + [f];
    }
  }

  // ---------- the label path ----------

  /** The improved span stays inside the pieces of the annotated words. */
  lemma TokSpanInside(tok: Tokenizer, ex: SquadExample, s: int, e: int)
    requires ex.answer.Span? && ValidAnswer(ex) && IsTokSpan(tok, ex, s, e)
    requires FirstPiece(tok, ex) < PastLastPiece(tok, ex)
    ensures FirstPiece(tok, ex) <= s <= e < PastLastPiece(tok, ex)
    ensures e < |FlatMap(tok, ex.docTokens)|
  {
    AnswerPiecesInside(tok, ex);
  }

  /** If the answer's text has the pieces of the annotated words, the improved span is all of these pieces. */
  lemma WholeWordsAreLabelled(tok: Tokenizer, ex: SquadExample, answer: seq<string>, s: int, e: int)
    requires ex.answer.Span? && ValidAnswer(ex) && IsTokSpan(tok, ex, s, e)
    requires 0 <= ex.answer.startPosition <= ex.answer.endPosition
    requires answer == FlatMap(tok, ex.docTokens[ex.answer.startPosition..ex.answer.endPosition + 1]) && answer != []
    requires Join(tok(ex.answer.text)) == Join(answer)
    ensures 0 <= s <= e < |FlatMap(tok, ex.docTokens)| && FlatMap(tok, ex.docTokens)[s..e + 1] == answer
  {
    PiecesBetween(tok, ex.docTokens, ex.answer.startPosition, ex.answer.endPosition + 1);
    FullRangeIsImproved(FlatMap(tok, ex.docTokens), Join(tok(ex.answer.text)),
                        WordStart(tok, ex.docTokens, ex.answer.startPosition),
                        WordStart(tok, ex.docTokens, ex.answer.endPosition + 1) - 1, answer, s, e);
  }

  /** A match of the whole range is not improved on. */
  lemma FullRangeIsImproved(
    pieces: seq<string>, text: string, first: int, last: int, answer: seq<string>, s: int, e: int)
    requires 0 <= first <= last < |pieces| && pieces[first..last + 1] == answer && Join(answer) == text
    requires IsImproved(pieces, text, first, last, s, e)
    ensures s == first && e == last
  {
    assert Matches(pieces, text, first, last);
  }

  /** An answer with pieces does not end before it starts. */
  lemma PiecesMeanForward(tok: Tokenizer, ex: SquadExample)
    requires ex.answer.Span? && ValidAnswer(ex) && FirstPiece(tok, ex) < PastLastPiece(tok, ex)
    ensures FirstWord(ex) <= ex.answer.endPosition
  {
    if ex.answer.endPosition < FirstWord(ex) {
      WordStartMonotone(tok, ex.docTokens, ex.answer.endPosition + 1, FirstWord(ex));
    }
  }

  /**
   In a window that contains a span of the answer's pieces, such as the improved one, the labelled tokens
   are exactly these pieces and lead back only to words of the annotated range.
   */
  lemma LabelPath(
    tok: Tokenizer, ex: SquadExample, query: seq<string>, tokToOrig: seq<nat>, spans: seq<DocSpan>,
    maxSeqLength: nat, s: int, e: int, k: nat, f: Feature)
    requires ex.answer.Span? && ValidAnswer(ex)
    requires FirstPiece(tok, ex) <= s <= e < PastLastPiece(tok, ex)
    requires IsFeature(tok, ex, query, tokToOrig, spans, maxSeqLength, s, e, k, f) && spans[k].Contains(s, e)
    requires forall i :: 0 <= i < |tokToOrig| ==> InWord(tok, ex.docTokens, tokToOrig[i], i)
    ensures 0 < f.startPosition <= f.endPosition < |f.tokens| && e < |FlatMap(tok, ex.docTokens)|
    ensures f.tokens[f.startPosition..f.endPosition + 1] == FlatMap(tok, ex.docTokens)[s..e + 1]
    ensures forall i :: f.startPosition <= i <= f.endPosition ==>
              && i in f.tokenToOrigMap
              && ex.answer.startPosition <= f.tokenToOrigMap[i] <= ex.answer.endPosition
              && (ex.answer.startPosition == -1 ==> f.tokenToOrigMap[i] == |ex.docTokens| - 1)
  {
    LabelledTokens(query, FlatMap(tok, ex.docTokens), spans[k], s, e, f.tokens);
    PiecesMeanForward(tok, ex);
    LabelledWords(tok, ex.docTokens, tokToOrig, spans, k, |query|, f, s, e, FirstWord(ex), ex.answer.endPosition);
  }

  /** The pieces `s..e` of a window lead back only to words `first..last`. */
  lemma LabelledWords(
    tok: Tokenizer, words: seq<string>, tokToOrig: seq<nat>, spans: seq<DocSpan>, k: nat, queryLength: nat, f: Feature,
    s: int, e: int, first: nat, last: nat)
    requires k < |spans| && MapsWindow(spans, k, queryLength, tokToOrig, spans[k].length, f.tokenToOrigMap,
                                       f.tokenIsMaxContext)
    requires forall p :: 0 <= p < |tokToOrig| ==> InWord(tok, words, tokToOrig[p], p)
    requires first <= last < |words| && spans[k].Contains(s, e)
    requires WordStart(tok, words, first) <= s <= e < WordStart(tok, words, last + 1)
    ensures forall i :: s <= i - queryLength - 2 + spans[k].start <= e ==>
              i in f.tokenToOrigMap && first <= f.tokenToOrigMap[i] <= last
  {
    forall i | s <= i - queryLength - 2 + spans[k].start <= e
      ensures i in f.tokenToOrigMap && first <= f.tokenToOrigMap[i] <= last
    {
      LabelledWord(tok, words, tokToOrig, spans, k, queryLength, f.tokenToOrigMap, f.tokenIsMaxContext, i, first, last);
    }
  }

  lemma LabelledWord(
    tok: Tokenizer, words: seq<string>, tokToOrig: seq<nat>, spans: seq<DocSpan>, k: nat, queryLength: nat,
    toOrig: map<int, nat>, isMax: map<int, bool>, i: int, first: nat, last: nat)
    requires k < |spans| && MapsWindow(spans, k, queryLength, tokToOrig, spans[k].length, toOrig, isMax)
    requires forall p :: 0 <= p < |tokToOrig| ==> InWord(tok, words, tokToOrig[p], p)
    requires InDocument(queryLength, spans[k], i) && first <= last < |words|
    requires WordStart(tok, words, first) <= spans[k].start + i - queryLength - 2 < WordStart(tok, words, last + 1)
    ensures i in toOrig && first <= toOrig[i] <= last
  {
    var p := spans[k].start + i - queryLength - 2;
    WindowLookup(spans, k, queryLength, tokToOrig, toOrig, isMax, i);
    WordWithin(tok, words, tokToOrig[p], p, first, last);
  }

  lemma LabelledTokens(query: seq<string>, pieces: seq<string>, span: DocSpan, s: int, e: int, tokens: seq<string>)
    requires span.start <= s <= e <= span.End() < |pieces|
    requires tokens == ["[CLS]"] + query + ["[SEP]"] + pieces[span.start..span.start + span.length] + ["[SEP]"]
    ensures var from, to := s - span.start + |query| + 2, e - span.start + |query| + 2;
            to < |tokens| && tokens[from..to + 1] == pieces[s..e + 1]
  {
    var window := pieces[span.start..span.start + span.length];
    var from, to := s - span.start + |query| + 2, e - span.start + |query| + 2;
    forall i | s <= i <= e ensures pieces[i] == tokens[from..to + 1][i - s] {
      assert tokens[from + i - s] == window[i - span.start];
    }
  }

  /** A piece between two word starts belongs to a word between them. */
  lemma WordWithin(tok: Tokenizer, words: seq<string>, w: nat, p: nat, first: nat, last: nat)
    requires InWord(tok, words, w, p) && first <= last < |words|
    requires WordStart(tok, words, first) <= p < WordStart(tok, words, last + 1)
    ensures first <= w <= last
  {
    if w < first { WordStartMonotone(tok, words, w + 1, first); }
    if w > last { WordStartMonotone(tok, words, last + 1, w); }
  }

  /**
   An answer of at most `size - step + 1` pieces keeps its label in some feature, so windowing never
   loses a short answer.
   */
  lemma SomeFeatureKeepsLabel(
    tok: Tokenizer, ex: SquadExample, query: seq<string>, tokToOrig: seq<nat>, spans: seq<DocSpan>,
    maxSeqLength: nat, size: int, step: int, s: int, e: int, features: seq<Feature>)
    requires ex.answer.Span? && ValidAnswer(ex) && IsTokSpan(tok, ex, s, e)
    requires FirstPiece(tok, ex) < PastLastPiece(tok, ex)
    requires Tiling(spans, |FlatMap(tok, ex.docTokens)|, size, step) && 1 <= step <= size
    requires |features| == |spans|
    requires forall k :: 0 <= k < |features| ==>
        IsFeature(tok, ex, query, tokToOrig, spans, maxSeqLength, s, e, k, features[k])
    requires e - s + 1 <= size - step + 1
    ensures exists k :: 0 <= k < |features| && features[k].startPosition > 0 &&
                        features[k].endPosition - features[k].startPosition == e - s
  {
    TokSpanInside(tok, ex, s, e);
    var n := |FlatMap(tok, ex.docTokens)|;
    var w := SpanFits(spans, n, size, step, s, e, 0);
    assert IsFeature(tok, ex, query, tokToOrig, spans, maxSeqLength, s, e, w, features[w]);
  }

  // ---------- all examples ----------

  const FIRST_UNIQUE_ID := 1000000000

  lemma ConvertedIds(
    tok: Tokenizer, ex: SquadExample, exampleIndex: nat, uniqueId: int, maxSeqLength: nat, docStride: int,
    query: seq<string>, features: seq<Feature>)
    requires ValidAnswer(ex) && Converts(tok, ex, exampleIndex, uniqueId, maxSeqLength, docStride, query, features)
    ensures forall k :: 0 <= k < |features| ==>
        features[k].uniqueId == uniqueId + k && features[k].exampleIndex == exampleIndex
  {
    var spans, tokToOrig, s, e :|
      IsConversion(tok, ex, exampleIndex, uniqueId, maxSeqLength, docStride, query, spans, tokToOrig, s, e, features);
  }

  /** `features[from..to]` are the features of the `i`-th example. */
  ghost predicate ConvertedAt(
    tok: Tokenizer, ex: SquadExample, i: nat, maxSeqLength: nat, docStride: int, maxQueryLength: nat,
    features: seq<Feature>, from: nat, to: nat)
  {
    && ValidAnswer(ex) && from <= to <= |features|
    && Converts(tok, ex, i, FIRST_UNIQUE_ID + from, maxSeqLength, docStride, Query(tok, ex, maxQueryLength),
                features[from..to])
  }

  /** Where the features of the first `upTo` examples begin and end. */
  ghost predicate AreCuts(
    tok: Tokenizer, examples: seq<SquadExample>, upTo: nat, maxSeqLength: nat, docStride: int, maxQueryLength: nat,
    features: seq<Feature>, cuts: seq<nat>)
  {
    && upTo <= |examples| && |cuts| == upTo + 1 && cuts[0] == 0 && cuts[upTo] == |features|
    && forall i :: 0 <= i < upTo ==>
         ConvertedAt(tok, examples[i], i, maxSeqLength, docStride, maxQueryLength, features, cuts[i], cuts[i + 1])
  }

  /** The features are those of the examples, one example after another. */
  ghost predicate ConvertsAll(
    tok: Tokenizer, examples: seq<SquadExample>, maxSeqLength: nat, docStride: int, maxQueryLength: nat,
    features: seq<Feature>)
  {
    exists cuts :: AreCuts(tok, examples, |examples|, maxSeqLength, docStride, maxQueryLength, features, cuts)
  }

  lemma StillConvertedAt(
    tok: Tokenizer, ex: SquadExample, i: nat, maxSeqLength: nat, docStride: int, maxQueryLength: nat,
    features: seq<Feature>, from: nat, to: nat, more: seq<Feature>)
    requires ConvertedAt(tok, ex, i, maxSeqLength, docStride, maxQueryLength, features, from, to)
    ensures ConvertedAt(tok, ex, i, maxSeqLength, docStride, maxQueryLength, features + more, from, to)
  {
    assert (features + more)[from..to] == features[from..to];
  }

  lemma NewlyConvertedAt(
    tok: Tokenizer, ex: SquadExample, i: nat, maxSeqLength: nat, docStride: int, maxQueryLength: nat,
    features: seq<Feature>, more: seq<Feature>)
    requires ValidAnswer(ex)
    requires Converts(tok, ex, i, FIRST_UNIQUE_ID + |features|, maxSeqLength, docStride, Query(tok, ex, maxQueryLength),
                      more)
    ensures ConvertedAt(tok, ex, i, maxSeqLength, docStride, maxQueryLength, features + more, |features|,
                        |features + more|)
  {
    assert (features + more)[|features|..|features + more|] == more;
  }

  lemma CutsExtend(
    tok: Tokenizer, examples: seq<SquadExample>, i: nat, maxSeqLength: nat, docStride: int, maxQueryLength: nat,
    features: seq<Feature>, cuts: seq<nat>, more: seq<Feature>)
    requires AreCuts(tok, examples, i, maxSeqLength, docStride, maxQueryLength, features, cuts) && i < |examples|
    requires ValidAnswer(examples[i])
    requires Converts(tok, examples[i], i, FIRST_UNIQUE_ID + |features|, maxSeqLength, docStride,
                      Query(tok, examples[i], maxQueryLength), more)
    ensures AreCuts(tok, examples, i + 1, maxSeqLength, docStride, maxQueryLength, features + more,
                    cuts + [|features + more|])
  {
    var cuts' := cuts + [|features + more|];
    forall k | 0 <= k < i + 1
      ensures ConvertedAt(tok, examples[k], k, maxSeqLength, docStride, maxQueryLength, features + more, cuts'[k],
                          cuts'[k + 1])
    {
      if k < i {
        StillConvertedAt(tok, examples[k], k, maxSeqLength, docStride, maxQueryLength, features, cuts[k], cuts[k + 1],
                         more);
      } else {
        NewlyConvertedAt(tok, examples[i], i, maxSeqLength, docStride, maxQueryLength, features, more);
      }
    }
  }

  method ConvertExamples(
    tok: Tokenizer, examples: seq<SquadExample>, maxSeqLength: nat, docStride: int, maxQueryLength: nat)
    returns (features: seq<Feature>)
    requires maxSeqLength > maxQueryLength + 3 && docStride >= 1 && AllValid(examples)
    ensures ConvertsAll(tok, examples, maxSeqLength, docStride, maxQueryLength, features)
  {
    features := [];
    ghost var cuts: seq<nat> := [0];
    for i := 0 to |examples|
      invariant AreCuts(tok, examples, i, maxSeqLength, docStride, maxQueryLength, features, cuts)
    {
      var more := ConvertExample(tok, examples[i], i, FIRST_UNIQUE_ID + |features|, maxSeqLength, docStride,
                                 maxQueryLength);
      CutsExtend(tok, examples, i, maxSeqLength, docStride, maxQueryLength, features, cuts, more);
      features := features + more;
      cuts := cuts + [|features|];
    }
  }

  /** Consecutive ids, and example indexes in order below `bound`. */
  ghost predicate Numbered(features: seq<Feature>, bound: nat) {
    && (forall k :: 0 <= k < |features| ==> features[k].uniqueId == 1000000000 + k)
    && (forall k :: 0 <= k < |features| ==> features[k].exampleIndex < bound)
    && (forall j, k :: 0 <= j < k < |features| ==> features[j].exampleIndex <= features[k].exampleIndex)
  }

  ghost predicate NumberedFrom(features: seq<Feature>, m: nat, exampleIndex: nat) {
    forall k :: m <= k < |features| ==>
        features[k].uniqueId == FIRST_UNIQUE_ID + k && features[k].exampleIndex == exampleIndex
  }

  lemma NumberedExtends(features: seq<Feature>, m: nat, bound: nat)
    requires m <= |features| && Numbered(features[..m], bound) && NumberedFrom(features, m, bound)
    ensures Numbered(features, bound + 1)
  {
    assert forall k :: 0 <= k < m ==> features[..m][k] == features[k];
  }

  lemma ConvertedAtIds(
    tok: Tokenizer, ex: SquadExample, i: nat, maxSeqLength: nat, docStride: int, maxQueryLength: nat,
    features: seq<Feature>, from: nat, to: nat)
    requires ConvertedAt(tok, ex, i, maxSeqLength, docStride, maxQueryLength, features, from, to)
    ensures NumberedFrom(features[..to], from, i)
  {
    ConvertedIds(tok, ex, i, FIRST_UNIQUE_ID + from, maxSeqLength, docStride, Query(tok, ex, maxQueryLength),
                 features[from..to]);
    forall k | from <= k < to
      ensures features[..to][k].uniqueId == FIRST_UNIQUE_ID + k && features[..to][k].exampleIndex == i
    {
      assert features[..to][k] == features[from..to][k - from];
    }
  }

  lemma {:induction false} NumberedUpTo(
    tok: Tokenizer, examples: seq<SquadExample>, maxSeqLength: nat, docStride: int, maxQueryLength: nat,
    features: seq<Feature>, cuts: seq<nat>, n: nat)
    requires AreCuts(tok, examples, |examples|, maxSeqLength, docStride, maxQueryLength, features, cuts) &&
        n <= |examples|
    ensures cuts[n] <= |features| && Numbered(features[..cuts[n]], n)
  {
    if n > 0 {
      NumberedUpTo(tok, examples, maxSeqLength, docStride, maxQueryLength, features, cuts, n - 1);
      var from, to := cuts[n - 1], cuts[n];
      assert ConvertedAt(tok, examples[n - 1], n - 1, maxSeqLength, docStride, maxQueryLength, features, from,
                         cuts[n - 1 + 1]);
      ConvertedAtIds(tok, examples[n - 1], n - 1, maxSeqLength, docStride, maxQueryLength, features, from, to);
      assert features[..to][..from] == features[..from];
      NumberedExtends(features[..to], from, n - 1);
    }
  }

  /** Over all examples ids are consecutive and the examples appear in order. */
  lemma IdsAreConsecutive(
    tok: Tokenizer, examples: seq<SquadExample>, maxSeqLength: nat, docStride: int, maxQueryLength: nat,
    features: seq<Feature>)
    requires ConvertsAll(tok, examples, maxSeqLength, docStride, maxQueryLength, features)
    ensures Numbered(features, |examples|)
  {
    var cuts :| AreCuts(tok, examples, |examples|, maxSeqLength, docStride, maxQueryLength, features, cuts);
    NumberedUpTo(tok, examples, maxSeqLength, docStride, maxQueryLength, features, cuts, |examples|);
    assert features[..|features|] == features;
  }
}
