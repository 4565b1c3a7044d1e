/**
 A whole evaluation: annotated paragraphs become examples (`read_squad_examples`), examples become features
 (`convert_examples_to_features`), the asynchronous client fetches their logits (`run_client`), and
 `write_predictions` answers example by example.
 */
module Evaluation {
  import opened Wrappers
  import opened Text
  import opened BasicTokenizer
  import opened WordPiece
  import opened Features
  import opened NBest
  import opened Pipeline
  import opened AsyncClient
  import SquadExamples

  // ---------- from paragraphs to examples ----------

  /** The words of the paragraph, and the words its character map gives for the answer. */
  function AnnotatedExample(question: string, text: string, answer: string, offset: nat): SquadExample
    requires SquadExamples.InText(text, offset, |answer|)
  {
    SquadExample(question, Words(SquadExamples.DocWs(), text),
                 Span(SquadExamples.WordOffset(text, offset),
                      SquadExamples.WordOffset(text, SquadExamples.LastIndex(text, offset, |answer|)), answer))
  }

  /** Every example with a word can be converted, wherever its answer was found to lie; its words hold no space. */
  lemma AnnotatedExampleIsValid(question: string, text: string, answer: string, offset: nat)
    requires SquadExamples.InText(text, offset, |answer|) && Words(SquadExamples.DocWs(), text) != []
    ensures ValidAnswer(AnnotatedExample(question, text, answer, offset))
    ensures forall k :: 0 <= k < |Words(SquadExamples.DocWs(), text)| ==> Words(SquadExamples.DocWs(), text)[k] != ""
    ensures NoSpaces(Words(SquadExamples.DocWs(), text))
  {
    SquadExamples.OffsetsAscend(text, offset, offset);
    var last := SquadExamples.LastIndex(text, offset, |answer|);
    SquadExamples.OffsetsAscend(text, last, last);
    WordsAreWords(SquadExamples.DocWs(), text);
    assert forall k :: 0 <= k < |Words(SquadExamples.DocWs(), text)| ==>
             IsWord(SquadExamples.DocWs(), Words(SquadExamples.DocWs(), text)[k]);
  }

  // ---------- from the client's replies to results ----------

  /** Consecutive ids are distinct. */
  lemma NumberedAreDistinct(features: seq<Feature>, bound: nat)
    requires Numbered(features, bound)
    ensures DistinctIds(features)
  {
  }

  /** The server answers every row, with some logits. */
  ghost predicate ServesLogits(serve: Batch -> seq<RawResult>) {
    forall b: Batch :: |serve(b)| == |b| &&
      forall i :: 0 <= i < |b| ==> serve(b)[i].startLogits != [] && serve(b)[i].endLogits != []
  }

  /** The client's final map has logits for every feature, as prediction asks. */
  lemma ClientGivesResults(
    features: seq<Feature>, batches: seq<Batch>, serve: Batch -> seq<RawResult>, m: map<int, RawResult>)
    requires Flatten(batches) == features && ServesLogits(serve) && AllRowsAnswered(batches, serve, m)
    ensures HasResults(features, m)
  {
    forall at | 0 <= at < |features|
      ensures features[at].uniqueId in m
      ensures m[features[at].uniqueId].startLogits != [] && m[features[at].uniqueId].endLogits != []
    {
      var k, i := RowOfFlatten(batches, at);
      assert LooksUp(m, batches[k][i].uniqueId, serve(batches[k])[i]);
    }
  }

  // ---------- the features of one example ----------

  /** `example_index_to_features[i]`. */
  function FeaturesOf(features: seq<Feature>, i: nat): seq<Feature> {
    if features == [] then []
    else
      var last := features[|features| - 1];
      FeaturesOf(features[..|features| - 1], i) + if last.exampleIndex == i then [last] else []
  }

  method CollectFeatures(features: seq<Feature>, i: nat) returns (own: seq<Feature>)
    ensures own == FeaturesOf(features, i)
  {
    own := [];
    for k := 0 to |features|
      invariant own == FeaturesOf(features[..k], i)
    {
      assert features[..k + 1][..k] == features[..k];
      if features[k].exampleIndex == i {
        own := own + [features[k]];
      }
    }
    assert features[..|features|] == features;
  }

  lemma {:induction false} FeaturesOfConcat(a: seq<Feature>, b: seq<Feature>, i: nat)
    ensures FeaturesOf(a + b, i) == FeaturesOf(a, i) + FeaturesOf(b, i)
  {
    if b == [] {
      assert a + b == a;
    } else {
      assert (a + b)[..|a + b| - 1] == a + b[..|b| - 1];
      FeaturesOfConcat(a, b[..|b| - 1], i);
    }
  }

  lemma {:induction false} FeaturesOfOne(features: seq<Feature>, index: nat, i: nat)
    requires forall k :: 0 <= k < |features| ==> features[k].exampleIndex == index
    ensures FeaturesOf(features, i) == if i == index then features else []
  {
    if features != [] { FeaturesOfOne(features[..|features| - 1], index, i); }
  }

  lemma {:induction false} FeaturesOfBelow(features: seq<Feature>, bound: nat, i: nat)
    requires forall k :: 0 <= k < |features| ==> features[k].exampleIndex < bound
    ensures i >= bound ==> FeaturesOf(features, i) == []
  {
    if features != [] { FeaturesOfBelow(features[..|features| - 1], bound, i); }
  }

  /** Filtering features of which those from `m` on belong to example `n` and those before to earlier ones. */
  lemma FilterSplit(features: seq<Feature>, m: nat, n: nat, i: nat)
    requires m <= |features| && Numbered(features[..m], n) && NumberedFrom(features, m, n)
    ensures i < n ==> FeaturesOf(features, i) == FeaturesOf(features[..m], i)
    ensures i == n ==> FeaturesOf(features, i) == features[m..]
  {
    var before, own := features[..m], features[m..];
    assert features == before + own;
    FeaturesOfConcat(before, own, i);
    assert forall k :: 0 <= k < |own| ==> own[k] == features[m + k];
    FeaturesOfOne(own, n, i);
    FeaturesOfBelow(before, n, i);
  }

  /** The features of example `i` are those between its cuts, however many examples follow. */
  lemma {:induction false} OwnBetweenCuts(
    tok: Features.Tokenizer, examples: seq<SquadExample>, maxSeqLength: nat, docStride: int, maxQueryLength: nat,
    features: seq<Feature>, cuts: seq<nat>, i: nat, n: nat)
    requires AreCuts(tok, examples, |examples|, maxSeqLength, docStride, maxQueryLength, features, cuts)
    requires i < n <= |examples|
    ensures cuts[i] <= cuts[i + 1] <= |features| && cuts[n] <= |features|
    ensures FeaturesOf(features[..cuts[n]], i) == features[cuts[i]..cuts[i + 1]]
    decreases n
  {
    var from, to := cuts[n - 1], cuts[n];
    NumberedUpTo(tok, examples, maxSeqLength, docStride, maxQueryLength, features, cuts, n - 1);
    assert ConvertedAt(tok, examples[n - 1], n - 1, maxSeqLength, docStride, maxQueryLength, features, from,
                       cuts[n - 1 + 1]);
    ConvertedAtIds(tok, examples[n - 1], n - 1, maxSeqLength, docStride, maxQueryLength, features, from, to);
    assert features[..to][..from] == features[..from];
    FilterSplit(features[..to], from, n - 1, i);
    if i < n - 1 {
      OwnBetweenCuts(tok, examples, maxSeqLength, docStride, maxQueryLength, features, cuts, i, n - 1);
    }
  }

  /** The features that carry an example's index are the ones it was converted to. */
  lemma FeaturesOfExample(
    tok: Features.Tokenizer, examples: seq<SquadExample>, maxSeqLength: nat, docStride: int, maxQueryLength: nat,
    features: seq<Feature>, i: nat)
    returns (uniqueId: int)
    requires ConvertsAll(tok, examples, maxSeqLength, docStride, maxQueryLength, features) && i < |examples|
    ensures ValidAnswer(examples[i])
    ensures Converts(tok, examples[i], i, uniqueId, maxSeqLength, docStride, Query(tok, examples[i], maxQueryLength),
                     FeaturesOf(features, i))
  {
    var cuts :| AreCuts(tok, examples, |examples|, maxSeqLength, docStride, maxQueryLength, features, cuts);
    OwnBetweenCuts(tok, examples, maxSeqLength, docStride, maxQueryLength, features, cuts, i, |examples|);
    assert features[..|features|] == features;
    assert ConvertedAt(tok, examples[i], i, maxSeqLength, docStride, maxQueryLength, features, cuts[i], cuts[i + 1]);
    uniqueId := FIRST_UNIQUE_ID + cuts[i];
  }

  lemma {:induction false} FeaturesOfAreFeatures(features: seq<Feature>, results: map<int, RawResult>, i: nat)
    requires HasResults(features, results)
    ensures HasResults(FeaturesOf(features, i), results)
  {
    if features != [] {
      var init := features[..|features| - 1];
      assert HasResults(init, results) by {
        assert forall k :: 0 <= k < |init| ==> init[k] == features[k];
      }
      FeaturesOfAreFeatures(init, results, i);
    }
  }

  // ---------- the evaluation ----------

  datatype Prediction = Prediction(answer: Option<string>, nbest: seq<Entry>, nul: NullScore)

  /** Examples as `read_squad_examples` leaves them; in version 2 mode no document is empty. */
  ghost predicate Readable(tok: Features.Tokenizer, ex: SquadExample, version2: bool) {
    && ValidAnswer(ex) && (forall k :: 0 <= k < |ex.docTokens| ==> ex.docTokens[k] != "")
    && (version2 ==> FlatMap(tok, ex.docTokens) != [])
  }

  ghost predicate Predicts(
    u: Unicode, doLowerCase: bool, ex: SquadExample, own: seq<Feature>, results: map<int, RawResult>, choice: Choice,
    p: Prediction)
  {
    && HasResults(own, results)
    && IsPrediction(own, results, choice, PredictionText(u, doLowerCase, ex.docTokens, own), p.answer, p.nbest, p.nul)
    && CandidatesAreGood(u, doLowerCase, ex.docTokens, own, choice.maxAnswerLength)
  }

  ghost predicate AllReadable(tok: Features.Tokenizer, examples: seq<SquadExample>, version2: bool) {
    forall i :: 0 <= i < |examples| ==> Readable(tok, examples[i], version2)
  }

  lemma ReadableAreValid(tok: Features.Tokenizer, examples: seq<SquadExample>, version2: bool)
    requires AllReadable(tok, examples, version2)
    ensures AllValid(examples)
  {
    forall i | 0 <= i < |examples| ensures ValidAnswer(examples[i]) {
      assert Readable(tok, examples[i], version2);
    }
  }

  /** Each of the first `upTo` examples is answered from exactly its own features. */
  ghost predicate PredictsAll(
    u: Unicode, doLowerCase: bool, examples: seq<SquadExample>, features: seq<Feature>, results: map<int, RawResult>,
    choice: Choice, predictions: seq<Prediction>, upTo: nat)
  {
    && |predictions| == upTo <= |examples|
    && forall i :: 0 <= i < upTo ==>
         Predicts(u, doLowerCase, examples[i], FeaturesOf(features, i), results, choice, predictions[i])
  }

  /** The results are those that the server has for the rows of the features, in batches. */
  ghost predicate Served(
    features: seq<Feature>, batchSize: nat, serve: Batch -> seq<RawResult>, results: map<int, RawResult>)
  {
    exists batches ::
      IsBatching(features, batchSize, batches) && AllRowsAnswered(batches, serve, results)
  }

  /**
   The whole evaluation, for every vocabulary of the full tokenizer, every server and every order of its
   replies: each example is answered from exactly its own features and the logits of their own rows.
   */
  method Evaluate(
    u: Unicode, ghost vocab: Vocab, doLowerCase: bool, tok: Features.Tokenizer, examples: seq<SquadExample>,
    maxSeqLength: nat, docStride: int, maxQueryLength: nat, batchSize: nat, serve: Batch -> seq<RawResult>,
    choice: Choice)
    returns (features: seq<Feature>, results: map<int, RawResult>, predictions: seq<Prediction>)
    requires u.Valid() && maxSeqLength > maxQueryLength + 3 && docStride >= 1 && batchSize >= 1 && ServesLogits(serve)
    requires IsFull(tok, u, vocab, doLowerCase) && AllReadable(tok, examples, choice.version2)
    ensures ConvertsAll(tok, examples, maxSeqLength, docStride, maxQueryLength, features)
    ensures Served(features, batchSize, serve, results)
    ensures PredictsAll(u, doLowerCase, examples, features, results, choice, predictions, |examples|)
  {
    ReadableAreValid(tok, examples, choice.version2);
    features := ConvertExamples(tok, examples, maxSeqLength, docStride, maxQueryLength);
    IdsAreConsecutive(tok, examples, maxSeqLength, docStride, maxQueryLength, features);
    results := FetchResults(features, |examples|, batchSize, serve);
    predictions := PredictEach(u, vocab, doLowerCase, tok, examples, maxSeqLength, docStride, maxQueryLength, features,
                               results, choice);
  }

  /** `write_predictions`. */
  method PredictEach(
    u: Unicode, ghost vocab: Vocab, doLowerCase: bool, ghost tok: Features.Tokenizer, examples: seq<SquadExample>,
    ghost maxSeqLength: nat, ghost docStride: int, ghost maxQueryLength: nat, features: seq<Feature>,
    results: map<int, RawResult>, choice: Choice)
    returns (predictions: seq<Prediction>)
    requires u.Valid() && IsFull(tok, u, vocab, doLowerCase) && AllReadable(tok, examples, choice.version2)
    requires ConvertsAll(tok, examples, maxSeqLength, docStride, maxQueryLength, features)
    requires HasResults(features, results)
    ensures PredictsAll(u, doLowerCase, examples, features, results, choice, predictions, |examples|)
  {
    predictions := [];
    for i := 0 to |examples|
      invariant PredictsAll(u, doLowerCase, examples, features, results, choice, predictions, i)
    {
      assert Readable(tok, examples[i], choice.version2);
      var p := PredictOne(u, vocab, doLowerCase, tok, examples, maxSeqLength, docStride, maxQueryLength, features,
                          results, choice, i);
      PredictsOneMore(u, doLowerCase, examples, features, results, choice, predictions, i, p);
      predictions := predictions + [p];
    }
  }

  lemma PredictsOneMore(
    u: Unicode, doLowerCase: bool, examples: seq<SquadExample>, features: seq<Feature>, results: map<int, RawResult>,
    choice: Choice, predictions: seq<Prediction>, i: nat, p: Prediction)
    requires PredictsAll(u, doLowerCase, examples, features, results, choice, predictions, i) && i < |examples|
    requires Predicts(u, doLowerCase, examples[i], FeaturesOf(features, i), results, choice, p)
    ensures PredictsAll(u, doLowerCase, examples, features, results, choice, predictions + [p], i + 1)
  {
    forall k | 0 <= k < i + 1
      ensures Predicts(u, doLowerCase, examples[k], FeaturesOf(features, k), results, choice, (predictions + [p])[k])
    {
      assert k < i ==> (predictions + [p])[k] == predictions[k];
    }
  }

  method FetchResults(features: seq<Feature>, ghost bound: nat, batchSize: nat, serve: Batch -> seq<RawResult>)
    returns (results: map<int, RawResult>)
    requires Numbered(features, bound) && batchSize >= 1 && ServesLogits(serve)
    ensures HasResults(features, results) && Served(features, batchSize, serve, results)
  {
    NumberedAreDistinct(features, bound);
    var allResults, batches := RunClient(features, batchSize, serve);
    results := ResultMap(allResults);
    ClientGivesResults(features, batches, serve, results);
  }

  /** The same with the tokenizer itself. */
  method EvaluateFull(
    u: Unicode, vocab: Vocab, doLowerCase: bool, examples: seq<SquadExample>,
    maxSeqLength: nat, docStride: int, maxQueryLength: nat, batchSize: nat, serve: Batch -> seq<RawResult>,
    choice: Choice)
    returns (features: seq<Feature>, results: map<int, RawResult>, predictions: seq<Prediction>)
    requires u.Valid() && maxSeqLength > maxQueryLength + 3 && docStride >= 1 && batchSize >= 1 && ServesLogits(serve)
    requires AllReadable(Full(u, vocab, doLowerCase), examples, choice.version2)
    ensures PredictsAll(u, doLowerCase, examples, features, results, choice, predictions, |examples|)
    ensures Served(features, batchSize, serve, results)
  {
    FullIsFull(u, vocab, doLowerCase);
    features, results, predictions := Evaluate(
      u, vocab, doLowerCase, Full(u, vocab, doLowerCase), examples, maxSeqLength, docStride, maxQueryLength, batchSize,
      serve, choice);
  }

  /** The loop body of `write_predictions`. */
  method PredictOne(
    u: Unicode, ghost vocab: Vocab, doLowerCase: bool, ghost tok: Features.Tokenizer, examples: seq<SquadExample>,
    ghost maxSeqLength: nat, ghost docStride: int, ghost maxQueryLength: nat, features: seq<Feature>,
    results: map<int, RawResult>, choice: Choice, i: nat)
    returns (p: Prediction)
    requires u.Valid() && IsFull(tok, u, vocab, doLowerCase) && i < |examples|
    requires Readable(tok, examples[i], choice.version2) && HasResults(features, results)
    requires ConvertsAll(tok, examples, maxSeqLength, docStride, maxQueryLength, features)
    ensures Predicts(u, doLowerCase, examples[i], FeaturesOf(features, i), results, choice, p)
  {
    var own := CollectFeatures(features, i);
    FeaturesOfAreFeatures(features, results, i);
    ghost var uniqueId := FeaturesOfExample(tok, examples, maxSeqLength, docStride, maxQueryLength, features, i);
    var answer, nbest, nul := AnswerExample(
      u, vocab, doLowerCase, tok, examples[i], i, uniqueId, maxSeqLength, docStride,
      Query(tok, examples[i], maxQueryLength),
      own, results, choice);
    p := Prediction(answer, nbest, nul);
  }
}
