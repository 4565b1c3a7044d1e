/**
 `create_instances_from_document` (bert/create_pretraining_data.py): the chunking loop whose index can
 move backwards, next-sentence pairs, truncation and masking.
 */
module Instances {
  import opened Text
  import opened Draws
  import opened Truncation
  import opened Masking

  type Segment = seq<string>
  type Document = seq<Segment>

  /** Documents and segments as `create_training_instances` leaves them: none is empty. */
  ghost predicate ValidDocument(d: Document) {
    d != [] && forall i :: 0 <= i < |d| ==> d[i] != []
  }

  ghost predicate ValidCorpus(docs: seq<Document>) {
    docs != [] && forall k :: 0 <= k < |docs| ==> ValidDocument(docs[k])
  }

  datatype TrainingInstance = TrainingInstance(
    tokens: seq<string>, segmentIds: seq<int>, isRandomNext: bool, maskedLmPositions: seq<nat>,
    maskedLmLabels: seq<string>)

  /**
   Which segments of the document an instance used: `start..aEnd` for A, `aEnd..used` for an actual-next
   B; the segments `used..read` were read and put back.
   */
  datatype Chunk = Chunk(start: nat, aEnd: nat, used: nat, read: nat)

  /** Reading stopped at the first segment that reached the target length, or at the end of the document. */
  ghost predicate ReadEnough(document: Document, target: int, c: Chunk) {
    && c.start < c.read <= |document| && c.used <= c.read
    && (c.read < |document| ==> |Flatten(document[c.start..c.read])| >= target)
    && StillShort(document, c.start, c.read - 1, target)
  }

  ghost predicate StillShort(document: Document, start: nat, upTo: int, target: int) {
    upTo <= |document| && forall m :: start < m <= upTo ==> |Flatten(document[start..m])| < target
  }

  /** The chunks take up the document's first `upTo` segments exactly once, in order, each with a non-empty A. */
  ghost predicate Tiles(chunks: seq<Chunk>, upTo: nat) {
    && (chunks == [] ==> upTo == 0)
    && (chunks != [] ==> chunks[0].start == 0 && chunks[|chunks| - 1].used == upTo)
    && (forall k :: 0 <= k < |chunks| ==> chunks[k].start < chunks[k].aEnd <= chunks[k].used)
    && (forall k :: 0 < k < |chunks| ==> chunks[k - 1].used == chunks[k].start)
  }

  /** The segments the chunks used, one chunk after another. */
  ghost function UsedSegments(document: Document, chunks: seq<Chunk>): Document
    requires forall k :: 0 <= k < |chunks| ==> chunks[k].start <= chunks[k].used <= |document|
  {
    if chunks == [] then []
    else
      var last := chunks[|chunks| - 1];
      UsedSegments(document, chunks[..|chunks| - 1]) + document[last.start..last.used]
  }

  lemma {:induction false} TilesWithin(chunks: seq<Chunk>, upTo: nat, k: nat)
    requires Tiles(chunks, upTo) && k < |chunks|
    ensures chunks[k].used <= upTo
    decreases |chunks| - k
  {
    if k < |chunks| - 1 {
      TilesWithin(chunks, upTo, k + 1);
      assert chunks[k + 1 - 1].used == chunks[k + 1].start;
    }
  }

  /** Read off one after another, the used segments are the document. */
  lemma {:induction false} UsedSegmentsAreDocument(document: Document, chunks: seq<Chunk>, upTo: nat)
    requires Tiles(chunks, upTo) && upTo <= |document|
    ensures forall k :: 0 <= k < |chunks| ==> chunks[k].start <= chunks[k].used <= |document|
    ensures UsedSegments(document, chunks) == document[..upTo]
  {
    forall k | 0 <= k < |chunks| ensures chunks[k].used <= upTo { TilesWithin(chunks, upTo, k); }
    if chunks != [] {
      var init, last := chunks[..|chunks| - 1], chunks[|chunks| - 1];
      assert forall k :: 0 <= k < |init| ==> init[k] == chunks[k];
      assert init != [] ==> chunks[|chunks| - 1 - 1].used == last.start;
      UsedSegmentsAreDocument(document, init, last.start);
      assert document[..upTo] == document[..last.start] + document[last.start..upTo];
    }
  }

  // ---------- what an instance holds ----------

  /** `[CLS] A [SEP] B [SEP]`, with segment id 0 up to the first `[SEP]` and 1 from there on. */
  ghost predicate IsFrame(tokens: seq<string>, segmentIds: seq<int>, a: seq<string>, b: seq<string>) {
    && |tokens| == |segmentIds| == |a| + |b| + 3
    && tokens[0] == "[CLS]" && tokens[1..|a| + 1] == a && tokens[|a| + 1] == "[SEP]"
    && tokens[|a| + 2..|a| + |b| + 2] == b && tokens[|a| + |b| + 2] == "[SEP]"
    && (forall i :: 0 <= i < |segmentIds| ==> segmentIds[i] == if i < |a| + 2 then 0 else 1)
  }

  /** A stretch of a corpus document that stops at the first segment reaching `target` tokens, or at its end. */
  ghost predicate RandomStretch(docs: seq<Document>, target: int, r: int, from: nat, to: nat) {
    && 0 <= r < |docs| && from < to <= |docs[r]|
    && (to < |docs[r]| ==> |Flatten(docs[r][from..to])| >= target)
    && StillShort(docs[r], from, to - 1, target)
  }

  /** A pair whose B comes from a random stretch, sought long enough to bring A up to the target. */
  ghost predicate RandomPairOf(
    docs: seq<Document>, maxNumTokens: nat, target: int, a0: seq<string>, a: seq<string>, b: seq<string>)
  {
    exists r, from: nat, to: nat ::
      RandomStretch(docs, target - |a0|, r, from, to) && Truncates(a0, Flatten(docs[r][from..to]), maxNumTokens, a, b)
  }

  /** Non-empty A and B, truncated from two runs of segments or, for B, a random stretch instead. */
  ghost predicate FillsPair(
    docs: seq<Document>, maxNumTokens: nat, target: int, partA: seq<Segment>, partB: seq<Segment>, isRandomNext: bool,
    a: seq<string>, b: seq<string>)
  {
    && a != [] && b != [] && |a| + |b| <= maxNumTokens
    && (if isRandomNext then RandomPairOf(docs, maxNumTokens, target, Flatten(partA), a, b)
        else Truncates(Flatten(partA), Flatten(partB), maxNumTokens, a, b))
  }

  /** A and B made from the chunk's segments, or with a random stretch for B; what was not used is put back. */
  ghost predicate PairOf(
    docs: seq<Document>, document: Document, maxNumTokens: nat, target: int, c: Chunk, isRandomNext: bool,
    a: seq<string>, b: seq<string>)
  {
    && c.start < c.aEnd <= c.used <= c.read <= |document|
    && (c.read > c.start + 1 ==> c.aEnd < c.read)
    && (!isRandomNext ==> c.aEnd < c.used)
    && c.used == (if isRandomNext then c.aEnd else c.read)
    && FillsPair(docs, maxNumTokens, target, document[c.start..c.aEnd], document[c.aEnd..c.read], isRandomNext, a, b)
  }

  /** The masking settings; `rounded` gives `int(round(length * masked_lm_prob))`. */
  datatype Settings = Settings(wholeWord: bool, maxPredictions: int, rounded: nat -> int, vocabWords: seq<string>)

  /** The instance's tokens and labels come from masking these tokens. */
  ghost predicate MaskedFrom(settings: Settings, tokens: seq<string>, inst: TrainingInstance) {
    Masks(tokens, settings.wholeWord, {}, NumToPredict(settings.maxPredictions, settings.rounded(|tokens|)),
          settings.vocabWords, inst.tokens, inst.maskedLmPositions, inst.maskedLmLabels)
  }

  ghost predicate Framed(settings: Settings, a: seq<string>, b: seq<string>, inst: TrainingInstance) {
    exists tokens :: IsFrame(tokens, inst.segmentIds, a, b) && MaskedFrom(settings, tokens, inst)
  }

  /** The instance is that pair, framed and masked; its labels restore it. */
  ghost predicate InstanceOf(
    docs: seq<Document>, document: Document, maxNumTokens: nat, settings: Settings, target: int,
    c: Chunk, inst: TrainingInstance)
  {
    exists a, b ::
      PairOf(docs, document, maxNumTokens, target, c, inst.isRandomNext, a, b) && Framed(settings, a, b, inst)
  }

  ghost predicate Restores(inst: TrainingInstance, tokens: seq<string>) {
    && |inst.maskedLmPositions| == |inst.maskedLmLabels|
    && (forall k :: 0 <= k < |inst.maskedLmPositions| ==> inst.maskedLmPositions[k] < |inst.tokens|)
    && Restore(inst.tokens, inst.maskedLmPositions, inst.maskedLmLabels) == tokens
  }

  lemma MaskedIsWellFormed(settings: Settings, tokens: seq<string>, inst: TrainingInstance)
    requires MaskedFrom(settings, tokens, inst)
    ensures |inst.tokens| == |tokens| && Restores(inst, tokens) && Ascending(inst.maskedLmPositions)
    ensures inst.maskedLmPositions == [] || |inst.maskedLmPositions| <= settings.maxPredictions
  {
    var num := NumToPredict(settings.maxPredictions, settings.rounded(|tokens|));
    var shuffled :| IsShuffle(shuffled, tokens, settings.wholeWord, {}) &&
                    IsMasking(tokens, shuffled, num, settings.vocabWords, inst.tokens, inst.maskedLmPositions,
                              inst.maskedLmLabels);
    MaskedPositionsAscend(tokens, settings.wholeWord, shuffled, num, settings.vocabWords,
                          inst.tokens, inst.maskedLmPositions, inst.maskedLmLabels);
  }

  /**
   Every instance stays within the sequence length and masks ascending positions; writing its labels back
   gives `[CLS] A [SEP] B [SEP]` for the chunk's pair, whose segment ids it carries.
   */
  lemma InstanceIsWellFormed(
    docs: seq<Document>, document: Document, maxNumTokens: nat, settings: Settings, target: int,
    c: Chunk, inst: TrainingInstance)
    requires InstanceOf(docs, document, maxNumTokens, settings, target, c, inst)
    ensures |inst.tokens| == |inst.segmentIds| <= maxNumTokens + 3
    ensures Ascending(inst.maskedLmPositions)
    ensures inst.maskedLmPositions == [] || |inst.maskedLmPositions| <= settings.maxPredictions
    ensures exists a, b, t ::
              && PairOf(docs, document, maxNumTokens, target, c, inst.isRandomNext, a, b)
              && IsFrame(t, inst.segmentIds, a, b) && Restores(inst, t)
  {
    var a, b :| PairOf(docs, document, maxNumTokens, target, c, inst.isRandomNext, a, b) &&
        Framed(settings, a, b, inst);
    var t :| IsFrame(t, inst.segmentIds, a, b) && MaskedFrom(settings, t, inst);
    MaskedIsWellFormed(settings, t, inst);
  }

  // ---------- the steps of one instance ----------

  method ExtendAll(parts: seq<Segment>) returns (tokens: seq<string>)
    ensures tokens == Flatten(parts)
  {
    tokens := [];
    for j := 0 to |parts|
      invariant tokens == Flatten(parts[..j])
    {
      assert parts[..j + 1] == parts[..j] + [parts[j]];
      FlattenSnoc(parts[..j], parts[j]);
      tokens := tokens + parts[j];
    }
    assert parts[..|parts|] == parts;
  }

  lemma FlattenNonempty(d: Document, i: nat, j: nat)
    requires ValidDocument(d) && i < j <= |d|
    ensures Flatten(d[i..j]) != []
  {
    assert d[i..j][0] == d[i];
  }

  /** The random-next B: a stretch of some document, preferably another one. */
  method RandomNext(docs: seq<Document>, documentIndex: nat, targetBLength: int)
    returns (tokensB: seq<string>, ghost r: nat, ghost from: nat, ghost to: nat)
    requires ValidCorpus(docs) && documentIndex < |docs|
    ensures RandomStretch(docs, targetBLength, r, from, to)
    ensures tokensB == Flatten(docs[r][from..to]) && tokensB != []
  {
    var randomDocumentIndex := 0;
    for tries := 0 to 10
      invariant 0 <= randomDocumentIndex < |docs|
    {
      randomDocumentIndex := RandInt(0, |docs| - 1);
      if randomDocumentIndex != documentIndex {
        break;
      }
    }
    var randomDocument := docs[randomDocumentIndex];
    assert ValidDocument(randomDocument);
    var randomStart := RandInt(0, |randomDocument| - 1);
    var j;
    tokensB, j := ReadStretch(randomDocument, randomStart, targetBLength);
    r, from, to := randomDocumentIndex, randomStart, j;
    FlattenNonempty(randomDocument, from, to);
  }

  lemma StretchGrows(document: Document, start: nat, j: nat, target: int)
    requires start <= j < |document| && StillShort(document, start, j, target)
    ensures Flatten(document[start..j + 1]) == Flatten(document[start..j]) + document[j]
    ensures |Flatten(document[start..j + 1])| < target ==> StillShort(document, start, j + 1, target)
  {
    assert document[start..j + 1] == document[start..j] + [document[j]];
    FlattenSnoc(document[start..j], document[j]);
  }

  method ReadStretch(document: Document, start: nat, target: int) returns (tokens: seq<string>, j: nat)
    requires start < |document|
    ensures start < j <= |document| && tokens == Flatten(document[start..j])
    ensures j < |document| ==> |Flatten(document[start..j])| >= target
    ensures StillShort(document, start, j - 1, target)
  {
    tokens := [];
    j := start;
    while j < |document|
      invariant start <= j <= |document|
      invariant tokens == Flatten(document[start..j])
      invariant StillShort(document, start, j, target)
    {
      StretchGrows(document, start, j, target);
      tokens := tokens + document[j];
      j := j + 1;
      if |tokens| >= target {
        break;
      }
    }
  }

  method Truncate(a0: seq<string>, b0: seq<string>, maxNumTokens: nat) returns (a: seq<string>, b: seq<string>)
    requires a0 != [] && b0 != [] && maxNumTokens >= 2
    ensures a != [] && b != [] && |a| + |b| <= maxNumTokens && Truncates(a0, b0, maxNumTokens, a, b)
  {
    var listA := new TokenList(a0);
    var listB := new TokenList(b0);
    var ok := TruncateSeqPair(listA, listB, maxNumTokens);
    StayNonemptyIff(maxNumTokens);
    LengthsFillBudget(|a0|, |b0|, maxNumTokens);
    a, b := listA.items, listB.items;
  }

  /** One part of the frame: the tokens, a separator behind them, and the segment id for each. */
  method AppendPart(tokens0: seq<string>, segmentIds0: seq<int>, part: seq<string>, id: int)
    returns (tokens: seq<string>, segmentIds: seq<int>)
    requires |tokens0| == |segmentIds0|
    ensures tokens == tokens0 + part + ["[SEP]"] && |segmentIds| == |tokens|
    ensures forall i :: 0 <= i < |segmentIds| ==> segmentIds[i] == if i < |tokens0| then segmentIds0[i] else id
  {
    tokens, segmentIds := tokens0, segmentIds0;
    for k := 0 to |part|
      invariant tokens == tokens0 + part[..k] && |segmentIds| == |tokens|
      invariant forall i :: 0 <= i < |segmentIds| ==> segmentIds[i] == if i < |tokens0| then segmentIds0[i] else id
    {
      tokens := tokens + [part[k]];
      segmentIds := segmentIds + [id];
    }
    tokens := tokens + ["[SEP]"];
    segmentIds := segmentIds + [id];
  }

  method LayOut(a: seq<string>, b: seq<string>) returns (tokens: seq<string>, segmentIds: seq<int>)
    ensures IsFrame(tokens, segmentIds, a, b)
  {
    tokens, segmentIds := AppendPart(["[CLS]"], [0], a, 0);
    tokens, segmentIds := AppendPart(tokens, segmentIds, b, 1);
  }

  method Frame(a: seq<string>, b: seq<string>, isRandomNext: bool, settings: Settings) returns (inst: TrainingInstance)
    requires settings.vocabWords != []
    ensures inst.isRandomNext == isRandomNext && Framed(settings, a, b, inst)
  {
    var tokens, segmentIds := LayOut(a, b);
    var output, positions, labels := CreateMaskedLmPredictions(
      tokens, settings.wholeWord, {}, settings.maxPredictions, settings.rounded(|tokens|), settings.vocabWords);
    inst := TrainingInstance(output, segmentIds, isRandomNext, positions, labels);
    assert MaskedFrom(settings, tokens, inst);
  }

  /** The two parts of the segments that were read for a chunk. */
  method CutChunk(document: Document, c: Chunk) returns (partA: seq<Segment>, partB: seq<Segment>)
    requires ValidDocument(document) && c.start < c.aEnd <= c.read <= |document|
    ensures partA == document[c.start..c.aEnd] && ValidDocument(partA)
    ensures partB == document[c.aEnd..c.read] && (c.aEnd < c.read ==> ValidDocument(partB))
  {
    var currentChunk := document[c.start..c.read];
    partA, partB := currentChunk[..c.aEnd - c.start], currentChunk[c.aEnd - c.start..];
  }

  /** Where A ends, and whether B is drawn at random: always for a chunk of one segment. */
  method SplitChunk(size: nat) returns (aEnd: nat, isRandomNext: bool)
    requires size >= 1
    ensures 1 <= aEnd <= size && (size >= 2 ==> aEnd < size) && (size == 1 ==> isRandomNext)
  {
    aEnd := 1;
    if size >= 2 {
      aEnd := RandInt(1, size - 1);
    }
    var coin := Coin();
    isRandomNext := size == 1 || coin;
  }

  method FillPair(
    docs: seq<Document>, documentIndex: nat, partA: seq<Segment>, partB: seq<Segment>, isRandomNext: bool,
    targetSeqLength: int, maxNumTokens: nat)
    returns (a: seq<string>, b: seq<string>)
    requires ValidCorpus(docs) && documentIndex < |docs| && maxNumTokens >= 2
    requires ValidDocument(partA) && (!isRandomNext ==> ValidDocument(partB))
    ensures FillsPair(docs, maxNumTokens, targetSeqLength, partA, partB, isRandomNext, a, b)
  {
    FlattenNonempty(partA, 0, |partA|);
    assert partA[0..|partA|] == partA;
    if isRandomNext {
      a, b := RandomPair(docs, documentIndex, partA, targetSeqLength, maxNumTokens);
    } else {
      FlattenNonempty(partB, 0, |partB|);
      assert partB[0..|partB|] == partB;
      a, b := ActualPair(partA, partB, maxNumTokens);
    }
  }

  /** Split the chunk, find B, truncate. */
  method MakePair(
    docs: seq<Document>, documentIndex: nat, chunkStart: nat, i: nat, targetSeqLength: int, maxNumTokens: nat)
    returns (a: seq<string>, b: seq<string>, isRandomNext: bool, aEnd: nat, unused: nat)
    requires ValidCorpus(docs) && documentIndex < |docs| && chunkStart <= i < |docs[documentIndex]| && maxNumTokens >= 2
    ensures 1 <= aEnd <= i + 1 - chunkStart && unused == if isRandomNext then i + 1 - chunkStart - aEnd else 0
    ensures PairOf(docs, docs[documentIndex], maxNumTokens, targetSeqLength,
                   Chunk(chunkStart, chunkStart + aEnd, i + 1 - unused, i + 1), isRandomNext, a, b)
  {
    var size := i + 1 - chunkStart;
    aEnd, isRandomNext := SplitChunk(size);
    unused := if isRandomNext then size - aEnd else 0;
    var c := Chunk(chunkStart, chunkStart + aEnd, i + 1 - unused, i + 1);
    assert ValidDocument(docs[documentIndex]);
    var partA, partB := CutChunk(docs[documentIndex], c);
    a, b := FillPair(docs, documentIndex, partA, partB, isRandomNext, targetSeqLength, maxNumTokens);
    PairFromParts(docs, docs[documentIndex], maxNumTokens, targetSeqLength, c, isRandomNext, partA, partB, a, b);
  }

  lemma PairFromParts(
    docs: seq<Document>, document: Document, maxNumTokens: nat, target: int, c: Chunk, isRandomNext: bool,
    partA: seq<Segment>, partB: seq<Segment>, a: seq<string>, b: seq<string>)
    requires c.start < c.aEnd <= c.used <= c.read <= |document|
    requires c.read > c.start + 1 ==> c.aEnd < c.read
    requires !isRandomNext ==> c.aEnd < c.used
    requires c.used == if isRandomNext then c.aEnd else c.read
    requires partA == document[c.start..c.aEnd] && partB == document[c.aEnd..c.read]
    requires FillsPair(docs, maxNumTokens, target, partA, partB, isRandomNext, a, b)
    ensures PairOf(docs, document, maxNumTokens, target, c, isRandomNext, a, b)
  {
  }

  method ActualPair(
    partA: seq<Segment>, partB: seq<Segment>, maxNumTokens: nat)
    returns (a: seq<string>, b: seq<string>)
    requires Flatten(partA) != [] && Flatten(partB) != [] && maxNumTokens >= 2
    ensures a != [] && b != [] && |a| + |b| <= maxNumTokens &&
        Truncates(Flatten(partA), Flatten(partB), maxNumTokens, a, b)
  {
    var a0 := ExtendAll(partA);
    var b0 := ExtendAll(partB);
    a, b := Truncate(a0, b0, maxNumTokens);
  }

  method RandomPair(
    docs: seq<Document>, documentIndex: nat, partA: seq<Segment>, targetSeqLength: int, maxNumTokens: nat)
    returns (a: seq<string>, b: seq<string>)
    requires ValidCorpus(docs) && documentIndex < |docs| && Flatten(partA) != [] && maxNumTokens >= 2
    ensures a != [] && b != [] && |a| + |b| <= maxNumTokens
    ensures RandomPairOf(docs, maxNumTokens, targetSeqLength, Flatten(partA), a, b)
  {
    var a0 := ExtendAll(partA);
    var b0;
    ghost var r, from, to;
    b0, r, from, to := RandomNext(docs, documentIndex, targetSeqLength - |a0|);
    a, b := Truncate(a0, b0, maxNumTokens);
    assert RandomStretch(docs, targetSeqLength - |a0|, r, from, to);
  }

  /** The body of the flush. */
  method MakeInstance(
    docs: seq<Document>, documentIndex: nat, chunkStart: nat, i: nat, targetSeqLength: int, maxNumTokens: nat,
    settings: Settings)
    returns (inst: TrainingInstance, aEnd: nat, unused: nat)
    requires ValidCorpus(docs) && documentIndex < |docs| && chunkStart <= i < |docs[documentIndex]|
    requires maxNumTokens >= 2 && settings.vocabWords != []
    ensures 1 <= aEnd <= i + 1 - chunkStart && unused <= i + 1 - chunkStart - aEnd
    ensures InstanceOf(docs, docs[documentIndex], maxNumTokens, settings, targetSeqLength,
                       Chunk(chunkStart, chunkStart + aEnd, i + 1 - unused, i + 1), inst)
  {
    var a, b, isRandomNext;
    a, b, isRandomNext, aEnd, unused := MakePair(docs, documentIndex, chunkStart, i, targetSeqLength, maxNumTokens);
    inst := Frame(a, b, isRandomNext, settings);
  }

  // ---------- the chunking loop ----------

  ghost predicate AreInstances(
    docs: seq<Document>, document: Document, maxNumTokens: nat, settings: Settings, target: int, chunks: seq<Chunk>,
    instances: seq<TrainingInstance>)
  {
    && |instances| == |chunks|
    && forall k {:trigger instances[k]} :: 0 <= k < |instances| ==>
         && ReadEnough(document, target, chunks[k])
         && InstanceOf(docs, document, maxNumTokens, settings, target, chunks[k], instances[k])
  }

  lemma TokenCountSnoc(document: Document, start: nat, i: nat)
    requires start <= i < |document|
    ensures |Flatten(document[start..i + 1])| == |Flatten(document[start..i])| + |document[i]|
  {
    assert document[start..i + 1] == document[start..i] + [document[i]];
    FlattenSnoc(document[start..i], document[i]);
  }

  lemma InstancesExtend(
    docs: seq<Document>, document: Document, maxNumTokens: nat, settings: Settings, target: int, chunks: seq<Chunk>,
    instances: seq<TrainingInstance>, c: Chunk, inst: TrainingInstance)
    requires AreInstances(docs, document, maxNumTokens, settings, target, chunks, instances)
    requires ReadEnough(document, target, c)
    requires InstanceOf(docs, document, maxNumTokens, settings, target, c, inst)
    ensures AreInstances(docs, document, maxNumTokens, settings, target, chunks + [c], instances + [inst])
  {
    var chunks', instances' := chunks + [c], instances + [inst];
    forall k | 0 <= k < |instances'|
      ensures ReadEnough(document, target, chunks'[k])
      ensures InstanceOf(docs, document, maxNumTokens, settings, target, chunks'[k], instances'[k])
    {
      if k < |instances| { assert instances'[k] == instances[k] && chunks'[k] == chunks[k]; }
    }
  }

  lemma TilesExtend(chunks: seq<Chunk>, upTo: nat, c: Chunk)
    requires Tiles(chunks, upTo) && c.start == upTo < c.aEnd <= c.used
    ensures Tiles(chunks + [c], c.used)
  {
  }

  /** Segments read so far, chunk by chunk, and the instances made from them. */
  ghost predicate Progress(
    docs: seq<Document>, document: Document, maxNumTokens: nat, settings: Settings, target: int, chunks: seq<Chunk>,
    instances: seq<TrainingInstance>, upTo: nat)
  {
    && Tiles(chunks, upTo)
    && AreInstances(docs, document, maxNumTokens, settings, target, chunks, instances)
  }

  /** The flush: one more instance; the segments it did not use are put back. */
  method Flush(
    docs: seq<Document>, documentIndex: nat, chunkStart: nat, i: nat, targetSeqLength: int, maxNumTokens: nat,
    settings: Settings, instances: seq<TrainingInstance>, ghost chunks: seq<Chunk>)
    returns (more: seq<TrainingInstance>, ghost moreChunks: seq<Chunk>, unused: nat)
    requires ValidCorpus(docs) && documentIndex < |docs| && chunkStart <= i < |docs[documentIndex]|
    requires maxNumTokens >= 2 && settings.vocabWords != []
    requires Progress(docs, docs[documentIndex], maxNumTokens, settings, targetSeqLength, chunks, instances, chunkStart)
    requires StillShort(docs[documentIndex], chunkStart, i, targetSeqLength)
    requires i + 1 < |docs[documentIndex]| ==> |Flatten(docs[documentIndex][chunkStart..i + 1])| >= targetSeqLength
    ensures unused <= i - chunkStart
    ensures Progress(docs, docs[documentIndex], maxNumTokens, settings, targetSeqLength, moreChunks, more,
                     i + 1 - unused)
  {
    var inst, aEnd;
    inst, aEnd, unused := MakeInstance(docs, documentIndex, chunkStart, i, targetSeqLength, maxNumTokens, settings);
    ghost var c := Chunk(chunkStart, chunkStart + aEnd, i + 1 - unused, i + 1);
    TilesExtend(chunks, chunkStart, c);
    InstancesExtend(docs, docs[documentIndex], maxNumTokens, settings, targetSeqLength, chunks, instances, c, inst);
    more := instances + [inst];
    moreChunks := chunks + [c];
  }

  /** The instances of a whole document: its segments are used exactly once, chunk by chunk. */
  ghost predicate Generates(
    docs: seq<Document>, document: Document, maxSeqLength: int, settings: Settings, target: int, chunks: seq<Chunk>,
    instances: seq<TrainingInstance>)
  {
    && 2 <= target <= maxSeqLength - 3
    && Progress(docs, document, maxSeqLength - 3, settings, target, chunks, instances, |document|)
  }

  /**
   For every sequence of random draws the loop ends, and the segments its instances used as A or as
   actual-next B tile the document.
   */
  method CreateInstancesFromDocument(
    docs: seq<Document>, documentIndex: nat, maxSeqLength: int, settings: Settings)
    returns (instances: seq<TrainingInstance>)
    requires ValidCorpus(docs) && documentIndex < |docs| && maxSeqLength >= 5 && settings.vocabWords != []
    ensures exists target, chunks ::
        Generates(docs, docs[documentIndex], maxSeqLength, settings, target, chunks, instances)
  {
    var document := docs[documentIndex];
    var maxNumTokens := maxSeqLength - 3;
    var targetSeqLength := maxNumTokens;
    var short := Coin();
    if short {
      targetSeqLength := RandInt(2, maxNumTokens);
    }
    instances := [];
    ghost var chunks: seq<Chunk> := [];
    var chunkStart := 0;  // current_chunk is document[chunkStart..i]
    var currentLength := 0;
    var i := 0;
    while i < |document|
      invariant 0 <= chunkStart <= i <= |document| && (i == |document| ==> chunkStart == i)
      invariant currentLength == |Flatten(document[chunkStart..i])|
      invariant StillShort(document, chunkStart, i, targetSeqLength)
      invariant Progress(docs, document, maxNumTokens, settings, targetSeqLength, chunks, instances, chunkStart)
      decreases |document| - chunkStart, |document| - i
    {
      TokenCountSnoc(document, chunkStart, i);
      currentLength := currentLength + |document[i]|;
      if i == |document| - 1 || currentLength >= targetSeqLength {
        var unused;
        instances, chunks, unused :=
            Flush(docs, documentIndex, chunkStart, i, targetSeqLength, maxNumTokens, settings, instances, chunks);
        i := i - unused;
        chunkStart := i + 1;
        currentLength := 0;
        assert document[chunkStart..i + 1] == [];
      }
      i := i + 1;
    }
    assert Generates(docs, document, maxSeqLength, settings, targetSeqLength, chunks, instances);
  }
}
