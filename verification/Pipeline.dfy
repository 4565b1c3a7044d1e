/**
 The question-answering pipeline end to end: from the words of a paragraph through pieces, windows and
 a predicted span of window tokens back to a slice of the words, joined by single spaces.
 */
module Pipeline {
  import opened Wrappers
  import opened Text
  import opened BasicTokenizer
  import opened WordPiece
  import opened Detokenize
  import opened Alignment
  import opened Windows
  import opened Features
  import opened NBest

  /** `FullTokenizer.tokenize`. */
  function Full(u: Unicode, vocab: Vocab, doLowerCase: bool): Features.Tokenizer {
    t => AllPieces(vocab, BasicTokens(u, doLowerCase, t))
  }

  method FullTokenize(u: Unicode, vocab: Vocab, doLowerCase: bool, text: string) returns (splitTokens: seq<string>)
    ensures splitTokens == Full(u, vocab, doLowerCase)(text)
  {
    var tokens := BasicTokenizer.Tokenize(u, doLowerCase, text);
    WordsAreWords(u.isSpace, Join(SplitTokens(u, doLowerCase, text)));
    splitTokens := PieceEach(u, vocab, tokens);
  }

  lemma AllPiecesSnoc(vocab: Vocab, tokens: seq<string>, i: nat)
    requires i < |tokens|
    ensures AllPieces(vocab, tokens[..i + 1]) == AllPieces(vocab, tokens[..i]) + AllPieces(vocab, [tokens[i]])
  {
    assert tokens[..i + 1] == tokens[..i] + [tokens[i]];
    AllPiecesConcat(vocab, tokens[..i], [tokens[i]]);
  }

  method PieceEach(u: Unicode, vocab: Vocab, tokens: seq<string>) returns (splitTokens: seq<string>)
    requires AllWords(u.isSpace, tokens)
    ensures splitTokens == AllPieces(vocab, tokens)
  {
    splitTokens := [];
    for i := 0 to |tokens|
      invariant splitTokens == AllPieces(vocab, tokens[..i])
    {
      var sub := WordPiece.Tokenize(u.isSpace, vocab, tokens[i]);
      splitTokens := splitTokens + sub;
      assert IsWord(u.isSpace, tokens[i]);
      WordsOfWord(u.isSpace, tokens[i]);
      AllPiecesSnoc(vocab, tokens, i);
    }
    assert tokens[..|tokens|] == tokens;
  }

  /** Always true; mentioned for a text where the definition of the tokenizer is to be used. */
  predicate Consider(text: string) { true }

  /** `tok` is the full tokenizer. */
  ghost predicate IsFull(tok: Features.Tokenizer, u: Unicode, vocab: Vocab, doLowerCase: bool) {
    forall t {:trigger Consider(t)} :: Consider(t) ==> tok(t) == AllPieces(vocab, BasicTokens(u, doLowerCase, t))
  }

  lemma FullIsFull(u: Unicode, vocab: Vocab, doLowerCase: bool)
    ensures IsFull(Full(u, vocab, doLowerCase), u, vocab, doLowerCase)
  {
  }

  /** The pieces of a list of words are the pieces of their basic tokens. */
  lemma {:induction false} PiecesOfWords(
    tok: Features.Tokenizer, u: Unicode, vocab: Vocab, doLowerCase: bool, words: seq<string>)
    requires IsFull(tok, u, vocab, doLowerCase)
    ensures FlatMap(tok, words) == AllPieces(vocab, FlatMap(Basic(u, doLowerCase), words))
  {
    if words != [] {
      assert Consider(words[0]);
      PiecesOfWords(tok, u, vocab, doLowerCase, words[1..]);
      AllPiecesConcat(vocab, Basic(u, doLowerCase)(words[0]), FlatMap(Basic(u, doLowerCase), words[1..]));
    }
  }

  lemma PiecesOfText(tok: Features.Tokenizer, u: Unicode, vocab: Vocab, doLowerCase: bool, words: seq<string>)
    requires u.Valid() && IsFull(tok, u, vocab, doLowerCase)
    ensures FlatMap(tok, words) == AllPieces(vocab, BasicTokens(u, doLowerCase, Join(words)))
  {
    PiecesOfWords(tok, u, vocab, doLowerCase, words);
    TokensOfJoin(u, doLowerCase, words);
  }

  // ---------- a span of the document's pieces ----------

  /** Pieces `s..e` of the document, of which `s` lies in word `i` and `e` in word `j`. */
  ghost predicate DocumentSpan(tok: Features.Tokenizer, words: seq<string>, s: nat, e: nat, i: nat, j: nat) {
    s <= e && InWord(tok, words, i, s) && InWord(tok, words, j, e)
  }

  /** A span of document pieces is a span of the pieces of the words it touches. */
  lemma SpanWithinWords(
    tok: Features.Tokenizer, words: seq<string>, s: nat, e: nat, i: nat, j: nat)
    returns (a: nat, b: nat)
    requires DocumentSpan(tok, words, s, e, i, j)
    ensures i <= j < |words| && e < |FlatMap(tok, words)|
    ensures a < b <= |FlatMap(tok, words[i..j + 1])| &&
        FlatMap(tok, words[i..j + 1])[a..b] == FlatMap(tok, words)[s..e + 1]
  {
    WordOfPieceMonotone(tok, words, i, s, j, e);
    PiecesBetween(tok, words, i, j + 1);
    var all, part := FlatMap(tok, words), FlatMap(tok, words[i..j + 1]);
    var from := WordStart(tok, words, i);
    a, b := s - from, e + 1 - from;
    forall k | s <= k <= e ensures part[k - from] == all[k] {
      assert all[from..WordStart(tok, words, j + 1)][k - from] == all[k];
    }
  }

  function OrigText(words: seq<string>, i: nat, j: nat): string
    requires i <= j < |words|
  {
    Join(words[i..j + 1])
  }

  function TokText(u: Unicode, doLowerCase: bool, orig: string): string {
    Join(BasicTokens(u, doLowerCase, orig))
  }

  /**
   The predicted text is found exactly when the span holds no `[UNK]`, and the character alignment goes
   through exactly when moreover tokenizing kept the number of non-space characters.
   */
  ghost predicate FoundIff(pred: string, span: seq<string>, orig: string, tok: string) {
    && (Find(tok, pred) != -1 <==> UNK !in span)
    && (Aligns(pred, orig, tok) <==> UNK !in span && |NonSpace(orig)| == |NonSpace(tok)|)
  }

  lemma FoundFromOccurs(isSpace: char -> bool, pred: string, span: seq<string>, orig: string, tok: string)
    requires isSpace(' ') && (IsSubstring(pred, tok) <==> UNK !in span)
    requires StartsInWord(isSpace, pred) && EndsInWord(isSpace, pred)
    ensures FoundIff(pred, span, orig, tok)
  {
  }

  /** Inside the pieces of its own text a span prints as `PredTextOccurs` says. */
  lemma PredictionInText(
    u: Unicode, vocab: Vocab, doLowerCase: bool, text: string, ps: seq<string>, a: nat, b: nat, span: seq<string>)
    requires u.Valid() && ps == AllPieces(vocab, BasicTokens(u, doLowerCase, text))
    requires a < b <= |ps| && span == ps[a..b]
    ensures FoundIff(PredText(u.isSpace, span), span, text, TokText(u, doLowerCase, text))
    ensures PredText(u.isSpace, span) == Detok(span)
  {
    PredTextOccurs(u, doLowerCase, vocab, text, a, b);
    FoundFromOccurs(u.isSpace, Detok(span), span, text, TokText(u, doLowerCase, text));
  }

  /**
   For every span of document pieces, wherever in a word it starts or ends, the predicted text is found
   in the re-tokenized original words exactly when the span holds no `[UNK]`, and the projection onto the
   original text falls back only then or when tokenizing changed the number of non-space characters.
   */
  lemma PredictionFoundIff(
    tok: Features.Tokenizer, u: Unicode, vocab: Vocab, doLowerCase: bool, words: seq<string>, s: nat, e: nat, i: nat,
    j: nat, span: seq<string>)
    requires u.Valid() && IsFull(tok, u, vocab, doLowerCase) && DocumentSpan(tok, words, s, e, i, j)
    requires i <= j < |words| && e < |FlatMap(tok, words)| && span == FlatMap(tok, words)[s..e + 1]
    ensures FoundIff(PredText(u.isSpace, span), span, OrigText(words, i, j),
                     TokText(u, doLowerCase, OrigText(words, i, j)))
    ensures PredText(u.isSpace, span) == Detok(span)
  {
    var a, b := SpanWithinWords(tok, words, s, e, i, j);
    PiecesOfText(tok, u, vocab, doLowerCase, words[i..j + 1]);
    PredictionInText(u, vocab, doLowerCase, OrigText(words, i, j), FlatMap(tok, words[i..j + 1]), a, b, span);
  }

  // ---------- cased models ----------

  /** Words of ordinary characters: none that the cased tokenizer removes or takes for whitespace. */
  ghost predicate PlainWords(u: Unicode, words: seq<string>) {
    forall k :: 0 <= k < |words| ==> SpaceFree(Discarded(u), words[k])
  }

  ghost predicate NoSpaces(words: seq<string>) {
    forall k :: 0 <= k < |words| ==> SpaceFree(Blank(), words[k])
  }

  lemma {:induction false} FlattenFreeIff(isWs: char -> bool, words: seq<string>)
    ensures SpaceFree(isWs, Flatten(words)) <==> forall k :: 0 <= k < |words| ==> SpaceFree(isWs, words[k])
  {
    if words != [] {
      var first, rest := words[0], Flatten(words[1..]);
      FlattenFreeIff(isWs, words[1..]);
      FreeConcatIff(isWs, first, rest);
      assert forall k :: 0 <= k < |words| - 1 ==> words[1..][k] == words[k + 1];
      assert forall k :: 0 < k < |words| ==> words[k] == words[1..][k - 1];
    }
  }

  lemma FreeConcatIff(isWs: char -> bool, x: string, y: string)
    ensures SpaceFree(isWs, x + y) <==> SpaceFree(isWs, x) && SpaceFree(isWs, y)
  {
    if SpaceFree(isWs, x + y) {
      assert forall i :: 0 <= i < |x| ==> x[i] == (x + y)[i];
      assert forall i :: 0 <= i < |y| ==> y[i] == (x + y)[|x| + i];
    }
  }

  /** The characters of cased text: its words, and what the tokenizer keeps of them. */
  lemma CasedCharacters(u: Unicode, words: seq<string>)
    requires u.Valid() && NoSpaces(words)
    ensures NonSpace(Join(words)) == Flatten(words)
    ensures NonSpace(TokText(u, false, Join(words))) == Drop(Discarded(u), Flatten(words))
  {
    FlattenFreeIff(Blank(), words);
    DropJoin(Blank(), words);
    DropSpaceFree(Blank(), Flatten(words));
    CasedTokensConserveText(u, Join(words));
    DropJoin(Discarded(u), words);
    DropIsFree(Discarded(u), Flatten(words));
    DropJoin(Blank(), BasicTokens(u, false, Join(words)));
    DropSpaceFree(Blank(), Drop(Discarded(u), Flatten(words)));
  }

  /** A cased tokenizer keeps all the characters of words without spaces exactly when they are plain. */
  lemma CasedKeepsCharactersIff(u: Unicode, words: seq<string>)
    requires u.Valid() && NoSpaces(words)
    ensures |NonSpace(Join(words))| == |NonSpace(TokText(u, false, Join(words)))| <==> PlainWords(u, words)
    ensures PlainWords(u, words) ==> NonSpace(Join(words)) == NonSpace(TokText(u, false, Join(words)))
  {
    CasedCharacters(u, words);
    FlattenFreeIff(Discarded(u), words);
    DropKeepsLengthIff(Discarded(u), Flatten(words));
    if PlainWords(u, words) { DropSpaceFree(Discarded(u), Flatten(words)); }
  }

  lemma NonSpaceTail(p: string)
    requires ' ' !in p
    ensures NonSpace(Tail(p)) == Unmark(p)
  {
    var gap := if IsContinuation(p) then "" else " ";
    assert Tail(p) == gap + Unmark(p);
    DropConcat(Blank(), gap, Unmark(p));
    DropOne(Blank(), ' ');
    DropSpaceFree(Blank(), Unmark(p));
  }

  lemma {:induction false} NonSpaceRest(ps: seq<string>)
    requires forall k :: 0 <= k < |ps| ==> ' ' !in ps[k]
    ensures NonSpace(Rest(ps)) == Concat(ps)
  {
    if ps != [] {
      NonSpaceRest(ps[1..]);
      NonSpaceTail(ps[0]);
      DropConcat(Blank(), Tail(ps[0]), Rest(ps[1..]));
    }
  }

  lemma NonSpaceDetok(ps: seq<string>)
    requires ps != [] && forall k :: 0 <= k < |ps| ==> ' ' !in ps[k]
    ensures NonSpace(Detok(ps)) == Concat(ps)
  {
    NonSpaceRest(ps);
    RestIsDetok(ps);
    var gap := if IsContinuation(ps[0]) then "" else " ";
    DropConcat(Blank(), gap, Detok(ps));
    DropOne(Blank(), ' ');
  }

  lemma ShapedHaveNoSpace(isSpace: char -> bool, ps: seq<string>)
    requires isSpace(' ') && Shaped(isSpace, ps)
    ensures forall k :: 0 <= k < |ps| ==> ' ' !in ps[k]
  {
    forall k | 0 <= k < |ps| ensures ' ' !in ps[k] {
      assert IsHead(isSpace, ps[k]) || IsMarked(isSpace, ps[k]);
      ShapeFacts(isSpace, ps[k]);
    }
  }

  lemma PiecesHaveNoSpace(tok: Features.Tokenizer, u: Unicode, vocab: Vocab, doLowerCase: bool, words: seq<string>)
    requires u.Valid() && IsFull(tok, u, vocab, doLowerCase)
    ensures forall k :: 0 <= k < |FlatMap(tok, words)| ==> ' ' !in FlatMap(tok, words)[k]
  {
    PiecesOfText(tok, u, vocab, doLowerCase, words);
    BasicTokensHashAlone(u, doLowerCase, Join(words));
    UnkIsHead(u);
    PiecesShaped(u.isSpace, vocab, BasicTokens(u, doLowerCase, Join(words)));
    ShapedHaveNoSpace(u.isSpace, FlatMap(tok, words));
  }

  /** The final text is a slice of the original whose non-space characters are those of the pieces. */
  ghost predicate Verbatim(pred: string, span: seq<string>, orig: string, tok: string) {
    && Aligns(pred, orig, tok)
    && IsSubstring(FinalText(pred, orig, tok), orig)
    && NonSpace(FinalText(pred, orig, tok)) == Concat(span)
  }

  lemma AlignedIsVerbatim(pred: string, span: seq<string>, orig: string, tok: string)
    requires FoundIff(pred, span, orig, tok) && UNK !in span && NonSpace(orig) == NonSpace(tok)
    requires span != [] && pred == Detok(span) && forall k :: 0 <= k < |span| ==> ' ' !in span[k]
    ensures Verbatim(pred, span, orig, tok)
  {
    FinalTextKeepsCharacters(pred, orig, tok);
    FinalTextIsSlice(pred, orig, tok);
    NonSpaceDetok(span);
  }

  /**
   The round trip of a cased model: for words without spaces the alignment goes through exactly when the
   span holds no `[UNK]` and the words it touches are plain, and then every span, wherever in a word it
   starts or ends, comes back as a slice of the joined words whose non-space characters are exactly the
   characters of the pieces.
   */
  lemma CasedPredictionIsVerbatimIff(
    tok: Features.Tokenizer, u: Unicode, vocab: Vocab, words: seq<string>, s: nat, e: nat, i: nat, j: nat,
    span: seq<string>)
    requires u.Valid() && IsFull(tok, u, vocab, false) && DocumentSpan(tok, words, s, e, i, j)
    requires i <= j < |words| && e < |FlatMap(tok, words)| && span == FlatMap(tok, words)[s..e + 1]
    requires NoSpaces(words[i..j + 1])
    ensures Aligns(PredText(u.isSpace, span), OrigText(words, i, j), TokText(u, false, OrigText(words, i, j))) <==>
              UNK !in span && PlainWords(u, words[i..j + 1])
    ensures UNK !in span && PlainWords(u, words[i..j + 1]) ==>
              Verbatim(PredText(u.isSpace, span), span, OrigText(words, i, j), TokText(u, false, OrigText(words, i, j)))
  {
    PredictionFoundIff(tok, u, vocab, false, words, s, e, i, j, span);
    CasedKeepsCharactersIff(u, words[i..j + 1]);
    PiecesHaveNoSpace(tok, u, vocab, false, words);
    if UNK !in span && PlainWords(u, words[i..j + 1]) {
      AlignedIsVerbatim(PredText(u.isSpace, span), span, OrigText(words, i, j),
                        TokText(u, false, OrigText(words, i, j)));
    }
  }

  // ---------- predictions over features ----------

  /**
   `text` is what `get_final_text` makes of the printed tokens: always a slice of the words they come from,
   and all of these words wherever the tokens are not found or tokenizing changed the number of characters.
   */
  ghost predicate Projects(
    u: Unicode, doLowerCase: bool, docTokens: seq<string>, tokens: seq<string>, i: nat, j: nat, text: string)
    requires i <= j < |docTokens|
  {
    var pred, orig := PredText(u.isSpace, tokens), OrigText(docTokens, i, j);
    var tokText := TokText(u, doLowerCase, orig);
    && text == FinalText(pred, orig, tokText)
    && IsSubstring(text, orig)
    && (Find(tokText, pred) == -1 || |NonSpace(orig)| != |NonSpace(tokText)| ==> text == orig)
  }

  /** `final_text` of a span of window tokens, given the words its ends lie in. */
  function SpanText(
    u: Unicode, doLowerCase: bool, docTokens: seq<string>, tokens: seq<string>, i: nat, j: nat): (text: string)
    requires i <= j < |docTokens|
    ensures Projects(u, doLowerCase, docTokens, tokens, i, j, text)
    ensures docTokens[i] != "" ==> text != ""
  {
    var pred, orig := PredText(u.isSpace, tokens), OrigText(docTokens, i, j);
    var tokText := TokText(u, doLowerCase, orig);
    FinalTextIsSlice(pred, orig, tokText);
    FallbackIsOriginal(pred, orig, tokText);
    FinalTextEmptyOnlyForEmpty(pred, orig, tokText);
    OrigTextNonempty(docTokens, i, j);
    FinalText(pred, orig, tokText)
  }

  lemma OrigTextNonempty(words: seq<string>, i: nat, j: nat)
    requires i <= j < |words|
    ensures words[i] != "" ==> OrigText(words, i, j) != ""
  {
    assert words[i..j + 1][0] == words[i];
  }

  /** Whether the index lookups of `write_predictions` for this span succeed. */
  predicate InRange(f: Feature, words: nat, from: nat, to: nat) {
    && from <= to < |f.tokens| && from in f.tokenToOrigMap && to in f.tokenToOrigMap
    && f.tokenToOrigMap[from] <= f.tokenToOrigMap[to] < words
  }

  /** `text` is the `final_text` of the window tokens `from..to`. */
  ghost predicate IsTextOf(
    u: Unicode, doLowerCase: bool, docTokens: seq<string>, f: Feature, from: nat, to: nat, text: string)
    requires InRange(f, |docTokens|, from, to)
  {
    Projects(u, doLowerCase, docTokens, f.tokens[from..to + 1], f.tokenToOrigMap[from], f.tokenToOrigMap[to], text)
  }

  /** `final_text` of a prediction with a positive start index. */
  function TextFor(
    u: Unicode, doLowerCase: bool, docTokens: seq<string>, features: seq<Feature>, p: Prelim): (r: string)
    ensures p.featureIndex < |features| && InRange(features[p.featureIndex], |docTokens|, p.startIndex, p.endIndex) ==>
              && IsTextOf(u, doLowerCase, docTokens, features[p.featureIndex], p.startIndex, p.endIndex, r)
              && (docTokens[features[p.featureIndex].tokenToOrigMap[p.startIndex]] != "" ==> r != "")
  {
    if p.featureIndex < |features| && InRange(features[p.featureIndex], |docTokens|, p.startIndex, p.endIndex) then
      var f := features[p.featureIndex];
      var i, j := f.tokenToOrigMap[p.startIndex], f.tokenToOrigMap[p.endIndex];
      SpanText(u, doLowerCase, docTokens, f.tokens[p.startIndex..p.endIndex + 1], i, j)
    else ""
  }

  function PredictionText(
    u: Unicode, doLowerCase: bool, docTokens: seq<string>, features: seq<Feature>): Prelim -> string
  {
    (p: Prelim) => TextFor(u, doLowerCase, docTokens, features, p)
  }

  lemma PredictionTextIsTextOf(u: Unicode, doLowerCase: bool, docTokens: seq<string>, features: seq<Feature>, p: Prelim)
    requires p.featureIndex < |features| && InRange(features[p.featureIndex], |docTokens|, p.startIndex, p.endIndex)
    ensures IsTextOf(u, doLowerCase, docTokens, features[p.featureIndex], p.startIndex, p.endIndex,
                     PredictionText(u, doLowerCase, docTokens, features)(p))
  {
    var text := TextFor(u, doLowerCase, docTokens, features, p);
  }

  lemma PredictionTextNonempty(u: Unicode, doLowerCase: bool, docTokens: seq<string>, features: seq<Feature>, p: Prelim)
    requires p.featureIndex < |features| && InRange(features[p.featureIndex], |docTokens|, p.startIndex, p.endIndex)
    requires forall k :: 0 <= k < |docTokens| ==> docTokens[k] != ""
    ensures PredictionText(u, doLowerCase, docTokens, features)(p) != ""
  {
    var text := TextFor(u, doLowerCase, docTokens, features, p);
  }

  /** Between two document positions of a feature stand consecutive pieces of the document. */
  lemma WindowSpanIsDocumentSpan(
    tok: Features.Tokenizer, ex: SquadExample, query: seq<string>, tokToOrig: seq<nat>, spans: seq<DocSpan>,
    maxSeqLength: nat, s: int, e: int, k: nat, f: Feature, from: nat, to: nat)
    requires IsFeature(tok, ex, query, tokToOrig, spans, maxSeqLength, s, e, k, f)
    requires |tokToOrig| == |FlatMap(tok, ex.docTokens)|
    requires forall i :: 0 <= i < |tokToOrig| ==> InWord(tok, ex.docTokens, tokToOrig[i], i)
    requires from <= to && from in f.tokenToOrigMap && to in f.tokenToOrigMap
    ensures from >= 2 && to < |f.tokens|
    ensures var shift := spans[k].start - |query| - 2;
            && 0 <= from + shift <= to + shift < |FlatMap(tok, ex.docTokens)|
            && f.tokens[from..to + 1] == FlatMap(tok, ex.docTokens)[from + shift..to + shift + 1]
            && DocumentSpan(tok, ex.docTokens, from + shift, to + shift, f.tokenToOrigMap[from], f.tokenToOrigMap[to])
  {
    var shift := spans[k].start - |query| - 2;
    LabelledTokens(query, FlatMap(tok, ex.docTokens), spans[k], from + shift, to + shift, f.tokens);
  }

  lemma WindowSpanInRange(
    tok: Features.Tokenizer, ex: SquadExample, query: seq<string>, tokToOrig: seq<nat>, spans: seq<DocSpan>,
    maxSeqLength: nat, s: int, e: int, k: nat, f: Feature, from: nat, to: nat)
    requires IsFeature(tok, ex, query, tokToOrig, spans, maxSeqLength, s, e, k, f)
    requires |tokToOrig| == |FlatMap(tok, ex.docTokens)|
    requires forall i :: 0 <= i < |tokToOrig| ==> InWord(tok, ex.docTokens, tokToOrig[i], i)
    requires from <= to && from in f.tokenToOrigMap && to in f.tokenToOrigMap
    ensures from > 0 && InRange(f, |ex.docTokens|, from, to)
  {
    WindowSpanIsDocumentSpan(tok, ex, query, tokToOrig, spans, maxSeqLength, s, e, k, f, from, to);
    var shift := spans[k].start - |query| - 2;
    WordOfPieceMonotone(tok, ex.docTokens, f.tokenToOrigMap[from], from + shift, f.tokenToOrigMap[to], to + shift);
  }

  /**
   Every candidate over the features of an example starts past the query and has a non-empty final
   text, which is what ranking the candidates asks for.
   */
  lemma CandidatesAreRankable(
    u: Unicode, doLowerCase: bool, tok: Features.Tokenizer, ex: SquadExample, query: seq<string>, tokToOrig: seq<nat>,
    spans: seq<DocSpan>, maxSeqLength: nat, s: int, e: int, features: seq<Feature>, maxAnswerLength: int, p: Prelim)
    requires p.featureIndex < |features| &&
        ValidSpan(features[p.featureIndex], maxAnswerLength, p.startIndex, p.endIndex)
    requires IsFeature(tok, ex, query, tokToOrig, spans, maxSeqLength, s, e, p.featureIndex, features[p.featureIndex])
    requires |tokToOrig| == |FlatMap(tok, ex.docTokens)|
    requires forall i :: 0 <= i < |tokToOrig| ==> InWord(tok, ex.docTokens, tokToOrig[i], i)
    requires forall k :: 0 <= k < |ex.docTokens| ==> ex.docTokens[k] != ""
    ensures p.startIndex > 0 && PredictionText(u, doLowerCase, ex.docTokens, features)(p) != ""
  {
    WindowSpanInRange(tok, ex, query, tokToOrig, spans, maxSeqLength, s, e, p.featureIndex, features[p.featureIndex],
                      p.startIndex, p.endIndex);
    PredictionTextNonempty(u, doLowerCase, ex.docTokens, features, p);
  }

  /**
   Maximum context makes candidate starts unique: a candidate of window `k` starts at a document piece
   for which no other window is the best, so no other window has a candidate starting there.
   */
  lemma CandidateStartsInOneWindow(
    spans: seq<DocSpan>, queryLength: nat, tokToOrig: seq<nat>, maxAnswerLength: int, k: nat, f: Feature, from: nat,
    to: nat, position: int)
    requires k < |spans| && MapsWindow(spans, k, queryLength, tokToOrig, spans[k].length, f.tokenToOrigMap,
                                       f.tokenIsMaxContext)
    requires ValidSpan(f, maxAnswerLength, from, to) && position == spans[k].start + from - queryLength - 2
    ensures IsBest(spans, position, k) && forall w :: IsBest(spans, position, w) ==> w == k
  {
    WindowLookup(spans, k, queryLength, tokToOrig, f.tokenToOrigMap, f.tokenIsMaxContext, from);
    BestIsOnlyOne(spans, position, k);
  }

  lemma BestIsOnlyOne(spans: seq<DocSpan>, position: int, k: int)
    ensures IsBest(spans, position, k) ==> forall w :: IsBest(spans, position, w) ==> w == k
  {
    if IsBest(spans, position, k) {
      forall w | IsBest(spans, position, w) ensures w == k { BestIsUnique(spans, position, w, k); }
    }
  }

  // ---------- one question, from words to answer ----------

  /**
   What the projection of a span of tokens onto the words it comes from amounts to: the printed tokens are
   found and aligned exactly under the conditions of `FoundIff`, and, cased, exactly for known pieces of
   plain words, whose characters the final text then has.
   */
  ghost predicate SpanIsFaithful(
    u: Unicode, doLowerCase: bool, docTokens: seq<string>, span: seq<string>, i: nat, j: nat)
    requires i <= j < |docTokens|
  {
    var pred, orig := PredText(u.isSpace, span), OrigText(docTokens, i, j);
    var tokText := TokText(u, doLowerCase, orig);
    && FoundIff(pred, span, orig, tokText)
    && (!doLowerCase && NoSpaces(docTokens[i..j + 1]) ==>
          && (Aligns(pred, orig, tokText) <==> UNK !in span && PlainWords(u, docTokens[i..j + 1]))
          && (Aligns(pred, orig, tokText) ==> Verbatim(pred, span, orig, tokText)))
  }

  ghost predicate WindowSpanIsFaithful(
    u: Unicode, doLowerCase: bool, docTokens: seq<string>, f: Feature, from: nat, to: nat)
    requires InRange(f, |docTokens|, from, to)
  {
    SpanIsFaithful(u, doLowerCase, docTokens, f.tokens[from..to + 1], f.tokenToOrigMap[from], f.tokenToOrigMap[to])
  }

  /** The text is a slice of the words, and all of them if the span holds `[UNK]` or the counts differ. */
  ghost predicate FallsBack(
    u: Unicode, doLowerCase: bool, docTokens: seq<string>, span: seq<string>, i: nat, j: nat, text: string)
    requires i <= j < |docTokens|
  {
    var orig := OrigText(docTokens, i, j);
    && IsSubstring(text, orig)
    && (UNK in span || |NonSpace(orig)| != |NonSpace(TokText(u, doLowerCase, orig))| ==> text == orig)
  }

  lemma ProjectionFallsBack(
    u: Unicode, doLowerCase: bool, docTokens: seq<string>, span: seq<string>, i: nat, j: nat, text: string)
    requires i <= j < |docTokens| && SpanIsFaithful(u, doLowerCase, docTokens, span, i, j)
    requires Projects(u, doLowerCase, docTokens, span, i, j, text)
    ensures FallsBack(u, doLowerCase, docTokens, span, i, j, text)
  {
  }

  ghost predicate WindowTextFallsBack(
    u: Unicode, doLowerCase: bool, docTokens: seq<string>, f: Feature, from: nat, to: nat, text: string)
    requires InRange(f, |docTokens|, from, to)
  {
    FallsBack(u, doLowerCase, docTokens, f.tokens[from..to + 1], f.tokenToOrigMap[from], f.tokenToOrigMap[to], text)
  }

  lemma WindowProjectionFallsBack(
    u: Unicode, doLowerCase: bool, docTokens: seq<string>, f: Feature, from: nat, to: nat, text: string)
    requires InRange(f, |docTokens|, from, to) && IsTextOf(u, doLowerCase, docTokens, f, from, to, text)
    requires WindowSpanIsFaithful(u, doLowerCase, docTokens, f, from, to)
    ensures WindowTextFallsBack(u, doLowerCase, docTokens, f, from, to, text)
  {
    ProjectionFallsBack(u, doLowerCase, docTokens, f.tokens[from..to + 1], f.tokenToOrigMap[from], f.tokenToOrigMap[to],
                        text);
  }

  /** The text of a candidate is the projection of its window tokens, and that is faithful. */
  ghost predicate CandidateIsFaithful(
    u: Unicode, doLowerCase: bool, docTokens: seq<string>, features: seq<Feature>, p: Prelim, text: string)
  {
    && p.featureIndex < |features| && InRange(features[p.featureIndex], |docTokens|, p.startIndex, p.endIndex)
    && IsTextOf(u, doLowerCase, docTokens, features[p.featureIndex], p.startIndex, p.endIndex, text)
    && WindowSpanIsFaithful(u, doLowerCase, docTokens, features[p.featureIndex], p.startIndex, p.endIndex)
    && WindowTextFallsBack(u, doLowerCase, docTokens, features[p.featureIndex], p.startIndex, p.endIndex, text)
  }

  lemma DocumentSpanIsFaithful(
    tok: Features.Tokenizer, u: Unicode, vocab: Vocab, doLowerCase: bool, words: seq<string>, s: nat, e: nat,
    i: nat, j: nat, span: seq<string>)
    requires u.Valid() && IsFull(tok, u, vocab, doLowerCase) && DocumentSpan(tok, words, s, e, i, j)
    requires i <= j < |words| && e < |FlatMap(tok, words)| && span == FlatMap(tok, words)[s..e + 1]
    ensures SpanIsFaithful(u, doLowerCase, words, span, i, j)
  {
    PredictionFoundIff(tok, u, vocab, doLowerCase, words, s, e, i, j, span);
    if !doLowerCase && NoSpaces(words[i..j + 1]) {
      CasedPredictionIsVerbatimIff(tok, u, vocab, words, s, e, i, j, span);
    }
  }

  /** The final text of every candidate over the features of an example is faithful to its window tokens. */
  lemma CandidatesAreFaithful(
    u: Unicode, vocab: Vocab, doLowerCase: bool, tok: Features.Tokenizer, ex: SquadExample, query: seq<string>,
    tokToOrig: seq<nat>, spans: seq<DocSpan>, maxSeqLength: nat, s: int, e: int, features: seq<Feature>,
    maxAnswerLength: int, p: Prelim)
    requires u.Valid() && IsFull(tok, u, vocab, doLowerCase)
    requires p.featureIndex < |features| &&
        ValidSpan(features[p.featureIndex], maxAnswerLength, p.startIndex, p.endIndex)
    requires IsFeature(tok, ex, query, tokToOrig, spans, maxSeqLength, s, e, p.featureIndex, features[p.featureIndex])
    requires |tokToOrig| == |FlatMap(tok, ex.docTokens)|
    requires forall i :: 0 <= i < |tokToOrig| ==> InWord(tok, ex.docTokens, tokToOrig[i], i)
    ensures CandidateIsFaithful(u, doLowerCase, ex.docTokens, features, p,
                                PredictionText(u, doLowerCase, ex.docTokens, features)(p))
  {
    var f := features[p.featureIndex];
    WindowSpanInRange(tok, ex, query, tokToOrig, spans, maxSeqLength, s, e, p.featureIndex, f, p.startIndex,
                      p.endIndex);
    PredictionTextIsTextOf(u, doLowerCase, ex.docTokens, features, p);
    FeatureSpanIsFaithful(u, vocab, doLowerCase, tok, ex, query, tokToOrig, spans, maxSeqLength, s, e, p.featureIndex,
                          f, p.startIndex, p.endIndex);
    WindowProjectionFallsBack(u, doLowerCase, ex.docTokens, f, p.startIndex, p.endIndex,
                              PredictionText(u, doLowerCase, ex.docTokens, features)(p));
  }

  lemma FeatureSpanIsFaithful(
    u: Unicode, vocab: Vocab, doLowerCase: bool, tok: Features.Tokenizer, ex: SquadExample, query: seq<string>,
    tokToOrig: seq<nat>, spans: seq<DocSpan>, maxSeqLength: nat, s: int, e: int, k: nat, f: Feature, from: nat, to: nat)
    requires u.Valid() && IsFull(tok, u, vocab, doLowerCase)
    requires IsFeature(tok, ex, query, tokToOrig, spans, maxSeqLength, s, e, k, f)
    requires |tokToOrig| == |FlatMap(tok, ex.docTokens)|
    requires forall i :: 0 <= i < |tokToOrig| ==> InWord(tok, ex.docTokens, tokToOrig[i], i)
    requires InRange(f, |ex.docTokens|, from, to)
    ensures WindowSpanIsFaithful(u, doLowerCase, ex.docTokens, f, from, to)
  {
    WindowSpanIsDocumentSpan(tok, ex, query, tokToOrig, spans, maxSeqLength, s, e, k, f, from, to);
    var shift := spans[k].start - |query| - 2;
    DocumentSpanIsFaithful(tok, u, vocab, doLowerCase, ex.docTokens, from + shift, to + shift,
                           f.tokenToOrigMap[from], f.tokenToOrigMap[to], f.tokens[from..to + 1]);
  }

  /** What holds of every candidate of an example. */
  ghost predicate CandidatesAreGood(
    u: Unicode, doLowerCase: bool, docTokens: seq<string>, features: seq<Feature>, maxAnswerLength: int)
  {
    forall p: Prelim ::
      p.featureIndex < |features| && ValidSpan(features[p.featureIndex], maxAnswerLength, p.startIndex, p.endIndex) ==>
        && p.startIndex > 0 && PredictionText(u, doLowerCase, docTokens, features)(p) != ""
        && CandidateIsFaithful(u, doLowerCase, docTokens, features, p,
                               PredictionText(u, doLowerCase, docTokens, features)(p))
  }

  lemma ConvertedCandidatesAreGood(
    u: Unicode, vocab: Vocab, doLowerCase: bool, tok: Features.Tokenizer, ex: SquadExample, exampleIndex: nat,
    uniqueId: int, maxSeqLength: nat, docStride: int, query: seq<string>, features: seq<Feature>, maxAnswerLength: int)
    requires u.Valid() && IsFull(tok, u, vocab, doLowerCase) && ValidAnswer(ex)
    requires Converts(tok, ex, exampleIndex, uniqueId, maxSeqLength, docStride, query, features)
    requires forall k :: 0 <= k < |ex.docTokens| ==> ex.docTokens[k] != ""
    ensures CandidatesAreGood(u, doLowerCase, ex.docTokens, features, maxAnswerLength)
    ensures FlatMap(tok, ex.docTokens) != [] ==> features != []
  {
    var spans, tokToOrig, s, e :|
      IsConversion(tok, ex, exampleIndex, uniqueId, maxSeqLength, docStride, query, spans, tokToOrig, s, e, features);
    forall p: Prelim |
      p.featureIndex < |features| && ValidSpan(features[p.featureIndex], maxAnswerLength, p.startIndex, p.endIndex)
      ensures p.startIndex > 0 && PredictionText(u, doLowerCase, ex.docTokens, features)(p) != ""
      ensures CandidateIsFaithful(u, doLowerCase, ex.docTokens, features, p,
                                  PredictionText(u, doLowerCase, ex.docTokens, features)(p))
    {
      CandidatesAreRankable(u, doLowerCase, tok, ex, query, tokToOrig, spans, maxSeqLength, s, e, features,
                            maxAnswerLength, p);
      CandidatesAreFaithful(u, vocab, doLowerCase, tok, ex, query, tokToOrig, spans, maxSeqLength, s, e, features,
                            maxAnswerLength, p);
    }
  }

  /** How to choose among the candidates. */
  datatype Choice = Choice(nBestSize: int, maxAnswerLength: int, version2: bool, threshold: real)

  /** The answer to one example, its n-best list and its null score, from the features and their logits. */
  ghost predicate IsPrediction(
    features: seq<Feature>, results: map<int, RawResult>, choice: Choice, finalText: Prelim -> string,
    answer: Option<string>, nbest: seq<Entry>, nul: NullScore)
    requires HasResults(features, results)
  {
    && nbest != [] && DistinctTexts(nbest) && (choice.version2 ==> EmptyTextOnce(nbest))
    && (exists ps ::
          && RanksAll(features, results, choice.nBestSize, choice.maxAnswerLength, choice.version2, nul, ps)
          && IsNBest(finalText, ps, choice.nBestSize, choice.version2, nul, nbest))
    && (if choice.version2
        then Version2Answer(features, results, choice.nBestSize, choice.maxAnswerLength, choice.threshold, finalText,
                            nul, answer)
        else Version1Answer(features, results, choice.nBestSize, choice.maxAnswerLength, finalText, answer))
  }

  /**
   The whole path for one example: its features, any logits for them, its ranked candidates and the
   answer. The promises of the prediction hold without conditions on the candidates, and the text of every
   candidate, the answer's among them, is faithful to the tokens it was predicted from.
   */
  method AnswerExample(
    u: Unicode, ghost vocab: Vocab, doLowerCase: bool, ghost tok: Features.Tokenizer, ex: SquadExample,
    ghost exampleIndex: nat, ghost uniqueId: int, ghost maxSeqLength: nat, ghost docStride: int,
    ghost query: seq<string>,
    features: seq<Feature>, results: map<int, RawResult>, choice: Choice)
    returns (answer: Option<string>, nbest: seq<Entry>, nul: NullScore)
    requires u.Valid() && IsFull(tok, u, vocab, doLowerCase) && ValidAnswer(ex)
    requires Converts(tok, ex, exampleIndex, uniqueId, maxSeqLength, docStride, query, features)
    requires HasResults(features, results)
    requires forall k :: 0 <= k < |ex.docTokens| ==> ex.docTokens[k] != ""
    requires choice.version2 ==> FlatMap(tok, ex.docTokens) != []
    ensures IsPrediction(features, results, choice, PredictionText(u, doLowerCase, ex.docTokens, features), answer,
                         nbest, nul)
    ensures CandidatesAreGood(u, doLowerCase, ex.docTokens, features, choice.maxAnswerLength)
  {
    ConvertedCandidatesAreGood(u, vocab, doLowerCase, tok, ex, exampleIndex, uniqueId, maxSeqLength, docStride, query,
                               features, choice.maxAnswerLength);
    var finalText := PredictionText(u, doLowerCase, ex.docTokens, features);
    answer, nbest, nul := PredictExample(features, results, choice.nBestSize, choice.maxAnswerLength, choice.version2,
                                         choice.threshold, finalText);
  }
}
