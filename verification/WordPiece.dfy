/**
 `WordpieceTokenizer.tokenize` (bert/tokenization.py): greedy longest-match segmentation of a word
 into vocabulary pieces, every piece but the first carrying the `##` marker.
 */
module WordPiece {
  import opened Text

  type Vocab = set<string>

  const UNK := "[UNK]"
  const MAX_INPUT_CHARS_PER_WORD := 200

  /** The vocabulary entry that stands for `word[i..j]`. */
  function Piece(word: string, i: nat, j: nat): string
    requires i <= j <= |word|
  {
    if i > 0 then "##" + word[i..j] else word[i..j]
  }

  // ---------- what a greedy segmentation is ----------

  ghost predicate NoMatchBeyond(vocab: Vocab, word: string, i: nat, j: nat) {
    forall e :: i <= j < e <= |word| ==> Piece(word, i, e) !in vocab
  }

  /** `word[i..j]` is the longest non-empty vocabulary match at `i`. */
  ghost predicate LongestMatch(vocab: Vocab, word: string, i: nat, j: nat) {
    i < j <= |word| && Piece(word, i, j) in vocab && NoMatchBeyond(vocab, word, i, j)
  }

  /** The `k`-th step of a list of cut positions is a longest match. */
  ghost predicate Step(vocab: Vocab, word: string, cuts: seq<nat>, k: nat) {
    k + 1 < |cuts| && LongestMatch(vocab, word, cuts[k], cuts[k + 1])
  }

  /** Cut positions reached from the start of the word by longest matches. */
  ghost predicate Chain(vocab: Vocab, word: string, cuts: seq<nat>) {
    && cuts != [] && cuts[0] == 0
    && forall k :: 0 <= k < |cuts| - 1 ==> Step(vocab, word, cuts, k)
  }

  ghost function Last(cuts: seq<nat>): nat
    requires cuts != []
  {
    cuts[|cuts| - 1]
  }

  /** The longest-match chain reaches a position, short of the end, where nothing matches. */
  ghost predicate Stuck(vocab: Vocab, word: string) {
    exists cuts :: Chain(vocab, word, cuts) && Last(cuts) < |word| && NoMatchBeyond(vocab, word, Last(cuts), Last(cuts))
  }

  ghost predicate IsPieceAt(word: string, cuts: seq<nat>, k: nat, piece: string) {
    k + 1 < |cuts| && cuts[k] <= cuts[k + 1] <= |word| && piece == Piece(word, cuts[k], cuts[k + 1])
  }

  /** The pieces between consecutive cut positions. */
  ghost predicate CutInto(word: string, cuts: seq<nat>, pieces: seq<string>) {
    && |cuts| == |pieces| + 1
    && forall k :: 0 <= k < |pieces| ==> IsPieceAt(word, cuts, k, pieces[k])
  }

  ghost predicate GreedySegmentation(vocab: Vocab, word: string, pieces: seq<string>) {
    exists cuts :: Chain(vocab, word, cuts) && Last(cuts) == |word| && CutInto(word, cuts, pieces)
  }

  // ---------- the algorithm ----------

  /** The end of the longest match at `i`, searched downwards from `end`; `i` when there is none. */
  function LongestEnd(vocab: Vocab, word: string, i: nat, end: nat): (j: nat)
    requires i <= end <= |word|
    ensures i <= j <= end && (j > i ==> Piece(word, i, j) in vocab)
    ensures forall e :: j < e <= end ==> Piece(word, i, e) !in vocab
  {
    if end == i then i
    else if Piece(word, i, end) in vocab then end
    else LongestEnd(vocab, word, i, end - 1)
  }

  datatype Segmentation = Bad | Good(pieces: seq<string>)

  /** The greedy segmentation of `word[i..]`. */
  function Greedy(vocab: Vocab, word: string, i: nat): Segmentation
    requires i <= |word|
    decreases |word| - i
  {
    if i == |word| then Good([])
    else
      var j := LongestEnd(vocab, word, i, |word|);
      if j == i then Bad
      else match Greedy(vocab, word, j)
        case Bad => Bad
        case Good(ps) => Good([Piece(word, i, j)] + ps)
  }

  /** The pieces of one word. */
  function WordPieces(vocab: Vocab, word: string): seq<string> {
    if |word| > MAX_INPUT_CHARS_PER_WORD then [UNK]
    else match Greedy(vocab, word, 0)
      case Bad => [UNK]
      case Good(ps) => ps
  }

  method TokenizeWord(vocab: Vocab, word: string) returns (output: seq<string>)
    ensures output == WordPieces(vocab, word)
  {
    if |word| > MAX_INPUT_CHARS_PER_WORD {
      return [UNK];
    }
    var isBad := false;
    var start := 0;
    var subTokens: seq<string> := [];
    while start < |word|
      invariant 0 <= start <= |word| && !isBad
      invariant Greedy(vocab, word, 0) ==
                match Greedy(vocab, word, start) case Bad => Bad case Good(ps) => Good(subTokens + ps)
    {
      var end := |word|;
      var found := false;
      while start < end
        invariant start <= end <= |word|
        invariant LongestEnd(vocab, word, start, end) == LongestEnd(vocab, word, start, |word|)
      {
        if Piece(word, start, end) in vocab {
          found := true;
          break;
        }
        end := end - 1;
      }
      if start == end {
        isBad := true;
        break;
      }
      ghost var rest := Greedy(vocab, word, end);
      if rest.Good? {
        assert subTokens + ([Piece(word, start, end)] + rest.pieces) ==
            (subTokens + [Piece(word, start, end)]) + rest.pieces;
      }
      subTokens := subTokens + [Piece(word, start, end)];
      start := end;
    }
    output := if isBad then [UNK] else subTokens;
  }

  // ---------- the algorithm meets the definition ----------

  /** Two longest-match chains agree as far as both go. */
  lemma {:induction false} ChainsAgree(vocab: Vocab, word: string, a: seq<nat>, b: seq<nat>, k: nat)
    requires Chain(vocab, word, a) && Chain(vocab, word, b) && k < |a| && k < |b|
    ensures a[k] == b[k]
  {
    if k > 0 {
      ChainsAgree(vocab, word, a, b, k - 1);
      assert Step(vocab, word, a, k - 1) && Step(vocab, word, b, k - 1);
    }
  }

  lemma ChainStep(vocab: Vocab, word: string, cuts: seq<nat>, k: nat)
    requires Chain(vocab, word, cuts)
    ensures k + 1 < |cuts| ==> LongestMatch(vocab, word, cuts[k], cuts[k + 1])
  {
    if k + 1 < |cuts| { assert Step(vocab, word, cuts, k); }
  }

  /** A chain that reaches the end of the word is as long as chains get. */
  lemma CompleteChainIsLongest(vocab: Vocab, word: string, a: seq<nat>, b: seq<nat>)
    requires Chain(vocab, word, a) && Chain(vocab, word, b) && Last(a) == |word|
    ensures |b| <= |a|
  {
    if |b| > |a| {
      ChainsAgree(vocab, word, a, b, |a| - 1);
      ChainStep(vocab, word, b, |a| - 1);
      assert false;
    }
  }

  /** There is at most one greedy segmentation. */
  lemma SegmentationIsUnique(vocab: Vocab, word: string, p: seq<string>, q: seq<string>)
    requires GreedySegmentation(vocab, word, p) && GreedySegmentation(vocab, word, q)
    ensures p == q
  {
    var a :| Chain(vocab, word, a) && Last(a) == |word| && CutInto(word, a, p);
    var b :| Chain(vocab, word, b) && Last(b) == |word| && CutInto(word, b, q);
    CompleteChainIsLongest(vocab, word, a, b);
    CompleteChainIsLongest(vocab, word, b, a);
    forall k | 0 <= k < |p| ensures p[k] == q[k] {
      ChainsAgree(vocab, word, a, b, k);
      ChainsAgree(vocab, word, a, b, k + 1);
      assert IsPieceAt(word, a, k, p[k]) && IsPieceAt(word, b, k, q[k]);
    }
  }

  /** Extending a chain by the greedy rest either completes it or gets stuck. */
  lemma {:induction false} GreedyExtendsChain(vocab: Vocab, word: string, cuts: seq<nat>, pieces: seq<string>)
    requires Chain(vocab, word, cuts) && Last(cuts) <= |word| && CutInto(word, cuts, pieces)
    ensures match Greedy(vocab, word, Last(cuts))
            case Bad => Stuck(vocab, word)
            case Good(ps) => GreedySegmentation(vocab, word, pieces + ps)
    decreases |word| - Last(cuts)
  {
    var i := Last(cuts);
    if i == |word| {
      assert pieces + [] == pieces;
    } else {
      var j := LongestEnd(vocab, word, i, |word|);
      if j > i {
        var p := Piece(word, i, j);
        ExtendChain(vocab, word, cuts, pieces, j);
        GreedyExtendsChain(vocab, word, cuts + [j], pieces + [p]);
        var rest := Greedy(vocab, word, j);
        if rest.Good? {
          assert pieces + ([p] + rest.pieces) == (pieces + [p]) + rest.pieces;
        }
      }
    }
  }

  lemma ExtendChain(vocab: Vocab, word: string, cuts: seq<nat>, pieces: seq<string>, j: nat)
    requires Chain(vocab, word, cuts) && CutInto(word, cuts, pieces)
    requires LongestMatch(vocab, word, Last(cuts), j)
    ensures Chain(vocab, word, cuts + [j]) && CutInto(word, cuts + [j], pieces + [Piece(word, Last(cuts), j)])
  {
    forall k | 0 <= k < |cuts| ensures Step(vocab, word, cuts + [j], k) {
      assert k < |cuts| - 1 ==> Step(vocab, word, cuts, k);
    }
    forall k | 0 <= k < |pieces| ensures IsPieceAt(word, cuts + [j], k, pieces[k]) {
      assert IsPieceAt(word, cuts, k, pieces[k]);
    }
  }

  /** A word cannot both be segmented and get stuck. */
  lemma StuckExcludesSegmentation(vocab: Vocab, word: string, p: seq<string>)
    ensures !(Stuck(vocab, word) && GreedySegmentation(vocab, word, p))
  {
    if Stuck(vocab, word) && GreedySegmentation(vocab, word, p) {
      var a :| Chain(vocab, word, a) && Last(a) == |word| && CutInto(word, a, p);
      var b :| Chain(vocab, word, b) && Last(b) < |word| && NoMatchBeyond(vocab, word, Last(b), Last(b));
      CompleteChainIsLongest(vocab, word, a, b);
      ChainsAgree(vocab, word, a, b, |b| - 1);
      ChainStep(vocab, word, a, |b| - 1);
      assert false;
    }
  }

  /**
   Words over the length limit and words whose longest-match chain gets stuck yield one `[UNK]`; every
   other word yields its one greedy segmentation.
   */
  lemma WordPiecesCorrect(vocab: Vocab, word: string)
    ensures Stuck(vocab, word) <==> !exists p :: GreedySegmentation(vocab, word, p)
    ensures |word| > MAX_INPUT_CHARS_PER_WORD || Stuck(vocab, word) ==> WordPieces(vocab, word) == [UNK]
    ensures |word| <= MAX_INPUT_CHARS_PER_WORD && !Stuck(vocab, word) ==>
              GreedySegmentation(vocab, word, WordPieces(vocab, word)) &&
              forall p :: GreedySegmentation(vocab, word, p) ==> p == WordPieces(vocab, word)
  {
    assert Chain(vocab, word, [0]) && CutInto(word, [0], []);
    GreedyExtendsChain(vocab, word, [0], []);
    var g := Greedy(vocab, word, 0);
    if g.Good? {
      assert [] + g.pieces == g.pieces;
      forall p | GreedySegmentation(vocab, word, p) ensures p == g.pieces {
        SegmentationIsUnique(vocab, word, p, g.pieces);
      }
      StuckExcludesSegmentation(vocab, word, g.pieces);
    } else {
      forall p ensures !GreedySegmentation(vocab, word, p) {
        StuckExcludesSegmentation(vocab, word, p);
      }
    }
  }

  /** A vocabulary word is its own greedy segmentation. */
  lemma VocabularyWordIsWhole(vocab: Vocab, word: string)
    requires word != "" && word in vocab
    ensures GreedySegmentation(vocab, word, [word])
  {
    var cuts: seq<nat> := [0, |word|];
    assert Piece(word, 0, |word|) == word;
    assert Step(vocab, word, cuts, 0) && IsPieceAt(word, cuts, 0, word);
    assert Chain(vocab, word, cuts) && Last(cuts) == |word| && CutInto(word, cuts, [word]);
  }

  lemma OnePieceIsTheWord(vocab: Vocab, word: string, p: string)
    requires GreedySegmentation(vocab, word, [p])
    ensures p == word && word in vocab
  {
    var cuts :| Chain(vocab, word, cuts) && Last(cuts) == |word| && CutInto(word, cuts, [p]);
    assert Step(vocab, word, cuts, 0) && IsPieceAt(word, cuts, 0, [p][0]);
    assert Piece(word, 0, |word|) == word;
  }

  /**
   One `[UNK]` comes out exactly for words over the length limit, words whose longest-match chain gets
   stuck, and the word `[UNK]` itself when the vocabulary has it, as BERT's vocabularies do.
   */
  lemma UnknownIff(vocab: Vocab, word: string)
    ensures WordPieces(vocab, word) == ["[UNK]"] <==>
              |word| > 200 || Stuck(vocab, word) || (word == "[UNK]" && "[UNK]" in vocab)
  {
    WordPiecesCorrect(vocab, word);
    if |word| <= MAX_INPUT_CHARS_PER_WORD && !Stuck(vocab, word) {
      if WordPieces(vocab, word) == [UNK] {
        OnePieceIsTheWord(vocab, word, UNK);
      } else if word == UNK && UNK in vocab {
        VocabularyWordIsWhole(vocab, UNK);
        assert false;
      }
    }
  }

  // ---------- the round trip ----------

  predicate IsContinuation(p: string) {
    |p| >= 2 && p[0] == '#' && p[1] == '#'
  }

  /** A piece without its `##` marker. */
  function Unmark(p: string): string {
    if IsContinuation(p) then p[2..] else p
  }

  /** The marked pieces of a word: a first piece as it stands, then only `##` continuations. */
  ghost predicate PiecesOf(word: string, ps: seq<string>) {
    && ps != [] && ps[0] != "" && !IsContinuation(ps[0])
    && (forall k :: 1 <= k < |ps| ==> IsContinuation(ps[k]) && |ps[k]| > 2)
    && Concat(ps) == word
  }

  function Concat(ps: seq<string>): string {
    if ps == [] then "" else Unmark(ps[0]) + Concat(ps[1..])
  }

  /** The shape of the `k`-th piece of a segmentation that starts at `i`. */
  ghost predicate WellMarked(i: nat, k: nat, p: string) {
    if i == 0 && k == 0 then p != "" && !IsContinuation(p) else IsContinuation(p) && |p| > 2
  }

  lemma {:induction false} GreedyPieces(vocab: Vocab, word: string, i: nat)
    requires i <= |word| && Greedy(vocab, word, i).Good? && !IsContinuation(word)
    ensures var ps := Greedy(vocab, word, i).pieces;
            && Concat(ps) == word[i..]
            && (i < |word| ==> ps != [])
            && forall k :: 0 <= k < |ps| ==> WellMarked(i, k, ps[k])
    decreases |word| - i
  {
    if i < |word| {
      var j := LongestEnd(vocab, word, i, |word|);
      GreedyPieces(vocab, word, j);
      PieceMarks(word, i, j);
      var ps, rest := Greedy(vocab, word, i).pieces, Greedy(vocab, word, j).pieces;
      assert ps[1..] == rest;
      assert word[i..] == word[i..j] + word[j..];
      forall k | 0 <= k < |ps| ensures WellMarked(i, k, ps[k]) {
        if k > 0 { assert WellMarked(j, k - 1, rest[k - 1]); }
      }
    }
  }

  lemma PieceMarks(word: string, i: nat, j: nat)
    requires i < j <= |word| && !IsContinuation(word)
    ensures Unmark(Piece(word, i, j)) == word[i..j] && WellMarked(i, 0, Piece(word, i, j))
  {
    assert i > 0 ==> Piece(word, i, j)[2..] == word[i..j];
  }

  /** Dropping the markers and concatenating gives the word back. */
  lemma WordPiecesRoundTrip(vocab: Vocab, word: string)
    requires word != "" && !IsContinuation(word)
    ensures WordPieces(vocab, word) == [UNK] || PiecesOf(word, WordPieces(vocab, word))
  {
    if Greedy(vocab, word, 0).Good? {
      GreedyPieces(vocab, word, 0);
      var ps := Greedy(vocab, word, 0).pieces;
      assert WellMarked(0, 0, ps[0]);
      assert forall k :: 1 <= k < |ps| ==> WellMarked(0, k, ps[k]) ==> IsContinuation(ps[k]) && |ps[k]| > 2;
    }
  }

  // ---------- whole texts ----------

  /** The pieces of a list of words. */
  function AllPieces(vocab: Vocab, words: seq<string>): seq<string> {
    if words == [] then [] else WordPieces(vocab, words[0]) + AllPieces(vocab, words[1..])
  }

  lemma {:induction false} AllPiecesConcat(vocab: Vocab, a: seq<string>, b: seq<string>)
    ensures AllPieces(vocab, a + b) == AllPieces(vocab, a) + AllPieces(vocab, b)
  {
    if a == [] {
      assert a + b == b;
    } else {
      assert (a + b)[1..] == a[1..] + b;
      AllPiecesConcat(vocab, a[1..], b);
    }
  }

  method Tokenize(isSpace: char -> bool, vocab: Vocab, text: string) returns (output: seq<string>)
    ensures output == AllPieces(vocab, Words(isSpace, text))
  {
    output := [];
    var words := Words(isSpace, text);
    for i := 0 to |words|
      invariant output == AllPieces(vocab, words[..i])
    {
      var sub := TokenizeWord(vocab, words[i]);
      output := output + sub;
      assert words[..i + 1] == words[..i] + [words[i]];
      AllPiecesConcat(vocab, words[..i], [words[i]]);
      assert AllPieces(vocab, [words[i]]) == sub + AllPieces(vocab, []);
    }
    assert words[..|words|] == words;
  }
}
