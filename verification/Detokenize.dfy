/**
 From a span of WordPieces back to text: the `##` removal of `write_predictions`
 (bert/run_squad.py) is a printer for the tokenizer of bert/tokenization.py.
 */
module Detokenize {
  import opened Text
  import opened BasicTokenizer
  import opened WordPiece

  /** `tok_text` of `write_predictions`: join, drop the markers, clean the whitespace. */
  function PredText(isSpace: char -> bool, ps: seq<string>): string {
    Join(Words(isSpace, RemoveAll(RemoveAll(Join(ps), " ##"), "##")))
  }

  // ---------- the printer, piece by piece ----------

  /** What a piece that is not the first of its span adds to the text. */
  function Tail(p: string): string {
    if IsContinuation(p) then p[2..] else " " + p
  }

  function Rest(ps: seq<string>): string {
    if ps == [] then "" else Tail(ps[0]) + Rest(ps[1..])
  }

  function Detok(ps: seq<string>): string {
    if ps == [] then "" else Unmark(ps[0]) + Rest(ps[1..])
  }

  lemma {:induction false} RestConcat(a: seq<string>, b: seq<string>)
    ensures Rest(a + b) == Rest(a) + Rest(b)
  {
    if a == [] {
      assert a + b == b;
    } else {
      assert (a + b)[1..] == a[1..] + b;
      RestConcat(a[1..], b);
    }
  }

  /** The pieces the tokenizer makes: whole or first pieces, and marked continuations. */
  ghost predicate IsHead(isSpace: char -> bool, p: string) {
    IsWord(isSpace, p) && (p == "#" || '#' !in p)
  }

  ghost predicate IsMarked(isSpace: char -> bool, p: string) {
    IsWord(isSpace, p) && IsContinuation(p) && |p| > 2 && '#' !in p[2..]
  }

  ghost predicate Shaped(isSpace: char -> bool, ps: seq<string>) {
    forall k :: 0 <= k < |ps| ==> IsHead(isSpace, ps[k]) || IsMarked(isSpace, ps[k])
  }

  lemma ShapeFacts(isSpace: char -> bool, p: string)
    requires isSpace(' ') && (IsHead(isSpace, p) || IsMarked(isSpace, p))
    ensures IsHead(isSpace, p) <==> !IsContinuation(p)
    ensures Unmark(p) != "" && SpaceFree(isSpace, Unmark(p))
    ensures Tail(p) != "" && Tail(p)[0] != '#' && NoDoubleHash(Tail(p))
    ensures ' ' !in p
  {
    if IsMarked(isSpace, p) {
      assert p[2] == p[2..][0];
      assert '#' !in p[2..];
    } else {
      assert p == "#" || '#' !in p;
    }
  }

  // ---------- the two replacements ----------

  /** The first replacement glues every continuation to what stands before it. */
  lemma {:induction false} RemoveMarkers(isSpace: char -> bool, ps: seq<string>)
    requires isSpace(' ') && Shaped(isSpace, ps)
    ensures RemoveAll(JoinTail(ps), " ##") == Rest(ps)
  {
    if ps != [] {
      var p, rest := ps[0], JoinTail(ps[1..]);
      RemoveMarkers(isSpace, ps[1..]);
      assert IsHead(isSpace, p) || IsMarked(isSpace, p);
      ShapeFacts(isSpace, p);
      if IsMarked(isSpace, p) {
        RemoveMarkedStart(isSpace, p, rest);
      } else {
        RemoveHeadStart(isSpace, p, rest);
      }
    }
  }

  lemma RemoveMarkedStart(isSpace: char -> bool, p: string, rest: string)
    requires isSpace(' ') && IsMarked(isSpace, p)
    ensures RemoveAll(" " + p + rest, " ##") == p[2..] + RemoveAll(rest, " ##")
  {
    var s := " " + p + rest;
    assert s[..3] == " ##";
    assert s[3..] == p[2..] + rest;
    RemoveAllSkips(p[2..], rest, " ##");
  }

  lemma RemoveHeadStart(isSpace: char -> bool, p: string, rest: string)
    requires isSpace(' ') && IsHead(isSpace, p) && (rest == "" || rest[0] == ' ')
    ensures RemoveAll(" " + p + rest, " ##") == " " + p + RemoveAll(rest, " ##")
  {
    ShapeFacts(isSpace, p);
    HeadIsNoMarker(p, rest);
    RemoveAllCopiesWord(' ', p, rest, " ##");
    AppendAssociates(" ", p, rest);
    AppendAssociates(" ", p, RemoveAll(rest, " ##"));
  }

  lemma HeadIsNoMarker(p: string, rest: string)
    requires p != "" && !IsContinuation(p) && (rest == "" || rest[0] != '#')
    ensures !(" ##" <= " " + (p + rest))
  {
    var s := p + rest;
    if |s| >= 2 {
      assert s[0] == p[0] && s[1] == if |p| > 1 then p[1] else rest[0];
      assert (" " + s)[1] == s[0] && (" " + s)[2] == s[1];
    }
  }

  predicate NoDoubleHash(s: string) {
    forall i :: 0 < i < |s| ==> !(s[i - 1] == '#' && s[i] == '#')
  }

  lemma {:induction false} RemoveNothing(s: string)
    requires NoDoubleHash(s)
    ensures RemoveAll(s, "##") == s
  {
    if |s| >= 2 {
      assert s[..2][0] == s[1 - 1] && s[..2][1] == s[1];
      RemoveNothing(s[1..]);
      assert s == [s[0]] + s[1..];
    }
  }

  lemma {:induction false} RestHasNoMarker(isSpace: char -> bool, ps: seq<string>)
    requires isSpace(' ') && Shaped(isSpace, ps)
    ensures NoDoubleHash(Rest(ps)) && (Rest(ps) != "" ==> Rest(ps)[0] != '#')
  {
    if ps != [] {
      RestHasNoMarker(isSpace, ps[1..]);
      assert IsHead(isSpace, ps[0]) || IsMarked(isSpace, ps[0]);
      ShapeFacts(isSpace, ps[0]);
    }
  }

  /** The second replacement removes the marker a span that starts mid-word begins with. */
  lemma RemoveFirstMarker(isSpace: char -> bool, p: string, rest: string)
    requires isSpace(' ') && (IsHead(isSpace, p) || IsMarked(isSpace, p))
    requires NoDoubleHash(rest) && (rest != "" ==> rest[0] != '#')
    ensures RemoveAll(p + rest, "##") == Unmark(p) + rest
  {
    if IsMarked(isSpace, p) {
      assert (p + rest)[..2] == "##" && (p + rest)[2..] == p[2..] + rest;
      RemoveAllSkips(p[2..], rest, "##");
      RemoveNothing(rest);
    } else {
      RemoveNothing(p + rest);
    }
  }

  // ---------- the whitespace clean-up changes nothing ----------

  lemma TidyWord(isSpace: char -> bool, s: string, w: string)
    requires isSpace(' ') && TidyPrefix(isSpace, s) && EndsInWord(isSpace, s) && IsWord(isSpace, w)
    ensures TidyPrefix(isSpace, s + w) && EndsInWord(isSpace, s + w)
    ensures TidyPrefix(isSpace, s + " " + w) && EndsInWord(isSpace, s + " " + w)
  {
  }

  lemma {:induction false} TidyExtends(isSpace: char -> bool, s: string, ps: seq<string>)
    requires isSpace(' ') && Shaped(isSpace, ps)
    requires TidyPrefix(isSpace, s) && EndsInWord(isSpace, s)
    ensures TidyPrefix(isSpace, s + Rest(ps)) && EndsInWord(isSpace, s + Rest(ps))
    decreases |ps|
  {
    if ps == [] {
      assert s + Rest(ps) == s;
    } else {
      var p := ps[0];
      assert IsHead(isSpace, p) || IsMarked(isSpace, p);
      ShapeFacts(isSpace, p);
      TidyWord(isSpace, s, Unmark(p));
      var t := s + Tail(p);
      assert t == if IsContinuation(p) then s + Unmark(p) else s + " " + Unmark(p);
      TidyExtends(isSpace, t, ps[1..]);
      AppendAssociates(s, Tail(p), Rest(ps[1..]));
    }
  }

  lemma DetokIsTidy(isSpace: char -> bool, ps: seq<string>)
    requires isSpace(' ') && Shaped(isSpace, ps) && ps != []
    ensures TidyPrefix(isSpace, Detok(ps)) && EndsInWord(isSpace, Detok(ps))
    ensures StartsInWord(isSpace, Detok(ps))
  {
    assert IsHead(isSpace, ps[0]) || IsMarked(isSpace, ps[0]);
    ShapeFacts(isSpace, ps[0]);
    TidyExtends(isSpace, Unmark(ps[0]), ps[1..]);
  }

  /** The three replacements and the clean-up together print the pieces one after another. */
  lemma PredTextIsDetok(isSpace: char -> bool, ps: seq<string>)
    requires isSpace(' ') && Shaped(isSpace, ps)
    ensures PredText(isSpace, ps) == Detok(ps)
  {
    if ps == [] {
      assert RemoveAll("", " ##") == "" && RemoveAll("", "##") == "";
    } else {
      var p, rest := ps[0], ps[1..];
      assert IsHead(isSpace, p) || IsMarked(isSpace, p);
      ShapeFacts(isSpace, p);
      RemoveAllSkips(p, JoinTail(rest), " ##");
      RemoveMarkers(isSpace, rest);
      RestHasNoMarker(isSpace, rest);
      RemoveFirstMarker(isSpace, p, Rest(rest));
      assert RemoveAll(RemoveAll(Join(ps), " ##"), "##") == Detok(ps);
      DetokIsTidy(isSpace, ps);
      JoinWordsTidy(isSpace, Detok(ps));
    }
  }

  // ---------- spans of pieces are spans of text ----------

  /** A piece in the middle prints as it would first, after a space unless it continues a word. */
  lemma RestIsDetok(ps: seq<string>)
    requires ps != []
    ensures Rest(ps) == (if IsContinuation(ps[0]) then "" else " ") + Detok(ps)
  {
    var gap := if IsContinuation(ps[0]) then "" else " ";
    assert Tail(ps[0]) == gap + Unmark(ps[0]);
    AppendAssociates(gap, Unmark(ps[0]), Rest(ps[1..]));
  }

  lemma DetokConcat(a: seq<string>, b: seq<string>)
    requires a != []
    ensures Detok(a + b) == Detok(a) + Rest(b)
  {
    assert (a + b)[0] == a[0] && (a + b)[1..] == a[1..] + b;
    RestConcat(a[1..], b);
    AppendAssociates(Unmark(a[0]), Rest(a[1..]), Rest(b));
  }

  /** What is printed before a span. */
  function Before(left: seq<string>, first: string): string {
    if left == [] then "" else Detok(left) + if IsContinuation(first) then "" else " "
  }

  lemma DetokBefore(left: seq<string>, span: seq<string>)
    requires span != []
    ensures Detok(left + span) == Before(left, span[0]) + Detok(span)
  {
    if left == [] {
      assert left + span == span && "" + Detok(span) == Detok(span);
    } else {
      DetokConcat(left, span);
      RestIsDetok(span);
      AppendAssociates(Detok(left), if IsContinuation(span[0]) then "" else " ", Detok(span));
    }
  }

  lemma DetokSplit(left: seq<string>, span: seq<string>, right: seq<string>)
    requires span != []
    ensures Detok(left + span + right) == Before(left, span[0]) + Detok(span) + Rest(right)
  {
    DetokConcat(left + span, right);
    DetokBefore(left, span);
  }

  /** A contiguous span of pieces prints as a contiguous part of what all pieces print. */
  lemma SpanIsSubstring(ps: seq<string>, s: nat, e: nat)
    requires s < e <= |ps|
    ensures IsSubstring(Detok(ps[s..e]), Detok(ps))
  {
    var left, span, right := ps[..s], ps[s..e], ps[e..];
    assert ps == left + span + right;
    DetokSplit(left, span, right);
    MiddleIsSubstring(Before(left, span[0]), Detok(span), Rest(right));
  }

  /** Word by word, the pieces print the words. */
  lemma {:induction false} RestOfPieces(word: string, ps: seq<string>)
    requires PiecesOf(word, ps)
    ensures Rest(ps) == " " + word
  {
    RestOfMarked(ps[1..]);
    assert Concat(ps) == ps[0] + Concat(ps[1..]);
  }

  lemma {:induction false} RestOfMarked(ps: seq<string>)
    requires forall k :: 0 <= k < |ps| ==> IsContinuation(ps[k])
    ensures Rest(ps) == Concat(ps)
  {
    if ps != [] { RestOfMarked(ps[1..]); }
  }

  /** The pieces of a token, a token without pieces standing for itself instead of as `[UNK]`. */
  function KnownPieces(vocab: Vocab, token: string): seq<string> {
    var ps := WordPieces(vocab, token);
    if ps == [UNK] then [token] else ps
  }

  function AllKnown(vocab: Vocab, tokens: seq<string>): seq<string> {
    if tokens == [] then [] else KnownPieces(vocab, tokens[0]) + AllKnown(vocab, tokens[1..])
  }

  /** Tokens as the basic tokenizer leaves them, as far as the `#` sign is concerned. */
  ghost predicate HashAlone(isSpace: char -> bool, tokens: seq<string>) {
    forall k :: 0 <= k < |tokens| ==> IsHead(isSpace, tokens[k])
  }

  lemma KnownPiecesOfToken(isSpace: char -> bool, vocab: Vocab, token: string)
    requires IsHead(isSpace, token)
    ensures PiecesOf(token, KnownPieces(vocab, token))
    ensures |KnownPieces(vocab, token)| == |WordPieces(vocab, token)|
  {
    WordPiecesRoundTrip(vocab, token);
    if WordPieces(vocab, token) == [UNK] {
      assert Concat([token]) == Unmark(token) + Concat([]);
    }
  }

  lemma {:induction false} RestOfTokens(isSpace: char -> bool, vocab: Vocab, tokens: seq<string>)
    requires HashAlone(isSpace, tokens)
    ensures Rest(AllKnown(vocab, tokens)) == JoinTail(tokens)
  {
    if tokens != [] {
      var t := tokens[0];
      assert IsHead(isSpace, t);
      KnownPiecesOfToken(isSpace, vocab, t);
      RestOfPieces(t, KnownPieces(vocab, t));
      RestConcat(KnownPieces(vocab, t), AllKnown(vocab, tokens[1..]));
      RestOfTokens(isSpace, vocab, tokens[1..]);
    }
  }

  /** All pieces together print the joined tokens. */
  lemma DetokOfTokens(isSpace: char -> bool, vocab: Vocab, tokens: seq<string>)
    requires HashAlone(isSpace, tokens)
    ensures Detok(AllKnown(vocab, tokens)) == Join(tokens)
  {
    if tokens != [] {
      var t := tokens[0];
      var ps := KnownPieces(vocab, t);
      assert IsHead(isSpace, t);
      KnownPiecesOfToken(isSpace, vocab, t);
      RestOfPieces(t, ps);
      RestIsDetok(ps);
      assert (" " + Detok(ps))[1..] == Detok(ps) && (" " + t)[1..] == t;
      DetokConcat(ps, AllKnown(vocab, tokens[1..]));
      RestOfTokens(isSpace, vocab, tokens[1..]);
    }
  }

  // ---------- shapes of the pieces ----------

  lemma {:induction false} ConcatChars(isSpace: char -> bool, ps: seq<string>, k: nat)
    requires k < |ps| && SpaceFree(isSpace, Concat(ps))
    ensures SpaceFree(isSpace, Unmark(ps[k]))
    ensures '#' !in Concat(ps) ==> '#' !in Unmark(ps[k])
  {
    var first, rest := Unmark(ps[0]), Concat(ps[1..]);
    assert Concat(ps) == first + rest;
    assert forall i :: 0 <= i < |first| ==> first[i] == Concat(ps)[i];
    assert forall i :: 0 <= i < |rest| ==> rest[i] == Concat(ps)[|first| + i];
    if k > 0 { ConcatChars(isSpace, ps[1..], k - 1); }
  }

  lemma PieceIsShaped(isSpace: char -> bool, token: string, ps: seq<string>, k: nat)
    requires IsHead(isSpace, token) && '#' !in token && !isSpace('#') && PiecesOf(token, ps) && k < |ps|
    ensures IsHead(isSpace, ps[k]) || IsMarked(isSpace, ps[k])
  {
    ConcatChars(isSpace, ps, k);
    if k > 0 {
      assert IsContinuation(ps[k]) && |ps[k]| > 2;
      assert ps[k] == "##" + ps[k][2..];
    }
  }

  lemma KnownPiecesShaped(isSpace: char -> bool, vocab: Vocab, token: string)
    requires IsHead(isSpace, token) && !isSpace('#')
    ensures Shaped(isSpace, KnownPieces(vocab, token))
  {
    KnownPiecesOfToken(isSpace, vocab, token);
    PiecesOfShaped(isSpace, token, KnownPieces(vocab, token));
  }

  lemma PiecesOfShaped(isSpace: char -> bool, token: string, ps: seq<string>)
    requires IsHead(isSpace, token) && !isSpace('#') && PiecesOf(token, ps)
    ensures Shaped(isSpace, ps)
  {
    if '#' in token {
      HashIsOnePiece(ps);
    } else {
      forall k | 0 <= k < |ps| ensures IsHead(isSpace, ps[k]) || IsMarked(isSpace, ps[k]) {
        PieceIsShaped(isSpace, token, ps, k);
      }
    }
  }

  lemma HashIsOnePiece(ps: seq<string>)
    requires PiecesOf("#", ps)
    ensures ps == ["#"]
  {
    assert Concat(ps) == ps[0] + Concat(ps[1..]);
    assert |ps| > 1 ==> IsContinuation(ps[1]) && |ps[1]| > 2;
    assert |ps| > 1 ==> |Concat(ps[1..])| >= |Unmark(ps[1])|;
    assert |ps| == 1;
    assert ps[1..] == [] && ps[0] == "#";
  }

  lemma {:induction false} AllKnownShaped(isSpace: char -> bool, vocab: Vocab, tokens: seq<string>)
    requires HashAlone(isSpace, tokens) && !isSpace('#')
    ensures Shaped(isSpace, AllKnown(vocab, tokens))
  {
    if tokens != [] {
      assert IsHead(isSpace, tokens[0]);
      KnownPiecesShaped(isSpace, vocab, tokens[0]);
      AllKnownShaped(isSpace, vocab, tokens[1..]);
    }
  }

  /** Known and actual pieces differ only where the actual one is `[UNK]`. */
  ghost predicate AgreesKnown(known: seq<string>, actual: seq<string>) {
    |known| == |actual| && forall i :: 0 <= i < |actual| && actual[i] != UNK ==> known[i] == actual[i]
  }

  lemma AgreesConcat(k1: seq<string>, a1: seq<string>, k2: seq<string>, a2: seq<string>)
    requires AgreesKnown(k1, a1) && AgreesKnown(k2, a2)
    ensures AgreesKnown(k1 + k2, a1 + a2)
  {
  }

  lemma {:induction false} KnownAgrees(isSpace: char -> bool, vocab: Vocab, tokens: seq<string>)
    requires HashAlone(isSpace, tokens)
    ensures AgreesKnown(AllKnown(vocab, tokens), AllPieces(vocab, tokens))
  {
    if tokens != [] {
      assert IsHead(isSpace, tokens[0]);
      KnownPiecesOfToken(isSpace, vocab, tokens[0]);
      KnownAgrees(isSpace, vocab, tokens[1..]);
      AgreesConcat(KnownPieces(vocab, tokens[0]), WordPieces(vocab, tokens[0]),
                   AllKnown(vocab, tokens[1..]), AllPieces(vocab, tokens[1..]));
    }
  }

  lemma PiecesShaped(isSpace: char -> bool, vocab: Vocab, tokens: seq<string>)
    requires HashAlone(isSpace, tokens) && !isSpace('#') && IsHead(isSpace, UNK)
    ensures Shaped(isSpace, AllPieces(vocab, tokens))
  {
    AllKnownShaped(isSpace, vocab, tokens);
    KnownAgrees(isSpace, vocab, tokens);
    var ps := AllPieces(vocab, tokens);
    forall k | 0 <= k < |ps| ensures IsHead(isSpace, ps[k]) || IsMarked(isSpace, ps[k]) {
      if ps[k] != UNK { assert AllKnown(vocab, tokens)[k] == ps[k]; }
    }
  }

  lemma AtomicHash(u: Unicode, t: string)
    requires IsWord(u.isSpace, t) && Atomic(u, t)
    ensures IsHead(u.isSpace, t)
  {
    if '#' in t {
      var i :| 0 <= i < |t| && t[i] == '#';
      assert IsPunctuation(u, t[i]);
      assert t == [t[0]];
    }
  }

  /** Basic tokens contain `#` only as a token of its own. */
  lemma BasicTokensHashAlone(u: Unicode, doLowerCase: bool, text: string)
    requires u.Valid()
    ensures HashAlone(u.isSpace, BasicTokens(u, doLowerCase, text))
  {
    TokensAreAtomicWords(u, doLowerCase, text);
    AtomicHashes(u, BasicTokens(u, doLowerCase, text));
  }

  lemma AtomicHashes(u: Unicode, tokens: seq<string>)
    requires AllWords(u.isSpace, tokens) && AllAtomic(u, tokens)
    ensures HashAlone(u.isSpace, tokens)
  {
    forall k | 0 <= k < |tokens| ensures IsHead(u.isSpace, tokens[k]) {
      assert IsWord(u.isSpace, tokens[k]) && Atomic(u, tokens[k]);
      AtomicHash(u, tokens[k]);
    }
  }

  // ---------- the unknown token ----------

  lemma UnkIsHead(u: Unicode)
    requires u.Valid()
    ensures IsHead(u.isSpace, UNK) && !u.isSpace('#')
  {
    forall i | 0 <= i < |UNK| ensures !u.isSpace(UNK[i]) {
      assert 33 <= UNK[i] as int <= 126;
    }
  }

  /** A printed span shows every `[UNK]` it holds. */
  lemma UnkIsPrinted(ps: seq<string>, k: nat)
    requires k < |ps| && ps[k] == UNK
    ensures IsSubstring(UNK, Detok(ps))
  {
    var one := ps[k..k + 1];
    assert one == [UNK] && one[1..] == [];
    assert Detok(one) == UNK + Rest([]) == UNK;
    SpanIsSubstring(ps, k, k + 1);
  }

  /** No joined list of basic tokens shows `[UNK]`: its brackets would stand alone. */
  lemma UnkNotInTokens(u: Unicode, tokens: seq<string>)
    requires u.Valid() && AllAtomic(u, tokens)
    ensures !IsSubstring(UNK, Join(tokens))
  {
    SpaceIsNoPunctuation(u);
    JoinIsolates(u, tokens);
    var s := Join(tokens);
    forall i ensures !OccursAt(UNK, s, i) {
      if 0 <= i && i + |UNK| <= |s| {
        var w := s[i..i + |UNK|];
        assert w[0] == s[i] && w[1] == s[i + 1];
        assert s[i] == '[' ==> IsPunctuation(u, s[i]);
        assert UNK[0] == '[' && UNK[1] == 'U';
      }
    }
  }

  /** Without `[UNK]` the printed span occurs in the joined tokens. */
  lemma KnownSpanOccurs(isSpace: char -> bool, vocab: Vocab, tokens: seq<string>, s: nat, e: nat)
    requires HashAlone(isSpace, tokens) && s < e <= |AllPieces(vocab, tokens)|
    requires UNK !in AllPieces(vocab, tokens)[s..e]
    ensures IsSubstring(Detok(AllPieces(vocab, tokens)[s..e]), Join(tokens))
  {
    var ps, known := AllPieces(vocab, tokens), AllKnown(vocab, tokens);
    var span := ps[s..e];
    KnownAgrees(isSpace, vocab, tokens);
    forall i | 0 <= i < |span| ensures span[i] == known[s..e][i] {
      assert span[i] == ps[s + i];
    }
    assert span == known[s..e];
    SpanIsSubstring(known, s, e);
    DetokOfTokens(isSpace, vocab, tokens);
  }

  /** With `[UNK]` it does not. */
  lemma UnknownSpanAbsent(u: Unicode, tokens: seq<string>, span: seq<string>)
    requires u.Valid() && AllAtomic(u, tokens) && UNK in span
    ensures !IsSubstring(Detok(span), Join(tokens))
  {
    var k :| 0 <= k < |span| && span[k] == UNK;
    UnkIsPrinted(span, k);
    UnkNotInTokens(u, tokens);
    if IsSubstring(Detok(span), Join(tokens)) { SubstringTransitive(UNK, Detok(span), Join(tokens)); }
  }

  /**
   The text printed for a non-empty span of pieces occurs in the joined basic tokens exactly when the
   span holds no `[UNK]`, wherever in a word it starts or ends.
   */
  lemma PredTextOccurs(u: Unicode, doLowerCase: bool, vocab: Vocab, text: string, s: nat, e: nat)
    requires u.Valid()
    requires s < e <= |AllPieces(vocab, BasicTokens(u, doLowerCase, text))|
    ensures var tokens := BasicTokens(u, doLowerCase, text);
            var span := AllPieces(vocab, tokens)[s..e];
            && (IsSubstring(PredText(u.isSpace, span), Join(tokens)) <==> UNK !in span)
            && PredText(u.isSpace, span) == Detok(span)
            && StartsInWord(u.isSpace, Detok(span)) && EndsInWord(u.isSpace, Detok(span))
  {
    var tokens := BasicTokens(u, doLowerCase, text);
    var span := AllPieces(vocab, tokens)[s..e];
    BasicTokensHashAlone(u, doLowerCase, text);
    UnkIsHead(u);
    PiecesShaped(u.isSpace, vocab, tokens);
    assert Shaped(u.isSpace, span);
    PredTextIsDetok(u.isSpace, span);
    DetokIsTidy(u.isSpace, span);
    if UNK in span {
      TokensAreAtomicWords(u, doLowerCase, text);
      UnknownSpanAbsent(u, tokens, span);
    } else {
      KnownSpanOccurs(u.isSpace, vocab, tokens, s, e);
    }
  }
}
