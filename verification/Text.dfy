/**
 The Python string operations that the modelled code relies on: " ".join, str.split with
 no argument, str.find and str.replace with an empty replacement. Each is a function with
 the properties that the tokenizer and prediction proofs use.
 */
module Text {

  // ---------- sequences of sequences ----------

  function FlatMap<A, B>(f: A -> seq<B>, xs: seq<A>): seq<B> {
    if xs == [] then [] else f(xs[0]) + FlatMap(f, xs[1..])
  }

  lemma {:induction false} FlatMapConcat<A, B>(f: A -> seq<B>, xs: seq<A>, ys: seq<A>)
    ensures FlatMap(f, xs + ys) == FlatMap(f, xs) + FlatMap(f, ys)
  {
    if xs == [] {
      assert xs + ys == ys;
    } else {
      assert (xs + ys)[1..] == xs[1..] + ys;
      FlatMapConcat(f, xs[1..], ys);
    }
  }

  lemma FlatMapSnoc<A, B>(f: A -> seq<B>, xs: seq<A>, y: A)
    ensures FlatMap(f, xs + [y]) == FlatMap(f, xs) + f(y)
  {
    FlatMapConcat(f, xs, [y]);
    assert FlatMap(f, [y]) == f(y) + FlatMap(f, []);
  }

  function Flatten<T>(parts: seq<seq<T>>): seq<T> {
    if parts == [] then [] else parts[0] + Flatten(parts[1..])
  }

  lemma {:induction false} FlattenConcat<T>(xs: seq<seq<T>>, ys: seq<seq<T>>)
    ensures Flatten(xs + ys) == Flatten(xs) + Flatten(ys)
  {
    if xs == [] {
      assert xs + ys == ys;
    } else {
      assert (xs + ys)[1..] == xs[1..] + ys;
      FlattenConcat(xs[1..], ys);
    }
  }

  lemma FlattenSnoc<T>(xs: seq<seq<T>>, y: seq<T>)
    ensures Flatten(xs + [y]) == Flatten(xs) + y
  {
    FlattenConcat(xs, [y]);
    assert Flatten([y]) == y + Flatten([]);
  }

  lemma AppendAssociates<T>(a: seq<T>, b: seq<T>, c: seq<T>)
    ensures (a + b) + c == a + (b + c)
  {
  }

  // ---------- " ".join ----------

  /** What `" ".join(ws)` writes after its first word: a space and a word, repeatedly. */
  function JoinTail(ws: seq<string>): string {
    if ws == [] then "" else " " + ws[0] + JoinTail(ws[1..])
  }

  function Join(ws: seq<string>): string {
    if ws == [] then "" else ws[0] + JoinTail(ws[1..])
  }

  lemma {:induction false} JoinTailConcat(a: seq<string>, b: seq<string>)
    ensures JoinTail(a + b) == JoinTail(a) + JoinTail(b)
  {
    if a == [] {
      assert a + b == b;
    } else {
      assert (a + b)[1..] == a[1..] + b;
      JoinTailConcat(a[1..], b);
    }
  }

  lemma JoinConcat(a: seq<string>, b: seq<string>)
    requires a != [] && b != []
    ensures Join(a + b) == Join(a) + " " + Join(b)
  {
    assert (a + b)[0] == a[0] && (a + b)[1..] == a[1..] + b;
    JoinTailConcat(a[1..], b);
    AppendAssociates(a[0], JoinTail(a[1..]), JoinTail(b));
    AppendAssociates(Join(a), " ", Join(b));
    AppendAssociates(" ", b[0], JoinTail(b[1..]));
  }

  lemma JoinSnoc(a: seq<string>, w: string)
    ensures Join(a + [w]) == if a == [] then w else Join(a) + " " + w
  {
    if a != [] { JoinConcat(a, [w]); }
  }

  // ---------- str.split() ----------

  predicate SpaceFree(isWs: char -> bool, s: string) {
    forall i :: 0 <= i < |s| ==> !isWs(s[i])
  }

  ghost predicate IsWord(isWs: char -> bool, w: string) {
    w != "" && SpaceFree(isWs, w)
  }

  ghost predicate AllWords(isWs: char -> bool, ws: seq<string>) {
    forall k :: 0 <= k < |ws| ==> IsWord(isWs, ws[k])
  }

  /** One more character: it is skipped, opens a word, or extends the last one. */
  function AddChar(isWs: char -> bool, ws: seq<string>, inWord: bool, c: char): seq<string> {
    if isWs(c) then ws
    else if !inWord || ws == [] then ws + [[c]]
    else ws[..|ws| - 1] + [ws[|ws| - 1] + [c]]
  }

  /** The maximal runs of non-whitespace characters, in order. */
  function Words(isWs: char -> bool, s: string): (ws: seq<string>)
    ensures EndsInWord(isWs, s) ==> ws != []
  {
    if s == "" then []
    else AddChar(isWs, Words(isWs, s[..|s| - 1]), EndsInWord(isWs, s[..|s| - 1]), s[|s| - 1])
  }

  lemma {:induction false} WordsAreWords(isWs: char -> bool, s: string)
    ensures AllWords(isWs, Words(isWs, s))
  {
    if s != "" { WordsAreWords(isWs, s[..|s| - 1]); }
  }

  lemma WordsSnoc(isWs: char -> bool, s: string, c: char)
    ensures Words(isWs, s + [c]) == AddChar(isWs, Words(isWs, s), EndsInWord(isWs, s), c)
  {
    assert (s + [c])[..|s|] == s;
  }

  predicate EndsInWord(isWs: char -> bool, s: string) {
    s != "" && !isWs(s[|s| - 1])
  }

  predicate StartsInWord(isWs: char -> bool, s: string) {
    s != "" && !isWs(s[0])
  }

  /** Two word lists whose inner edges are glued into one word. */
  function Glue(a: seq<string>, b: seq<string>): seq<string>
    requires a != [] && b != []
  {
    a[..|a| - 1] + [a[|a| - 1] + b[0]] + b[1..]
  }

  lemma {:induction false} StartsInWordNonempty(isWs: char -> bool, s: string)
    requires StartsInWord(isWs, s)
    ensures Words(isWs, s) != []
  {
    var n := |s| - 1;
    if n > 0 {
      assert s[..n][0] == s[0];
      StartsInWordNonempty(isWs, s[..n]);
    }
  }

  /** The split of `x + y`: the two splits side by side, glued when the seam is inside a word. */
  function SeamWords(isWs: char -> bool, x: string, y: string): seq<string> {
    var wx, wy := Words(isWs, x), Words(isWs, y);
    if EndsInWord(isWs, x) && StartsInWord(isWs, y) && wy != [] then Glue(wx, wy) else wx + wy
  }

  lemma {:induction false} WordsConcat(isWs: char -> bool, x: string, y: string)
    ensures Words(isWs, x + y) == SeamWords(isWs, x, y)
    ensures StartsInWord(isWs, y) ==> Words(isWs, y) != []
    decreases |y|
  {
    if StartsInWord(isWs, y) { StartsInWordNonempty(isWs, y); }
    if y == "" {
      assert x + y == x;
    } else if |y| == 1 {
      assert y == [y[0]];
      WordsConcatOne(isWs, x, y[0]);
    } else {
      var y', c := y[..|y| - 1], y[|y| - 1];
      assert y == y' + [c];
      WordsConcat(isWs, x, y');
      WordsConcatStep(isWs, x, y', c);
    }
  }

  lemma WordsConcatStep(isWs: char -> bool, x: string, y: string, c: char)
    requires y != "" && Words(isWs, x + y) == SeamWords(isWs, x, y)
    ensures Words(isWs, x + (y + [c])) == SeamWords(isWs, x, y + [c])
  {
    var wx, wy := Words(isWs, x), Words(isWs, y);
    assert x + (y + [c]) == (x + y) + [c];
    WordsSnoc(isWs, y, c);
    WordsSnoc(isWs, x + y, c);
    assert EndsInWord(isWs, x + y) == EndsInWord(isWs, y);
    assert StartsInWord(isWs, y + [c]) == StartsInWord(isWs, y);
    if StartsInWord(isWs, y) { StartsInWordNonempty(isWs, y); }
    AddCharConcat(isWs, wx, wy, EndsInWord(isWs, y), c);
  }

  lemma WordsOfChar(isWs: char -> bool, c: char)
    ensures Words(isWs, [c]) == if isWs(c) then [] else [[c]]
  {
    WordsSnoc(isWs, "", c);
    assert "" + [c] == [c];
  }

  lemma WordsConcatOne(isWs: char -> bool, x: string, c: char)
    ensures Words(isWs, [c]) == if isWs(c) then [] else [[c]]
    ensures EndsInWord(isWs, x) && !isWs(c) ==>
              Words(isWs, x + [c]) == Glue(Words(isWs, x), [[c]])
    ensures !(EndsInWord(isWs, x) && !isWs(c)) ==>
              Words(isWs, x + [c]) == Words(isWs, x) + Words(isWs, [c])
  {
    WordsOfChar(isWs, c);
    WordsSnoc(isWs, x, c);
    if EndsInWord(isWs, x) && !isWs(c) {
      assert [[c]][1..] == [];
    }
  }

  /** Adding a character touches only the last word, so it commutes with what stands before. */
  lemma AddCharConcat(isWs: char -> bool, a: seq<string>, b: seq<string>, inWord: bool, c: char)
    requires inWord ==> b != []
    ensures AddChar(isWs, a + b, inWord, c) == a + AddChar(isWs, b, inWord, c)
    ensures a != [] && b != [] ==>
              AddChar(isWs, b, inWord, c) != [] &&
              AddChar(isWs, Glue(a, b), inWord, c) == Glue(a, AddChar(isWs, b, inWord, c))
  {
    var r := AddChar(isWs, b, inWord, c);
    if inWord && !isWs(c) {
      assert (a + b)[..|a + b| - 1] == a + b[..|b| - 1];
      if a != [] {
        var g := Glue(a, b);
        if |b| == 1 {
          assert g == a[..|a| - 1] + [a[|a| - 1] + b[0]];
          assert g[..|g| - 1] == a[..|a| - 1] && r == [b[0] + [c]] && r[1..] == [];
          assert (a[|a| - 1] + b[0]) + [c] == a[|a| - 1] + (b[0] + [c]);
        } else {
          assert g[..|g| - 1] == a[..|a| - 1] + [a[|a| - 1] + b[0]] + b[1..|b| - 1];
          assert r[1..] == b[1..|b| - 1] + [b[|b| - 1] + [c]];
        }
      }
    } else if !isWs(c) && a != [] && b != [] {
      assert r[1..] == b[1..] + [[c]];
    }
  }

  /** A whitespace character between two texts separates their words. */
  lemma WordsAcrossSpace(isWs: char -> bool, x: string, c: char, y: string)
    requires isWs(c)
    ensures Words(isWs, x + [c] + y) == Words(isWs, x) + Words(isWs, y)
  {
    WordsConcat(isWs, x + [c], y);
    WordsConcat(isWs, x, [c]);
    assert Words(isWs, [c]) == [];
  }

  lemma {:induction false} OnlySpaceHasNoWords(isSpace: char -> bool, s: string)
    requires forall i :: 0 <= i < |s| ==> isSpace(s[i])
    ensures Words(isSpace, s) == []
  {
    if s != "" { OnlySpaceHasNoWords(isSpace, s[..|s| - 1]); }
  }

  /** So does a longer stretch of whitespace. */
  lemma WordsAcrossSpaces(isWs: char -> bool, x: string, gap: string, y: string)
    requires gap != "" && forall i :: 0 <= i < |gap| ==> isWs(gap[i])
    ensures Words(isWs, x + gap + y) == Words(isWs, x) + Words(isWs, y)
  {
    OnlySpaceHasNoWords(isWs, gap);
    WordsConcat(isWs, x, gap);
    WordsConcat(isWs, x + gap, y);
  }

  /** Splitting a joined list of words gives the list back. */
  lemma {:induction false} WordsJoin(isWs: char -> bool, ws: seq<string>)
    requires isWs(' ') && AllWords(isWs, ws)
    ensures Words(isWs, Join(ws)) == ws
  {
    if ws == [] {
    } else {
      var n := |ws| - 1;
      var init, w := ws[..n], ws[n];
      assert ws == init + [w];
      WordsJoin(isWs, init);
      WordsOfWord(isWs, w);
      JoinSnoc(init, w);
      if init != [] {
        WordsAcrossSpace(isWs, Join(init), ' ', w);
      }
    }
  }

  lemma {:induction false} WordsOfWord(isWs: char -> bool, w: string)
    requires IsWord(isWs, w)
    ensures Words(isWs, w) == [w]
  {
    var w', c := w[..|w| - 1], w[|w| - 1];
    assert w == w' + [c];
    WordsSnoc(isWs, w', c);
    if w' != "" { WordsOfWord(isWs, w'); }
  }

  /** Joining is injective on lists of words. */
  lemma JoinInjective(isWs: char -> bool, a: seq<string>, b: seq<string>)
    requires isWs(' ') && AllWords(isWs, a) && AllWords(isWs, b)
    ensures Join(a) == Join(b) <==> a == b
  {
    WordsJoin(isWs, a);
    WordsJoin(isWs, b);
  }

  /** Whitespace occurs only as single spaces, never first. */
  predicate TidyPrefix(isWs: char -> bool, s: string) {
    forall i :: 0 <= i < |s| && isWs(s[i]) ==> s[i] == ' ' && i > 0 && !isWs(s[i - 1])
  }

  /** Joining after one more character. */
  lemma JoinAddChar(isWs: char -> bool, ws: seq<string>, inWord: bool, c: char)
    requires inWord ==> ws != []
    ensures Join(AddChar(isWs, ws, inWord, c)) ==
              if isWs(c) then Join(ws)
              else if ws == [] then [c]
              else if inWord then Join(ws) + [c]
              else Join(ws) + " " + [c]
  {
    if !isWs(c) {
      if !inWord || ws == [] {
        JoinSnoc(ws, [c]);
      } else {
        var init, w := ws[..|ws| - 1], ws[|ws| - 1];
        assert ws == init + [w];
        JoinSnoc(init, w);
        JoinSnoc(init, w + [c]);
        AppendAssociates(Join(init) + " ", w, [c]);
      }
    }
  }

  /** The text without the space it may end in. */
  function Trimmed(isWs: char -> bool, s: string): string {
    if s == "" || EndsInWord(isWs, s) then s else s[..|s| - 1]
  }

  lemma TidySnoc(isWs: char -> bool, s: string, c: char)
    requires TidyPrefix(isWs, s + [c])
    ensures TidyPrefix(isWs, s) && Trimmed(isWs, s + [c]) == if isWs(c) then s else s + [c]
    ensures EndsInWord(isWs, s) || s == "" ==> Trimmed(isWs, s) == s
    ensures !EndsInWord(isWs, s) && s != "" ==> s == Trimmed(isWs, s) + " "
    ensures isWs(c) ==> EndsInWord(isWs, s)
  {
    assert forall i :: 0 <= i < |s| ==> (s + [c])[i] == s[i];
    assert (s + [c])[|s|] == c;
    assert (s + [c])[..|s|] == s;
    if s != "" && isWs(s[|s| - 1]) { assert s == s[..|s| - 1] + [s[|s| - 1]]; }
  }

  /** Splitting and rejoining leaves a tidy text alone, up to one trailing space. */
  lemma {:induction false} JoinWordsTidy(isWs: char -> bool, s: string)
    requires TidyPrefix(isWs, s)
    ensures Join(Words(isWs, s)) == Trimmed(isWs, s) && (s == "" <==> Words(isWs, s) == [])
  {
    if s != "" {
      var s', c := s[..|s| - 1], s[|s| - 1];
      assert s == s' + [c];
      TidySnoc(isWs, s', c);
      JoinWordsTidy(isWs, s');
      WordsSnoc(isWs, s', c);
      JoinAddChar(isWs, Words(isWs, s'), EndsInWord(isWs, s'), c);
    }
  }

  lemma {:induction false} LastWordIsSuffix(isWs: char -> bool, s: string)
    requires EndsInWord(isWs, s)
    ensures var ws := Words(isWs, s); |ws[|ws| - 1]| <= |s| && s[|s| - |ws[|ws| - 1]|..] == ws[|ws| - 1]
  {
    var s', c := s[..|s| - 1], s[|s| - 1];
    assert s == s' + [c];
    WordsSnoc(isWs, s', c);
    if EndsInWord(isWs, s') {
      LastWordIsSuffix(isWs, s');
      var ws' := Words(isWs, s');
      SuffixExtends(s', ws'[|ws'| - 1], c);
    }
  }

  lemma SuffixExtends(s: string, w: string, c: char)
    requires |w| <= |s| && s[|s| - |w|..] == w
    ensures (s + [c])[|s + [c]| - |w + [c]|..] == w + [c]
  {
  }

  lemma SuffixIsSubstring(w: string, s: string)
    requires |w| <= |s| && s[|s| - |w|..] == w
    ensures IsSubstring(w, s)
  {
    assert OccursAt(w, s, |s| - |w|);
  }

  lemma SubstringOfLonger(w: string, s: string, c: char)
    requires IsSubstring(w, s)
    ensures IsSubstring(w, s + [c])
  {
    var i :| OccursAt(w, s, i);
    assert (s + [c])[i..i + |w|] == s[i..i + |w|];
    assert OccursAt(w, s + [c], i);
  }

  /** Every word is a contiguous piece of the text it was split from. */
  lemma {:induction false} WordIsInfix(isWs: char -> bool, s: string, k: nat)
    requires k < |Words(isWs, s)|
    ensures IsSubstring(Words(isWs, s)[k], s)
  {
    var s', c := s[..|s| - 1], s[|s| - 1];
    assert s == s' + [c];
    WordsSnoc(isWs, s', c);
    var ws, ws' := Words(isWs, s), Words(isWs, s');
    if k < |ws'| && ws[k] == ws'[k] {
      WordIsInfix(isWs, s', k);
      SubstringOfLonger(ws[k], s', c);
    } else {
      assert !isWs(c) && k == |ws| - 1;
      LastWordIsSuffix(isWs, s);
      SuffixIsSubstring(ws[k], s);
    }
  }

  // ---------- str.find ----------

  ghost predicate OccursAt(needle: string, hay: string, i: int) {
    0 <= i && i + |needle| <= |hay| && hay[i..i + |needle|] == needle
  }

  ghost predicate IsSubstring(needle: string, hay: string) {
    exists i :: OccursAt(needle, hay, i)
  }

  function FindFrom(hay: string, needle: string, i: nat): (r: int)
    requires i <= |hay| + 1
    ensures r == -1 || (i <= r && OccursAt(needle, hay, r))
    ensures forall k :: i <= k && (r == -1 || k < r) ==> !OccursAt(needle, hay, k)
    decreases |hay| + 1 - i
  {
    if i + |needle| > |hay| then -1
    else if hay[i..i + |needle|] == needle then i
    else FindFrom(hay, needle, i + 1)
  }

  /** The lowest position at which `needle` occurs, or -1. */
  function Find(hay: string, needle: string): (r: int)
    ensures r == -1 <==> !IsSubstring(needle, hay)
    ensures r != -1 ==> OccursAt(needle, hay, r) && forall k :: 0 <= k < r ==> !OccursAt(needle, hay, k)
  {
    FindFrom(hay, needle, 0)
  }

  /** A middle part of a concatenation is a substring of it. */
  lemma MiddleIsSubstring(left: string, mid: string, right: string)
    ensures IsSubstring(mid, left + mid + right)
  {
    assert (left + mid + right)[|left|..|left| + |mid|] == mid;
    assert OccursAt(mid, left + mid + right, |left|);
  }

  lemma SubstringTransitive(a: string, b: string, c: string)
    requires IsSubstring(a, b) && IsSubstring(b, c)
    ensures IsSubstring(a, c)
  {
    var i :| OccursAt(a, b, i);
    var j :| OccursAt(b, c, j);
    var bs := c[j..j + |b|];
    forall k | 0 <= k < |a| ensures c[j + i..j + i + |a|][k] == a[k] {
      assert bs[i..i + |a|][k] == bs[i + k] == c[j + i + k];
    }
    assert OccursAt(a, c, j + i);
  }

  // ---------- str.replace(pat, "") ----------

  /** Removes the occurrences of `pat` met in a left-to-right scan. */
  function RemoveAll(s: string, pat: string): string
    requires pat != ""
    decreases |s|
  {
    if |s| < |pat| then s
    else if s[..|pat|] == pat then RemoveAll(s[|pat|..], pat)
    else [s[0]] + RemoveAll(s[1..], pat)
  }

  /** A prefix without the pattern's first character is copied unchanged. */
  lemma {:induction false} RemoveAllSkips(x: string, y: string, pat: string)
    requires pat != "" && pat[0] !in x
    ensures RemoveAll(x + y, pat) == x + RemoveAll(y, pat)
  {
    if x == "" {
      assert x + y == y;
    } else {
      var c, rest := x[0], x[1..] + y;
      assert x + y == [c] + rest;
      RemoveAllSkips(x[1..], y, pat);
      assert !(pat <= [c] + rest) by { assert ([c] + rest)[0] == c; }
      RemoveAllCopies(c, rest, pat);
      AppendAssociates([c], x[1..], RemoveAll(y, pat));
      assert [c] + x[1..] == x;
    }
  }

  /** Where the pattern does not start, the scan copies one character. */
  lemma RemoveAllCopies(c: char, s: string, pat: string)
    requires pat != "" && !(pat <= [c] + s)
    ensures RemoveAll([c] + s, pat) == [c] + RemoveAll(s, pat)
  {
    assert ([c] + s)[1..] == s;
  }

  lemma RemoveAllCopiesWord(c: char, p: string, rest: string, pat: string)
    requires pat != "" && !(pat <= [c] + (p + rest)) && pat[0] !in p
    ensures RemoveAll([c] + (p + rest), pat) == [c] + (p + RemoveAll(rest, pat))
  {
    RemoveAllSkips(p, rest, pat);
    RemoveAllCopies(c, p + rest, pat);
  }

  // ---------- dropping characters ----------

  function Drop(isWs: char -> bool, s: string): string {
    if s == "" then "" else
    Drop(isWs, s[..|s| - 1]) + if isWs(s[|s| - 1]) then "" else [s[|s| - 1]]
  }

  lemma {:induction false} DropConcat(isWs: char -> bool, x: string, y: string)
    ensures Drop(isWs, x + y) == Drop(isWs, x) + Drop(isWs, y)
  {
    if y == "" {
      assert x + y == x;
    } else {
      var n := |y| - 1;
      assert (x + y)[..|x + y| - 1] == x + y[..n];
      DropConcat(isWs, x, y[..n]);
    }
  }

  lemma DropSnoc(isWs: char -> bool, s: string, c: char)
    ensures Drop(isWs, s + [c]) == Drop(isWs, s) + if isWs(c) then "" else [c]
  {
    assert (s + [c])[..|s + [c]| - 1] == s && (s + [c])[|s + [c]| - 1] == c;
  }

  lemma {:induction false} DropSpaceFree(isWs: char -> bool, s: string)
    requires SpaceFree(isWs, s)
    ensures Drop(isWs, s) == s
  {
    if s != "" {
      var s', c := s[..|s| - 1], s[|s| - 1];
      assert s == s' + [c];
      DropSpaceFree(isWs, s');
      DropSnoc(isWs, s', c);
    }
  }

  lemma {:induction false} DropIsFree(isWs: char -> bool, s: string)
    ensures SpaceFree(isWs, Drop(isWs, s))
  {
    if s != "" { DropIsFree(isWs, s[..|s| - 1]); }
  }

  /** Dropping by two tests, one after the other, is dropping by either. */
  lemma {:induction false} DropEither(f: char -> bool, g: char -> bool, h: char -> bool, s: string)
    requires forall c :: h(c) <==> f(c) || g(c)
    ensures Drop(g, Drop(f, s)) == Drop(h, s)
  {
    if s != "" {
      var s', c := s[..|s| - 1], s[|s| - 1];
      DropEither(f, g, h, s');
      DropSnoc(g, Drop(f, s'), c);
      assert Drop(f, s') + "" == Drop(f, s') && Drop(h, s') + "" == Drop(h, s');
    }
  }

  lemma {:induction false} DropKeepsLengthIff(isWs: char -> bool, s: string)
    ensures |Drop(isWs, s)| <= |s|
    ensures |Drop(isWs, s)| == |s| <==> SpaceFree(isWs, s)
  {
    if s != "" {
      var s', c := s[..|s| - 1], s[|s| - 1];
      assert s == s' + [c];
      DropKeepsLengthIff(isWs, s');
    }
  }

  /** Dropping less first makes no difference to dropping more. */
  lemma {:induction false} DropNested(f: char -> bool, g: char -> bool, s: string)
    requires forall c :: f(c) ==> g(c)
    ensures Drop(g, Drop(f, s)) == Drop(g, s)
  {
    if s != "" {
      var s', c := s[..|s| - 1], s[|s| - 1];
      DropNested(f, g, s');
      DropSnoc(g, Drop(f, s'), c);
      assert Drop(f, s') + "" == Drop(f, s') && Drop(g, s') + "" == Drop(g, s');
    }
  }

  /** Dropping more leaves fewer characters, unless the two tests agree on all of them. */
  lemma {:induction false} DropCounts(f: char -> bool, g: char -> bool, s: string)
    requires forall c :: f(c) ==> g(c)
    ensures |Drop(g, s)| <= |Drop(f, s)|
    ensures |Drop(g, s)| == |Drop(f, s)| <==> forall i :: 0 <= i < |s| ==> g(s[i]) == f(s[i])
  {
    if s != "" {
      var s', c := s[..|s| - 1], s[|s| - 1];
      DropCounts(f, g, s');
      assert forall i :: 0 <= i < |s'| ==> s'[i] == s[i];
      assert s == s' + [c];
    }
  }

  /** Splitting keeps every non-whitespace character, in order. */
  lemma {:induction false} FlattenWords(isWs: char -> bool, s: string)
    ensures Flatten(Words(isWs, s)) == Drop(isWs, s)
  {
    if s != "" {
      var s', c := s[..|s| - 1], s[|s| - 1];
      FlattenWords(isWs, s');
      var ws := Words(isWs, s');
      if !isWs(c) {
        if !EndsInWord(isWs, s') || ws == [] {
          FlattenSnoc(ws, [c]);
        } else {
          var k := |ws| - 1;
          assert ws == ws[..k] + [ws[k]];
          FlattenSnoc(ws[..k], ws[k]);
          FlattenSnoc(ws[..k], ws[k] + [c]);
        }
      }
    }
  }

  lemma DropOne(isWs: char -> bool, c: char)
    ensures Drop(isWs, [c]) == if isWs(c) then "" else [c]
  {
    assert [c][..0] == "";
  }

  /** The spaces that joining adds are dropped again. */
  lemma {:induction false} DropJoinTail(isWs: char -> bool, ws: seq<string>)
    requires isWs(' ')
    ensures Drop(isWs, JoinTail(ws)) == Drop(isWs, Flatten(ws))
  {
    if ws != [] {
      var rest := JoinTail(ws[1..]);
      DropJoinTail(isWs, ws[1..]);
      DropConcat(isWs, ws[0], Flatten(ws[1..]));
      DropConcat(isWs, " " + ws[0], rest);
      DropConcat(isWs, " ", ws[0]);
      DropOne(isWs, ' ');
    }
  }

  lemma DropJoin(isWs: char -> bool, ws: seq<string>)
    requires isWs(' ')
    ensures Drop(isWs, Join(ws)) == Drop(isWs, Flatten(ws))
  {
    if ws != [] {
      DropJoinTail(isWs, ws[1..]);
      DropConcat(isWs, ws[0], JoinTail(ws[1..]));
      DropConcat(isWs, ws[0], Flatten(ws[1..]));
    }
  }

  function Blank(): char -> bool { c => c == ' ' }

  /** The text without its spaces. */
  function NonSpace(s: string): string { Drop(Blank(), s) }
}
