/**
 `read_squad_examples` (bert/run_squad.py): splitting a paragraph into words, mapping characters to
 words, and the test that decides whether a training example is kept.
 */
module SquadExamples {
  import opened Text

  predicate IsDocWhitespace(c: char) {
    c == ' ' || c == '\t' || c == '\r' || c == '\n' || c as int == 0x202F
  }

  function DocWs(): char -> bool { c => IsDocWhitespace(c) }

  /** The word a character is in, or for whitespace the word before it; -1 before the first word. */
  function WordOffset(text: string, i: nat): int
    requires i < |text|
  {
    |Words(DocWs(), text[..i + 1])| - 1
  }

  method SplitContext(text: string) returns (docTokens: seq<string>, charToWordOffset: seq<int>)
    ensures docTokens == Words(DocWs(), text)
    ensures |charToWordOffset| == |text|
    ensures forall i :: 0 <= i < |text| ==>
              charToWordOffset[i] == WordOffset(text, i) == |Words(DocWs(), text[..i + 1])| - 1
  {
    docTokens := [];
    charToWordOffset := [];
    var prevIsWhitespace := true;
    for i := 0 to |text|
      invariant docTokens == Words(DocWs(), text[..i])
      invariant prevIsWhitespace == !EndsInWord(DocWs(), text[..i])
      invariant |charToWordOffset| == i
      invariant forall k :: 0 <= k < i ==> charToWordOffset[k] == WordOffset(text, k)
    {
      var c := text[i];
      assert text[..i + 1] == text[..i] + [c];
      WordsSnoc(DocWs(), text[..i], c);
      if IsDocWhitespace(c) {
        prevIsWhitespace := true;
      } else {
        if prevIsWhitespace {
          docTokens := docTokens + [[c]];
        } else {
          docTokens := docTokens[..|docTokens| - 1] + [docTokens[|docTokens| - 1] + [c]];
        }
        prevIsWhitespace := false;
      }
      charToWordOffset := charToWordOffset + [|docTokens| - 1];
    }
    assert text[..|text|] == text;
  }

  /** Python's `xs[i:j]` for `i >= -1` and `j >= 0`. */
  function PySlice(xs: seq<string>, i: int, j: int): seq<string>
    requires i >= -1 && j >= 0
  {
    var lo := if i >= 0 then i else if |xs| > 0 then |xs| - 1 else 0;
    var hi := if j <= |xs| then j else |xs|;
    if lo <= hi then xs[lo..hi] else []
  }

  function CleanedAnswer(isSpace: char -> bool, answer: string): string {
    Join(Words(isSpace, answer))
  }

  /** An answer of this length at this offset can be looked up. */
  predicate InText(text: string, offset: nat, length: nat) {
    offset < |text| && offset + length <= |text|
  }

  /** The index of the answer's last character; an empty answer at offset 0 reads Python's index -1. */
  function LastIndex(text: string, offset: nat, length: nat): nat
    requires InText(text, offset, length)
  {
    if offset + length == 0 then |text| - 1 else offset + length - 1
  }

  /** The words from the `i`-th to the `j`-th, joined. */
  function Between(ws: seq<string>, i: int, j: int): string
    requires i >= -1 && j >= -1
  {
    Join(PySlice(ws, i, j + 1))
  }

  /** The words between the two looked-up offsets, joined. */
  function ActualText(text: string, offset: nat, length: nat): string
    requires InText(text, offset, length)
  {
    Between(Words(DocWs(), text), WordOffset(text, offset), WordOffset(text, LastIndex(text, offset, length)))
  }

  method KeepExample(isSpace: char -> bool, text: string, answer: string, answerOffset: nat) returns (keep: bool)
    requires InText(text, answerOffset, |answer|)
    ensures keep <==> Find(ActualText(text, answerOffset, |answer|), CleanedAnswer(isSpace, answer)) != -1
  {
    var docTokens, charToWordOffset := SplitContext(text);
    var startPosition := charToWordOffset[answerOffset];
    var endPosition := charToWordOffset[LastIndex(text, answerOffset, |answer|)];
    var actualText := Join(PySlice(docTokens, startPosition, endPosition + 1));
    keep := Find(actualText, CleanedAnswer(isSpace, answer)) != -1;
  }

  // ---------- when an example is kept ----------

  lemma {:induction false} WordsAgree(f: char -> bool, g: char -> bool, s: string)
    requires forall i :: 0 <= i < |s| ==> f(s[i]) == g(s[i])
    ensures Words(f, s) == Words(g, s)
  {
    if s != "" { WordsAgree(f, g, s[..|s| - 1]); }
  }

  function Prefixed(x: string, ws: seq<string>): seq<string>
    requires ws != []
  {
    [x + ws[0]] + ws[1..]
  }

  function Suffixed(ws: seq<string>, y: string): seq<string>
    requires ws != []
  {
    ws[..|ws| - 1] + [ws[|ws| - 1] + y]
  }

  lemma ExtendedByNothing(ws: seq<string>)
    requires ws != []
    ensures Prefixed("", ws) == ws == Suffixed(ws, "")
  {
    var k := |ws| - 1;
    assert "" + ws[0] == ws[0] && ws[k] + "" == ws[k];
    assert ws == [ws[0]] + ws[1..] && ws == ws[..k] + [ws[k]];
  }

  /** Only the last word of a suffix changes. */
  lemma SuffixedFrom(ws: seq<string>, start: nat, pre: seq<string>, m: seq<string>, y: string)
    requires start < |ws| && ws[start..] == pre + m && m != []
    ensures Suffixed(ws, y)[start..] == pre + Suffixed(m, y)
  {
    var n := |ws| - 1;
    assert ws[n] == ws[start..][n - start] == m[|m| - 1];
    assert ws[start..n] == ws[start..][..n - start];
    assert (pre + m)[..n - start] == pre + m[..|m| - 1];
  }

  lemma JoinPrefixed(x: string, ws: seq<string>)
    requires ws != []
    ensures Join(Prefixed(x, ws)) == x + Join(ws)
  {
    assert Prefixed(x, ws)[1..] == ws[1..];
    AppendAssociates(x, ws[0], JoinTail(ws[1..]));
  }

  lemma JoinSuffixed(ws: seq<string>, y: string)
    requires ws != []
    ensures Join(Suffixed(ws, y)) == Join(ws) + y
  {
    var init, w := ws[..|ws| - 1], ws[|ws| - 1];
    assert ws == init + [w];
    JoinSnoc(init, w);
    JoinSnoc(init, w + y);
  }

  /** Words extended at the two ends, after other words, still show the words when joined. */
  lemma ExtendedContains(pre: seq<string>, x: string, ws: seq<string>, y: string)
    requires ws != []
    ensures IsSubstring(Join(ws), Join(pre + Suffixed(Prefixed(x, ws), y)))
  {
    var m := Suffixed(Prefixed(x, ws), y);
    JoinPrefixed(x, ws);
    JoinSuffixed(Prefixed(x, ws), y);
    MiddleIsSubstring(x, Join(ws), y);
    if pre == [] {
      assert pre + m == m;
    } else {
      JoinConcat(pre, m);
      MiddleIsSubstring(Join(pre) + " ", Join(m), "");
      assert Join(pre) + " " + Join(m) + "" == Join(pre + m);
      SubstringTransitive(Join(ws), Join(m), Join(pre + m));
    }
  }

  /** Reading on can only lengthen the last word and add further words. */
  lemma LaterWords(isWs: char -> bool, x: string, y: string) returns (tail: string)
    requires Words(isWs, x) != []
    ensures |Words(isWs, x)| <= |Words(isWs, x + y)|
    ensures Words(isWs, x + y)[..|Words(isWs, x)|] == Suffixed(Words(isWs, x), tail)
  {
    WordsConcat(isWs, x, y);
    var wx, wy := Words(isWs, x), Words(isWs, y);
    if EndsInWord(isWs, x) && StartsInWord(isWs, y) {
      tail := wy[0];
      assert Glue(wx, wy)[..|wx|] == Suffixed(wx, tail);
    } else {
      tail := "";
      ExtendedByNothing(wx);
    }
  }

  /** From the word of its first character on, the words read so far end with the answer's words. */
  lemma AnswerWords(p: string, a: string) returns (pre: seq<string>, x: string)
    requires a != "" && Words(DocWs(), a) != [] && Words(DocWs(), p + [a[0]]) != []
    ensures var start := |Words(DocWs(), p + [a[0]])| - 1;
            && start < |Words(DocWs(), p + a)|
            && Words(DocWs(), p + a)[start..] == pre + Prefixed(x, Words(DocWs(), a))
  {
    var wp, wa := Words(DocWs(), p), Words(DocWs(), a);
    WordsConcat(DocWs(), p, a);
    WordCountAfter(p, a[0]);
    ExtendedByNothing(wa);
    if IsDocWhitespace(a[0]) {
      pre, x := [wp[|wp| - 1]], "";
      FromLast(wp, wa);
    } else if EndsInWord(DocWs(), p) {
      pre, x := [], wp[|wp| - 1];
      GlueFromLast(wp, wa);
    } else {
      pre, x := [], "";
      assert (wp + wa)[|wp|..] == wa;
    }
  }

  /** One more character begins a word or not. */
  lemma WordCountAfter(p: string, c: char)
    ensures |Words(DocWs(), p + [c])| ==
              |Words(DocWs(), p)| + if !IsDocWhitespace(c) && !EndsInWord(DocWs(), p) then 1 else 0
  {
    WordsSnoc(DocWs(), p, c);
  }

  lemma FromLast(a: seq<string>, b: seq<string>)
    requires a != []
    ensures (a + b)[|a| - 1..] == [a[|a| - 1]] + b
  {
  }

  lemma GlueFromLast(a: seq<string>, b: seq<string>)
    requires a != [] && b != []
    ensures Glue(a, b)[|a| - 1..] == [] + Prefixed(a[|a| - 1], b)
  {
  }

  ghost predicate Found(text: string, offset: nat, length: nat)
    requires InText(text, offset, length)
  {
    IsSubstring(Join(Words(DocWs(), text[offset..offset + length])), ActualText(text, offset, length))
  }

  /** Text before, in and after the answer. */
  lemma ThreeParts(text: string, offset: nat, length: nat)
    requires 1 <= length && offset + length <= |text|
    ensures var p, a, rest := text[..offset], text[offset..offset + length], text[offset + length..];
            text[..offset + 1] == p + [a[0]] && text[..offset + length] == p + a && text == (p + a) + rest
  {
  }

  /** An answer with a word, at or after the first word of the text, is always found. */
  lemma FoundAfterAWord(text: string, offset: nat, length: nat)
    requires 1 <= length && offset + length <= |text|
    requires WordOffset(text, offset) >= 0 && Words(DocWs(), text[offset..offset + length]) != []
    ensures Found(text, offset, length)
  {
    var p, a, rest := text[..offset], text[offset..offset + length], text[offset + length..];
    ThreeParts(text, offset, length);
    var start := WordOffset(text, offset);
    var wa, wpa, all := Words(DocWs(), a), Words(DocWs(), p + a), Words(DocWs(), text);
    var pre, x := AnswerWords(p, a);
    var y := LaterWords(DocWs(), p + a, rest);
    assert PySlice(all, start, |wpa|) == all[..|wpa|][start..];
    SuffixedFrom(wpa, start, pre, Prefixed(x, wa), y);
    ExtendedContains(pre, x, wa, y);
  }

  lemma NoWordsBefore(p: string, a: string)
    requires a != "" && Words(DocWs(), p + [a[0]]) == []
    ensures Words(DocWs(), p + a) == Words(DocWs(), a)
  {
    WordsConcatOne(DocWs(), p, a[0]);
    WordsConcat(DocWs(), p, a);
    assert Words(DocWs(), p) == [];
  }

  /** Nothing but whitespace up to the answer's first character: its words open the text. */
  lemma AnswerOpensText(text: string, offset: nat, length: nat) returns (y: string)
    requires 1 <= length && offset + length <= |text|
    requires WordOffset(text, offset) == -1 && Words(DocWs(), text[offset..offset + length]) != []
    ensures var wa := Words(DocWs(), text[offset..offset + length]);
            && WordOffset(text, LastIndex(text, offset, length)) == |wa| - 1
            && |wa| <= |Words(DocWs(), text)| && Words(DocWs(), text)[..|wa|] == Suffixed(wa, y)
  {
    var p, a, rest := text[..offset], text[offset..offset + length], text[offset + length..];
    ThreeParts(text, offset, length);
    NoWordsBefore(p, a);
    y := LaterWords(DocWs(), p + a, rest);
  }

  /** Before the first word the start offset is -1, which Python reads as the last word. */
  lemma FoundBeforeWords(text: string, offset: nat, length: nat)
    requires 1 <= length && offset + length <= |text|
    requires WordOffset(text, offset) == -1 && Words(DocWs(), text[offset..offset + length]) != []
    ensures Found(text, offset, length) <==> |Words(DocWs(), text)| == 1
  {
    var y := AnswerOpensText(text, offset, length);
    var wa, all := Words(DocWs(), text[offset..offset + length]), Words(DocWs(), text);
    WordsAreWords(DocWs(), text[offset..offset + length]);
    WordsAreWords(DocWs(), text);
    LastWordOrNothing(wa, all, y);
  }

  lemma JoinOne(w: string)
    ensures Join([w]) == w
  {
    assert [w][1..] == [] && w + "" == w;
  }

  lemma JoinNonempty(ws: seq<string>)
    requires ws != [] && ws[0] != ""
    ensures !IsSubstring(Join(ws), "")
  {
  }

  lemma LastWordOrNothing(wa: seq<string>, all: seq<string>, y: string)
    requires AllWords(DocWs(), wa) && AllWords(DocWs(), all)
    requires wa != [] && |wa| <= |all| && all[..|wa|] == Suffixed(wa, y)
    ensures IsSubstring(Join(wa), Between(all, -1, |wa| - 1)) <==> |all| == 1
  {
    if |wa| < |all| {
      assert PySlice(all, -1, |wa|) == [];
      assert IsWord(DocWs(), wa[0]);
      JoinNonempty(wa);
    } else {
      var last := all[|all| - 1];
      assert PySlice(all, -1, |wa|) == [last];
      JoinOne(last);
      if |wa| == 1 {
        OneWordExtended(wa, last, y);
      } else {
        assert IsWord(DocWs(), last);
        SpaceNotInWord(wa, last);
      }
    }
  }

  lemma OneWordExtended(wa: seq<string>, last: string, y: string)
    requires |wa| == 1 && [last] == Suffixed(wa, y)
    ensures IsSubstring(Join(wa), last)
  {
    assert wa == [wa[0]] && last == [last][0] == wa[0] + y;
    JoinOne(wa[0]);
    MiddleIsSubstring("", wa[0], y);
    assert "" + wa[0] + y == last;
  }

  lemma SpaceNotInWord(ws: seq<string>, w: string)
    requires |ws| >= 2 && SpaceFree(DocWs(), w)
    ensures !IsSubstring(Join(ws), w)
  {
    var s := Join(ws);
    assert s == ws[0] + (" " + ws[1] + JoinTail(ws[1..][1..]));
    assert s[|ws[0]|] == ' ';
    forall i ensures !OccursAt(s, w, i) {
      if 0 <= i && i + |s| <= |w| {
        assert w[i..i + |s|][|ws[0]|] == w[i + |ws[0]|];
      }
    }
  }

  /**
   A training example whose answer is a slice of the paragraph, on whose characters the two whitespace
   tests agree, is kept exactly when a word begins at or before the answer offset, or the answer has no
   word, or the paragraph is a single word.
   */
  lemma ExampleKeptIff(isSpace: char -> bool, text: string, offset: nat, length: nat)
    requires InText(text, offset, length)
    requires forall i :: offset <= i < offset + length ==> isSpace(text[i]) == IsDocWhitespace(text[i])
    ensures Find(ActualText(text, offset, length), CleanedAnswer(isSpace, text[offset..offset + length])) != -1
            <==> (WordOffset(text, offset) >= 0
                  || Words(isSpace, text[offset..offset + length]) == []
                  || |Words(DocWs(), text)| == 1)
  {
    KeptIsFound(isSpace, text, offset, length);
    if Words(DocWs(), text[offset..offset + length]) == [] {
      EmptyIsFound(text, offset, length);
    } else if WordOffset(text, offset) >= 0 {
      FoundAfterAWord(text, offset, length);
    } else {
      FoundBeforeWords(text, offset, length);
    }
  }

  lemma KeptIsFound(isSpace: char -> bool, text: string, offset: nat, length: nat)
    requires InText(text, offset, length)
    requires forall i :: offset <= i < offset + length ==> isSpace(text[i]) == IsDocWhitespace(text[i])
    ensures Words(isSpace, text[offset..offset + length]) == Words(DocWs(), text[offset..offset + length])
    ensures Find(ActualText(text, offset, length), CleanedAnswer(isSpace, text[offset..offset + length])) != -1
            <==> Found(text, offset, length)
  {
    WordsAgree(isSpace, DocWs(), text[offset..offset + length]);
  }

  lemma EmptyIsFound(text: string, offset: nat, length: nat)
    requires InText(text, offset, length) && Words(DocWs(), text[offset..offset + length]) == []
    ensures Found(text, offset, length)
  {
    assert OccursAt("", ActualText(text, offset, length), 0);
  }

  /** In particular an answer that begins with a non-whitespace character is never lost. */
  lemma AnswerStartingInWordIsKept(isSpace: char -> bool, text: string, offset: nat, length: nat)
    requires 1 <= length && offset + length <= |text| && !IsDocWhitespace(text[offset])
    requires forall i :: offset <= i < offset + length ==> isSpace(text[i]) == IsDocWhitespace(text[i])
    ensures Find(ActualText(text, offset, length), CleanedAnswer(isSpace, text[offset..offset + length])) != -1
  {
    assert text[..offset + 1][offset] == text[offset];
    assert EndsInWord(DocWs(), text[..offset + 1]);
    ExampleKeptIff(isSpace, text, offset, length);
  }

  /** An answer that begins with the whitespace the paragraph opens with is lost. */
  lemma LeadingWhitespaceLosesExample(isSpace: char -> bool)
    requires isSpace(' ') && !isSpace('a')
    ensures Find(ActualText(" a b", 0, 2), CleanedAnswer(isSpace, " a b"[0..2])) == -1
  {
    var text := " a b";
    assert text[0..2] == " a" && text[..1] == " " && text == " a" + [' '] + "b";
    WordsOfChar(DocWs(), ' ');
    WordsOfChar(DocWs(), 'b');
    WordsConcatOne(DocWs(), " ", 'a');
    WordsConcatOne(isSpace, " ", 'a');
    WordsOfChar(isSpace, ' ');
    WordsAcrossSpace(DocWs(), " a", ' ', "b");
    assert Words(DocWs(), text) == ["a", "b"];
    assert Words(isSpace, " a") == ["a"];
    ExampleKeptIff(isSpace, text, 0, 2);
  }

  // ---------- where the two whitespace tests differ ----------

  lemma WithinRange(all: seq<string>, i: int, j: int, k: int, l: int)
    requires 0 <= i <= j <= k <= l < |all|
    ensures IsSubstring(Between(all, j, k), Between(all, i, l))
  {
    var pre, mid, post := all[i..j], all[j..k + 1], all[k + 1..l + 1];
    assert all[i..l + 1] == pre + (mid + post);
    JoinBegins(mid, post);
    JoinEnds(pre, mid + post);
    SubstringTransitive(Join(mid), Join(mid + post), Join(pre + (mid + post)));
  }

  lemma OuterPartsOccur(x: string, y: string, z: string)
    ensures IsSubstring(x, x) && IsSubstring(x, x + y + z) && IsSubstring(z, x + y + z)
  {
    assert OccursAt(x, x, 0) && OccursAt(x, x + y + z, 0) && OccursAt(z, x + y + z, |x| + |y|);
  }

  lemma JoinBegins(a: seq<string>, b: seq<string>)
    requires a != []
    ensures IsSubstring(Join(a), Join(a + b))
  {
    OuterPartsOccur(Join(a), " ", Join(b));
    if b == [] { assert a + b == a; } else { JoinConcat(a, b); }
  }

  lemma JoinEnds(a: seq<string>, b: seq<string>)
    requires b != []
    ensures IsSubstring(Join(b), Join(a + b))
  {
    OuterPartsOccur(Join(a), " ", Join(b));
    OuterPartsOccur(Join(b), "", "");
    if a == [] { assert a + b == b; } else { JoinConcat(a, b); }
  }

  lemma OffsetsAscend(text: string, i: nat, j: nat)
    requires i <= j < |text|
    ensures WordOffset(text, i) <= WordOffset(text, j) < |Words(DocWs(), text)|
  {
    CountsAscend(text, i + 1, j + 1);
    CountsAscend(text, j + 1, |text|);
    assert text[..|text|] == text;
  }

  lemma {:induction false} CountsAscend(text: string, i: nat, j: nat)
    requires i <= j <= |text|
    ensures |Words(DocWs(), text[..i])| <= |Words(DocWs(), text[..j])|
    decreases j - i
  {
    if i < j {
      CountsAscend(text, i, j - 1);
      assert text[..j] == text[..j - 1] + [text[j - 1]];
      WordsSnoc(DocWs(), text[..j - 1], text[j - 1]);
    }
  }

  ghost predicate AllSpace(isSpace: char -> bool, text: string, from: nat, to: nat) {
    forall i :: from <= i < to && i < |text| ==> isSpace(text[i])
  }

  /** Whitespace around a text does not change its words. */
  lemma WordsOfCore(isSpace: char -> bool, text: string, from: nat, b: nat, c: nat, to: nat)
    requires from <= b <= c <= to <= |text|
    requires AllSpace(isSpace, text, from, b) && AllSpace(isSpace, text, c, to)
    ensures Words(isSpace, text[from..to]) == Words(isSpace, text[b..c])
  {
    var left, core, right := text[from..b], text[b..c], text[c..to];
    assert text[from..to] == left + (core + right);
    OnlySpaceHasNoWords(isSpace, left);
    OnlySpaceHasNoWords(isSpace, right);
    WordsConcat(isSpace, core, right);
    WordsConcat(isSpace, left, core + right);
  }

  /** If the core of a text, cleaned, occurs somewhere, the whole text, cleaned, is found there. */
  lemma FoundByCore(isSpace: char -> bool, text: string, from: nat, b: nat, c: nat, to: nat, hay: string)
    requires from <= b <= c <= to <= |text|
    requires AllSpace(isSpace, text, from, b) && AllSpace(isSpace, text, c, to)
    requires IsSubstring(CleanedAnswer(isSpace, text[b..c]), hay)
    ensures Find(hay, CleanedAnswer(isSpace, text[from..to])) != -1
  {
    WordsOfCore(isSpace, text, from, b, c, to);
  }

  lemma ActualTextWidens(text: string, offset: nat, length: nat, b: nat, m: nat)
    requires InText(text, offset, length) && offset <= b && 1 <= m && b + m <= offset + length &&
        WordOffset(text, offset) >= 0
    ensures IsSubstring(ActualText(text, b, m), ActualText(text, offset, length))
  {
    OffsetsNest(text, offset, length, b, m);
    WithinRange(Words(DocWs(), text), WordOffset(text, offset), WordOffset(text, b),
                WordOffset(text, LastIndex(text, b, m)), WordOffset(text, LastIndex(text, offset, length)));
  }

  lemma OffsetsNest(text: string, offset: nat, length: nat, b: nat, m: nat)
    requires InText(text, offset, length) && offset <= b && 1 <= m && b + m <= offset + length
    ensures -1 <= WordOffset(text, offset) <= WordOffset(text, b) <= WordOffset(text, LastIndex(text, b, m))
    ensures WordOffset(text, LastIndex(text, b, m)) <= WordOffset(text, LastIndex(text, offset, length))
    ensures WordOffset(text, LastIndex(text, offset, length)) < |Words(DocWs(), text)|
  {
    OffsetsAscend(text, offset, b);
    OffsetsAscend(text, b, LastIndex(text, b, m));
    OffsetsAscend(text, LastIndex(text, b, m), LastIndex(text, offset, length));
  }

  /** The two whitespace tests agree on these characters. */
  ghost predicate Agree(isSpace: char -> bool, text: string, from: nat, to: nat) {
    forall i :: from <= i < to && i < |text| ==> isSpace(text[i]) == IsDocWhitespace(text[i])
  }

  lemma CoreFound(isSpace: char -> bool, text: string, offset: nat, b: nat, m: nat)
    requires offset <= b && 1 <= m && b + m <= |text| && Agree(isSpace, text, b, b + m)
    requires WordOffset(text, offset) >= 0 && !isSpace(text[b])
    ensures IsSubstring(CleanedAnswer(isSpace, text[b..b + m]), ActualText(text, b, m))
  {
    var core := text[b..b + m];
    OffsetsAscend(text, offset, b);
    assert core[0] == text[b];
    WordsAgree(isSpace, DocWs(), core);
    StartsInWordNonempty(DocWs(), core);
    FoundAfterAWord(text, b, m);
  }

  lemma CoreFoundInside(isSpace: char -> bool, text: string, offset: nat, length: nat, b: nat, m: nat)
    requires InText(text, offset, length) && offset <= b && 1 <= m && b + m <= offset + length
    requires Agree(isSpace, text, b, b + m) && WordOffset(text, offset) >= 0 && !isSpace(text[b])
    ensures IsSubstring(CleanedAnswer(isSpace, text[b..b + m]), ActualText(text, offset, length))
  {
    CoreFound(isSpace, text, offset, b, m);
    ActualTextWidens(text, offset, length, b, m);
    SubstringTransitive(CleanedAnswer(isSpace, text[b..b + m]), ActualText(text, b, m),
                        ActualText(text, offset, length));
  }

  /**
   Agreement is needed only from the answer's first word character to its last, `m` characters from `b`
   on: if a word begins at or before the answer offset, the example is kept whatever whitespace the answer
   has around these.
   */
  lemma AgreementInsideSuffices(isSpace: char -> bool, text: string, offset: nat, length: nat, b: nat, m: nat)
    requires InText(text, offset, length) && offset <= b && 1 <= m && b + m <= offset + length
    requires AllSpace(isSpace, text, offset, b) && AllSpace(isSpace, text, b + m, offset + length)
    requires Agree(isSpace, text, b, b + m) && WordOffset(text, offset) >= 0 && !isSpace(text[b])
    ensures Find(ActualText(text, offset, length), CleanedAnswer(isSpace, text[offset..offset + length])) != -1
  {
    CoreFoundInside(isSpace, text, offset, length, b, m);
    FoundByCore(isSpace, text, offset, b, b + m, offset + length, ActualText(text, offset, length));
  }

  lemma FirstCharacterStays(isWs: char -> bool, s: string)
    requires StartsInWord(isWs, s)
    ensures Words(isWs, s) != [] && Words(isWs, s)[0] != "" && Words(isWs, s)[0][0] == s[0]
  {
    var first, rest := [s[0]], s[1..];
    assert s == first + rest;
    WordsOfChar(isWs, s[0]);
    WordsConcat(isWs, first, rest);
  }

  lemma JoinedEnds(isWs: char -> bool, s: string)
    requires StartsInWord(isWs, s) && EndsInWord(isWs, s)
    ensures var joined := Join(Words(isWs, s));
            joined != "" && joined[0] == s[0] && joined[|joined| - 1] == s[|s| - 1]
  {
    FirstCharacterStays(isWs, s);
    var ws := Words(isWs, s);
    var last := ws[|ws| - 1];
    assert last[|last| - 1] == s[|s| - 1];
    JoinOuter(ws);
  }

  lemma JoinOuter(ws: seq<string>)
    requires ws != [] && ws[0] != "" && ws[|ws| - 1] != ""
    ensures Join(ws) != "" && Join(ws)[0] == ws[0][0]
    ensures var last := ws[|ws| - 1]; Join(ws)[|Join(ws)| - 1] == last[|last| - 1]
  {
    assert ws == ws[..|ws| - 1] + [ws[|ws| - 1]];
    JoinSnoc(ws[..|ws| - 1], ws[|ws| - 1]);
  }

  lemma EndsAreKept(isSpace: char -> bool, s: string)
    requires StartsInWord(isSpace, s) || EndsInWord(isSpace, s)
    ensures Drop(isSpace, s) != ""
  {
    if StartsInWord(isSpace, s) {
      assert s == [s[0]] + s[1..];
      DropConcat(isSpace, [s[0]], s[1..]);
      DropOne(isSpace, s[0]);
    }
  }

  lemma DropThree(isSpace: char -> bool, left: string, mid: string, right: string, whole: string)
    requires whole == left + mid + right
    ensures |Drop(isSpace, whole)| == |Drop(isSpace, left)| + |Drop(isSpace, mid)| + |Drop(isSpace, right)|
  {
    DropConcat(isSpace, left + mid, right);
    DropConcat(isSpace, left, mid);
  }

  lemma LeftEmpty(isSpace: char -> bool, left: string, rest: string, whole: string)
    requires whole == left + rest && StartsInWord(isSpace, whole) && Drop(isSpace, left) == ""
    ensures left == ""
  {
    if left != "" {
      assert left[0] == whole[0];
      EndsAreKept(isSpace, left);
    }
  }

  lemma RightEmpty(isSpace: char -> bool, rest: string, right: string, whole: string)
    requires whole == rest + right && EndsInWord(isSpace, whole) && Drop(isSpace, right) == ""
    ensures right == ""
  {
    if right != "" {
      assert right[|right| - 1] == whole[|whole| - 1];
      EndsAreKept(isSpace, right);
    }
  }

  /** A part that has all the non-space characters of a text without outer whitespace is the whole text. */
  lemma OccursMeansEqual(isSpace: char -> bool, part: string, whole: string)
    requires IsSubstring(part, whole) && StartsInWord(isSpace, whole) && EndsInWord(isSpace, whole)
    requires |Drop(isSpace, part)| == |Drop(isSpace, whole)|
    ensures part == whole
  {
    var i :| OccursAt(part, whole, i);
    var left, right := whole[..i], whole[i + |part|..];
    SplitAt(part, whole, i);
    DropThree(isSpace, left, part, right, whole);
    LeftEmpty(isSpace, left, part + right, whole);
    RightEmpty(isSpace, left + part, right, whole);
  }

  lemma SplitAt(part: string, whole: string, i: int)
    requires OccursAt(part, whole, i)
    ensures whole == whole[..i] + part + whole[i + |part|..] && whole == whole[..i] + (part + whole[i + |part|..])
  {
  }

  /** Joined words have the non-space characters of the text. */
  lemma JoinedKeeps(f: char -> bool, g: char -> bool, s: string)
    requires f(' ') && forall c :: f(c) ==> g(c)
    ensures Drop(g, Join(Words(f, s))) == Drop(g, s)
    ensures NonSpace(Join(Words(f, s))) == Drop(f, s)
  {
    FlattenWords(f, s);
    DropJoin(g, Words(f, s));
    DropNested(f, g, s);
    DropJoin(Blank(), Words(f, s));
    DropIsFree(f, s);
    DropSpaceFree(Blank(), Drop(f, s));
  }

  /** The joined words under the wider test occur among those under the narrower one only if the tests agree. */
  lemma JoinedOccursIff(isSpace: char -> bool, a: string)
    requires StartsInWord(isSpace, a) && EndsInWord(isSpace, a)
    requires forall c :: IsDocWhitespace(c) ==> isSpace(c)
    ensures IsSubstring(Join(Words(isSpace, a)), Join(Words(DocWs(), a))) <==>
              Agree(isSpace, a, 0, |a|)
  {
    var narrow, wide := Join(Words(DocWs(), a)), Join(Words(isSpace, a));
    JoinedKeeps(DocWs(), isSpace, a);
    JoinedKeeps(isSpace, isSpace, a);
    DropCounts(DocWs(), isSpace, a);
    if IsSubstring(wide, narrow) {
      JoinedEnds(DocWs(), a);
      OccursMeansEqual(isSpace, wide, narrow);
    }
    if Agree(isSpace, a, 0, |a|) {
      WordsAgree(isSpace, DocWs(), a);
      OuterPartsOccur(wide, "", "");
    }
  }

  /** Between word boundaries the looked-up words are the answer's own. */
  lemma WholeWordsLookedUp(text: string, offset: nat, length: nat)
    requires 1 <= length && offset + length <= |text| && !IsDocWhitespace(text[offset])
    requires offset == 0 || IsDocWhitespace(text[offset - 1])
    requires offset + length == |text| || IsDocWhitespace(text[offset + length])
    ensures ActualText(text, offset, length) == Join(Words(DocWs(), text[offset..offset + length]))
  {
    var p, a, rest := text[..offset], text[offset..offset + length], text[offset + length..];
    ThreeParts(text, offset, length);
    WordCountAfter(p, a[0]);
    WordsConcat(DocWs(), p, a);
    WordsConcat(DocWs(), p + a, rest);
    var wp, wa, wr := Words(DocWs(), p), Words(DocWs(), a), Words(DocWs(), rest);
    assert Words(DocWs(), text) == (wp + wa) + wr;
    assert ((wp + wa) + wr)[|wp|..|wp + wa|] == wa;
  }

  /**
   An answer of whole words, which begins and ends with a word character, is kept exactly when no
   character inside it, such as a no-break space, is whitespace to `split` but not to the paragraph splitter.
   */
  lemma WholeWordsKeptIff(isSpace: char -> bool, text: string, offset: nat, length: nat)
    requires 1 <= length && offset + length <= |text|
    requires !isSpace(text[offset]) && !isSpace(text[offset + length - 1])
    requires offset == 0 || IsDocWhitespace(text[offset - 1])
    requires offset + length == |text| || IsDocWhitespace(text[offset + length])
    requires forall c :: IsDocWhitespace(c) ==> isSpace(c)
    ensures Find(ActualText(text, offset, length), CleanedAnswer(isSpace, text[offset..offset + length])) != -1 <==>
              Agree(isSpace, text, offset, offset + length)
  {
    var a := text[offset..offset + length];
    WholeWordsLookedUp(text, offset, length);
    assert StartsInWord(isSpace, a) && EndsInWord(isSpace, a) by {
      assert a[0] == text[offset] && a[length - 1] == text[offset + length - 1];
    }
    JoinedOccursIff(isSpace, a);
    AgreeOnSlice(isSpace, text, offset, length, a);
  }

  lemma AgreeOnSlice(isSpace: char -> bool, text: string, offset: nat, length: nat, a: string)
    requires offset + length <= |text| && a == text[offset..offset + length]
    ensures Agree(isSpace, a, 0, |a|) <==> Agree(isSpace, text, offset, offset + length)
  {
    if Agree(isSpace, a, 0, |a|) {
      forall i | offset <= i < offset + length ensures isSpace(text[i]) == IsDocWhitespace(text[i]) {
        assert text[i] == a[i - offset];
      }
    }
  }

  /** Where the whitespace tests differ an example can be lost: "a", no-break space, "b". */
  lemma DisagreementLosesExample(isSpace: char -> bool)
    requires isSpace(0xA0 as char) && !isSpace('a') && !isSpace('b')
    ensures var text := "a" + [0xA0 as char] + "b";
            Find(ActualText(text, 0, 3), CleanedAnswer(isSpace, text[0..3])) == -1
  {
    var nbsp := 0xA0 as char;
    var text := "a" + [nbsp] + "b";
    assert text[..1] == "a" && text[..3] == text && text[0..3] == text;
    assert SpaceFree(DocWs(), text);
    WordsOfWord(DocWs(), "a");
    WordsOfWord(DocWs(), text);
    WordsAcrossSpace(isSpace, "a", nbsp, "b");
    WordsOfWord(isSpace, "a");
    WordsOfWord(isSpace, "b");
    assert Words(isSpace, text) == ["a", "b"];
    assert PySlice([text], 0, 1) == [text];
    assert Join([text]) == text + JoinTail([]);
    SpaceNotInWord(["a", "b"], text);
  }
}
