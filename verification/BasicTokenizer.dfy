/**
 `BasicTokenizer` (bert/tokenization.py): cleaning, CJK spacing, whitespace splitting, optional
 lower-casing with accent stripping, and punctuation splitting. The Unicode tables are parameters.
 */
module BasicTokenizer {
  import opened Text

  /** What Python's unicodedata and str methods answer. */
  datatype Unicode = Unicode(
    category: char -> string,
    isSpace: char -> bool, lower: string -> string,
    nfd: string -> string)
  {
    /** Facts about the space character and about printable ASCII. */
    ghost predicate Valid() {
      && isSpace(' ') && category(' ') == "Zs"
      && forall c: char :: 33 <= c as int <= 126 ==> !isSpace(c)
    }
  }

  predicate IsWhitespace(u: Unicode, c: char) {
    c == ' ' || c == '\t' || c == '\n' || c == '\r' || u.category(c) == "Zs"
  }

  predicate IsControl(u: Unicode, c: char) {
    if c == '\t' || c == '\n' || c == '\r' then false
    else u.category(c) == "Cc" || u.category(c) == "Cf"
  }

  predicate IsPunctuation(u: Unicode, c: char) {
    var cp := c as int;
    if 33 <= cp <= 47 || 58 <= cp <= 64 || 91 <= cp <= 96 || 123 <= cp <= 126 then true
    else |u.category(c)| > 0 && u.category(c)[0] == 'P'
  }

  /** Every printable ASCII character that is neither letter nor digit counts as punctuation. */
  lemma AsciiSymbolsArePunctuation(u: Unicode, c: char)
    requires '!' <= c <= '~' && !('0' <= c <= '9') && !('A' <= c <= 'Z') && !('a' <= c <= 'z')
    ensures IsPunctuation(u, c)
  {
  }

  predicate IsChineseChar(c: char) {
    var cp := c as int;
    || 0x4E00 <= cp <= 0x9FFF
    || 0x3400 <= cp <= 0x4DBF
    || 0x20000 <= cp <= 0x2A6DF
    || 0x2A700 <= cp <= 0x2B73F
    || 0x2B740 <= cp <= 0x2B81F
    || 0x2B820 <= cp <= 0x2CEAF
    || 0xF900 <= cp <= 0xFAFF
    || 0x2F800 <= cp <= 0x2FA1F
  }

  // ---------- character passes ----------

  predicate IsRemoved(u: Unicode, c: char) {
    c as int == 0 || c as int == 0xfffd || IsControl(u, c)
  }

  function Cleaner(u: Unicode): char -> string {
    c => if IsRemoved(u, c) then "" else if IsWhitespace(u, c) then " " else [c]
  }

  function Spacer(): char -> string {
    c => if IsChineseChar(c) then " " + [c] + " " else [c]
  }

  function AccentFilter(u: Unicode): char -> string {
    c => if u.category(c) == "Mn" then "" else [c]
  }

  method CleanText(u: Unicode, text: string) returns (output: string)
    ensures output == FlatMap(Cleaner(u), text)
  {
    output := "";
    for i := 0 to |text|
      invariant output == FlatMap(Cleaner(u), text[..i])
    {
      FlatMapSnoc(Cleaner(u), text[..i], text[i]);
      assert text[..i + 1] == text[..i] + [text[i]];
      if IsRemoved(u, text[i]) {
        continue;
      }
      if IsWhitespace(u, text[i]) {
        output := output + " ";
      } else {
        output := output + [text[i]];
      }
    }
    assert text[..|text|] == text;
  }

  method TokenizeChineseChars(text: string) returns (output: string)
    ensures output == FlatMap(Spacer(), text)
  {
    output := "";
    for i := 0 to |text|
      invariant output == FlatMap(Spacer(), text[..i])
    {
      FlatMapSnoc(Spacer(), text[..i], text[i]);
      assert text[..i + 1] == text[..i] + [text[i]];
      if IsChineseChar(text[i]) {
        output := output + " " + [text[i]] + " ";
      } else {
        output := output + [text[i]];
      }
    }
    assert text[..|text|] == text;
  }

  method RunStripAccents(u: Unicode, text: string) returns (output: string)
    ensures output == StripAccents(u, text)
  {
    output := "";
    var chars := u.nfd(text);
    for i := 0 to |chars|
      invariant output == FlatMap(AccentFilter(u), chars[..i])
    {
      FlatMapSnoc(AccentFilter(u), chars[..i], chars[i]);
      assert chars[..i + 1] == chars[..i] + [chars[i]];
      if u.category(chars[i]) == "Mn" {
        continue;
      }
      output := output + [chars[i]];
    }
    assert chars[..|chars|] == chars;
  }

  function StripAccents(u: Unicode, text: string): string {
    FlatMap(AccentFilter(u), u.nfd(text))
  }

  // ---------- punctuation splitting ----------

  /** One more character: punctuation stands alone, anything else opens or extends a token. */
  function AddToken(u: Unicode, out: seq<string>, startNewWord: bool, c: char): seq<string> {
    if IsPunctuation(u, c) || startNewWord || out == [] then out + [[c]]
    else out[..|out| - 1] + [out[|out| - 1] + [c]]
  }

  function SplitOnPunc(u: Unicode, s: string): seq<string> {
    if s == "" then []
    else
      var n := |s| - 1;
      AddToken(u, SplitOnPunc(u, s[..n]), n == 0 || IsPunctuation(u, s[n - 1]), s[n])
  }

  lemma SplitOnPuncSnoc(u: Unicode, s: string, c: char)
    ensures SplitOnPunc(u, s + [c]) == AddToken(u, SplitOnPunc(u, s), s == "" || IsPunctuation(u, s[|s| - 1]), c)
  {
    assert (s + [c])[..|s|] == s;
  }

  function AppendToLast(output: seq<string>, c: char): seq<string>
    requires output != []
  {
    output[..|output| - 1] + [output[|output| - 1] + [c]]
  }

  lemma AddTokenCases(u: Unicode, output: seq<string>, startNewWord: bool, c: char)
    requires startNewWord || output != []
    ensures AddToken(u, output, startNewWord, c) ==
              if IsPunctuation(u, c) then output + [[c]]
              else AppendToLast(if startNewWord then output + [[]] else output, c)
  {
    if startNewWord { assert (output + [""])[..|output|] == output && "" + [c] == [c]; }
  }

  /** The body of the splitting loop. */
  method AddCharToTokens(
    u: Unicode, tokens: seq<string>, startNewWord: bool, c: char)
    returns (output: seq<string>, startNext: bool)
    requires startNewWord || tokens != []
    ensures output == AddToken(u, tokens, startNewWord, c) && output != []
    ensures startNext == IsPunctuation(u, c)
  {
    AddTokenCases(u, tokens, startNewWord, c);
    output := tokens;
    if IsPunctuation(u, c) {
      output := output + [[c]];
      startNext := true;
    } else {
      if startNewWord {
        output := output + [[]];
      }
      startNext := false;
      output := AppendToLast(output, c);
    }
  }

  method RunSplitOnPunc(u: Unicode, text: string) returns (output: seq<string>)
    ensures output == SplitOnPunc(u, text)
  {
    var i := 0;
    var startNewWord := true;
    output := [];
    while i < |text|
      invariant 0 <= i <= |text|
      invariant startNewWord == (i == 0 || IsPunctuation(u, text[i - 1]))
      invariant startNewWord || output != []
      invariant output == SplitOnPunc(u, text[..i])
    {
      SplitOnPuncAt(u, text, i);
      output, startNewWord := AddCharToTokens(u, output, startNewWord, text[i]);
      i := i + 1;
    }
    assert text[..|text|] == text;
  }

  lemma SplitOnPuncAt(u: Unicode, text: string, i: nat)
    requires i < |text|
    ensures SplitOnPunc(u, text[..i + 1]) ==
              AddToken(u, SplitOnPunc(u, text[..i]), i == 0 || IsPunctuation(u, text[i - 1]), text[i])
  {
    assert text[..i + 1] == text[..i] + [text[i]];
    SplitOnPuncSnoc(u, text[..i], text[i]);
  }

  /** A token that punctuation splitting leaves alone. */
  predicate Atomic(u: Unicode, w: string) {
    w != "" && (|w| == 1 || forall i :: 0 <= i < |w| ==> !IsPunctuation(u, w[i]))
  }

  predicate StartsWithPunc(u: Unicode, w: string) {
    w != "" && IsPunctuation(u, w[0])
  }

  /** Atomic tokens, no two neighbours of which could have been one token. */
  ghost predicate MaximalSplit(u: Unicode, out: seq<string>) {
    && (forall k :: 0 <= k < |out| ==> Atomic(u, out[k]))
    && (forall k :: 0 < k < |out| ==> StartsWithPunc(u, out[k - 1]) || StartsWithPunc(u, out[k]))
  }

  /** The last token starts a fresh one exactly when it is punctuation. */
  lemma AddTokenKeeps(u: Unicode, out: seq<string>, c: char)
    requires MaximalSplit(u, out)
    ensures var start := out == [] || StartsWithPunc(u, out[|out| - 1]);
            var out' := AddToken(u, out, start, c);
            && MaximalSplit(u, out') && Flatten(out') == Flatten(out) + [c]
            && out' != [] && (StartsWithPunc(u, out'[|out'| - 1]) <==> IsPunctuation(u, c))
  {
    if IsPunctuation(u, c) || out == [] || StartsWithPunc(u, out[|out| - 1]) {
      FlattenSnoc(out, [c]);
    } else {
      var k := |out| - 1;
      assert out == out[..k] + [out[k]];
      FlattenSnoc(out[..k], out[k]);
      FlattenSnoc(out[..k], out[k] + [c]);
      assert Atomic(u, out[k] + [c]);
    }
  }

  /**
   Punctuation splitting cuts the text, losing nothing, into punctuation characters on their own and
   maximal runs without punctuation.
   */
  lemma {:induction false} SplitOnPuncCorrect(u: Unicode, s: string)
    ensures var out := SplitOnPunc(u, s);
            && Flatten(out) == s && MaximalSplit(u, out) && (out == [] <==> s == "")
            && (s != "" ==> (StartsWithPunc(u, out[|out| - 1]) <==> IsPunctuation(u, s[|s| - 1])))
  {
    if s != "" {
      var s', c := s[..|s| - 1], s[|s| - 1];
      assert s == s' + [c];
      SplitOnPuncCorrect(u, s');
      SplitOnPuncSnoc(u, s', c);
      AddTokenKeeps(u, SplitOnPunc(u, s'), c);
    }
  }

  // ---------- the tokenizer ----------

  function Normalize(u: Unicode, doLowerCase: bool, token: string): string {
    if doLowerCase then StripAccents(u, u.lower(token)) else token
  }

  function Splitter(u: Unicode, doLowerCase: bool): string -> seq<string> {
    t => SplitOnPunc(u, Normalize(u, doLowerCase, t))
  }

  function Cleaned(u: Unicode, text: string): string {
    FlatMap(Spacer(), FlatMap(Cleaner(u), text))
  }

  /** The tokens before the final whitespace split. */
  function SplitTokens(u: Unicode, doLowerCase: bool, text: string): seq<string> {
    FlatMap(Splitter(u, doLowerCase), Words(u.isSpace, Cleaned(u, text)))
  }

  function BasicTokens(u: Unicode, doLowerCase: bool, text: string): seq<string> {
    Words(u.isSpace, Join(SplitTokens(u, doLowerCase, text)))
  }

  method NormalizeToken(u: Unicode, doLowerCase: bool, token: string) returns (output: string)
    ensures output == Normalize(u, doLowerCase, token)
  {
    output := token;
    if doLowerCase {
      output := RunStripAccents(u, u.lower(output));
    }
  }

  lemma SplitterSnoc(u: Unicode, doLowerCase: bool, tokens: seq<string>, i: nat)
    requires i < |tokens|
    ensures FlatMap(Splitter(u, doLowerCase), tokens[..i + 1]) ==
              FlatMap(Splitter(u, doLowerCase), tokens[..i]) + SplitOnPunc(u, Normalize(u, doLowerCase, tokens[i]))
  {
    assert tokens[..i + 1] == tokens[..i] + [tokens[i]];
    FlatMapSnoc(Splitter(u, doLowerCase), tokens[..i], tokens[i]);
  }

  /** The loop of `tokenize`: normalise each word and split it on punctuation. */
  method SplitEach(u: Unicode, doLowerCase: bool, origTokens: seq<string>) returns (splitTokens: seq<string>)
    ensures splitTokens == FlatMap(Splitter(u, doLowerCase), origTokens)
  {
    splitTokens := [];
    for i := 0 to |origTokens|
      invariant splitTokens == FlatMap(Splitter(u, doLowerCase), origTokens[..i])
    {
      var token := NormalizeToken(u, doLowerCase, origTokens[i]);
      var parts := RunSplitOnPunc(u, token);
      splitTokens := splitTokens + parts;
      SplitterSnoc(u, doLowerCase, origTokens, i);
    }
    assert origTokens[..|origTokens|] == origTokens;
  }

  method Tokenize(u: Unicode, doLowerCase: bool, text: string) returns (outputTokens: seq<string>)
    ensures outputTokens == BasicTokens(u, doLowerCase, text)
  {
    var t := CleanText(u, text);
    t := TokenizeChineseChars(t);
    var splitTokens := SplitEach(u, doLowerCase, Words(u.isSpace, t));
    outputTokens := Words(u.isSpace, Join(splitTokens));
  }

  // ---------- tokenizing is word by word ----------

  lemma CleanedConcat(u: Unicode, x: string, y: string)
    ensures Cleaned(u, x + y) == Cleaned(u, x) + Cleaned(u, y)
  {
    FlatMapConcat(Cleaner(u), x, y);
    FlatMapConcat(Spacer(), FlatMap(Cleaner(u), x), FlatMap(Cleaner(u), y));
  }

  lemma CleanedSpace(u: Unicode)
    requires u.Valid()
    ensures Cleaned(u, " ") == " "
  {
    assert FlatMap(Cleaner(u), " ") == Cleaner(u)(' ') + FlatMap(Cleaner(u), "");
    assert FlatMap(Spacer(), " ") == Spacer()(' ') + FlatMap(Spacer(), "");
  }

  lemma SplitTokensAcrossSpace(u: Unicode, doLowerCase: bool, x: string, y: string)
    requires u.Valid()
    ensures SplitTokens(u, doLowerCase, x + " " + y) == SplitTokens(u, doLowerCase, x) + SplitTokens(u, doLowerCase, y)
  {
    CleanedConcat(u, x + " ", y);
    CleanedConcat(u, x, " ");
    CleanedSpace(u);
    WordsAcrossSpace(u.isSpace, Cleaned(u, x), ' ', Cleaned(u, y));
    FlatMapConcat(Splitter(u, doLowerCase), Words(u.isSpace, Cleaned(u, x)), Words(u.isSpace, Cleaned(u, y)));
  }

  /** A space in the text separates what the tokenizer makes of its two sides. */
  lemma TokensAcrossSpace(u: Unicode, doLowerCase: bool, x: string, y: string)
    requires u.Valid()
    ensures BasicTokens(u, doLowerCase, x + " " + y) == BasicTokens(u, doLowerCase, x) + BasicTokens(u, doLowerCase, y)
  {
    SplitTokensAcrossSpace(u, doLowerCase, x, y);
    WordsOfJoinedLists(u.isSpace, SplitTokens(u, doLowerCase, x), SplitTokens(u, doLowerCase, y));
  }

  lemma WordsOfJoinedLists(isSpace: char -> bool, a: seq<string>, b: seq<string>)
    requires isSpace(' ')
    ensures Words(isSpace, Join(a + b)) == Words(isSpace, Join(a)) + Words(isSpace, Join(b))
  {
    if a == [] {
      assert a + b == b;
    } else if b == [] {
      assert a + b == a;
    } else {
      JoinConcat(a, b);
      WordsAcrossSpace(isSpace, Join(a), ' ', Join(b));
    }
  }

  function Basic(u: Unicode, doLowerCase: bool): string -> seq<string> {
    t => BasicTokens(u, doLowerCase, t)
  }

  /** Tokenizing a joined list of words is tokenizing word by word. */
  lemma {:induction false} TokensOfJoin(u: Unicode, doLowerCase: bool, words: seq<string>)
    requires u.Valid()
    ensures BasicTokens(u, doLowerCase, Join(words)) == FlatMap(Basic(u, doLowerCase), words)
  {
    if words == [] {
      assert FlatMap(Cleaner(u), "") == "" && FlatMap(Spacer(), "") == "";
      assert SplitTokens(u, doLowerCase, "") == [];
    } else {
      var n := |words| - 1;
      var init, w := words[..n], words[n];
      assert words == init + [w];
      TokensOfJoin(u, doLowerCase, init);
      FlatMapSnoc(Basic(u, doLowerCase), init, w);
      JoinSnoc(init, w);
      if init != [] { TokensAcrossSpace(u, doLowerCase, Join(init), w); }
    }
  }

  // ---------- what the tokens look like ----------

  /** Punctuation has only spaces beside it. */
  ghost predicate PuncIsolated(u: Unicode, s: string) {
    forall i :: 0 <= i < |s| && IsPunctuation(u, s[i]) ==>
      (i > 0 ==> s[i - 1] == ' ') && (i + 1 < |s| ==> s[i + 1] == ' ')
  }

  ghost predicate AllAtomic(u: Unicode, ws: seq<string>) {
    forall k :: 0 <= k < |ws| ==> Atomic(u, ws[k])
  }

  lemma {:induction false} JoinIsolates(u: Unicode, ws: seq<string>)
    requires u.Valid() && AllAtomic(u, ws) && !IsPunctuation(u, ' ')
    ensures PuncIsolated(u, JoinTail(ws)) && PuncIsolated(u, Join(ws))
  {
    if ws != [] {
      JoinIsolates(u, ws[1..]);
      var rest := JoinTail(ws[1..]);
      assert rest == "" || rest[0] == ' ';
      assert Atomic(u, ws[0]);
      IsolatedConcat(u, ws[0], rest);
      IsolatedConcat(u, " ", ws[0] + rest);
      assert JoinTail(ws) == " " + (ws[0] + rest);
    }
  }

  lemma IsolatedConcat(u: Unicode, x: string, y: string)
    requires PuncIsolated(u, x) && PuncIsolated(u, y) && !IsPunctuation(u, ' ')
    requires x == " " || y == "" || y[0] == ' '
    ensures PuncIsolated(u, x + y)
  {
    var s := x + y;
    forall i | 0 <= i < |s| && IsPunctuation(u, s[i])
      ensures (i > 0 ==> s[i - 1] == ' ') && (i + 1 < |s| ==> s[i + 1] == ' ')
    {
      if i >= |x| {
        assert s[i] == y[i - |x|];
      }
    }
  }

  lemma AllAtomicConcat(u: Unicode, a: seq<string>, b: seq<string>)
    requires AllAtomic(u, a) && AllAtomic(u, b)
    ensures AllAtomic(u, a + b)
  {
  }

  lemma SplitOnPuncAtomic(u: Unicode, s: string)
    ensures AllAtomic(u, SplitOnPunc(u, s))
  {
    SplitOnPuncCorrect(u, s);
  }

  lemma {:induction false} SplitTokensAtomic(u: Unicode, doLowerCase: bool, words: seq<string>)
    ensures AllAtomic(u, FlatMap(Splitter(u, doLowerCase), words))
  {
    if words != [] {
      var first := SplitOnPunc(u, Normalize(u, doLowerCase, words[0]));
      SplitOnPuncAtomic(u, Normalize(u, doLowerCase, words[0]));
      SplitTokensAtomic(u, doLowerCase, words[1..]);
      AllAtomicConcat(u, first, FlatMap(Splitter(u, doLowerCase), words[1..]));
    }
  }

  /** A space is no punctuation. */
  lemma SpaceIsNoPunctuation(u: Unicode)
    requires u.Valid()
    ensures !IsPunctuation(u, ' ')
  {
    assert u.category(' ')[0] == 'Z';
  }

  /** Splitting joined atomic tokens at whitespace leaves atomic words. */
  lemma WordsOfAtomic(u: Unicode, split: seq<string>)
    requires u.Valid() && AllAtomic(u, split)
    ensures AllWords(u.isSpace, Words(u.isSpace, Join(split))) && AllAtomic(u, Words(u.isSpace, Join(split)))
  {
    var joined := Join(split);
    var tokens := Words(u.isSpace, joined);
    SpaceIsNoPunctuation(u);
    JoinIsolates(u, split);
    WordsAreWords(u.isSpace, joined);
    forall k | 0 <= k < |tokens| ensures Atomic(u, tokens[k]) {
      WordIsInfix(u.isSpace, joined, k);
      assert IsWord(u.isSpace, tokens[k]);
      InfixAtomic(u, joined, tokens[k]);
    }
  }

  /** Every token is a non-empty, whitespace-free text, and punctuation always stands alone. */
  lemma TokensAreAtomicWords(u: Unicode, doLowerCase: bool, text: string)
    requires u.Valid()
    ensures AllWords(u.isSpace, BasicTokens(u, doLowerCase, text))
    ensures AllAtomic(u, BasicTokens(u, doLowerCase, text))
  {
    SplitTokensAtomic(u, doLowerCase, Words(u.isSpace, Cleaned(u, text)));
    WordsOfAtomic(u, SplitTokens(u, doLowerCase, text));
  }

  lemma InfixAtomic(u: Unicode, s: string, w: string)
    requires PuncIsolated(u, s) && IsSubstring(w, s) && IsWord(u.isSpace, w) && u.isSpace(' ')
    ensures Atomic(u, w)
  {
    var at :| OccursAt(w, s, at);
    forall i | 0 <= i < |w| && |w| > 1 ensures !IsPunctuation(u, w[i]) {
      assert w[i] == s[at + i];
      if i > 0 { assert w[i - 1] == s[at + i - 1]; } else { assert w[1] == s[at + 1]; }
    }
  }

  // ---------- conservation ----------

  predicate IsKept(u: Unicode, c: char) {
    !IsRemoved(u, c) && !IsWhitespace(u, c) && !u.isSpace(c)
  }

  function Discarded(u: Unicode): char -> bool {
    c => !IsKept(u, c)
  }

  lemma {:induction false} DropCleaned(u: Unicode, text: string)
    requires u.Valid()
    ensures Drop(u.isSpace, Cleaned(u, text)) == Drop(Discarded(u), text)
  {
    if text == "" {
      assert FlatMap(Cleaner(u), "") == "" && FlatMap(Spacer(), "") == "";
    } else {
      var init, c := text[..|text| - 1], text[|text| - 1];
      assert text == init + [c];
      DropCleaned(u, init);
      CleanedConcat(u, init, [c]);
      DropConcat(u.isSpace, Cleaned(u, init), Cleaned(u, [c]));
      DropCleanedChar(u, c);
    }
  }

  lemma DropCleanedChar(u: Unicode, c: char)
    requires u.Valid()
    ensures Drop(u.isSpace, Cleaned(u, [c])) == if IsKept(u, c) then [c] else ""
  {
    var one := Cleaner(u)(c);
    assert FlatMap(Cleaner(u), [c]) == one + FlatMap(Cleaner(u), "") == one;
    if one == "" {
      assert FlatMap(Spacer(), one) == "";
    } else if IsWhitespace(u, c) {
      CleanedSpace(u);
      assert Cleaned(u, [c]) == FlatMap(Spacer(), " ");
      assert FlatMap(Spacer(), " ") == Spacer()(' ') + FlatMap(Spacer(), "") == " ";
      DropOne(u.isSpace, ' ');
    } else {
      DropSpaced(u, c);
    }
  }

  lemma DropSpaced(u: Unicode, c: char)
    requires u.Valid()
    ensures Drop(u.isSpace, FlatMap(Spacer(), [c])) == if u.isSpace(c) then "" else [c]
  {
    assert FlatMap(Spacer(), [c]) == Spacer()(c) + FlatMap(Spacer(), "") == Spacer()(c);
    DropConcat(u.isSpace, " " + [c], " ");
    DropConcat(u.isSpace, " ", [c]);
    DropOne(u.isSpace, ' ');
    DropOne(u.isSpace, c);
  }

  lemma {:induction false} FlattenCasedSplit(u: Unicode, words: seq<string>)
    ensures Flatten(FlatMap(Splitter(u, false), words)) == Flatten(words)
  {
    if words != [] {
      SplitOnPuncCorrect(u, words[0]);
      FlattenCasedSplit(u, words[1..]);
      FlattenConcat(Splitter(u, false)(words[0]), FlatMap(Splitter(u, false), words[1..]));
    }
  }

  lemma {:induction false} DropTwice(isWs: char -> bool, s: string)
    ensures Drop(isWs, Drop(isWs, s)) == Drop(isWs, s)
  {
    if s != "" {
      var c := s[|s| - 1];
      DropTwice(isWs, s[..|s| - 1]);
      DropConcat(isWs, Drop(isWs, s[..|s| - 1]), if isWs(c) then "" else [c]);
      DropOne(isWs, c);
    }
  }

  /** Joining and splitting at whitespace keeps the characters that are not whitespace. */
  lemma FlattenJoined(isSpace: char -> bool, split: seq<string>)
    requires isSpace(' ')
    ensures Flatten(Words(isSpace, Join(split))) == Drop(isSpace, Flatten(split))
  {
    FlattenWords(isSpace, Join(split));
    DropJoin(isSpace, split);
  }

  /**
   Without lower-casing the tokenizer only inserts boundaries: its tokens, concatenated, are the
   text minus the removed and the whitespace characters.
   */
  lemma CasedTokensConserveText(u: Unicode, text: string)
    requires u.Valid()
    ensures Flatten(BasicTokens(u, false, text)) == Drop(Discarded(u), text)
  {
    var orig := Words(u.isSpace, Cleaned(u, text));
    FlattenJoined(u.isSpace, SplitTokens(u, false, text));
    FlattenCasedSplit(u, orig);
    FlattenWords(u.isSpace, Cleaned(u, text));
    DropTwice(u.isSpace, Cleaned(u, text));
    DropCleaned(u, text);
  }

  // ---------- what the tokens of a text are ----------

  function Mark(u: Unicode): char -> bool {
    c => u.category(c) == "Mn"
  }

  lemma {:induction false} FilterIsDrop(u: Unicode, s: string)
    ensures FlatMap(AccentFilter(u), s) == Drop(Mark(u), s)
  {
    if s != "" {
      FilterIsDrop(u, s[1..]);
      assert s == [s[0]] + s[1..];
      DropConcat(Mark(u), [s[0]], s[1..]);
      DropOne(Mark(u), s[0]);
    }
  }

  /** A word as its tokens show it: lower-cased and decomposed, without nonspacing marks, or as it is. */
  function Shown(u: Unicode, doLowerCase: bool, w: string): string {
    if doLowerCase then Drop(Mark(u), u.nfd(u.lower(w))) else w
  }

  lemma NormalizedIsShown(u: Unicode, doLowerCase: bool, w: string)
    ensures Normalize(u, doLowerCase, w) == Shown(u, doLowerCase, w)
  {
    if doLowerCase { FilterIsDrop(u, u.nfd(u.lower(w))); }
  }

  function MarkOrSpace(u: Unicode): char -> bool {
    c => u.category(c) == "Mn" || u.isSpace(c)
  }

  /** The characters that an uncased word contributes. */
  function Folded(u: Unicode): string -> string {
    w => Drop(MarkOrSpace(u), u.nfd(u.lower(w)))
  }

  lemma SplitIsFolded(u: Unicode, w: string)
    ensures Drop(u.isSpace, Flatten(Splitter(u, true)(w))) == Folded(u)(w)
  {
    SplitOnPuncCorrect(u, Normalize(u, true, w));
    NormalizedIsShown(u, true, w);
    DropEither(Mark(u), u.isSpace, MarkOrSpace(u), u.nfd(u.lower(w)));
  }

  lemma DropFlattenConcat(isWs: char -> bool, a: seq<string>, b: seq<string>)
    ensures Drop(isWs, Flatten(a + b)) == Drop(isWs, Flatten(a)) + Drop(isWs, Flatten(b))
  {
    FlattenConcat(a, b);
    DropConcat(isWs, Flatten(a), Flatten(b));
  }

  lemma {:induction false} FlattenUncasedSplit(u: Unicode, words: seq<string>)
    ensures Drop(u.isSpace, Flatten(FlatMap(Splitter(u, true), words))) == FlatMap(Folded(u), words)
  {
    if words != [] {
      FlattenUncasedSplit(u, words[1..]);
      DropFlattenConcat(u.isSpace, Splitter(u, true)(words[0]), FlatMap(Splitter(u, true), words[1..]));
      SplitIsFolded(u, words[0]);
    }
  }

  /**
   With lower-casing the tokens, concatenated, are what is left of the lower-cased and decomposed words
   without nonspacing marks and whitespace.
   */
  lemma UncasedTokensConserveText(u: Unicode, text: string)
    requires u.Valid()
    ensures Flatten(BasicTokens(u, true, text)) ==
              FlatMap(Folded(u), Words(u.isSpace, Cleaned(u, text)))
  {
    FlattenJoined(u.isSpace, SplitTokens(u, true, text));
    FlattenUncasedSplit(u, Words(u.isSpace, Cleaned(u, text)));
  }

  /** What the tokenizer makes of words that are already cleaned. */
  function WordTokens(u: Unicode, doLowerCase: bool, words: seq<string>): seq<string> {
    Words(u.isSpace, Join(FlatMap(Splitter(u, doLowerCase), words)))
  }

  lemma WordTokensConcat(u: Unicode, doLowerCase: bool, a: seq<string>, b: seq<string>)
    requires u.Valid()
    ensures WordTokens(u, doLowerCase, a + b) == WordTokens(u, doLowerCase, a) + WordTokens(u, doLowerCase, b)
  {
    FlatMapConcat(Splitter(u, doLowerCase), a, b);
    WordsOfJoinedLists(u.isSpace, FlatMap(Splitter(u, doLowerCase), a), FlatMap(Splitter(u, doLowerCase), b));
  }

  lemma CleanedOne(u: Unicode, c: char)
    ensures Cleaned(u, [c]) ==
              if IsRemoved(u, c) then ""
              else if IsWhitespace(u, c) then (if IsChineseChar(' ') then "   " else " ")
              else if IsChineseChar(c) then " " + [c] + " "
              else [c]
  {
    var one := Cleaner(u)(c);
    assert FlatMap(Cleaner(u), [c]) == one + FlatMap(Cleaner(u), "") == one;
    if one == "" {
      assert FlatMap(Spacer(), one) == "";
    } else {
      assert FlatMap(Spacer(), one) == Spacer()(one[0]) + FlatMap(Spacer(), "");
    }
  }

  lemma CleanedAround(u: Unicode, x: string, c: char, y: string)
    ensures Cleaned(u, x + [c] + y) == Cleaned(u, x) + Cleaned(u, [c]) + Cleaned(u, y)
  {
    CleanedConcat(u, x + [c], y);
    CleanedConcat(u, x, [c]);
  }

  /** A removed character leaves no trace. */
  lemma TokensWithoutRemoved(u: Unicode, doLowerCase: bool, x: string, c: char, y: string)
    requires IsRemoved(u, c)
    ensures BasicTokens(u, doLowerCase, x + [c] + y) == BasicTokens(u, doLowerCase, x + y)
  {
    CleanedAround(u, x, c, y);
    CleanedOne(u, c);
    CleanedConcat(u, x, y);
    assert Cleaned(u, x) + "" == Cleaned(u, x);
  }

  /** A whitespace character, for the tokenizer or for `split`, separates. */
  lemma TokensAroundWhitespace(u: Unicode, doLowerCase: bool, x: string, c: char, y: string)
    requires u.Valid() && !IsRemoved(u, c) && (IsWhitespace(u, c) || u.isSpace(c))
    ensures BasicTokens(u, doLowerCase, x + [c] + y) == BasicTokens(u, doLowerCase, x) + BasicTokens(u, doLowerCase, y)
  {
    CleanedAround(u, x, c, y);
    CleanedOne(u, c);
    WordsAcrossSpaces(u.isSpace, Cleaned(u, x), Cleaned(u, [c]), Cleaned(u, y));
    WordTokensConcat(u, doLowerCase, Words(u.isSpace, Cleaned(u, x)), Words(u.isSpace, Cleaned(u, y)));
  }

  lemma WordsAroundSpaced(u: Unicode, x: string, c: char, y: string)
    requires u.Valid() && !u.isSpace(c)
    ensures Words(u.isSpace, x + (" " + [c] + " ") + y) == Words(u.isSpace, x) + ([[c]] + Words(u.isSpace, y))
  {
    assert x + (" " + [c] + " ") + y == x + [' '] + ([c] + [' '] + y);
    WordsAcrossSpace(u.isSpace, x, ' ', [c] + [' '] + y);
    WordsAcrossSpace(u.isSpace, [c], ' ', y);
    WordsOfChar(u.isSpace, c);
  }

  /** A CJK character is tokenized on its own. */
  lemma TokensAroundChinese(u: Unicode, doLowerCase: bool, x: string, c: char, y: string)
    requires u.Valid() && !IsRemoved(u, c) && !IsWhitespace(u, c) && !u.isSpace(c) && IsChineseChar(c)
    ensures BasicTokens(u, doLowerCase, x + [c] + y) ==
              BasicTokens(u, doLowerCase, x) + (BasicTokens(u, doLowerCase, [c]) + BasicTokens(u, doLowerCase, y))
  {
    var wx, wy := Words(u.isSpace, Cleaned(u, x)), Words(u.isSpace, Cleaned(u, y));
    CleanedAround(u, x, c, y);
    CleanedOne(u, c);
    WordsAroundSpaced(u, Cleaned(u, x), c, Cleaned(u, y));
    WordsOfSpaced(u, c);
    WordTokensConcat(u, doLowerCase, wx, [[c]] + wy);
    WordTokensConcat(u, doLowerCase, [[c]], wy);
  }

  lemma WordsOfSpaced(u: Unicode, c: char)
    requires u.Valid() && !u.isSpace(c)
    ensures Words(u.isSpace, " " + [c] + " ") == Words(u.isSpace, [c]) == [[c]]
  {
    WordsOfChar(u.isSpace, c);
    WordsAcrossSpace(u.isSpace, "" , ' ', [c] + " ");
    WordsAcrossSpace(u.isSpace, [c], ' ', "");
    assert "" + [' '] + ([c] + " ") == " " + [c] + " ";
    assert [c] + [' '] + "" == [c] + " ";
  }

  /** A character that stays as it is, where it is. */
  predicate IsOrdinary(u: Unicode, c: char) {
    !IsRemoved(u, c) && !IsWhitespace(u, c) && !u.isSpace(c) && !IsChineseChar(c)
  }

  lemma {:induction false} CleanedOrdinary(u: Unicode, w: string)
    requires forall i :: 0 <= i < |w| ==> IsOrdinary(u, w[i])
    ensures Cleaned(u, w) == w
  {
    if w == "" {
      assert FlatMap(Cleaner(u), "") == "" && FlatMap(Spacer(), "") == "";
    } else {
      var w', c := w[..|w| - 1], w[|w| - 1];
      assert w == w' + [c];
      CleanedOrdinary(u, w');
      CleanedConcat(u, w', [c]);
      CleanedOne(u, c);
    }
  }

  /**
   The tokens of one word: together they show the word, lower-cased and without its marks if asked, minus
   whitespace; punctuation stands alone, and no two neighbours could have been one token.
   */
  ghost predicate AreTokensOf(u: Unicode, doLowerCase: bool, w: string, tokens: seq<string>) {
    var shown := if doLowerCase then Drop(Mark(u), u.nfd(u.lower(w))) else w;
    && Flatten(tokens) == Drop(u.isSpace, shown)
    && AllWords(u.isSpace, tokens) && AllAtomic(u, tokens)
    && (SpaceFree(u.isSpace, shown) ==> MaximalSplit(u, tokens))
  }

  lemma PartsAreTokens(u: Unicode, doLowerCase: bool, w: string, parts: seq<string>)
    requires u.Valid() && Flatten(parts) == Shown(u, doLowerCase, w) && MaximalSplit(u, parts)
    ensures AreTokensOf(u, doLowerCase, w, Words(u.isSpace, Join(parts)))
  {
    FlattenJoined(u.isSpace, parts);
    WordsOfAtomic(u, parts);
    if SpaceFree(u.isSpace, Shown(u, doLowerCase, w)) { WordsOfParts(u, parts); }
  }

  lemma SplitOfOneWord(u: Unicode, doLowerCase: bool, w: string)
    ensures Flatten(FlatMap(Splitter(u, doLowerCase), [w])) == Shown(u, doLowerCase, w)
    ensures MaximalSplit(u, FlatMap(Splitter(u, doLowerCase), [w]))
  {
    var parts := SplitOnPunc(u, Normalize(u, doLowerCase, w));
    assert FlatMap(Splitter(u, doLowerCase), [w]) == parts + [] == parts;
    NormalizedIsShown(u, doLowerCase, w);
    SplitOnPuncCorrect(u, Normalize(u, doLowerCase, w));
  }

  lemma SplitIsTokens(u: Unicode, doLowerCase: bool, w: string)
    requires u.Valid()
    ensures AreTokensOf(u, doLowerCase, w, WordTokens(u, doLowerCase, [w]))
  {
    SplitOfOneWord(u, doLowerCase, w);
    PartsAreTokens(u, doLowerCase, w, FlatMap(Splitter(u, doLowerCase), [w]));
  }

  /** Atomic parts without whitespace survive joining and splitting. */
  lemma WordsOfParts(u: Unicode, parts: seq<string>)
    requires u.Valid() && AllAtomic(u, parts) && SpaceFree(u.isSpace, Flatten(parts))
    ensures Words(u.isSpace, Join(parts)) == parts
  {
    assert forall k :: 0 <= k < |parts| ==> Atomic(u, parts[k]);
    PartsOfSpaceFree(u.isSpace, parts);
    WordsJoin(u.isSpace, parts);
  }

  lemma {:induction false} PartsOfSpaceFree(isSpace: char -> bool, parts: seq<string>)
    requires SpaceFree(isSpace, Flatten(parts)) && forall k :: 0 <= k < |parts| ==> parts[k] != ""
    ensures AllWords(isSpace, parts)
  {
    if parts != [] {
      var first, rest := parts[0], Flatten(parts[1..]);
      assert forall i :: 0 <= i < |first| ==> first[i] == (first + rest)[i];
      assert forall i :: 0 <= i < |rest| ==> rest[i] == (first + rest)[|first| + i];
      PartsOfSpaceFree(isSpace, parts[1..]);
    }
  }

  /** A run of ordinary characters, or one CJK character, is one word to the tokenizer. */
  lemma TokensOfRun(u: Unicode, doLowerCase: bool, w: string)
    requires u.Valid() && w != "" && forall i :: 0 <= i < |w| ==> IsOrdinary(u, w[i])
    ensures AreTokensOf(u, doLowerCase, w, BasicTokens(u, doLowerCase, w))
  {
    CleanedOrdinary(u, w);
    WordsOfWord(u.isSpace, w);
    SplitIsTokens(u, doLowerCase, w);
  }

  lemma TokensOfChinese(u: Unicode, doLowerCase: bool, c: char)
    requires u.Valid() && !IsRemoved(u, c) && !IsWhitespace(u, c) && !u.isSpace(c) && IsChineseChar(c)
    ensures AreTokensOf(u, doLowerCase, [c], BasicTokens(u, doLowerCase, [c]))
  {
    CleanedOne(u, c);
    WordsOfSpaced(u, c);
    SplitIsTokens(u, doLowerCase, [c]);
  }
}
