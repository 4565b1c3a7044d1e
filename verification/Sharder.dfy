/**
 The document-boundary sharder (bert-gpu/data/bookcorpus/shard_text_input_file.py), exactly as its two
 counters run: the line that triggers a write is dropped, and the input-line counter does not count it.
 */
module Sharder {
  const BLANK := "\n"

  /** Shards written, the line dropped at each write, the line buffer, and the input-line counter. */
  datatype State = State(shards: seq<seq<string>>, dropped: seq<string>, buffer: seq<string>, ilineCounter: int)

  const Start := State([], [], [], 1)

  /** Whether a line makes the loop write out the buffer. */
  predicate Triggers(s: State, line: string, shardSize: int, total: nat) {
    s.ilineCounter >= total || (|s.buffer| >= shardSize && line == BLANK)
  }

  function Step(s: State, line: string, shardSize: int, total: nat): State {
    if Triggers(s, line, shardSize, total)
    then State(s.shards + [s.buffer], s.dropped + [line], [], s.ilineCounter)
    else State(s.shards, s.dropped, s.buffer + [line], s.ilineCounter + 1)
  }

  /** The state after the first `n` lines. */
  function After(lines: seq<string>, shardSize: int, n: nat): State
    requires n <= |lines|
  {
    if n == 0 then Start else Step(After(lines, shardSize, n - 1), lines[n - 1], shardSize, |lines|)
  }

  method Shard(lines: seq<string>, shardSize: int) returns (shards: seq<seq<string>>, lineBuffer: seq<string>)
    ensures shards == After(lines, shardSize, |lines|).shards
    ensures lineBuffer == After(lines, shardSize, |lines|).buffer
  {
    var ifileLines := 0;
    for i := 0 to |lines|
      invariant ifileLines == i
    {
      ifileLines := ifileLines + 1;
    }
    shards, lineBuffer := [], [];
    var lineCounter := 0;
    var ilineCounter := 1;
    for i := 0 to |lines|
      invariant shards == After(lines, shardSize, i).shards && lineBuffer == After(lines, shardSize, i).buffer
      invariant ilineCounter == After(lines, shardSize, i).ilineCounter && lineCounter == |lineBuffer|
    {
      var line := lines[i];
      if lineCounter < shardSize && ilineCounter < ifileLines {
        lineBuffer := lineBuffer + [line];
        lineCounter := lineCounter + 1;
        ilineCounter := ilineCounter + 1;
      } else if lineCounter >= shardSize && line != "\n" && ilineCounter < ifileLines {
        lineBuffer := lineBuffer + [line];
        lineCounter := lineCounter + 1;
        ilineCounter := ilineCounter + 1;
      } else {
        shards := shards + [lineBuffer];
        lineBuffer := [];
        lineCounter := 0;
      }
    }
  }

  // ---------- conservation ----------

  /** The written shards, each followed by the line dropped at its write. */
  function Reinserted(shards: seq<seq<string>>, dropped: seq<string>): seq<string>
    requires |shards| == |dropped|
  {
    if shards == [] then []
    else
      var k := |shards| - 1;
      Reinserted(shards[..k], dropped[..k]) + shards[k] + [dropped[k]]
  }

  /** Nothing is lost but the dropped lines, and nothing is reordered. */
  lemma {:induction false} LinesAreConserved(lines: seq<string>, shardSize: int, n: nat)
    requires n <= |lines|
    ensures var s := After(lines, shardSize, n);
            && |s.shards| == |s.dropped| && s.ilineCounter == 1 + n - |s.shards|
            && Reinserted(s.shards, s.dropped) + s.buffer == lines[..n]
  {
    if n > 0 {
      LinesAreConserved(lines, shardSize, n - 1);
      var s, s' := After(lines, shardSize, n - 1), After(lines, shardSize, n);
      assert lines[..n] == lines[..n - 1] + [lines[n - 1]];
      if Triggers(s, lines[n - 1], shardSize, |lines|) {
        var k := |s.shards|;
        assert s'.shards[..k] == s.shards && s'.dropped[..k] == s.dropped;
      }
    }
  }

  /** A shard stops at the first blank line from `shardSize` lines on. */
  ghost predicate StopsAtBreak(shard: seq<string>, dropped: string, shardSize: int) {
    |shard| >= shardSize && dropped == BLANK && NoBreak(shard, shardSize)
  }

  ghost predicate NoBreak(buffer: seq<string>, shardSize: int) {
    forall j :: 0 <= j < |buffer| && j >= shardSize ==> buffer[j] != BLANK
  }

  /** Every write before the last input line is at a document break: no document is split there. */
  lemma {:induction false} EarlyWritesStopAtBreaks(lines: seq<string>, shardSize: int, n: nat)
    requires n < |lines|
    ensures var s := After(lines, shardSize, n);
            && |s.shards| == |s.dropped| && NoBreak(s.buffer, shardSize)
            && forall k :: 0 <= k < |s.shards| ==> StopsAtBreak(s.shards[k], s.dropped[k], shardSize)
  {
    if n > 0 {
      EarlyWritesStopAtBreaks(lines, shardSize, n - 1);
      LinesAreConserved(lines, shardSize, n - 1);
      var s := After(lines, shardSize, n - 1);
      assert s.ilineCounter <= n < |lines|;
    }
  }

  // ---------- the end of the file ----------

  /** Whether some write precedes the last input line. */
  ghost predicate WroteEarly(lines: seq<string>, shardSize: int) {
    lines != [] && After(lines, shardSize, |lines| - 1).shards != []
  }

  /** Before the last line only a blank line that finds a full buffer makes the loop write. */
  lemma EarlyTriggersIff(lines: seq<string>, shardSize: int, n: nat)
    requires n < |lines| - 1
    ensures Triggers(After(lines, shardSize, n), lines[n], shardSize, |lines|) <==>
              |After(lines, shardSize, n).buffer| >= shardSize && lines[n] == BLANK
  {
    LinesAreConserved(lines, shardSize, n);
  }

  lemma LineIsBuffered(lines: seq<string>, shardSize: int, n: nat)
    requires n < |lines| && !Triggers(After(lines, shardSize, n), lines[n], shardSize, |lines|)
    ensures After(lines, shardSize, n + 1).shards == After(lines, shardSize, n).shards
    ensures After(lines, shardSize, n + 1).buffer == After(lines, shardSize, n).buffer + [lines[n]]
  {
  }

  lemma LongerStretch(before: seq<string>, lines: seq<string>, i: nat, n: nat)
    requires i <= n < |lines|
    ensures before + lines[i..n] + [lines[n]] == before + lines[i..n + 1]
  {
    assert lines[i..n + 1] == lines[i..n] + [lines[n]];
  }

  /** Where the lines after the last break among the first `n` begin, cutting greedily from `shardSize` lines on. */
  function LastStart(lines: seq<string>, shardSize: int, n: nat): (start: nat)
    requires n <= |lines|
    ensures start <= n
  {
    if n == 0 then 0
    else
      var start := LastStart(lines, shardSize, n - 1);
      if n - 1 - start >= shardSize && lines[n - 1] == BLANK then n else start
  }

  lemma BufferSinceStep(lines: seq<string>, shardSize: int, n: nat, start: nat)
    requires n < |lines| - 1 && start == LastStart(lines, shardSize, n)
    requires After(lines, shardSize, n).buffer == lines[start..n]
    ensures After(lines, shardSize, n + 1).buffer == lines[LastStart(lines, shardSize, n + 1)..n + 1]
  {
    EarlyTriggersIff(lines, shardSize, n);
    if Triggers(After(lines, shardSize, n), lines[n], shardSize, |lines|) {
      assert LastStart(lines, shardSize, n + 1) == n + 1;
    } else {
      LineIsBuffered(lines, shardSize, n);
      LongerStretch([], lines, start, n);
    }
  }

  /** The buffer holds the lines since the last break. */
  lemma {:induction false} BufferSinceLastStart(lines: seq<string>, shardSize: int, n: nat)
    requires n < |lines|
    ensures After(lines, shardSize, n).buffer == lines[LastStart(lines, shardSize, n)..n]
  {
    if n > 0 {
      BufferSinceLastStart(lines, shardSize, n - 1);
      BufferSinceStep(lines, shardSize, n - 1, LastStart(lines, shardSize, n - 1));
    }
  }

  /** The last line is itself a break: blank, with at least `shardSize` lines since the break before. */
  predicate LastLineBreaks(lines: seq<string>, shardSize: int) {
    && lines != [] && lines[|lines| - 1] == BLANK
    && |lines| - 1 - LastStart(lines, shardSize, |lines| - 1) >= shardSize
  }

  /** The last line makes the loop write unless an earlier write has left the counter behind. */
  lemma LastLineTriggersIff(lines: seq<string>, shardSize: int)
    requires lines != []
    ensures Triggers(After(lines, shardSize, |lines| - 1), lines[|lines| - 1], shardSize, |lines|) <==>
              !WroteEarly(lines, shardSize) || LastLineBreaks(lines, shardSize)
  {
    LinesAreConserved(lines, shardSize, |lines| - 1);
    BufferSinceLastStart(lines, shardSize, |lines| - 1);
  }

  /**
   Lines are left unwritten exactly when the input has an early break, so that some write precedes the
   last line, and the last line is not itself a break.
   */
  lemma UnwrittenIff(lines: seq<string>, shardSize: int)
    ensures After(lines, shardSize, |lines|).buffer != [] <==>
              HasEarlyBreak(lines, shardSize) && !LastLineBreaks(lines, shardSize)
  {
    WroteEarlyIff(lines, shardSize);
    if lines != [] { LastLineTriggersIff(lines, shardSize); }
  }

  /** A break of the input at which the first early write happens. */
  predicate HasEarlyBreak(lines: seq<string>, shardSize: int) {
    exists j :: 0 <= j < |lines| - 1 && j >= shardSize && lines[j] == BLANK
  }

  /** Up to the first break everything is buffered. */
  lemma {:induction false} BufferedUntilBreak(lines: seq<string>, shardSize: int, n: nat)
    requires n < |lines| && NoBreak(lines[..n], shardSize)
    ensures After(lines, shardSize, n) == State([], [], lines[..n], n + 1)
  {
    if n > 0 {
      assert forall j :: 0 <= j < n ==> lines[..n][j] == lines[j];
      assert forall j :: 0 <= j < n - 1 ==> lines[..n - 1][j] == lines[j];
      BufferedUntilBreak(lines, shardSize, n - 1);
      assert lines[..n] == lines[..n - 1] + [lines[n - 1]];
    }
  }

  /** Once written, shards stay written. */
  lemma {:induction false} ShardsGrow(lines: seq<string>, shardSize: int, m: nat, n: nat)
    requires m <= n <= |lines|
    ensures After(lines, shardSize, m).shards <= After(lines, shardSize, n).shards
    decreases n - m
  {
    if m < n { ShardsGrow(lines, shardSize, m, n - 1); }
  }

  /** A write precedes the last line exactly when the input has a break before it. */
  lemma WroteEarlyIff(lines: seq<string>, shardSize: int)
    ensures WroteEarly(lines, shardSize) <==> HasEarlyBreak(lines, shardSize)
  {
    if lines != [] {
      var n := |lines| - 1;
      if HasEarlyBreak(lines, shardSize) {
        var j := FirstBreak(lines, shardSize, 0);
        BufferedUntilBreak(lines, shardSize, j);
        assert After(lines, shardSize, j + 1).shards == [lines[..j]];
        ShardsGrow(lines, shardSize, j + 1, n);
      } else {
        assert forall j :: 0 <= j < n ==> lines[..n][j] == lines[j];
        BufferedUntilBreak(lines, shardSize, n);
      }
    }
  }

  lemma {:induction false} FirstBreak(lines: seq<string>, shardSize: int, from: nat) returns (j: nat)
    requires exists i :: from <= i < |lines| - 1 && i >= shardSize && lines[i] == BLANK
    requires from < |lines| && NoBreak(lines[..from], shardSize)
    ensures from <= j < |lines| - 1 && j >= shardSize && lines[j] == BLANK && NoBreak(lines[..j], shardSize)
    decreases |lines| - from
  {
    if from >= shardSize && lines[from] == BLANK && from < |lines| - 1 {
      j := from;
    } else {
      assert NoBreak(lines[..from + 1], shardSize) by {
        assert forall k :: 0 <= k < from ==> lines[..from + 1][k] == lines[..from][k];
      }
      j := FirstBreak(lines, shardSize, from + 1);
    }
  }

  // ---------- documents stay whole ----------

  /** The lines that end up together: the `k`-th shard, or after the last one the unwritten buffer. */
  function Part(s: State, k: nat): seq<string> {
    if k < |s.shards| then s.shards[k] else if k == |s.shards| then s.buffer else []
  }

  /** Between any two parts of the output a blank line was dropped. */
  lemma PartsAreSeparatedByBlanks(lines: seq<string>, shardSize: int)
    ensures var s := After(lines, shardSize, |lines|);
            && |s.dropped| == |s.shards|
            && forall k :: 0 <= k < |s.shards| && (k + 1 < |s.shards| || s.buffer != []) ==> s.dropped[k] == BLANK
  {
    LinesAreConserved(lines, shardSize, |lines|);
    if lines != [] {
      var s, s' := After(lines, shardSize, |lines| - 1), After(lines, shardSize, |lines|);
      EarlyWritesStopAtBreaks(lines, shardSize, |lines| - 1);
      forall k | 0 <= k < |s'.shards| && (k + 1 < |s'.shards| || s'.buffer != []) ensures s'.dropped[k] == BLANK {
        assert k < |s.shards| && s'.dropped[k] == s.dropped[k];
        assert StopsAtBreak(s.shards[k], s.dropped[k], shardSize);
      }
    }
  }

  /** No line of the stretch makes the loop write. */
  ghost predicate Buffered(lines: seq<string>, shardSize: int, i: nat, j: nat)
    requires j <= |lines|
  {
    forall m :: i <= m < j ==> !Triggers(After(lines, shardSize, m), lines[m], shardSize, |lines|)
  }

  /** From line `i` to line `j` nothing was written: the lines were buffered one after another. */
  ghost predicate Stretched(lines: seq<string>, shardSize: int, i: nat, j: nat) {
    && i <= j <= |lines|
    && After(lines, shardSize, j).shards == After(lines, shardSize, i).shards
    && After(lines, shardSize, j).buffer == After(lines, shardSize, i).buffer + lines[i..j]
  }

  lemma StretchStep(lines: seq<string>, shardSize: int, i: nat, j: nat, end: nat)
    requires i < j <= end <= |lines| && Buffered(lines, shardSize, i, end) && Stretched(lines, shardSize, i, j - 1)
    ensures Stretched(lines, shardSize, i, j)
  {
    LineIsBuffered(lines, shardSize, j - 1);
    LongerStretch(After(lines, shardSize, i).buffer, lines, i, j - 1);
  }

  lemma StretchIsBuffered(lines: seq<string>, shardSize: int, i: nat, j: nat)
    requires i <= j <= |lines| && Buffered(lines, shardSize, i, j)
    ensures Stretched(lines, shardSize, i, j)
  {
    EmptyStretch(lines, shardSize, i);
    var m := i;
    while m < j
      invariant i <= m <= j && Stretched(lines, shardSize, i, m)
    {
      m := m + 1;
      StretchStep(lines, shardSize, i, m, j);
    }
  }

  lemma EmptyStretch(lines: seq<string>, shardSize: int, i: nat)
    requires i <= |lines|
    ensures Stretched(lines, shardSize, i, i)
  {
    var buffer := After(lines, shardSize, i).buffer;
    assert lines[i..i] == [] && buffer + [] == buffer;
  }

  /** What a part holds it keeps: later lines only go behind. */
  lemma {:induction false} PartsGrow(lines: seq<string>, shardSize: int, m: nat, n: nat, k: nat)
    requires m <= n <= |lines| && k == |After(lines, shardSize, m).shards|
    ensures k <= |After(lines, shardSize, n).shards|
    ensures Part(After(lines, shardSize, m), k) <= Part(After(lines, shardSize, n), k)
    decreases n - m
  {
    if m < n { PartsGrow(lines, shardSize, m, n - 1, k); }
  }

  /** The `k`-th part holds these lines, consecutively, from position `at` on. */
  ghost predicate HoldsAt(s: State, k: nat, at: nat, stretch: seq<string>) {
    k <= |s.shards| && at + |stretch| <= |Part(s, k)| && Part(s, k)[at..at + |stretch|] == stretch
  }

  lemma StretchStaysTogether(lines: seq<string>, shardSize: int, i: nat, j: nat) returns (k: nat, at: nat)
    requires i <= j <= |lines| && Buffered(lines, shardSize, i, j)
    ensures HoldsAt(After(lines, shardSize, |lines|), k, at, lines[i..j])
  {
    StretchIsBuffered(lines, shardSize, i, j);
    k, at := |After(lines, shardSize, i).shards|, |After(lines, shardSize, i).buffer|;
    PartsGrow(lines, shardSize, j, |lines|, k);
    StretchInPart(After(lines, shardSize, |lines|), k, After(lines, shardSize, i).buffer, lines[i..j]);
  }

  lemma StretchInPart(s: State, k: nat, before: seq<string>, stretch: seq<string>)
    requires k <= |s.shards| && before + stretch <= Part(s, k)
    ensures HoldsAt(s, k, |before|, stretch)
  {
    assert (before + stretch)[|before|..] == stretch;
  }

  /** The stretch reaches the end of an input without an early break, whose last line is dropped. */
  predicate LosesLine(lines: seq<string>, shardSize: int, j: nat) {
    j == |lines| && !HasEarlyBreak(lines, shardSize)
  }

  /**
   A document, a stretch of lines without a blank one, is never split: for every shard size its lines
   stand together, in order, in one shard or in the buffer. Only the last line of an input that holds no
   early break is missing, and it is missing at the end.
   */
  lemma DocumentIsNotSplit(lines: seq<string>, shardSize: int, i: nat, j: nat)
    requires i < j <= |lines| && forall m :: i <= m < j ==> lines[m] != BLANK
    ensures var kept := if LosesLine(lines, shardSize, j) then j - 1 else j;
            exists k, at :: HoldsAt(After(lines, shardSize, |lines|), k, at, lines[i..kept])
  {
    var kept := if LosesLine(lines, shardSize, j) then j - 1 else j;
    forall m | i <= m < kept ensures !Triggers(After(lines, shardSize, m), lines[m], shardSize, |lines|) {
      if m < |lines| - 1 {
        EarlyTriggersIff(lines, shardSize, m);
      } else {
        LastLineTriggersIff(lines, shardSize);
        WroteEarlyIff(lines, shardSize);
      }
    }
    var k, at := StretchStaysTogether(lines, shardSize, i, kept);
  }

  /** Every line that is missing from the written shards is a blank separator. */
  ghost predicate OnlySeparatorsLost(s: State) {
    s.buffer == [] && forall k :: 0 <= k < |s.dropped| ==> s.dropped[k] == BLANK
  }

  /**
   Nothing but separators is missing from the shards exactly for the empty input and for inputs that end
   in a blank line which either follows no early break or is itself a break.
   */
  lemma OnlySeparatorsLostIff(lines: seq<string>, shardSize: int)
    ensures OnlySeparatorsLost(After(lines, shardSize, |lines|)) <==>
              || lines == []
              || (&& lines[|lines| - 1] == BLANK
                  && (!HasEarlyBreak(lines, shardSize) || LastLineBreaks(lines, shardSize)))
  {
    if lines != [] {
      var n := |lines| - 1;
      var s := After(lines, shardSize, n);
      WroteEarlyIff(lines, shardSize);
      LastLineTriggersIff(lines, shardSize);
      EarlyWritesStopAtBreaks(lines, shardSize, n);
      var s' := After(lines, shardSize, |lines|);
      if Triggers(s, lines[n], shardSize, |lines|) {
        assert s'.dropped[|s.dropped|] == lines[n];
        forall k | 0 <= k < |s.dropped| ensures s'.dropped[k] == BLANK {
          assert StopsAtBreak(s.shards[k], s.dropped[k], shardSize);
        }
      } else {
        assert s'.buffer != [];
      }
    }
  }

  /** For one, an input of a single line becomes an empty shard: its only line is lost. */
  lemma SingleLineIsLost(shardSize: int)
    ensures After(["a\n"], shardSize, 1) == State([[]], ["a\n"], [], 1)
    ensures !OnlySeparatorsLost(After(["a\n"], shardSize, 1))
  {
    assert After(["a\n"], shardSize, 0) == Start;
    assert State([[]], ["a\n"], [], 1).dropped[0] == "a\n";
  }

  /** An input without a break before its last line becomes one shard, which lacks the last line. */
  lemma WithoutBreakLastLineIsLost(lines: seq<string>, shardSize: int)
    requires lines != [] && !HasEarlyBreak(lines, shardSize)
    ensures var s := After(lines, shardSize, |lines|);
            s.shards == [lines[..|lines| - 1]] && s.dropped == [lines[|lines| - 1]] && s.buffer == []
  {
    var n := |lines| - 1;
    assert forall j :: 0 <= j < n ==> lines[..n][j] == lines[j];
    BufferedUntilBreak(lines, shardSize, n);
  }
}
