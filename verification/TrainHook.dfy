/**
 `LogTrainRunHook` (bert-gpu/utils/utils.py): which training steps its throughput excludes, and the
 closed form that `end` reports for their number.
 */
module TrainHook {
  import opened Numbers

  class LogTrainRunHook {
    const saveCheckpointsSteps: nat
    var initGlobalStep: int
    var globalStep: int
    var count: nat
    var totalTime: real
    var skipped: int
    /** The global step after every run, and the time it took. */
    ghost var steps: seq<int>
    ghost var times: seq<real>

    ghost predicate Valid()
      reads this
    {
      && saveCheckpointsSteps >= 1 && |steps| == |times| == count
      && (steps != [] ==> globalStep == steps[|steps| - 1])
      && totalTime == CountedTime(initGlobalStep, saveCheckpointsSteps, steps, times)
    }

    constructor (saveCheckpointsSteps: nat, initGlobalStep: int)
      requires saveCheckpointsSteps >= 1
      ensures Valid() && steps == [] && this.saveCheckpointsSteps == saveCheckpointsSteps &&
          this.initGlobalStep == initGlobalStep
    {
      this.saveCheckpointsSteps := saveCheckpointsSteps;
      this.initGlobalStep := initGlobalStep;
      globalStep, count, totalTime, skipped := initGlobalStep, 0, 0.0, 0;
      steps, times := [], [];
    }

    method AfterRun(step: int, elapsedSecs: real)
      requires Valid()
      modifies this
      ensures Valid() && steps == old(steps) + [step] && times == old(times) + [elapsedSecs]
      ensures initGlobalStep == old(initGlobalStep)
    {
      globalStep := step;
      count := count + 1;
      if (globalStep - initGlobalStep) % saveCheckpointsSteps <= 1 {
        // excluded: checkpoint saving or warm-up
      } else {
        totalTime := totalTime + elapsedSecs;
      }
      steps := steps + [step];
      times := times + [elapsedSecs];
      assert steps[..|steps| - 1] == old(steps) && times[..|times| - 1] == old(times);
    }

    /** What `end` reports, held against the runs that were excluded. */
    method End()
      requires Valid() && steps != []
      modifies `skipped
      ensures skipped == Reported(Progressed(initGlobalStep, steps), saveCheckpointsSteps)
      ensures saveCheckpointsSteps >= 2 && Creeping(initGlobalStep, steps) ==>
                Excluded(initGlobalStep, saveCheckpointsSteps, steps) - skipped ==
                  ExcludedStalls(initGlobalStep, saveCheckpointsSteps, steps)
                  + (if Progressed(initGlobalStep, steps) % saveCheckpointsSteps >= 2 then 0 else 1)
      ensures saveCheckpointsSteps >= 2 && Advancing(initGlobalStep, steps) ==>
                Excluded(initGlobalStep, saveCheckpointsSteps, steps) - skipped ==
                  if |steps| % saveCheckpointsSteps >= 2 then 0 else 1
      ensures saveCheckpointsSteps == 1 && Advancing(initGlobalStep, steps) ==>
                skipped - Excluded(initGlobalStep, saveCheckpointsSteps, steps) == |steps| - 1
    {
      var numGlobalSteps := globalStep - initGlobalStep;
      skipped := (numGlobalSteps / saveCheckpointsSteps) * 2 + Min(2, numGlobalSteps % saveCheckpointsSteps) - 1;
      EndReport(initGlobalStep, saveCheckpointsSteps, steps);
    }
  }

  predicate IsExcluded(sinceStart: int, interval: nat)
    requires interval >= 1
  {
    sinceStart % interval <= 1
  }

  /** The time of the runs that are not excluded. */
  ghost function CountedTime(init: int, interval: nat, steps: seq<int>, times: seq<real>): real
    requires interval >= 1 && |steps| == |times|
  {
    if steps == [] then 0.0
    else
      var k := |steps| - 1;
      CountedTime(init, interval, steps[..k], times[..k])
      + if IsExcluded(steps[k] - init, interval) then 0.0 else times[k]
  }

  /**
   The accumulated time depends on the runs that are not excluded alone, one for one: changing the time of
   one run changes it by as much, or not at all if the run is excluded.
   */
  lemma {:induction false} TimeOfOneRun(init: int, interval: nat, steps: seq<int>, times: seq<real>, k: nat, t: real)
    requires interval >= 1 && |steps| == |times| && k < |steps|
    ensures CountedTime(init, interval, steps, times[k := t]) - CountedTime(init, interval, steps, times) ==
              if (steps[k] - init) % interval <= 1 then 0.0 else t - times[k]
  {
    var n := |steps| - 1;
    if k < n {
      assert times[k := t][..n] == times[..n][k := t];
      TimeOfOneRun(init, interval, steps[..n], times[..n], k, t);
    } else {
      assert times[k := t][..n] == times[..n];
    }
  }

  /** Runs that take no time add none. */
  lemma {:induction false} NoTime(init: int, interval: nat, steps: seq<int>, times: seq<real>)
    requires interval >= 1 && |steps| == |times| && forall k :: 0 <= k < |times| ==> times[k] == 0.0
    ensures CountedTime(init, interval, steps, times) == 0.0
  {
    if steps != [] { NoTime(init, interval, steps[..|steps| - 1], times[..|steps| - 1]); }
  }

  /** How many runs were excluded. */
  function Excluded(init: int, interval: nat, steps: seq<int>): nat
    requires interval >= 1
  {
    if steps == [] then 0
    else
      var k := |steps| - 1;
      Excluded(init, interval, steps[..k]) + if IsExcluded(steps[k] - init, interval) then 1 else 0
  }

  /** What `end` reports after `n` global steps. */
  function Reported(n: int, interval: nat): int
    requires interval >= 1
  {
    (n / interval) * 2 + Min(2, n % interval) - 1
  }

  /** Each run advances the global step by one. */
  ghost predicate Advancing(init: int, steps: seq<int>) {
    forall k :: 0 <= k < |steps| ==> steps[k] == init + 1 + k
  }

  lemma DivModStep(n: nat, s: nat)
    requires s >= 1 && n >= 1
    ensures (n - 1) % s == s - 1 ==> n % s == 0 && n / s == (n - 1) / s + 1
    ensures (n - 1) % s < s - 1 ==> n % s == (n - 1) % s + 1 && n / s == (n - 1) / s
  {
    var q, r := (n - 1) / s, (n - 1) % s;
    assert n - 1 == q * s + r;
    if r == s - 1 {
      assert n == (q + 1) * s + 0;
      DivModUnique(n, s, q + 1, 0);
    } else {
      DivModUnique(n, s, q, r + 1);
    }
  }

  lemma NonzeroMultiple(k: int, s: int)
    requires s >= 1
    ensures k >= 1 ==> k * s >= s
    ensures k <= -1 ==> k * s <= -s
  {
    if k >= 1 { assert k * s == (k - 1) * s + s; }
    if k <= -1 { assert k * s == (k + 1) * s - s; }
  }

  lemma DivModUnique(n: int, s: nat, q: int, r: int)
    requires s >= 1 && n == q * s + r && 0 <= r < s
    ensures n / s == q && n % s == r
  {
    var q', r' := n / s, n % s;
    assert n == q' * s + r';
    assert (q - q') * s == q * s - q' * s == r' - r;
    NonzeroMultiple(q - q', s);
  }

  /** The exact number of excluded runs after `n` advancing steps. */
  lemma {:induction false} ExcludedClosedForm(init: int, interval: nat, steps: seq<int>)
    requires interval >= 2 && Advancing(init, steps)
    ensures Excluded(init, interval, steps) == 2 * (|steps| / interval) + Min(1, |steps| % interval)
  {
    var n := |steps|;
    if n > 0 {
      ExcludedClosedForm(init, interval, steps[..n - 1]);
      DivModStep(n, interval);
    } else {
      DivModUnique(0, interval, 0, 0);
    }
  }

  /** With a checkpoint at every step all runs are excluded. */
  lemma {:induction false} ExcludedEveryStep(init: int, steps: seq<int>)
    ensures Excluded(init, 1, steps) == |steps|
  {
    if steps != [] { ExcludedEveryStep(init, steps[..|steps| - 1]); }
  }

  /**
   What `end` reports is the number of excluded runs exactly when the steps since the last checkpoint
   number at least two, and one too few otherwise.
   */
  lemma ReportedIsExactIff(init: int, interval: nat, steps: seq<int>)
    requires interval >= 2 && Advancing(init, steps)
    ensures Reported(|steps|, interval) == Excluded(init, interval, steps) <==> |steps| % interval >= 2
    ensures |steps| % interval < 2 ==> Reported(|steps|, interval) == Excluded(init, interval, steps) - 1
  {
    ExcludedClosedForm(init, interval, steps);
  }

  /** With a checkpoint at every step the report is off by one less than the number of steps. */
  lemma ReportedEveryStep(init: int, steps: seq<int>)
    ensures Reported(|steps|, 1) - Excluded(init, 1, steps) == |steps| - 1
  {
    ExcludedEveryStep(init, steps);
    DivModUnique(|steps|, 1, |steps|, 0);
  }

  /** Runs may also leave the global step where it was, as fp16 loss scaling does when it skips an update. */
  ghost predicate Creeping(init: int, steps: seq<int>) {
    forall k :: 0 <= k < |steps| ==> CreepsAt(init, steps, k)
  }

  ghost predicate CreepsAt(init: int, steps: seq<int>, k: int)
    requires 0 <= k < |steps|
  {
    var before := if k == 0 then init else steps[k - 1];
    steps[k] == before || steps[k] == before + 1
  }

  function Progressed(init: int, steps: seq<int>): int {
    if steps == [] then 0 else steps[|steps| - 1] - init
  }

  /** How many excluded runs left the global step where it was. */
  function ExcludedStalls(init: int, interval: nat, steps: seq<int>): nat
    requires interval >= 1
  {
    if steps == [] then 0
    else
      var k := |steps| - 1;
      ExcludedStalls(init, interval, steps[..k])
      + if steps[k] - init == Progressed(init, steps[..k]) && IsExcluded(steps[k] - init, interval) then 1 else 0
  }

  /** The exact number of excluded runs: two per checkpoint and the first step after it, and the excluded stalls. */
  lemma {:induction false} ExcludedWithStalls(init: int, interval: nat, steps: seq<int>)
    requires interval >= 2 && Creeping(init, steps)
    ensures Progressed(init, steps) >= 0
    ensures Excluded(init, interval, steps) ==
              2 * (Progressed(init, steps) / interval) + Min(1, Progressed(init, steps) % interval)
              + ExcludedStalls(init, interval, steps)
  {
    if steps == [] {
      DivModUnique(0, interval, 0, 0);
    } else {
      var k := |steps| - 1;
      var init' := steps[..k];
      assert CreepsAt(init, steps, k);
      forall j | 0 <= j < k ensures CreepsAt(init, init', j) { assert CreepsAt(init, steps, j); }
      ExcludedWithStalls(init, interval, init');
      if Progressed(init, steps) != Progressed(init, init') { DivModStep(Progressed(init, steps), interval); }
    }
  }

  /**
   With stalls, the report misses the excluded ones, and one run more when fewer than two steps were made
   since the last checkpoint; so it never exceeds the excluded runs, and is exact only when neither happens.
   */
  lemma ReportedWithStalls(init: int, interval: nat, steps: seq<int>)
    requires interval >= 2 && Creeping(init, steps)
    ensures Excluded(init, interval, steps) - Reported(Progressed(init, steps), interval) ==
              ExcludedStalls(init, interval, steps) + if Progressed(init, steps) % interval >= 2 then 0 else 1
    ensures Reported(Progressed(init, steps), interval) == Excluded(init, interval, steps) <==>
              Progressed(init, steps) % interval >= 2 && ExcludedStalls(init, interval, steps) == 0
  {
    ExcludedWithStalls(init, interval, steps);
  }

  lemma EndReport(init: int, interval: nat, steps: seq<int>)
    requires interval >= 1 && steps != []
    ensures interval >= 2 && Creeping(init, steps) ==>
              Excluded(init, interval, steps) - Reported(Progressed(init, steps), interval) ==
                ExcludedStalls(init, interval, steps) + if Progressed(init, steps) % interval >= 2 then 0 else 1
    ensures Advancing(init, steps) ==> Progressed(init, steps) == |steps|
    ensures interval >= 2 && Advancing(init, steps) ==>
              Excluded(init, interval, steps) - Reported(|steps|, interval) == if |steps| % interval >= 2 then 0 else 1
    ensures interval == 1 ==> Reported(|steps|, 1) - Excluded(init, 1, steps) == |steps| - 1
  {
    if interval >= 2 && Creeping(init, steps) { ReportedWithStalls(init, interval, steps); }
    if interval >= 2 && Advancing(init, steps) { ReportedIsExactIff(init, interval, steps); }
    ReportedEveryStep(init, steps);
  }
}
