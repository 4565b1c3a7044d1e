/**
 The asynchronous inference client (bert-gpu/run_squad_trtis_client.py): batches are sent with at most
 twenty in flight, replies come back in any order, a final loop drains what is left.
 The protocol is a step relation over an arbitrary server; the client code is then shown to follow it.
 A reply is a function of its own request rows, and the server never hands out the id of a request that
 is still outstanding.
 */
module AsyncClient {
  import opened Wrappers
  import opened Text
  import opened Features

  const MAX_OUTSTANDING := 20

  type Batch = seq<Feature>

  datatype RowResult = RowResult(uniqueId: int, result: RawResult)

  // ---------- batching ----------

  /** Consecutive non-empty slices of the features, all full but perhaps the last. */
  ghost predicate IsBatching(features: seq<Feature>, n: nat, batches: seq<Batch>) {
    && Flatten(batches) == features
    && (forall k :: 0 <= k < |batches| ==> 0 < |batches[k]| <= n)
    && (forall k :: 0 <= k < |batches| - 1 ==> |batches[k]| == n)
  }

  method MakeBatches(features: seq<Feature>, n: nat) returns (batches: seq<Batch>)
    requires n >= 1
    ensures IsBatching(features, n, batches)
  {
    batches := [];
    var ndx := 0;
    while ndx < |features|
      invariant 0 <= ndx
      invariant Flatten(batches) == features[..if ndx < |features| then ndx else |features|]
      invariant forall k :: 0 <= k < |batches| ==> 0 < |batches[k]| <= n
      invariant forall k :: 0 <= k < |batches| && (k < |batches| - 1 || ndx < |features|) ==> |batches[k]| == n
      decreases |features| - ndx
    {
      var size := if n < |features| - ndx then n else |features| - ndx;
      var rows := features[ndx..ndx + size];
      FlattenSnoc(batches, rows);
      assert features[..ndx + size] == features[..ndx] + rows;
      batches := batches + [rows];
      ndx := ndx + n;
    }
    assert features[..|features|] == features;
  }

  // ---------- the protocol ----------

  datatype Phase = Sending | Polling | Draining | Done

  /** Batches `0..sent` have been sent; `outstanding` maps request ids to batches; `answered` is in reply order. */
  datatype State = State(phase: Phase, sent: nat, outstanding: map<int, nat>, answered: seq<nat>)

  const Start := State(Sending, 0, map[], [])

  ghost predicate Reply(s: State, s': State, id: int, next: Phase) {
    id in s.outstanding && s' == State(next, s.sent, s.outstanding - {id}, s.answered + [s.outstanding[id]])
  }

  ghost predicate Send(s: State, s': State, id: int, n: nat) {
    && s.phase == Sending && s.sent < n && id !in s.outstanding
    && s' == State(Polling, s.sent + 1, s.outstanding[id := s.sent], s.answered)
  }

  /** After a send the client polls: with twenty in flight it must get a reply, else it may come back empty-handed. */
  ghost predicate Poll(s: State, s': State) {
    && s.phase == Polling
    && ((exists id :: Reply(s, s', id, Sending)) || (|s.outstanding| < MAX_OUTSTANDING && s' == s.(phase := Sending)))
  }

  ghost predicate Drain(s: State, s': State, n: nat) {
    || (s.phase == Sending && s.sent == n && s' == s.(phase := Draining))
    || (s.phase == Draining && exists id :: Reply(s, s', id, Draining))
    || (s.phase == Draining && s.outstanding == map[] && s' == s.(phase := Done))
  }

  ghost predicate Next(s: State, s': State, n: nat) {
    (exists id :: Send(s, s', id, n)) || Poll(s, s') || Drain(s, s', n)
  }

  /** A run of the protocol over `n` batches. */
  ghost predicate Run(run: seq<State>, n: nat) {
    run != [] && run[0] == Start && forall k :: 0 < k < |run| ==> Next(run[k - 1], run[k], n)
  }

  // ---------- what every step keeps ----------

  predicate Outstanding(s: State, k: nat) {
    exists id :: id in s.outstanding && s.outstanding[id] == k
  }

  /** Every batch is in exactly one of unsent, outstanding (under one id) and answered (once). */
  ghost predicate Partitioned(s: State, n: nat) {
    && s.sent <= n
    && (forall id :: id in s.outstanding ==> s.outstanding[id] < s.sent)
    && (forall id, id' :: id in s.outstanding && id' in s.outstanding && id != id' ==>
        s.outstanding[id] != s.outstanding[id'])
    && (forall i :: 0 <= i < |s.answered| ==> s.answered[i] < s.sent)
    && (forall i, j :: 0 <= i < j < |s.answered| ==> s.answered[i] != s.answered[j])
    && (forall k: nat :: k < s.sent ==> (Outstanding(s, k) <==> k !in s.answered))
  }

  ghost predicate Bounded(s: State, n: nat) {
    && |s.outstanding| <= MAX_OUTSTANDING
    && (s.phase == Sending || s.phase == Draining ==> |s.outstanding| < MAX_OUTSTANDING)
    && (s.phase == Draining || s.phase == Done ==> s.sent == n)
    && (s.phase == Done ==> s.outstanding == map[])
  }

  ghost predicate Inv(s: State, n: nat) {
    Partitioned(s, n) && Bounded(s, n)
  }

  lemma ReplyKeepsPartition(s: State, s': State, id: int, next: Phase, n: nat)
    requires Partitioned(s, n) && Reply(s, s', id, next)
    ensures Partitioned(s', n) && |s'.outstanding| == |s.outstanding| - 1
  {
    var done := s.outstanding[id];
    assert s'.outstanding.Keys == s.outstanding.Keys - {id};
    assert Outstanding(s, done);
    forall k: nat | k < s'.sent ensures Outstanding(s', k) <==> k !in s'.answered {
      if k != done && Outstanding(s, k) {
        var other :| other in s.outstanding && s.outstanding[other] == k;
        assert other in s'.outstanding;
      }
      assert k in s'.answered <==> k in s.answered || k == done;
    }
  }

  lemma SendKeepsPartition(s: State, s': State, id: int, n: nat)
    requires Partitioned(s, n) && Send(s, s', id, n)
    ensures Partitioned(s', n) && |s'.outstanding| == |s.outstanding| + 1
  {
    assert s'.outstanding.Keys == s.outstanding.Keys + {id};
    forall k: nat | k < s'.sent ensures Outstanding(s', k) <==> k !in s'.answered {
      if k < s.sent && Outstanding(s, k) {
        var other :| other in s.outstanding && s.outstanding[other] == k;
        assert other in s'.outstanding;
      }
      if k == s.sent { assert id in s'.outstanding && s'.outstanding[id] == k; }
    }
  }

  lemma PhaseKeepsPartition(s: State, phase: Phase, n: nat)
    requires Partitioned(s, n)
    ensures Partitioned(s.(phase := phase), n)
  {
    var s' := s.(phase := phase);
    assert forall k: nat :: Outstanding(s, k) <==> Outstanding(s', k);
  }

  /** Steps left at most: three per unsent batch, one per outstanding request, and the phase changes. */
  function Fuel(s: State, n: nat): int {
    3 * (n - s.sent) + |s.outstanding| +
    match s.phase case Sending => 2 case Polling => 3 case Draining => 1 case Done => 0
  }

  lemma PollKeepsInv(s: State, s': State, n: nat)
    requires Inv(s, n) && Poll(s, s')
    ensures Inv(s', n) && 0 <= Fuel(s', n) < Fuel(s, n)
  {
    if id :| Reply(s, s', id, Sending) {
      ReplyKeepsPartition(s, s', id, Sending, n);
    } else {
      PhaseKeepsPartition(s, Sending, n);
    }
  }

  lemma DrainKeepsInv(s: State, s': State, n: nat)
    requires Inv(s, n) && Drain(s, s', n)
    ensures Inv(s', n) && 0 <= Fuel(s', n) < Fuel(s, n)
  {
    if s.phase == Draining && exists id :: Reply(s, s', id, Draining) {
      var id :| Reply(s, s', id, Draining);
      ReplyKeepsPartition(s, s', id, Draining, n);
    } else {
      PhaseKeepsPartition(s, s'.phase, n);
    }
  }

  /** Every step keeps the invariant and uses up fuel. */
  lemma StepKeepsInv(s: State, s': State, n: nat)
    requires Inv(s, n) && Next(s, s', n)
    ensures Inv(s', n) && 0 <= Fuel(s', n) < Fuel(s, n)
  {
    if Poll(s, s') {
      PollKeepsInv(s, s', n);
    } else if Drain(s, s', n) {
      DrainKeepsInv(s, s', n);
    } else {
      var id :| Send(s, s', id, n);
      SendKeepsPartition(s, s', id, n);
    }
  }

  lemma RunPrefix(run: seq<State>, n: nat)
    requires Run(run, n) && |run| > 1
    ensures Run(run[..|run| - 1], n) && Next(run[|run| - 2], run[|run| - 1], n)
  {
    var last := |run| - 1;
    assert Next(run[last - 1], run[last], n);
    forall k | 0 < k < last ensures Next(run[..last][k - 1], run[..last][k], n) {
      assert Next(run[k - 1], run[k], n);
    }
  }

  /** In every state of every run the invariant holds, and no run is longer than `3 * n + 3` states. */
  lemma {:induction false} EveryRunKeepsInv(run: seq<State>, n: nat)
    requires Run(run, n)
    ensures |run[|run| - 1].outstanding| <= 20
    ensures Inv(run[|run| - 1], n) && Fuel(run[|run| - 1], n) + |run| <= 3 * n + 3
  {
    if |run| > 1 {
      RunPrefix(run, n);
      EveryRunKeepsInv(run[..|run| - 1], n);
      StepKeepsInv(run[|run| - 2], run[|run| - 1], n);
    }
  }

  /** No run is stuck before it is done. */
  lemma NeverStuck(s: State, n: nat) returns (s': State)
    requires Inv(s, n) && s.phase != Done
    ensures Next(s, s', n)
  {
    match s.phase {
      case Sending =>
        if s.sent < n {
          var id := FreshId(s.outstanding.Keys);
          s' := State(Polling, s.sent + 1, s.outstanding[id := s.sent], s.answered);
          assert Send(s, s', id, n);
        } else {
          s' := s.(phase := Draining);
        }
      case Polling =>
        if |s.outstanding| < MAX_OUTSTANDING {
          s' := s.(phase := Sending);
        } else {
          assert s.outstanding.Keys != {};
          var id := Pick(s.outstanding.Keys);
          s' := State(Sending, s.sent, s.outstanding - {id}, s.answered + [s.outstanding[id]]);
          assert Reply(s, s', id, Sending);
        }
      case Draining =>
        if s.outstanding == map[] {
          s' := s.(phase := Done);
        } else {
          assert s.outstanding.Keys != {};
          var id := Pick(s.outstanding.Keys);
          s' := State(Draining, s.sent, s.outstanding - {id}, s.answered + [s.outstanding[id]]);
          assert Reply(s, s', id, Draining);
        }
    }
  }

  lemma Pick<T>(s: set<T>) returns (x: T)
    requires s != {}
    ensures x in s
  {
    x :| x in s;
  }

  lemma {:induction false} FreshId(used: set<int>) returns (id: int)
    ensures id !in used && forall x :: x in used ==> x < id
  {
    if used == {} {
      id := 0;
    } else {
      var x := Pick(used);
      var below := FreshId(used - {x});
      assert forall y :: y in used ==> y == x || y in used - {x};
      id := if x < below then below else x + 1;
    }
  }

  /** When a run is done every batch has been answered exactly once and nothing is in flight. */
  lemma DoneMeansAllAnswered(s: State, n: nat)
    requires Inv(s, n) && s.phase == Done
    ensures s.outstanding == map[] && forall k: nat :: k < n <==> k in s.answered
  {
    forall k: nat ensures k < n <==> k in s.answered {
      if k < n {
        assert !Outstanding(s, k);
      }
    }
  }

  // ---------- results ----------

  ghost predicate ServesRows(serve: Batch -> seq<RawResult>, batches: seq<Batch>) {
    forall k :: 0 <= k < |batches| ==> |serve(batches[k])| == |batches[k]|
  }

  ghost predicate ServesBatch(serve: Batch -> seq<RawResult>, rows: Batch) {
    |serve(rows)| == |rows|
  }

  function RowAnswers(rows: Batch, results: seq<RawResult>): seq<RowResult>
    requires |rows| == |results|
  {
    seq(|rows|, i requires 0 <= i < |rows| => RowResult(rows[i].uniqueId, results[i]))
  }

  /** `all_results` after these replies. */
  function Results(batches: seq<Batch>, serve: Batch -> seq<RawResult>, answered: seq<nat>): seq<RowResult>
    requires ServesRows(serve, batches) && forall i :: 0 <= i < |answered| ==> answered[i] < |batches|
  {
    if answered == [] then []
    else
      var k := answered[|answered| - 1];
      Results(batches, serve, answered[..|answered| - 1]) + RowAnswers(batches[k], serve(batches[k]))
  }

  /** `unique_id_to_result` of `write_predictions`. */
  function ResultMap(answers: seq<RowResult>): map<int, RawResult> {
    if answers == [] then map[]
    else ResultMap(answers[..|answers| - 1])[answers[|answers| - 1].uniqueId := answers[|answers| - 1].result]
  }

  /** The answers that any reply order must produce: row `i` of batch `k`. */
  ghost predicate IsRowResult(batches: seq<Batch>, serve: Batch -> seq<RawResult>, k: nat, i: nat, a: RowResult)
    requires ServesRows(serve, batches)
  {
    k < |batches| && i < |batches[k]| && a == RowResult(batches[k][i].uniqueId, serve(batches[k])[i])
  }

  ghost predicate FromBatch(batches: seq<Batch>, serve: Batch -> seq<RawResult>, answered: seq<nat>, a: RowResult)
    requires ServesRows(serve, batches)
  {
    exists k: nat, i: nat :: k in answered && IsRowResult(batches, serve, k, i, a)
  }

  lemma {:induction false} ResultsAreAnswers(
    batches: seq<Batch>, serve: Batch -> seq<RawResult>, answered: seq<nat>, a: RowResult)
    requires ServesRows(serve, batches) && forall i :: 0 <= i < |answered| ==> answered[i] < |batches|
    ensures a in Results(batches, serve, answered) <==> FromBatch(batches, serve, answered, a)
  {
    if answered != [] {
      var init, last := answered[..|answered| - 1], answered[|answered| - 1];
      assert answered == init + [last];
      ResultsAreAnswers(batches, serve, init, a);
      var rows := RowAnswers(batches[last], serve(batches[last]));
      if a in rows {
        var i :| 0 <= i < |rows| && rows[i] == a;
        assert last in answered && IsRowResult(batches, serve, last, i, a);
      }
      if FromBatch(batches, serve, init, a) {
        var k: nat, i: nat :| k in init && IsRowResult(batches, serve, k, i, a);
        assert k in answered;
      }
      if FromBatch(batches, serve, answered, a) {
        var k: nat, i: nat :| k in answered && IsRowResult(batches, serve, k, i, a);
        if k == last { assert rows[i] == a; } else { assert k in init; }
      }
    }
  }

  ghost predicate LooksUp(m: map<int, RawResult>, id: int, r: RawResult) {
    id in m && m[id] == r
  }

  /** Answers to the same id agree, as they do when ids are distinct. */
  ghost predicate Consistent(answers: seq<RowResult>) {
    forall a, b :: a in answers && b in answers && a.uniqueId == b.uniqueId ==> a == b
  }

  lemma {:induction false} ResultMapLooksUp(answers: seq<RowResult>, id: int)
    requires Consistent(answers)
    ensures forall r :: LooksUp(ResultMap(answers), id, r) <==> RowResult(id, r) in answers
  {
    if answers != [] {
      var init, last := answers[..|answers| - 1], answers[|answers| - 1];
      assert answers == init + [last];
      assert Consistent(init);
      ResultMapLooksUp(init, id);
      if id == last.uniqueId {
        forall r ensures r == last.result <==> RowResult(id, r) in answers {
          if RowResult(id, r) in answers { assert last in answers; }
        }
      }
    }
  }

  /** Distinct ids over the features. */
  ghost predicate DistinctIds(features: seq<Feature>) {
    forall i, j :: 0 <= i < j < |features| ==> features[i].uniqueId != features[j].uniqueId
  }

  /** Within batches of features with distinct ids, an id names one row of one batch. */
  lemma {:induction false} IdNamesOneRow(batches: seq<Batch>, k: nat, i: nat, k': nat, i': nat)
    requires DistinctIds(Flatten(batches)) && k <= k' < |batches| && i < |batches[k]| && i' < |batches[k']|
    requires batches[k][i].uniqueId == batches[k'][i'].uniqueId
    ensures k == k' && i == i'
  {
    var first, rest := batches[0], Flatten(batches[1..]);
    var all := Flatten(batches);
    assert all == first + rest;
    if k > 0 {
      assert forall a :: 0 <= a < |rest| ==> rest[a] == all[|first| + a];
      IdNamesOneRow(batches[1..], k - 1, i, k' - 1, i');
    } else if k' > 0 {
      var at := RowInFlatten(batches[1..], k' - 1, i');
      IdsApart(all, i, |first| + at);
      assert false;
    } else if i < i' {
      IdsApart(all, i, i');
    } else if i' < i {
      IdsApart(all, i', i);
    }
  }

  lemma IdsApart(all: seq<Feature>, x: nat, y: nat)
    requires DistinctIds(all) && x < y < |all|
    ensures all[x].uniqueId != all[y].uniqueId
  {
  }

  lemma {:induction false} RowInFlatten(batches: seq<Batch>, k: nat, i: nat) returns (at: nat)
    requires k < |batches| && i < |batches[k]|
    ensures at < |Flatten(batches)| && Flatten(batches)[at] == batches[k][i]
  {
    if k == 0 {
      at := i;
    } else {
      var inRest := RowInFlatten(batches[1..], k - 1, i);
      at := |batches[0]| + inRest;
    }
  }

  lemma ResultsConsistent(batches: seq<Batch>, serve: Batch -> seq<RawResult>, answered: seq<nat>)
    requires ServesRows(serve, batches) && DistinctIds(Flatten(batches))
    requires forall i :: 0 <= i < |answered| ==> answered[i] < |batches|
    ensures Consistent(Results(batches, serve, answered))
  {
    var results := Results(batches, serve, answered);
    forall a, b | a in results && b in results && a.uniqueId == b.uniqueId ensures a == b {
      ResultsAreAnswers(batches, serve, answered, a);
      ResultsAreAnswers(batches, serve, answered, b);
      var k: nat, i: nat :| k in answered && IsRowResult(batches, serve, k, i, a);
      var k': nat, i': nat :| k' in answered && IsRowResult(batches, serve, k', i', b);
      if k <= k' { IdNamesOneRow(batches, k, i, k', i'); } else { IdNamesOneRow(batches, k', i', k, i); }
    }
  }

  /** Every batch has been answered. */
  ghost predicate Complete(batches: seq<Batch>, answered: seq<nat>) {
    forall k: nat :: k in answered <==> k < |batches|
  }

  /**
   Once all batches are answered, the id-to-result map has every feature's id, with the result of its own
   row.
   */
  lemma FinalMapIsTotal(batches: seq<Batch>, serve: Batch -> seq<RawResult>, answered: seq<nat>, k: nat, i: nat)
    requires ServesRows(serve, batches) && DistinctIds(Flatten(batches)) && Complete(batches, answered)
    requires k < |batches| && i < |batches[k]|
    ensures forall j :: 0 <= j < |answered| ==> answered[j] < |batches|
    ensures batches[k][i].uniqueId in ResultMap(Results(batches, serve, answered))
    ensures ResultMap(Results(batches, serve, answered))[batches[k][i].uniqueId] == serve(batches[k])[i]
  {
    assert forall j :: 0 <= j < |answered| ==> answered[j] in answered;
    var a := RowResult(batches[k][i].uniqueId, serve(batches[k])[i]);
    assert IsRowResult(batches, serve, k, i, a) && k in answered;
    ResultsAreAnswers(batches, serve, answered, a);
    ResultsConsistent(batches, serve, answered);
    ResultMapLooksUp(Results(batches, serve, answered), a.uniqueId);
    assert LooksUp(ResultMap(Results(batches, serve, answered)), a.uniqueId, a.result);
  }

  /** The map is the same for every reply order. */
  lemma FinalMapIgnoresOrder(batches: seq<Batch>, serve: Batch -> seq<RawResult>, p: seq<nat>, q: seq<nat>)
    requires ServesRows(serve, batches) && DistinctIds(Flatten(batches)) && Complete(batches, p) && Complete(batches, q)
    ensures forall j :: 0 <= j < |p| ==> p[j] < |batches|
    ensures forall j :: 0 <= j < |q| ==> q[j] < |batches|
    ensures ResultMap(Results(batches, serve, p)) == ResultMap(Results(batches, serve, q))
  {
    assert forall j :: 0 <= j < |p| ==> p[j] in p;
    assert forall j :: 0 <= j < |q| ==> q[j] in q;
    ResultsConsistent(batches, serve, p);
    ResultsConsistent(batches, serve, q);
    var m, m' := ResultMap(Results(batches, serve, p)), ResultMap(Results(batches, serve, q));
    forall id, r ensures LooksUp(m, id, r) <==> LooksUp(m', id, r) {
      ResultMapLooksUp(Results(batches, serve, p), id);
      ResultMapLooksUp(Results(batches, serve, q), id);
      var a := RowResult(id, r);
      ResultsAreAnswers(batches, serve, p, a);
      ResultsAreAnswers(batches, serve, q, a);
      SameSource(batches, serve, p, q, a);
      SameSource(batches, serve, q, p, a);
    }
    MapsAgree(m, m');
  }

  lemma SameSource(batches: seq<Batch>, serve: Batch -> seq<RawResult>, p: seq<nat>, q: seq<nat>, a: RowResult)
    requires ServesRows(serve, batches) && Complete(batches, p) && Complete(batches, q)
    ensures FromBatch(batches, serve, p, a) ==> FromBatch(batches, serve, q, a)
  {
    if FromBatch(batches, serve, p, a) {
      var k: nat, i: nat :| k in p && IsRowResult(batches, serve, k, i, a);
      assert k in q;
    }
  }

  lemma MapsAgree(m: map<int, RawResult>, m': map<int, RawResult>)
    requires forall id, r :: LooksUp(m, id, r) <==> LooksUp(m', id, r)
    ensures m == m'
  {
    forall id | id in m ensures id in m' && m'[id] == m[id] {
      assert LooksUp(m, id, m[id]);
      assert LooksUp(m', id, m[id]);
    }
    forall id | id in m' ensures id in m {
      assert LooksUp(m', id, m'[id]);
      assert LooksUp(m, id, m'[id]);
    }
  }

  // ---------- the client ----------

  lemma ExtendRun(run: seq<State>, s: State, n: nat)
    requires Run(run, n) && Next(run[|run| - 1], s, n)
    ensures Run(run + [s], n)
  {
    var r := run + [s];
    forall k | 0 < k < |r| ensures Next(r[k - 1], r[k], n) {
      if k < |run| { assert Next(run[k - 1], run[k], n); }
    }
  }

  /** An arbitrary id that is not in use. */
  method AsyncRun(used: set<int>) returns (id: int)
    ensures id !in used
  {
    id := *;
    ghost var top := FreshId(used);
    while id in used
      decreases top - id
    {
      id := id + 1;
    }
  }

  /** Some outstanding id; without waiting perhaps none. */
  method GetReadyAsyncRequest(ids: set<int>, doWait: bool) returns (ready: Option<int>)
    requires ids != {}
    ensures doWait ==> ready.Some?
    ensures ready.Some? ==> ready.value in ids
  {
    ghost var some := Pick(ids);
    var id: int :| id in ids;
    var arrived := *;
    ready := if doWait || arrived then Some(id) else None;
  }

  /** The client's two collections are the concrete form of a protocol state. */
  ghost predicate Holds(
    batches: seq<Batch>, serve: Batch -> seq<RawResult>, s: State, outstanding: map<int, Batch>,
    allResults: seq<RowResult>)
  {
    && ServesRows(serve, batches)
    && outstanding.Keys == s.outstanding.Keys
    && (forall id :: id in outstanding ==>
        s.outstanding[id] < |batches| && outstanding[id] == batches[s.outstanding[id]])
    && (forall i :: 0 <= i < |s.answered| ==> s.answered[i] < |batches|)
    && allResults == Results(batches, serve, s.answered)
  }

  lemma HoldsAfterSend(
    batches: seq<Batch>, serve: Batch -> seq<RawResult>, s: State, s': State, outstanding: map<int, Batch>,
    allResults: seq<RowResult>, id: int)
    requires Holds(batches, serve, s, outstanding, allResults) && Send(s, s', id, |batches|)
    ensures Holds(batches, serve, s', outstanding[id := batches[s.sent]], allResults)
  {
  }

  lemma HoldsAfterReply(
    batches: seq<Batch>, serve: Batch -> seq<RawResult>, s: State, s': State, outstanding: map<int, Batch>,
    allResults: seq<RowResult>, id: int, next: Phase)
    requires Holds(batches, serve, s, outstanding, allResults) && Reply(s, s', id, next)
    ensures |serve(outstanding[id])| == |outstanding[id]|
    ensures Holds(batches, serve, s', outstanding - {id},
                  allResults + RowAnswers(outstanding[id], serve(outstanding[id])))
  {
    assert s'.answered[..|s.answered|] == s.answered;
  }

  lemma HoldsInPhase(
    batches: seq<Batch>, serve: Batch -> seq<RawResult>, s: State, phase: Phase, outstanding: map<int, Batch>,
    allResults: seq<RowResult>)
    requires Holds(batches, serve, s, outstanding, allResults)
    ensures Holds(batches, serve, s.(phase := phase), outstanding, allResults)
  {
  }

  class Session {
    const batches: seq<Batch>
    const serve: Batch -> seq<RawResult>
    var outstanding: map<int, Batch>
    var allResults: seq<RowResult>
    /** The protocol states passed through so far. */
    ghost var run: seq<State>

    ghost function Now(): State
      reads this
      requires run != []
    {
      run[|run| - 1]
    }

    ghost predicate Valid()
      reads this
    {
      Run(run, |batches|) && Holds(batches, serve, Now(), outstanding, allResults)
    }

    constructor (batches: seq<Batch>, serve: Batch -> seq<RawResult>)
      requires ServesRows(serve, batches)
      ensures Valid() && this.batches == batches && this.serve == serve && run == [Start]
    {
      this.batches, this.serve := batches, serve;
      outstanding, allResults := map[], [];
      run := [Start];
    }

    ghost method Advance(s: State)
      requires Run(run, |batches|) && Next(Now(), s, |batches|)
      modifies `run
      ensures run == old(run) + [s] && Run(run, |batches|)
    {
      ExtendRun(run, s, |batches|);
      run := run + [s];
    }

    method SendNext(inputs: Batch)
      requires Valid() && Now().phase == Sending && Now().sent < |batches| && inputs == batches[Now().sent]
      modifies this
      ensures Valid() && Now().phase == Polling && Now().sent == old(Now().sent) + 1
      ensures run == old(run) + [Now()] && allResults == old(allResults)
      ensures exists id :: id !in old(outstanding) && outstanding == old(outstanding)[id := inputs]
    {
      var id := AsyncRun(outstanding.Keys);
      ghost var s := Now();
      ghost var s' := State(Polling, s.sent + 1, s.outstanding[id := s.sent], s.answered);
      assert Send(s, s', id, |batches|);
      HoldsAfterSend(batches, serve, s, s', outstanding, allResults, id);
      outstanding := outstanding[id := inputs];
      Advance(s');
    }

    /** A reply takes its request off and appends its rows. */
    method TakeReply(id: int, ghost next: Phase)
      requires Valid() && id in outstanding
      requires (Now().phase == Polling && next == Sending) || (Now().phase == Draining && next == Draining)
      modifies this
      ensures Valid() && Now().sent == old(Now().sent) && Now().phase == next
      ensures run == old(run) + [Now()]
      ensures outstanding == old(outstanding) - {id}
      ensures ServesBatch(serve, old(outstanding)[id]) &&
          allResults == old(allResults) + RowAnswers(old(outstanding)[id], serve(old(outstanding)[id]))
    {
      ghost var s := Now();
      ghost var s' := State(next, s.sent, s.outstanding - {id}, s.answered + [s.outstanding[id]]);
      assert Reply(s, s', id, next);
      HoldsAfterReply(batches, serve, s, s', outstanding, allResults, id, next);
      var rows := outstanding[id];
      var more := CollectRows(rows, serve(rows));
      outstanding := outstanding - {id};
      allResults := allResults + more;
      Advance(s');
    }

    /** Polls after a send, or waits while draining. */
    method ProcessOutstanding(doWait: bool)
      requires Valid()
      requires (Now().phase == Polling && doWait == (|outstanding| >= MAX_OUTSTANDING)) ||
          (Now().phase == Draining && doWait)
      modifies this
      ensures Valid() && Now().sent == old(Now().sent)
      ensures old(Now().phase) == Polling ==> Now().phase == Sending
      ensures old(Now().phase) == Draining ==>
                Now().phase == Draining && (old(outstanding) != map[] ==> |outstanding| < |old(outstanding)|)
      ensures doWait && old(outstanding) != map[] ==>
        exists id :: id in old(outstanding) && outstanding == old(outstanding) - {id}
    {
      ghost var s := Now();
      ghost var next := if s.phase == Polling then Sending else Draining;
      if |outstanding| == 0 {
        if s.phase == Polling { ComeBackEmpty(); }
        return;
      }
      SomeKey(outstanding);
      var ready := GetReadyAsyncRequest(outstanding.Keys, doWait);
      if ready.None? {
        ComeBackEmpty();
        return;
      }
      KeyRemoved(outstanding, ready.value);
      TakeReply(ready.value, next);
    }

    /** A poll without a reply. */
    ghost method ComeBackEmpty()
      requires Valid() && Now().phase == Polling && |outstanding| < MAX_OUTSTANDING
      modifies `run
      ensures Valid() && Now() == old(Now()).(phase := Sending)
    {
      ghost var s := Now();
      SameSize(outstanding, s.outstanding);
      HoldsInPhase(batches, serve, s, Sending, outstanding, allResults);
      Advance(s.(phase := Sending));
    }
  }

  lemma SameSize<A, B>(m: map<int, A>, m': map<int, B>)
    requires m.Keys == m'.Keys
    ensures |m| == |m'|
  {
    assert |m| == |m.Keys| && |m'| == |m'.Keys|;
  }

  lemma SomeKey<A>(m: map<int, A>)
    requires |m| != 0
    ensures m.Keys != {}
  {
    assert |m| == |m.Keys|;
  }

  lemma KeyRemoved<A>(m: map<int, A>, id: int)
    requires id in m
    ensures |m - {id}| < |m|
  {
    assert (m - {id}).Keys == m.Keys - {id};
    assert |m| == |m.Keys| && |m - {id}| == |(m - {id}).Keys|;
  }

  method CollectRows(rows: Batch, results: seq<RawResult>) returns (answers: seq<RowResult>)
    requires |rows| == |results|
    ensures answers == RowAnswers(rows, results)
  {
    answers := [];
    for i := 0 to |rows|
      invariant answers == RowAnswers(rows, results)[..i]
    {
      answers := answers + [RowResult(rows[i].uniqueId, results[i])];
    }
  }

  /** The send loop: one poll after every request. */
  method SendAll(session: Session, toSend: seq<Batch>)
    requires session.Valid() && session.batches == toSend && session.run == [Start]
    modifies session
    ensures session.Valid() && session.Now().phase == Sending && session.Now().sent == |toSend|
  {
    for i := 0 to |toSend|
      invariant session.Valid() && session.Now().phase == Sending && session.Now().sent == i
    {
      session.SendNext(toSend[i]);
      session.ProcessOutstanding(|session.outstanding| >= MAX_OUTSTANDING);
    }
  }

  /** The drain loop. */
  method DrainAll(session: Session)
    requires session.Valid() && session.Now().phase == Draining
    modifies session
    ensures session.Valid() && session.Now().phase == Draining && session.outstanding == map[]
  {
    while |session.outstanding| > 0
      invariant session.Valid() && session.Now().phase == Draining
      decreases |session.outstanding|
    {
      session.ProcessOutstanding(true);
    }
  }

  method RunSession(session: Session, toSend: seq<Batch>)
    requires session.Valid() && session.batches == toSend && session.run == [Start]
    modifies session
    ensures session.Valid() && session.Now().phase == Done && session.outstanding == map[]
  {
    SendAll(session, toSend);
    HoldsInPhase(session.batches, session.serve, session.Now(), Draining, session.outstanding, session.allResults);
    session.Advance(session.Now().(phase := Draining));
    DrainAll(session);
    assert session.Now().outstanding.Keys == {};
    HoldsInPhase(session.batches, session.serve, session.Now(), Done, session.outstanding, session.allResults);
    session.Advance(session.Now().(phase := Done));
  }

  /** What a complete run leaves behind: for every row of every batch the result of that row. */
  ghost predicate AllRowsAnswered(batches: seq<Batch>, serve: Batch -> seq<RawResult>, m: map<int, RawResult>) {
    && ServesRows(serve, batches)
    && forall k, i :: 0 <= k < |batches| && 0 <= i < |batches[k]| ==>
         LooksUp(m, batches[k][i].uniqueId, serve(batches[k])[i])
  }

  lemma CompleteRunAnswersAll(
    batches: seq<Batch>, serve: Batch -> seq<RawResult>, run: seq<State>, outstanding: map<int, Batch>,
    allResults: seq<RowResult>)
    requires Run(run, |batches|) && run[|run| - 1].phase == Done && DistinctIds(Flatten(batches))
    requires Holds(batches, serve, run[|run| - 1], outstanding, allResults)
    ensures AllRowsAnswered(batches, serve, ResultMap(allResults))
  {
    var s := run[|run| - 1];
    EveryRunKeepsInv(run, |batches|);
    DoneMeansAllAnswered(s, |batches|);
    forall k, i | 0 <= k < |batches| && 0 <= i < |batches[k]|
      ensures LooksUp(ResultMap(allResults), batches[k][i].uniqueId, serve(batches[k])[i])
    {
      FinalMapIsTotal(batches, serve, s.answered, k, i);
    }
  }

  /** The map has the ids of the features and no others. */
  ghost predicate MapsExactly(features: seq<Feature>, m: map<int, RawResult>) {
    forall id :: id in m <==> exists i :: 0 <= i < |features| && features[i].uniqueId == id
  }

  lemma {:induction false} RowOfFlatten(batches: seq<Batch>, at: nat) returns (k: nat, i: nat)
    requires at < |Flatten(batches)|
    ensures k < |batches| && i < |batches[k]| && batches[k][i] == Flatten(batches)[at]
  {
    if at < |batches[0]| {
      k, i := 0, at;
    } else {
      k, i := RowOfFlatten(batches[1..], at - |batches[0]|);
      k := k + 1;
    }
  }

  /** An id of the final map belongs to a row of an answered batch. */
  lemma IdHasRow(batches: seq<Batch>, serve: Batch -> seq<RawResult>, answered: seq<nat>, id: int) returns (at: nat)
    requires ServesRows(serve, batches) && DistinctIds(Flatten(batches))
    requires forall j :: 0 <= j < |answered| ==> answered[j] < |batches|
    requires id in ResultMap(Results(batches, serve, answered))
    ensures at < |Flatten(batches)| && Flatten(batches)[at].uniqueId == id
  {
    var m := ResultMap(Results(batches, serve, answered));
    ResultsConsistent(batches, serve, answered);
    ResultMapLooksUp(Results(batches, serve, answered), id);
    assert LooksUp(m, id, m[id]);
    var a := RowResult(id, m[id]);
    ResultsAreAnswers(batches, serve, answered, a);
    var k: nat, i: nat :| k in answered && IsRowResult(batches, serve, k, i, a);
    at := RowInFlatten(batches, k, i);
  }

  lemma AnsweredRowsMapExactly(batches: seq<Batch>, serve: Batch -> seq<RawResult>, answered: seq<nat>)
    requires ServesRows(serve, batches) && DistinctIds(Flatten(batches))
    requires forall j :: 0 <= j < |answered| ==> answered[j] < |batches|
    requires AllRowsAnswered(batches, serve, ResultMap(Results(batches, serve, answered)))
    ensures MapsExactly(Flatten(batches), ResultMap(Results(batches, serve, answered)))
  {
    var features, m := Flatten(batches), ResultMap(Results(batches, serve, answered));
    forall id ensures id in m <==> exists i :: 0 <= i < |features| && features[i].uniqueId == id {
      if id in m {
        var at := IdHasRow(batches, serve, answered, id);
      }
      if at :| 0 <= at < |features| && features[at].uniqueId == id {
        var k, i := RowOfFlatten(batches, at);
        assert LooksUp(m, batches[k][i].uniqueId, serve(batches[k])[i]);
      }
    }
  }

  /** Some complete run of the protocol ends with these results. */
  ghost predicate EndsRun(
    batches: seq<Batch>, serve: Batch -> seq<RawResult>, run: seq<State>, allResults: seq<RowResult>)
  {
    && Run(run, |batches|) && run[|run| - 1].phase == Done && Holds(batches, serve, run[|run| - 1], map[], allResults)
  }

  /**
   The client, against any server: its states form a complete run of the protocol, and the final map has
   exactly the features, each with the result of its own row.
   */
  method RunClient(features: seq<Feature>, batchSize: nat, serve: Batch -> seq<RawResult>)
    returns (allResults: seq<RowResult>, batches: seq<Batch>)
    requires batchSize >= 1 && DistinctIds(features)
    requires forall b: Batch :: |serve(b)| == |b|
    ensures IsBatching(features, batchSize, batches)
    ensures exists run :: EndsRun(batches, serve, run, allResults)
    ensures AllRowsAnswered(batches, serve, ResultMap(allResults))
    ensures MapsExactly(features, ResultMap(allResults))
  {
    batches := MakeBatches(features, batchSize);
    var session := new Session(batches, serve);
    RunSession(session, batches);
    allResults := session.allResults;
    assert EndsRun(batches, serve, session.run, allResults);
    CompleteRunAnswersAll(batches, serve, session.run, session.outstanding, allResults);
    AnsweredRowsMapExactly(batches, serve, session.Now().answered);
  }
}
