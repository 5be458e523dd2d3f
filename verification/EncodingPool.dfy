/** The encoding pool (src/encoding_pool.rs) driven by the submit-then-collect loop of
    src/pipeline.rs, as a step system: two bounded channels of 2n, n workers that
    block on both, and a main thread that collects only after submitting everything. */
module EncodingPools {
  import opened Common
  import opened Grids

  datatype EncodingTask = EncodingTask(tile: Tile, data: seq<bv8>, tileIdx: nat)
  datatype EncodedResult = EncodedResult(tileIdx: nat, data: seq<byte>)

  /** What a worker makes of a task; total, since a failed encode yields no bytes. */
  type Encoder = EncodingTask -> seq<byte>

  function Encoded(enc: Encoder, t: EncodingTask): EncodedResult {
    EncodedResult(t.tileIdx, enc(t))
  }

  datatype Worker = Idle | Busy(task: EncodingTask) | Blocked(result: EncodedResult)

  datatype Pool = Pool(toSubmit: seq<EncodingTask>, tasks: seq<EncodingTask>, workers: seq<Worker>,
                       results: seq<EncodedResult>, collected: seq<EncodedResult>)
  {
    /** Capacity of each channel. */
    function Capacity(): nat { 2 * |workers| }
  }

  datatype Action = Submit | Take(w: nat) | Encode(w: nat) | Send(w: nat) | Collect

  predicate Enabled(p: Pool, a: Action) {
    match a
    case Submit => p.toSubmit != [] && |p.tasks| < p.Capacity()
    case Take(w) => w < |p.workers| && p.workers[w].Idle? && p.tasks != []
    case Encode(w) => w < |p.workers| && p.workers[w].Busy?
    case Send(w) => w < |p.workers| && p.workers[w].Blocked? && |p.results| < p.Capacity()
    case Collect => p.toSubmit == [] && p.results != []
  }

  function Act(enc: Encoder, p: Pool, a: Action): Pool
    requires Enabled(p, a)
  {
    match a
    case Submit => p.(toSubmit := p.toSubmit[1..], tasks := p.tasks + [p.toSubmit[0]])
    case Take(w) => p.(tasks := p.tasks[1..], workers := p.workers[w := Busy(p.tasks[0])])
    case Encode(w) => p.(workers := p.workers[w := Blocked(Encoded(enc, p.workers[w].task))])
    case Send(w) => p.(results := p.results + [p.workers[w].result], workers := p.workers[w := Idle])
    case Collect => p.(results := p.results[1..], collected := p.collected + [p.results[0]])
  }

  function Start(n: nat, tasks: seq<EncodingTask>): Pool {
    Pool(tasks, [], seq(n, i => Idle), [], [])
  }

  /** The pool after a schedule, if each of its steps was possible. */
  function PoolAfter(enc: Encoder, n: nat, tasks: seq<EncodingTask>, schedule: seq<Action>): Option<Pool> {
    if schedule == [] then Some(Start(n, tasks)) else
      var before := PoolAfter(enc, n, tasks, schedule[..|schedule| - 1]);
      var a := schedule[|schedule| - 1];
      if before.Some? && Enabled(before.value, a) then Some(Act(enc, before.value, a)) else None
  }

  /** No step is possible: everything is finished, or everything waits. */
  ghost predicate Halted(p: Pool) {
    forall a: Action :: !Enabled(p, a)
  }

  predicate Finished(p: Pool) {
    p.toSubmit == [] && p.tasks == [] && (forall w :: 0 <= w < |p.workers| ==> p.workers[w].Idle?) && p.results == []
  }

  /** The main thread waits in `submit`, every worker in `send`, nobody collects. */
  predicate Deadlocked(p: Pool) {
    && p.toSubmit != [] && |p.tasks| == p.Capacity()
    && (forall w :: 0 <= w < |p.workers| ==> p.workers[w].Blocked?)
    && |p.results| == p.Capacity() && p.collected == []
  }

  // ---------- conservation ----------

  function One(b: bool): nat { if b then 1 else 0 }

  /** How often a result is due for the tasks. */
  function Due(enc: Encoder, tasks: seq<EncodingTask>, r: EncodedResult): nat {
    if tasks == [] then 0 else Due(enc, tasks[..|tasks| - 1], r) + One(Encoded(enc, tasks[|tasks| - 1]) == r)
  }

  function InHand(enc: Encoder, w: Worker, r: EncodedResult): nat {
    match w
    case Idle => 0
    case Busy(t) => One(Encoded(enc, t) == r)
    case Blocked(r') => One(r' == r)
  }

  function InHands(enc: Encoder, workers: seq<Worker>, r: EncodedResult): nat {
    if workers == [] then 0 else
      InHands(enc, workers[..|workers| - 1], r) + InHand(enc, workers[|workers| - 1], r)
  }

  function Count(results: seq<EncodedResult>, r: EncodedResult): nat {
    if results == [] then 0 else Count(results[..|results| - 1], r) + One(results[|results| - 1] == r)
  }

  /** How often a result is in the system, in any of its stages. */
  function Total(enc: Encoder, p: Pool, r: EncodedResult): nat {
    Due(enc, p.toSubmit, r) + Due(enc, p.tasks, r) + InHands(enc, p.workers, r) + Count(p.results, r) + Count(p.collected, r)
  }

  lemma {:induction false} DueHead(enc: Encoder, tasks: seq<EncodingTask>, r: EncodedResult)
    requires tasks != []
    ensures Due(enc, tasks, r) == Due(enc, tasks[1..], r) + One(Encoded(enc, tasks[0]) == r)
  {
    if |tasks| > 1 {
      var n := |tasks| - 1;
      DueHead(enc, tasks[..n], r);
      assert tasks[..n][1..] == tasks[1..][..n - 1];
    }
  }

  lemma DueSnoc(enc: Encoder, tasks: seq<EncodingTask>, t: EncodingTask, r: EncodedResult)
    ensures Due(enc, tasks + [t], r) == Due(enc, tasks, r) + One(Encoded(enc, t) == r)
  {}

  lemma {:induction false} CountHead(results: seq<EncodedResult>, r: EncodedResult)
    requires results != []
    ensures Count(results, r) == Count(results[1..], r) + One(results[0] == r)
  {
    if |results| > 1 {
      var n := |results| - 1;
      CountHead(results[..n], r);
      assert results[..n][1..] == results[1..][..n - 1];
    }
  }

  lemma CountSnoc(results: seq<EncodedResult>, x: EncodedResult, r: EncodedResult)
    ensures Count(results + [x], r) == Count(results, r) + One(x == r)
  {}

  lemma {:induction false} InHandsUpdate(enc: Encoder, workers: seq<Worker>, w: nat, worker: Worker, r: EncodedResult)
    requires w < |workers|
    ensures InHands(enc, workers[w := worker], r) + InHand(enc, workers[w], r)
         == InHands(enc, workers, r) + InHand(enc, worker, r)
  {
    var n := |workers| - 1;
    var workers' := workers[w := worker];
    if w == n {
      assert workers'[..n] == workers[..n];
    } else {
      InHandsUpdate(enc, workers[..n], w, worker, r);
      assert workers'[..n] == workers[..n][w := worker];
    }
  }

  lemma {:induction false} IdleHands(enc: Encoder, workers: seq<Worker>, r: EncodedResult)
    requires forall w :: 0 <= w < |workers| ==> workers[w].Idle?
    ensures InHands(enc, workers, r) == 0
  {
    if workers != [] { IdleHands(enc, workers[..|workers| - 1], r); }
  }

  /** Nothing is lost, duplicated or invented by any step. */
  lemma ActConserves(enc: Encoder, p: Pool, a: Action, r: EncodedResult)
    requires Enabled(p, a)
    ensures Total(enc, Act(enc, p, a), r) == Total(enc, p, r)
  {
    match a
    case Submit =>
      DueHead(enc, p.toSubmit, r);
      DueSnoc(enc, p.tasks, p.toSubmit[0], r);
    case Take(w) =>
      DueHead(enc, p.tasks, r);
      InHandsUpdate(enc, p.workers, w, Busy(p.tasks[0]), r);
    case Encode(w) => InHandsUpdate(enc, p.workers, w, Blocked(Encoded(enc, p.workers[w].task)), r);
    case Send(w) =>
      CountSnoc(p.results, p.workers[w].result, r);
      InHandsUpdate(enc, p.workers, w, Idle, r);
    case Collect =>
      CountHead(p.results, r);
      CountSnoc(p.collected, p.results[0], r);
  }

  // ---------- progress ----------

  function Effort(w: Worker): nat {
    match w
    case Idle => 0
    case Busy(_) => 3
    case Blocked(_) => 2
  }

  function Efforts(workers: seq<Worker>): nat {
    if workers == [] then 0 else Efforts(workers[..|workers| - 1]) + Effort(workers[|workers| - 1])
  }

  /** Steps still to be taken. */
  function Measure(p: Pool): nat {
    5 * |p.toSubmit| + 4 * |p.tasks| + Efforts(p.workers) + |p.results|
  }

  lemma {:induction false} EffortsUpdate(workers: seq<Worker>, w: nat, worker: Worker)
    requires w < |workers|
    ensures Efforts(workers[w := worker]) + Effort(workers[w]) == Efforts(workers) + Effort(worker)
  {
    var n := |workers| - 1;
    var workers' := workers[w := worker];
    if w == n {
      assert workers'[..n] == workers[..n];
    } else {
      EffortsUpdate(workers[..n], w, worker);
      assert workers'[..n] == workers[..n][w := worker];
    }
  }

  lemma ActProgresses(enc: Encoder, p: Pool, a: Action)
    requires Enabled(p, a)
    ensures Measure(Act(enc, p, a)) == Measure(p) - 1
  {
    match a
    case Submit =>
    case Take(w) => EffortsUpdate(p.workers, w, Busy(p.tasks[0]));
    case Encode(w) => EffortsUpdate(p.workers, w, Blocked(Encoded(enc, p.workers[w].task)));
    case Send(w) => EffortsUpdate(p.workers, w, Idle);
    case Collect =>
  }

  // ---------- invariant of every run ----------

  /** Workers holding a task or a result. */
  function Held(workers: seq<Worker>): nat {
    if workers == [] then 0 else Held(workers[..|workers| - 1]) + One(!workers[|workers| - 1].Idle?)
  }

  lemma {:induction false} HeldUpdate(workers: seq<Worker>, w: nat, worker: Worker)
    requires w < |workers|
    ensures Held(workers[w := worker]) + One(!workers[w].Idle?) == Held(workers) + One(!worker.Idle?)
  {
    var n := |workers| - 1;
    var workers' := workers[w := worker];
    if w == n {
      assert workers'[..n] == workers[..n];
    } else {
      HeldUpdate(workers[..n], w, worker);
      assert workers'[..n] == workers[..n][w := worker];
    }
  }

  lemma {:induction false} HeldBounds(workers: seq<Worker>)
    ensures Held(workers) <= |workers|
    ensures (forall w :: 0 <= w < |workers| ==> !workers[w].Idle?) ==> Held(workers) == |workers|
    ensures (forall w :: 0 <= w < |workers| ==> workers[w].Idle?) ==> Held(workers) == 0 && Efforts(workers) == 0
  {
    if workers != [] { HeldBounds(workers[..|workers| - 1]); }
  }

  /** Channels within capacity, every task somewhere, nothing collected before
      everything is submitted. */
  predicate Sized(n: nat, total: nat, p: Pool) {
    && |p.workers| == n && |p.tasks| <= p.Capacity() && |p.results| <= p.Capacity()
    && (p.toSubmit != [] ==> p.collected == [])
    && |p.toSubmit| + |p.tasks| + Held(p.workers) + |p.results| + |p.collected| == total
  }

  lemma ActKeepsSizes(enc: Encoder, n: nat, total: nat, p: Pool, a: Action)
    requires Sized(n, total, p) && Enabled(p, a)
    ensures Sized(n, total, Act(enc, p, a))
  {
    match a
    case Submit =>
    case Take(w) => HeldUpdate(p.workers, w, Busy(p.tasks[0]));
    case Encode(w) => HeldUpdate(p.workers, w, Blocked(Encoded(enc, p.workers[w].task)));
    case Send(w) => HeldUpdate(p.workers, w, Idle);
    case Collect =>
  }

  /** Every schedule keeps the sizes, conserves each result and takes at most five
      steps per task, so every run ends. */
  lemma {:induction false} RunInvariant(enc: Encoder, n: nat, tasks: seq<EncodingTask>, schedule: seq<Action>, r: EncodedResult)
    requires PoolAfter(enc, n, tasks, schedule).Some?
    ensures Sized(n, |tasks|, PoolAfter(enc, n, tasks, schedule).value)
    ensures Total(enc, PoolAfter(enc, n, tasks, schedule).value, r) == Due(enc, tasks, r)
    ensures |schedule| + Measure(PoolAfter(enc, n, tasks, schedule).value) == 5 * |tasks|
  {
    if schedule == [] {
      HeldBounds(Start(n, tasks).workers);
      IdleHands(enc, Start(n, tasks).workers, r);
    } else {
      var before, a := schedule[..|schedule| - 1], schedule[|schedule| - 1];
      RunInvariant(enc, n, tasks, before, r);
      var p := PoolAfter(enc, n, tasks, before).value;
      ActKeepsSizes(enc, n, |tasks|, p, a);
      ActConserves(enc, p, a, r);
      ActProgresses(enc, p, a);
    }
  }

  /** A worker that cannot move waits for a task or for room. */
  lemma HaltedWorker(p: Pool, w: nat)
    requires Halted(p) && w < |p.workers|
    ensures !p.workers[w].Busy?
    ensures p.workers[w].Idle? ==> p.tasks == []
    ensures p.workers[w].Blocked? ==> |p.results| >= p.Capacity()
  {
    assert !Enabled(p, Encode(w)) && !Enabled(p, Take(w)) && !Enabled(p, Send(w));
  }

  /** A run that cannot continue is finished or deadlocked. */
  lemma HaltedIsFinishedOrDeadlocked(n: nat, total: nat, p: Pool)
    requires n > 0 && Sized(n, total, p) && Halted(p)
    ensures Finished(p) || Deadlocked(p)
  {
    assert !Enabled(p, Submit) && !Enabled(p, Collect);
    forall w: nat | w < n
      ensures !p.workers[w].Busy?
      ensures p.workers[w].Idle? ==> p.tasks == []
      ensures p.workers[w].Blocked? ==> |p.results| >= p.Capacity()
    {
      HaltedWorker(p, w);
    }
    assert p.workers[0].Idle? || p.workers[0].Blocked?;
  }

  lemma {:induction false} CountIsMultiset(results: seq<EncodedResult>, r: EncodedResult)
    ensures multiset(results)[r] == Count(results, r)
  {
    if results != [] {
      var n := |results| - 1;
      CountIsMultiset(results[..n], r);
      assert results == results[..n] + [results[n]];
    }
  }

  /** With more than 5n tasks, no reachable state has submitted them all. */
  lemma {:induction false} OverfullNeverCollects(enc: Encoder, n: nat, tasks: seq<EncodingTask>, schedule: seq<Action>,
                                                 r: EncodedResult)
    requires |tasks| > 5 * n && PoolAfter(enc, n, tasks, schedule).Some?
    ensures PoolAfter(enc, n, tasks, schedule).value.toSubmit != []
    ensures PoolAfter(enc, n, tasks, schedule).value.collected == []
  {
    if schedule != [] {
      OverfullNeverCollects(enc, n, tasks, schedule[..|schedule| - 1], r);
      RunInvariant(enc, n, tasks, schedule, r);
      HeldBounds(PoolAfter(enc, n, tasks, schedule).value.workers);
    }
  }

  /** The bound is exact. Every run that cannot continue has collected each result
      exactly as often as it was due if at most 5n tasks were submitted, and is stuck
      in `submit` with nothing collected otherwise. */
  lemma PoolCompletesIff(enc: Encoder, n: nat, tasks: seq<EncodingTask>, schedule: seq<Action>, r: EncodedResult)
    requires n > 0 && PoolAfter(enc, n, tasks, schedule).Some? && Halted(PoolAfter(enc, n, tasks, schedule).value)
    ensures var p := PoolAfter(enc, n, tasks, schedule).value;
            if |tasks| <= 5 * n then Finished(p) && multiset(p.collected)[r] == Due(enc, tasks, r)
            else Deadlocked(p)
  {
    var p := PoolAfter(enc, n, tasks, schedule).value;
    RunInvariant(enc, n, tasks, schedule, r);
    HaltedIsFinishedOrDeadlocked(n, |tasks|, p);
    HeldBounds(p.workers);
    if |tasks| > 5 * n {
      OverfullNeverCollects(enc, n, tasks, schedule, r);
    } else {
      if Finished(p) { IdleHands(enc, p.workers, r); }
      CountIsMultiset(p.collected, r);
    }
  }

  // ---------- the results as a whole ----------

  /** The results are those of the tasks, each once, in the given order. */
  ghost predicate ResultsIn(enc: Encoder, tasks: seq<EncodingTask>, results: seq<EncodedResult>, order: seq<nat>) {
    && Permutation(order, |tasks|) && |results| == |tasks|
    && (forall j :: 0 <= j < |order| ==> order[j] < |tasks| && results[j] == Encoded(enc, tasks[order[j]]))
  }

  lemma {:induction false} Position(results: seq<EncodedResult>, r: EncodedResult) returns (j: nat)
    requires Count(results, r) > 0
    ensures j < |results| && results[j] == r
  {
    j := |results| - 1;
    if results[j] != r {
      j := Position(results[..j], r);
    }
  }

  lemma {:induction false} CountWithout(results: seq<EncodedResult>, j: nat, r: EncodedResult)
    requires j < |results|
    ensures Count(results, r) == Count(results[..j] + results[j + 1..], r) + One(results[j] == r)
  {
    var n := |results| - 1;
    if j < n {
      CountWithout(results[..n], j, r);
      assert results[..n][..j] == results[..j];
      assert results[..j] + results[j + 1..] == (results[..j] + results[..n][j + 1..]) + [results[n]];
      CountSnoc(results[..j] + results[..n][j + 1..], results[n], r);
    } else {
      assert results[..j] + results[j + 1..] == results[..n];
    }
  }

  /** Results that occur as often as they are due are those of the tasks in some order. */
  lemma {:induction false} SomeOrder(enc: Encoder, tasks: seq<EncodingTask>, results: seq<EncodedResult>)
    returns (order: seq<nat>)
    requires |results| == |tasks| && forall r :: Count(results, r) == Due(enc, tasks, r)
    ensures ResultsIn(enc, tasks, results, order)
    decreases |tasks|
  {
    order := [];
    if tasks != [] {
      var n := |tasks| - 1;
      var j := Position(results, Encoded(enc, tasks[n]));
      forall r ensures Count(results[..j] + results[j + 1..], r) == Due(enc, tasks[..n], r) { CountWithout(results, j, r); }
      var rest := SomeOrder(enc, tasks[..n], results[..j] + results[j + 1..]);
      order := Inserted(enc, tasks, results, j, rest);
    }
  }

  lemma PermutationWith(rest: seq<nat>, n: nat, j: nat)
    requires Permutation(rest, n) && j <= n
    ensures Permutation(rest[..j] + [n] + rest[j..], n + 1)
  {
    var order, front, back := rest[..j] + [n] + rest[j..], rest[..j], rest[j..];
    assert rest == front + back;
    forall k: nat
      ensures k in order <==> k < n + 1
    {
      assert k in order <==> k in front || k == n || k in back;
      assert k in rest <==> k in front || k in back;
    }
    assert n !in rest;
    forall a, b | 0 <= a < b < |order|
      ensures order[a] != order[b]
    {
      assert a != j ==> order[a] == rest[if a < j then a else a - 1];
      assert b != j ==> order[b] == rest[if b < j then b else b - 1];
    }
  }

  lemma Inserted(enc: Encoder, tasks: seq<EncodingTask>, results: seq<EncodedResult>, j: nat, rest: seq<nat>)
    returns (order: seq<nat>)
    requires tasks != [] && |results| == |tasks| && j < |results| && results[j] == Encoded(enc, tasks[|tasks| - 1])
    requires ResultsIn(enc, tasks[..|tasks| - 1], results[..j] + results[j + 1..], rest)
    ensures ResultsIn(enc, tasks, results, order)
  {
    var n: nat := |tasks| - 1;
    order := rest[..j] + [n] + rest[j..];
    PermutationWith(rest, n, j);
    forall m | 0 <= m < |order|
      ensures order[m] < |tasks| && results[m] == Encoded(enc, tasks[order[m]])
    {
      var rs := results[..j] + results[j + 1..];
      assert m < j ==> rs[m] == results[m] && order[m] == rest[m];
      assert m > j ==> rs[m - 1] == results[m] && order[m] == rest[m - 1];
    }
  }

  /** A run of the pool that cannot continue, for a batch it can hold, has collected
      the result of every task once. */
  lemma FinishedPoolCollects(enc: Encoder, n: nat, tasks: seq<EncodingTask>, schedule: seq<Action>)
    returns (order: seq<nat>)
    requires n > 0 && PoolAfter(enc, n, tasks, schedule).Some? && Halted(PoolAfter(enc, n, tasks, schedule).value)
    requires |tasks| <= 5 * n
    ensures ResultsIn(enc, tasks, PoolAfter(enc, n, tasks, schedule).value.collected, order)
  {
    var p := PoolAfter(enc, n, tasks, schedule).value;
    forall r: EncodedResult
      ensures Count(p.collected, r) == Due(enc, tasks, r)
    {
      PoolCompletesIff(enc, n, tasks, schedule, r);
      CountIsMultiset(p.collected, r);
    }
    RunInvariant(enc, n, tasks, schedule, EncodedResult(0, []));
    PoolCompletesIff(enc, n, tasks, schedule, EncodedResult(0, []));
    HeldBounds(p.workers);
    order := SomeOrder(enc, tasks, p.collected);
  }

  // ---------- running the pool ----------

  /** Every action of `n` workers and the main thread. */
  function Actions(n: nat): (s: set<Action>)
    ensures forall a :: a in s <==> Belongs(n, a)
  {
    if n == 0 then {Submit, Collect} else Actions(n - 1) + {Take(n - 1), Encode(n - 1), Send(n - 1)}
  }

  predicate Belongs(n: nat, a: Action) {
    match a
    case Take(w) => w < n
    case Encode(w) => w < n
    case Send(w) => w < n
    case _ => true
  }

  /** Lets the threads take possible steps in any order until none is possible. */
  method Run(enc: Encoder, n: nat, tasks: seq<EncodingTask>) returns (p: Pool, ghost schedule: seq<Action>)
    ensures PoolAfter(enc, n, tasks, schedule) == Some(p) && Halted(p)
  {
    p, schedule := Start(n, tasks), [];
    var possible := set a | a in Actions(n) && Enabled(p, a);
    while possible != {}
      invariant |p.workers| == n && PoolAfter(enc, n, tasks, schedule) == Some(p)
      invariant possible == set a | a in Actions(n) && Enabled(p, a)
      decreases Measure(p)
    {
      var a :| a in possible;
      ActProgresses(enc, p, a);
      ScheduleNext(enc, n, tasks, schedule, p, a);
      p, schedule := Act(enc, p, a), schedule + [a];
      possible := set a | a in Actions(n) && Enabled(p, a);
    }
    NothingPossible(n, p);
  }

  lemma ScheduleNext(enc: Encoder, n: nat, tasks: seq<EncodingTask>, schedule: seq<Action>, p: Pool, a: Action)
    requires PoolAfter(enc, n, tasks, schedule) == Some(p) && Enabled(p, a)
    ensures PoolAfter(enc, n, tasks, schedule + [a]) == Some(Act(enc, p, a))
  {
    assert (schedule + [a])[..|schedule|] == schedule;
  }

  lemma NothingPossible(n: nat, p: Pool)
    requires |p.workers| == n && (set a | a in Actions(n) && Enabled(p, a)) == {}
    ensures Halted(p)
  {
    forall a: Action
      ensures !Enabled(p, a)
    {
      assert a in Actions(n) && Enabled(p, a) ==> a in (set b | b in Actions(n) && Enabled(p, b));
    }
  }
}
