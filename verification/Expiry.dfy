/** When a batch in flight counts as lost: the sweep's arithmetic, and the claim over whole
    sessions that a batch acknowledged in time is never lost. */
module Expiries {
  import opened Common
  import opened Detection
  import opened DetectionRuns
  import opened Pipelines
  import opened Sessions

  /** A sweep keeps exactly the batches registered at most 150 ms before and reports all
      others lost. */
  lemma SweepIsExact(cfg: Config, hash: Hash, codec: Codec, s: Session, now: nat, order: seq<u32>, n: u32)
    requires CanStep(cfg, hash, codec, s, Expire(now, order)) && n in s.inFlight
    ensures var s' := After(cfg, hash, codec, s, Expire(now, order));
            && (n in s'.inFlight <==> now <= s.inFlight[n].sentAt + 150)
            && (n in s'.inFlight ==> s'.inFlight[n] == s.inFlight[n])
            && (now > s.inFlight[n].sentAt + 150 ==> s.inFlight[n].batch in s'.lost[|s.lost|..])
  {
    var s' := After(cfg, hash, codec, s, Expire(now, order));
    if n in order {
      var k :| 0 <= k < |order| && order[k] == n;
      assert s'.lost[|s.lost|..][k] == s.inFlight[n].batch;
    }
  }

  // ---------- batches that have left the queue ----------

  function Registered(s: Session): int { s.made - |s.queue| }

  /** Queued batches are the last ones made; all others were registered before them. */
  ghost predicate Ordered(s: Session) {
    && |s.queue| <= s.made
    && (forall k :: 0 <= k < |s.queue| ==> s.queue[k].id == Registered(s) + k)
    && (forall n :: n in s.inFlight ==> s.inFlight[n].batch.id < Registered(s))
    && (forall k :: 0 <= k < |s.lost| ==> s.lost[k].id < Registered(s))
  }

  lemma StepOrdered(cfg: Config, hash: Hash, codec: Codec, s: Session, step: SessionStep)
    requires Ordered(s) && CanStep(cfg, hash, codec, s, step)
    ensures Ordered(After(cfg, hash, codec, s, step))
  {}

  lemma {:induction false} RunOrdered(cfg: Config, hash: Hash, codec: Codec, states: seq<Session>, steps: seq<SessionStep>,
                                      m: nat)
    requires SessionRun(cfg, hash, codec, states, steps) && m <= |steps|
    ensures Ordered(states[m])
  {
    if m > 0 {
      RunOrdered(cfg, hash, codec, states, steps, m - 1);
      StepOrdered(cfg, hash, codec, states[m - 1], steps[m - 1]);
    }
  }

  // ---------- one batch through a run ----------

  predicate IsLost(s: Session, id: nat) { exists k :: 0 <= k < |s.lost| && s.lost[k].id == id }

  /** Batch `id` has been registered and is not lost; if it is in flight, then under number
      `n` since time `t`. */
  ghost predicate Tracked(s: Session, id: nat, n: u32, t: nat) {
    && id < Registered(s) && !IsLost(s, id)
    && (forall j :: j in s.inFlight && s.inFlight[j].batch.id == id ==> j == n && s.inFlight[j].sentAt == t)
  }

  /** Batch `id` has been registered and is neither in flight nor lost. */
  ghost predicate Settled(s: Session, id: nat) {
    id < Registered(s) && !IsLost(s, id) && forall j :: j in s.inFlight ==> s.inFlight[j].batch.id != id
  }

  /** What a step may do to the batches that have left the queue: only a late sweep loses one,
      only a registration adds one, and an acknowledged number is gone. */
  ghost predicate Flows(s: Session, step: SessionStep, s': Session) {
    && Registered(s) <= Registered(s')
    && (forall j :: j in s'.inFlight ==>
          (j in s.inFlight && s'.inFlight[j] == s.inFlight[j]) || s'.inFlight[j].batch.id >= Registered(s))
    && (forall id: nat :: IsLost(s', id) && !IsLost(s, id) ==>
          exists j :: j in s.inFlight && s.inFlight[j].batch.id == id && step.Expire? && step.now > s.inFlight[j].sentAt + 150)
    && (step.Acknowledge? ==> step.seqNo !in s'.inFlight)
    && (forall id: nat :: IsLost(s, id) ==> id < Registered(s))
    && (step.Register? ==> s.queue != [] && s.queue[0].id == Registered(s)
                           && Tracked(s', s.queue[0].id, s'.nextSeq, step.now))
  }

  lemma StepFlows(cfg: Config, hash: Hash, codec: Codec, s: Session, step: SessionStep)
    requires Ordered(s) && CanStep(cfg, hash, codec, s, step)
    ensures Flows(s, step, After(cfg, hash, codec, s, step))
  {
    var s' := After(cfg, hash, codec, s, step);
    forall id: nat | IsLost(s', id) && !IsLost(s, id)
      ensures exists j :: j in s.inFlight && s.inFlight[j].batch.id == id
                          && step.Expire? && step.now > s.inFlight[j].sentAt + 150
    {
      var k :| 0 <= k < |s'.lost| && s'.lost[k].id == id;
      if step.Expire? { assert step.order[k - |s.lost|] in step.order; }
    }
  }

  ghost predicate FlowRun(states: seq<Session>, steps: seq<SessionStep>) {
    |states| == |steps| + 1 && forall k :: 0 <= k < |steps| ==> Flows(states[k], steps[k], states[k + 1])
  }

  lemma RunFlows(cfg: Config, hash: Hash, codec: Codec, states: seq<Session>, steps: seq<SessionStep>)
    requires SessionRun(cfg, hash, codec, states, steps)
    ensures FlowRun(states, steps)
  {
    forall k | 0 <= k < |steps|
      ensures Flows(states[k], steps[k], states[k + 1])
    {
      RunOrdered(cfg, hash, codec, states, steps, k);
      StepFlows(cfg, hash, codec, states[k], steps[k]);
    }
  }

  lemma {:induction false} TrackedUntil(states: seq<Session>, steps: seq<SessionStep>, r: nat, m: nat)
    requires FlowRun(states, steps) && r < m <= |steps| && steps[r].Register?
    requires forall k :: r < k < m && steps[k].Expire? ==> steps[k].now <= steps[r].now + 150
    ensures states[r].queue != [] && Tracked(states[m], states[r].queue[0].id, states[r + 1].nextSeq, steps[r].now)
  {
    assert Flows(states[m - 1], steps[m - 1], states[m]);
    if r + 1 < m { TrackedUntil(states, steps, r, m - 1); }
  }

  lemma {:induction false} SettledFrom(states: seq<Session>, steps: seq<SessionStep>, a: nat, m: nat, id: nat)
    requires FlowRun(states, steps) && a <= m <= |steps| && Settled(states[a], id)
    ensures Settled(states[m], id)
  {
    if a < m {
      SettledFrom(states, steps, a, m - 1, id);
      assert Flows(states[m - 1], steps[m - 1], states[m]);
    }
  }

  lemma {:induction false} LostWasRegistered(states: seq<Session>, steps: seq<SessionStep>, m: nat, r: nat, id: nat)
    requires FlowRun(states, steps) && m <= r < |steps| && IsLost(states[m], id)
    ensures id < Registered(states[r])
    decreases r
  {
    assert Flows(states[m], steps[m], states[m + 1]);
    if m < r { RegisteredGrows(states, steps, m, r); }
  }

  lemma {:induction false} RegisteredGrows(states: seq<Session>, steps: seq<SessionStep>, m: nat, r: nat)
    requires FlowRun(states, steps) && m <= r <= |steps|
    ensures Registered(states[m]) <= Registered(states[r])
  {
    if m < r {
      RegisteredGrows(states, steps, m, r - 1);
      assert Flows(states[r - 1], steps[r - 1], states[r]);
    }
  }

  /** A batch acknowledged in time is never lost: if step `r` registers it and step `a`
      acknowledges its number, and no sweep in between came more than 150 ms after the
      registration, it is among the lost batches at no point of the run, before or after. */
  lemma TimelyAckIsNeverLost(cfg: Config, hash: Hash, codec: Codec, states: seq<Session>, steps: seq<SessionStep>,
                             r: nat, a: nat, m: nat)
    requires SessionRun(cfg, hash, codec, states, steps) && r < a < |steps| && m <= |steps|
    requires steps[r].Register? && steps[a] == Acknowledge(states[r + 1].nextSeq)
    requires forall k :: r < k < a && steps[k].Expire? ==> steps[k].now <= steps[r].now + 150
    ensures states[r].queue != []
    ensures forall k :: 0 <= k < |states[m].lost| ==> states[m].lost[k].id != states[r].queue[0].id
  {
    RunFlows(cfg, hash, codec, states, steps);
    NotLost(states, steps, r, a, m);
    assert !IsLost(states[m], states[r].queue[0].id);
  }

  lemma NotLost(states: seq<Session>, steps: seq<SessionStep>, r: nat, a: nat, m: nat)
    requires FlowRun(states, steps) && r < a < |steps| && m <= |steps|
    requires steps[r].Register? && steps[a] == Acknowledge(states[r + 1].nextSeq)
    requires forall k :: r < k < a && steps[k].Expire? ==> steps[k].now <= steps[r].now + 150
    ensures states[r].queue != [] && !IsLost(states[m], states[r].queue[0].id)
  {
    assert Flows(states[r], steps[r], states[r + 1]);
    var id := states[r].queue[0].id;
    if m <= r {
      if IsLost(states[m], id) { LostWasRegistered(states, steps, m, r, id); }
    } else if m <= a {
      TrackedUntil(states, steps, r, m);
    } else {
      TrackedUntil(states, steps, r, a);
      assert Flows(states[a], steps[a], states[a + 1]);
      SettledFrom(states, steps, a + 1, m, id);
    }
  }
}
