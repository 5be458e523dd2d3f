/** One streaming session as a step system (src/stream.rs): the processing thread with
    its pipeline, the queue of encoded frames, the batches in flight, and the lost cells
    on their way back. Steps interleave freely; the claim is that no grid cell is ever
    forgotten. */
module Sessions {
  import opened Common
  import Grids
  import Frames
  import Merging
  import opened Detection
  import opened DetectionRuns
  import DeltaStream
  import opened Pipelines
  import opened PipelineRuns
  import AckTrackers

  /** The cells of one emitted frame; `id` counts the frames emitted so far. */
  datatype Batch = Batch(id: nat, epoch: nat, cells: seq<nat>)

  datatype Flight = Flight(batch: Batch, sentAt: nat)

  /** Besides the real state, `latest` records the last batch that covered each cell of
      the current grid and `acked` the batches the client has acknowledged. */
  datatype Session = Session(p: PState, queue: seq<Batch>, nextSeq: u32, inFlight: map<u32, Flight>, lost: seq<Batch>,
                             made: nat, latest: map<nat, nat>, acked: set<nat>)

  datatype SessionStep =
    | Emit(call: Call, next: PState)
    | Register(now: nat)
    | Acknowledge(seqNo: u32)
    | Expire(now: nat, order: seq<u32>)
    | Recover(next: PState)

  function Batched(flights: map<u32, Flight>, order: seq<u32>): seq<Batch>
    requires forall k :: 0 <= k < |order| ==> order[k] in flights
  {
    seq(|order|, k requires 0 <= k < |order| => flights[order[k]].batch)
  }

  predicate FlightExpired(f: Flight, now: nat) { now - f.sentAt > AckTrackers.ACK_TIMEOUT }

  /** When a step can be taken. A registration must not meet a batch still in flight
      under its number, that is, fewer than 2^32 registrations fit in a batch's life. */
  ghost predicate CanStep(cfg: Config, hash: Hash, codec: Codec, s: Session, step: SessionStep) {
    match step
    case Emit(call, next) => call.DoProcess? && Calls(cfg, hash, codec, s.p, call, next)
    case Register(now) => s.queue != [] && AckTrackers.NextSeq(s.nextSeq) !in s.inFlight
    case Acknowledge(seqNo) => true
    case Expire(now, order) =>
      && NoDuplicates(order)
      && (forall n: u32 :: n in order <==> n in s.inFlight && FlightExpired(s.inFlight[n], now))
      && (forall k :: 0 <= k < |order| ==> order[k] in s.inFlight)
    case Recover(next) =>
      s.lost != [] && Calls(cfg, hash, codec, s.p, DoInvalidate(s.lost[0].epoch, s.lost[0].cells), next)
  }

  /** Cells covered by a new batch are now its business; a resize forgets the old grid. */
  function Latest(s: Session, epoch: nat, cells: seq<nat>): map<nat, nat> {
    (if epoch == s.p.epoch then s.latest else map[]) + (map i | i in cells :: s.made)
  }

  ghost function After(cfg: Config, hash: Hash, codec: Codec, s: Session, step: SessionStep): Session
    requires CanStep(cfg, hash, codec, s, step)
  {
    match step
    case Emit(call, next) =>
      if call.out.Some? && call.out.value.tiles != [] then
        var cells := call.out.value.ackIndices;
        s.(p := next, queue := s.queue + [Batch(s.made, call.out.value.epoch, cells)], made := s.made + 1,
           latest := Latest(s, call.out.value.epoch, cells))
      else
        s.(p := next, latest := Latest(s, next.epoch, []))
    case Register(now) =>
      var n := AckTrackers.NextSeq(s.nextSeq);
      s.(queue := s.queue[1..], nextSeq := n, inFlight := s.inFlight[n := Flight(s.queue[0], now)])
    case Acknowledge(seqNo) =>
      if seqNo in s.inFlight then
        s.(inFlight := s.inFlight - {seqNo}, acked := s.acked + {s.inFlight[seqNo].batch.id})
      else s
    case Expire(now, order) =>
      s.(inFlight := s.inFlight - (set n | n in order), lost := s.lost + Batched(s.inFlight, order))
    case Recover(next) =>
      s.(p := next, lost := s.lost[1..])
  }

  function Opened(p: PState): Session { Session(p, [], 0, map[], [], 0, map[], {}) }

  // ---------- the steps are the tracker's methods ----------

  /** The batches in flight as the tracker stores them. */
  function TrackedBatches(flights: map<u32, Flight>): map<u32, AckTrackers.InFlight> {
    map n | n in flights :: AckTrackers.InFlight(flights[n].sentAt, flights[n].batch.epoch, flights[n].batch.cells)
  }

  function AsLost(b: Batch): AckTrackers.LostCells { AckTrackers.LostCells(b.epoch, b.cells) }

  /** `Register`, `Acknowledge` and `Expire` do to the batches in flight what the
      methods of `AckTracker` promise, and report the same lost cells. */
  lemma StepsFollowTracker(cfg: Config, hash: Hash, codec: Codec, s: Session, step: SessionStep)
    requires CanStep(cfg, hash, codec, s, step)
    ensures var s' := After(cfg, hash, codec, s, step);
            var before, after := TrackedBatches(s.inFlight), TrackedBatches(s'.inFlight);
            match step
            case Register(now) =>
              && s'.nextSeq == AckTrackers.NextSeq(s.nextSeq)
              && after == before[s'.nextSeq := AckTrackers.InFlight(now, s.queue[0].epoch, s.queue[0].cells)]
            case Acknowledge(seqNo) => after == before - {seqNo}
            case Expire(now, order) =>
              var lost := s'.lost[|s.lost|..];
              && after == before - AckTrackers.ExpiredSeqs(before, AckTrackers.ACK_TIMEOUT, now)
              && (forall n :: n in order <==> n in AckTrackers.ExpiredSeqs(before, AckTrackers.ACK_TIMEOUT, now))
              && AckTrackers.Reports(before, order, seq(|lost|, k requires 0 <= k < |lost| => AsLost(lost[k])))
            case _ => s'.inFlight == s.inFlight && s'.nextSeq == s.nextSeq
  {}

  // ---------- no cell is forgotten ----------

  /** A batch of the current grid that covers the cell. */
  predicate Carries(s: Session, b: Batch, i: nat) {
    b.epoch == s.p.epoch && i in b.cells
  }

  /** The cell is underway in batch `id`: queued, in flight, or on its way back. */
  ghost predicate Underway(s: Session, id: nat, i: nat) {
    || (exists k :: 0 <= k < |s.queue| && s.queue[k].id == id && Carries(s, s.queue[k], i))
    || (exists n :: n in s.inFlight && s.inFlight[n].batch.id == id && Carries(s, s.inFlight[n].batch, i))
    || (exists k :: 0 <= k < |s.lost| && s.lost[k].id == id && Carries(s, s.lost[k], i))
  }

  /** The last batch that covered the cell is acknowledged or underway, or the cell is
      armed to be sent by the next frame. */
  ghost predicate Accounted(s: Session, i: nat)
    requires i < |s.p.det.cells|
  {
    s.p.det.cells[i].force || (i in s.latest && (s.latest[i] in s.acked || Underway(s, s.latest[i], i)))
  }

  ghost predicate NoOrphan(s: Session) {
    forall i: nat :: i < |s.p.det.cells| ==> Accounted(s, i)
  }

  /** Armed cells are fully reset, and a detector with cells has seen a frame. */
  predicate Armed(c: Cell) {
    c.force ==> c.prev == 0 && c.meta.prevHalfHash == 0 && c.meta.lastSentFrame == 0
  }

  ghost predicate ArmedInv(p: PState) {
    && (forall i :: 0 <= i < |p.det.cells| ==> Armed(p.det.cells[i]))
    && (p.det.cells != [] ==> p.det.frameCount > 0)
  }

  /** No cell armed when the frame arrives is throttled by it. */
  predicate Punctual(cfg: Config, p: PState, f: Frames.Frame, now: nat)
    requires cfg.Valid()
  {
    forall i :: 0 <= i < |Met(p, f, now).cells| ==> Unthrottled(cfg, Met(p, f, now).cells[i], Met(p, f, now).frameCount + 1)
  }

  lemma ArmedCellIsSent(cfg: Config, c: Cell, l: Look)
    requires cfg.Valid() && Armed(c) && l.half != 0 && l.full != 0
    requires l.first || (c.force && l.frameCount >= cfg.StaticInterval())
    ensures Sent(cfg, c, l)
  {}

  lemma CallKeepsArmed(cfg: Config, hash: Hash, codec: Codec, p: PState, call: Call, p': PState)
    requires ArmedInv(p) && Calls(cfg, hash, codec, p, call, p')
    ensures ArmedInv(p')
    ensures call.DoProcess? ==> forall i :: 0 <= i < |p'.det.cells| ==> !p'.det.cells[i].force
  {
    match call
    case DoProcess(f, now, scale, out, ranges) =>
      var after := Detect(cfg, hash, Met(p, f, now), f);
      if out.Some? {
        StoreIsCacheOnly(f, cfg.GridOf(f), out.value.tiles, out.value.encoded, after.cells, p'.det.cells);
        forall i | 0 <= i < |p'.det.cells|
          ensures !p'.det.cells[i].force
        {
          assert Uncached(p'.det.cells[i]) == Uncached(after.cells[i]);
        }
      }
    case DoInvalidate(epoch, indices) =>
  }

  /** After a frame, every cell it did not put in a batch was neither armed nor on a new
      grid; a frame on a new grid puts every cell in its batch. */
  lemma UncoveredWasCalm(cfg: Config, hash: Hash, codec: Codec, p: PState, call: Call, p': PState, i: nat)
    requires ArmedInv(p) && Calls(cfg, hash, codec, p, call, p') && call.DoProcess? && i < |p'.det.cells|
    requires Punctual(cfg, p, call.frame, call.now)
    requires call.out.Some? ==> i !in call.out.value.ackIndices
    ensures p'.epoch == p.epoch && i < |p.det.cells| && !p.det.cells[i].force
  {
    var f, s := call.frame, Met(p, call.frame, call.now);
    var g := cfg.GridOf(f);
    assert Hashable(hash, ContentAt(cfg, f, i));
    if s.cells == [] || s.cells[i].force {
      assert Armed(CellsFor(cfg, s, f)[i]);
      ArmedCellIsSent(cfg, CellsFor(cfg, s, f)[i], LookAt(cfg, hash, s, f, i));
      SentIsCovered(cfg, hash, codec, s, f, call, i);
    }
  }

  lemma SentIsCovered(cfg: Config, hash: Hash, codec: Codec, s: State, f: Frames.Frame, call: Call, i: nat)
    requires call.DoProcess? && Fits(cfg, s, f) && i < cfg.GridOf(f).CellCount() && SentAt(cfg, hash, s, f, i)
    requires call.out.None? ==> DeltaStream.SentCells(cfg, hash, s, f) == {}
    requires call.out.Some? ==> Output(cfg, hash, codec, s, f, call.scale, call.out.value, call.ranges)
    ensures call.out.Some? && i in call.out.value.ackIndices
  {
    var g, q := cfg.GridOf(f), SentQualities(cfg, hash, s, f, call.scale);
    assert DeltaStream.CellKey(g, i) in DeltaStream.SentCells(cfg, hash, s, f);
    Grids.IndexSplit(g, i);
    assert DeltaStream.CellKey(g, i) in q.Keys;
    assert Merging.Filled(q.Keys, cfg.mergeGap, g.tilesY, i % g.tilesX, i / g.tilesX);
    assert CoversCell(g, call.ranges, i);
  }

  /** A frame on a new grid covers every cell of it, which is why cells lost from an
      older grid can be dropped. */
  lemma NewGridIsCovered(cfg: Config, hash: Hash, codec: Codec, p: PState, call: Call, p': PState)
    requires Calls(cfg, hash, codec, p, call, p') && call.DoProcess? && Met(p, call.frame, call.now).cells == []
    ensures call.out.Some? && forall i: nat :: i in call.out.value.ackIndices <==> i < |p'.det.cells|
  {
    var f, s := call.frame, Met(p, call.frame, call.now);
    var g := cfg.GridOf(f);
    forall i: nat | i < g.CellCount()
      ensures call.out.Some? && i in call.out.value.ackIndices
    {
      assert SentAt(cfg, hash, s, f, i);
      SentIsCovered(cfg, hash, codec, s, f, call, i);
    }
    assert 0 < g.CellCount() by { MulMonotone(1, g.tilesY, g.tilesX); }
    assert call.out.Some? by {
      assert SentAt(cfg, hash, s, f, 0);
      SentIsCovered(cfg, hash, codec, s, f, call, 0);
    }
  }

  // ---------- every step keeps every cell accounted for ----------

  /** The frame of an `Emit` step throttles no armed cell. */
  predicate OnTime(cfg: Config, s: Session, step: SessionStep)
    requires cfg.Valid()
  {
    step.Emit? && step.call.DoProcess? ==> Punctual(cfg, s.p, step.call.frame, step.call.now)
  }

  lemma EmitKeeps(cfg: Config, hash: Hash, codec: Codec, s: Session, step: SessionStep)
    requires cfg.Valid() && step.Emit? && CanStep(cfg, hash, codec, s, step) && OnTime(cfg, s, step)
    requires ArmedInv(s.p) && NoOrphan(s)
    ensures NoOrphan(After(cfg, hash, codec, s, step))
  {
    var s', call := After(cfg, hash, codec, s, step), step.call;
    forall i: nat | i < |s'.p.det.cells|
      ensures Accounted(s', i)
    {
      if call.out.Some? && i in call.out.value.ackIndices {
        CoveredHasTile(cfg, hash, codec, s.p, call, step.next, i);
        assert Carries(s', s'.queue[|s.queue|], i);
        assert Underway(s', s.made, i);
      } else {
        UncoveredWasCalm(cfg, hash, codec, s.p, call, step.next, i);
        assert Accounted(s, i);
        StaysUnderway(s, s', s.latest[i], i);
      }
    }
  }

  lemma CoveredHasTile(cfg: Config, hash: Hash, codec: Codec, p: PState, call: Call, p': PState, i: nat)
    requires Calls(cfg, hash, codec, p, call, p') && call.DoProcess? && call.out.Some?
    requires i in call.out.value.ackIndices
    ensures call.out.value.tiles != []
  {
    assert CoversCell(cfg.GridOf(call.frame), call.ranges, i);
  }

  /** Batches only ever gain places. */
  lemma StaysUnderway(s: Session, s': Session, id: nat, i: nat)
    requires s.queue <= s'.queue && s'.inFlight == s.inFlight && s'.lost == s.lost && s'.p.epoch == s.p.epoch
    ensures Underway(s, id, i) ==> Underway(s', id, i)
  {}

  lemma RegisterKeeps(cfg: Config, hash: Hash, codec: Codec, s: Session, step: SessionStep)
    requires step.Register? && CanStep(cfg, hash, codec, s, step) && NoOrphan(s)
    ensures NoOrphan(After(cfg, hash, codec, s, step))
  {
    var s' := After(cfg, hash, codec, s, step);
    forall i: nat, id | Underway(s, id, i)
      ensures Underway(s', id, i)
    {
      if k :| 0 <= k < |s.queue| && s.queue[k].id == id && Carries(s, s.queue[k], i) {
        if k == 0 {
          assert s'.inFlight[s'.nextSeq].batch == s.queue[0];
        } else {
          assert s'.queue[k - 1] == s.queue[k];
        }
      } else if n :| n in s.inFlight && s.inFlight[n].batch.id == id && Carries(s, s.inFlight[n].batch, i) {
        assert s'.inFlight[n] == s.inFlight[n];
      }
    }
    forall i: nat | i < |s'.p.det.cells| ensures Accounted(s', i) { assert Accounted(s, i); }
  }

  lemma AcknowledgeKeeps(cfg: Config, hash: Hash, codec: Codec, s: Session, step: SessionStep)
    requires step.Acknowledge? && CanStep(cfg, hash, codec, s, step) && NoOrphan(s)
    ensures NoOrphan(After(cfg, hash, codec, s, step))
  {
    var s' := After(cfg, hash, codec, s, step);
    forall i: nat, id | Underway(s, id, i)
      ensures Underway(s', id, i) || id in s'.acked
    {
      if n :| n in s.inFlight && s.inFlight[n].batch.id == id && Carries(s, s.inFlight[n].batch, i) {
        assert n == step.seqNo || n in s'.inFlight;
      }
    }
    forall i: nat | i < |s'.p.det.cells| ensures Accounted(s', i) { assert Accounted(s, i); }
  }

  lemma ExpireKeeps(cfg: Config, hash: Hash, codec: Codec, s: Session, step: SessionStep)
    requires step.Expire? && CanStep(cfg, hash, codec, s, step) && NoOrphan(s)
    ensures NoOrphan(After(cfg, hash, codec, s, step))
  {
    var s' := After(cfg, hash, codec, s, step);
    forall i: nat, id | Underway(s, id, i)
      ensures Underway(s', id, i)
    {
      if n :| n in s.inFlight && s.inFlight[n].batch.id == id && Carries(s, s.inFlight[n].batch, i) {
        if n in step.order {
          var k :| 0 <= k < |step.order| && step.order[k] == n;
          assert s'.lost[|s.lost| + k] == s.inFlight[n].batch;
        } else {
          assert n in s'.inFlight;
        }
      } else if k :| 0 <= k < |s.lost| && s.lost[k].id == id && Carries(s, s.lost[k], i) {
        assert s'.lost[k] == s.lost[k];
      }
    }
    forall i: nat | i < |s'.p.det.cells| ensures Accounted(s', i) { assert Accounted(s, i); }
  }

  lemma RecoverKeeps(cfg: Config, hash: Hash, codec: Codec, s: Session, step: SessionStep)
    requires step.Recover? && CanStep(cfg, hash, codec, s, step) && NoOrphan(s)
    ensures NoOrphan(After(cfg, hash, codec, s, step))
  {
    var s' := After(cfg, hash, codec, s, step);
    forall i: nat, id | i < |s.p.det.cells| && Underway(s, id, i)
      ensures Underway(s', id, i) || s'.p.det.cells[i].force
    {
      if k :| 0 <= k < |s.lost| && s.lost[k].id == id && Carries(s, s.lost[k], i) {
        assert k > 0 ==> s'.lost[k - 1] == s.lost[k];
      }
    }
    forall i: nat | i < |s'.p.det.cells| ensures Accounted(s', i) { assert Accounted(s, i); }
  }

  lemma StepKeeps(cfg: Config, hash: Hash, codec: Codec, s: Session, step: SessionStep)
    requires cfg.Valid() && CanStep(cfg, hash, codec, s, step) && OnTime(cfg, s, step)
    requires ArmedInv(s.p) && NoOrphan(s)
    ensures ArmedInv(After(cfg, hash, codec, s, step).p) && NoOrphan(After(cfg, hash, codec, s, step))
  {
    match step
    case Emit(call, next) =>
      CallKeepsArmed(cfg, hash, codec, s.p, call, next);
      EmitKeeps(cfg, hash, codec, s, step);
    case Register(now) => RegisterKeeps(cfg, hash, codec, s, step);
    case Acknowledge(seqNo) => AcknowledgeKeeps(cfg, hash, codec, s, step);
    case Expire(now, order) => ExpireKeeps(cfg, hash, codec, s, step);
    case Recover(next) =>
      CallKeepsArmed(cfg, hash, codec, s.p, DoInvalidate(s.lost[0].epoch, s.lost[0].cells), next);
      RecoverKeeps(cfg, hash, codec, s, step);
  }

  // ---------- whole sessions ----------

  ghost predicate SessionRun(cfg: Config, hash: Hash, codec: Codec, states: seq<Session>, steps: seq<SessionStep>) {
    && cfg.Valid() && |states| == |steps| + 1
    && states[0].p.det == INITIAL_STATE && states[0].p.size == None && states[0] == Opened(states[0].p)
    && (forall k :: 0 <= k < |steps| ==>
          CanStep(cfg, hash, codec, states[k], steps[k]) && states[k + 1] == After(cfg, hash, codec, states[k], steps[k]))
  }

  /** The clock a step reads, if it reads one. */
  function TimeOf(step: SessionStep): Option<nat> {
    match step
    case Emit(call, _) => if call.DoProcess? then Some(call.now) else None
    case Register(now) => Some(now)
    case Expire(now, _) => Some(now)
    case _ => None
  }

  /** The clock never steps back. */
  predicate Chronological(steps: seq<SessionStep>) {
    forall j, k :: 0 <= j < k < |steps| && TimeOf(steps[j]).Some? && TimeOf(steps[k]).Some? ==>
      TimeOf(steps[j]).value <= TimeOf(steps[k]).value
  }

  ghost predicate AllOnTime(cfg: Config, states: seq<Session>, steps: seq<SessionStep>)
    requires cfg.Valid() && |states| == |steps| + 1
  {
    forall k :: 0 <= k < |steps| ==> OnTime(cfg, states[k], steps[k])
  }

  lemma PrefixSession(cfg: Config, hash: Hash, codec: Codec, states: seq<Session>, steps: seq<SessionStep>, n: nat)
    requires SessionRun(cfg, hash, codec, states, steps) && n <= |steps|
    ensures SessionRun(cfg, hash, codec, states[..n + 1], steps[..n])
    ensures n < |steps| ==> && CanStep(cfg, hash, codec, states[n], steps[n])
                            && states[n + 1] == After(cfg, hash, codec, states[n], steps[n])
  {}

  /** No orphaned cell: in every run in which no frame throttles an armed cell, every
      cell of the current grid is acknowledged, underway or armed, at every point. */
  lemma {:induction false} NoCellIsOrphaned(cfg: Config, hash: Hash, codec: Codec,
                                            states: seq<Session>, steps: seq<SessionStep>)
    requires SessionRun(cfg, hash, codec, states, steps) && AllOnTime(cfg, states, steps)
    ensures ArmedInv(states[|steps|].p) && NoOrphan(states[|steps|])
  {
    if steps != [] {
      var n := |steps| - 1;
      PrefixSession(cfg, hash, codec, states, steps, n);
      NoCellIsOrphaned(cfg, hash, codec, states[..n + 1], steps[..n]);
      assert OnTime(cfg, states[n], steps[n]);
      StepKeeps(cfg, hash, codec, states[n], steps[n]);
    }
  }

  /** An armed cell belongs to a detector that has seen a frame, so its next frame is
      the second at the earliest: an interval of two frames never throttles it. */
  lemma ShortIntervalIsPunctual(cfg: Config, p: PState, f: Frames.Frame, now: nat)
    requires cfg.Valid() && cfg.StaticInterval() <= 2 && ArmedInv(p)
    ensures Punctual(cfg, p, f, now)
  {}

  lemma {:induction false} ShortIntervalIsOnTime(cfg: Config, hash: Hash, codec: Codec,
                                                 states: seq<Session>, steps: seq<SessionStep>)
    requires SessionRun(cfg, hash, codec, states, steps) && cfg.StaticInterval() <= 2
    ensures AllOnTime(cfg, states, steps)
  {
    if steps != [] {
      var n := |steps| - 1;
      PrefixSession(cfg, hash, codec, states, steps, n);
      ShortIntervalIsOnTime(cfg, hash, codec, states[..n + 1], steps[..n]);
      NoCellIsOrphaned(cfg, hash, codec, states[..n + 1], steps[..n]);
      if steps[n].Emit? { ShortIntervalIsPunctual(cfg, states[n].p, steps[n].call.frame, steps[n].call.now); }
      forall k | 0 <= k < |steps|
        ensures OnTime(cfg, states[k], steps[k])
      {
        assert k < n ==> OnTime(cfg, states[..n + 1][k], steps[..n][k]);
      }
    }
  }

  /** Nothing queued, in flight or on its way back, and no cell armed. */
  predicate Quiet(s: Session) {
    s.queue == [] && s.inFlight == map[] && s.lost == [] && forall i :: 0 <= i < |s.p.det.cells| ==> !s.p.det.cells[i].force
  }

  /** A session that has come to rest has had the last batch of every cell acknowledged. */
  lemma QuietMeansAcknowledged(cfg: Config, hash: Hash, codec: Codec, states: seq<Session>, steps: seq<SessionStep>, i: nat)
    requires SessionRun(cfg, hash, codec, states, steps) && AllOnTime(cfg, states, steps)
    requires Quiet(states[|steps|]) && i < |states[|steps|].p.det.cells|
    ensures var s := states[|steps|]; i in s.latest && s.latest[i] in s.acked
  {
    NoCellIsOrphaned(cfg, hash, codec, states, steps);
    assert Accounted(states[|steps|], i);
  }
}
