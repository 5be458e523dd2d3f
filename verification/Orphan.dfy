/** When loss recovery fails: one pixel, lost once and shown again unchanged. With a static
    interval of three frames or more the forced resend of the second frame is throttled
    away, whatever the codec and whatever hash the pixel does not send to zero. */
module Orphans {
  import opened Common
  import Grids
  import Frames
  import Merging
  import opened Detection
  import opened DetectionRuns
  import opened Sessions
  import Baselines
  import DeltaStream
  import EncodingPools
  import Pipelines
  import PipelineRuns

  type Codec = Pipelines.Codec
  type Call = PipelineRuns.Call
  type PState = Pipelines.PState

  const DOT_RANGE := DeltaStream.DOT_RANGE

  lemma DotMerge(gap: nat, q: Merging.Qualities)
    requires q.Keys == {(0, 0)}
    ensures var tile := Grids.RangeTile(DOT_GRID, DOT_RANGE, Merging.Average(q, DOT_RANGE));
            Merging.IsMerge(DOT_GRID, gap, q, [tile], [DOT_RANGE])
  {
    var run := Merging.Run(0, 0);
    assert Merging.Filled(q.Keys, gap, 1, 0, 0);
    assert Merging.IsRun(q.Keys, gap, 1, 0, run);
    assert Merging.IsRunGroup(q.Keys, gap, DOT_GRID, run, 0, 0);
    assert [DOT_RANGE][0].Has(0, 0);
  }

  // ---------- the dot through the pipeline ----------

  /** The cell after its first frame, with `h` the hash of the dot; after it was reported
      lost; and after the throttled resend. */
  function DotFresh(h: u64): Cell { Cell(h, 0, TileMetadata(1, false, false, h, None, 0), false) }

  const DOT_LOST := Cell(0, 0, TileMetadata(0, false, false, 0, None, 0), true)

  function DotThrottled(h: u64): Cell { Cell(h, 0, TileMetadata(0, false, false, h, None, 0), false) }

  /** The encode is kept unless the codec produced nothing. */
  function Keeping(c: Cell, bytes: seq<byte>): Cell { if bytes == [] then c else Pipelines.WithCache(c, bytes) }

  function DotKept(h: u64, bytes: seq<byte>): Cell { Keeping(DotFresh(h), bytes) }

  function DotState(c: Cell, frameCount: nat): PState {
    Pipelines.PState(State([c], frameCount), Some((1, 1)), 0, 0)
  }

  lemma DotDetected(cfg: Config, hash: Hash, s: State, p: Pixel, c: Cell)
    requires Fits(cfg, s, Dot(p)) && CellsFor(cfg, s, Dot(p)) == [c]
    ensures cfg.GridOf(Dot(p)) == DOT_GRID && DOT_GRID.CellCount() == 1
    ensures var l := Look(s.cells == [], false, s.frameCount + 1, hash(p), hash(p));
            && Detect(cfg, hash, s, Dot(p)) == State([NextCell(cfg, c, l)], s.frameCount + 1)
            && (SentAt(cfg, hash, s, Dot(p), 0) <==> Sent(cfg, c, l))
  {
    DotContent(cfg, p);
    assert LookAt(cfg, hash, s, Dot(p), 0) == Look(s.cells == [], false, s.frameCount + 1, hash(p), hash(p));
  }

  lemma DotSteps(cfg: Config, h: u64)
    requires cfg.Valid() && h != 0
    ensures var first := Look(true, false, 1, h, h);
            Sent(cfg, FRESH_CELL, first) && NextCell(cfg, FRESH_CELL, first) == DotFresh(h)
    ensures cfg.StaticInterval() >= 3 ==>
              && !Sent(cfg, DOT_LOST, Look(false, false, 2, h, h))
              && NextCell(cfg, DOT_LOST, Look(false, false, 2, h, h)) == DotThrottled(h)
  {}

  lemma DotFirst(cfg: Config, hash: Hash, p: Pixel)
    requires cfg.Valid() && hash(p) != 0
    ensures Fits(cfg, INITIAL_STATE, Dot(p)) && AllHashable(cfg, hash, Dot(p))
    ensures SentAt(cfg, hash, INITIAL_STATE, Dot(p), 0)
    ensures Detect(cfg, hash, INITIAL_STATE, Dot(p)) == State([DotFresh(hash(p))], 1)
  {
    DotContent(cfg, p);
    DotSteps(cfg, hash(p));
    assert CellsFor(cfg, INITIAL_STATE, Dot(p)) == [FRESH_CELL];
    DotDetected(cfg, hash, INITIAL_STATE, p, FRESH_CELL);
  }

  lemma DotTile(cfg: Config, hash: Hash, s: State, p: Pixel) returns (tile: Grids.Tile)
    requires cfg.Valid() && Fits(cfg, s, Dot(p))
    requires cfg.GridOf(Dot(p)) == DOT_GRID && SentAt(cfg, hash, s, Dot(p), 0)
    ensures Merging.IsMerge(DOT_GRID, cfg.mergeGap, Pipelines.SentQualities(cfg, hash, s, Dot(p), 1.0), [tile], [DOT_RANGE])
    ensures tile.Area() == Grids.Rect(0, 0, 1, 1)
  {
    var q := Pipelines.SentQualities(cfg, hash, s, Dot(p), 1.0);
    assert DeltaStream.CellKey(DOT_GRID, 0) == (0, 0);
    assert q.Keys == {(0, 0)};
    DotMerge(cfg.mergeGap, q);
    tile := Grids.RangeTile(DOT_GRID, DOT_RANGE, Merging.Average(q, DOT_RANGE));
  }

  /** The frame that the dot alone is emitted as. */
  function DotFrame(header: Option<(nat, nat)>, tile: Grids.Tile, bytes: seq<byte>): Pipelines.EncodedFrame {
    Pipelines.EncodedFrame(header, [tile], [bytes], [0], 0)
  }

  /** Any detector state that sends the dot makes the pipeline emit it. */
  lemma DotOutput(cfg: Config, hash: Hash, codec: Codec, s: State, p: Pixel, header: Option<(nat, nat)>)
    returns (tile: Grids.Tile, bytes: seq<byte>)
    requires cfg.Valid() && Fits(cfg, s, Dot(p)) && cfg.GridOf(Dot(p)) == DOT_GRID && DOT_GRID.CellCount() == 1
    requires SentAt(cfg, hash, s, Dot(p), 0)
    ensures Pipelines.Output(cfg, hash, codec, s, Dot(p), 1.0, DotFrame(header, tile, bytes), [DOT_RANGE])
    ensures tile.Area() == Grids.Rect(0, 0, 1, 1) && Pipelines.Placed(Dot(p), DOT_GRID, [tile])
    ensures tile.RepresentativeIndex(DOT_GRID) == 0
    ensures bytes == Pipelines.BytesFor(codec, Dot(p), DOT_GRID, Detect(cfg, hash, s, Dot(p)).cells, tile)
  {
    tile := DotTile(cfg, hash, s, p);
    var q := Pipelines.SentQualities(cfg, hash, s, Dot(p), 1.0);
    Pipelines.MergeIsPlaced(Dot(p), DOT_GRID, cfg.mergeGap, q, [tile], [DOT_RANGE]);
    assert [tile][0] == tile;
    bytes := Pipelines.BytesFor(codec, Dot(p), DOT_GRID, Detect(cfg, hash, s, Dot(p)).cells, tile);
    assert [DOT_RANGE][0].Has(0, 0);
    assert Pipelines.ListsCovered(DOT_GRID, [DOT_RANGE], [0]);
  }

  lemma DotStored(f: Frames.Frame, tile: Grids.Tile, c: Cell, bytes: seq<byte>)
    requires tile.Area() == Grids.Rect(0, 0, 1, 1) && Pipelines.Placed(f, DOT_GRID, [tile])
    ensures Pipelines.Stored(f, DOT_GRID, [tile], [bytes], 1, [c], [Keeping(c, bytes)])
  {
    assert bytes != [] ==> Pipelines.StoresAt(DOT_GRID, [tile], [bytes], 0, 0);
  }

  /** The bytes of a tile that the cache does not serve are what the codec produces for
      the dot. */
  lemma DotEncoded(codec: Codec, p: Pixel, c: Cell, tile: Grids.Tile)
    requires tile.Area() == Grids.Rect(0, 0, 1, 1) && tile.RepresentativeIndex(DOT_GRID) == 0
    requires Dot(p).Inside(tile.Area()) && (c.meta.cachedEncoded.Some? ==> c.meta.cachedHash != c.prev)
    ensures Encodes(codec, p, Pipelines.BytesFor(codec, Dot(p), DOT_GRID, [c], tile))
  {
    DeltaStream.DotPixel(p);
    var t := Pipelines.TaskOf(Dot(p), DOT_GRID, tile);
    assert t.data == p && Pipelines.BytesFor(codec, Dot(p), DOT_GRID, [c], tile) == codec.Produce(t);
  }

  ghost predicate Encodes(codec: Codec, p: Pixel, bytes: seq<byte>) {
    exists t: EncodingPools.EncodingTask :: t.data == p && bytes == codec.Produce(t)
  }

  /** A frame that shows the dot alone, emitted at time 0. */
  ghost predicate ShowsDot(codec: Codec, p: Pixel, call: Call, header: Option<(nat, nat)>, tile: Grids.Tile, bytes: seq<byte>) {
    && call == PipelineRuns.DoProcess(Dot(p), 0, 1.0, Some(DotFrame(header, tile, bytes)), [DOT_RANGE])
    && tile.Area() == Grids.Rect(0, 0, 1, 1) && Encodes(codec, p, bytes)
  }

  lemma FirstDot(cfg: Config, hash: Hash, codec: Codec, p: Pixel) returns (call: Call, tile: Grids.Tile, bytes: seq<byte>)
    requires cfg.Valid() && hash(p) != 0
    ensures ShowsDot(codec, p, call, Some((1, 1)), tile, bytes)
    ensures PipelineRuns.Calls(cfg, hash, codec, Pipelines.PState(INITIAL_STATE, None, 0, 0), call,
                               DotState(DotKept(hash(p), bytes), 1))
  {
    DotFirst(cfg, hash, p);
    DotContent(cfg, p);
    tile, bytes := DotOutput(cfg, hash, codec, INITIAL_STATE, p, Some((1, 1)));
    DotStored(Dot(p), tile, DotFresh(hash(p)), bytes);
    DotEncoded(codec, p, DotFresh(hash(p)), tile);
    call := PipelineRuns.DoProcess(Dot(p), 0, 1.0, Some(DotFrame(Some((1, 1)), tile, bytes)), [DOT_RANGE]);
  }

  lemma SecondDot(cfg: Config, hash: Hash, codec: Codec, p: Pixel) returns (call: Call)
    requires cfg.Valid() && cfg.StaticInterval() >= 3 && hash(p) != 0
    ensures call.DoProcess? && call.now == 151 && call.out.None?
    ensures PipelineRuns.Calls(cfg, hash, codec, DotState(DOT_LOST, 1), call, DotState(DotThrottled(hash(p)), 2))
  {
    var p0 := DotState(DOT_LOST, 1);
    DotFirst(cfg, hash, p);
    DotContent(cfg, p);
    assert Pipelines.Met(p0, Dot(p), 151) == p0.det;
    assert CellsFor(cfg, p0.det, Dot(p)) == [DOT_LOST];
    DotSteps(cfg, hash(p));
    DotDetected(cfg, hash, p0.det, p, DOT_LOST);
    call := PipelineRuns.DoProcess(Dot(p), 151, 1.0, None, []);
  }

  // ---------- the dot through a session ----------

  const DOT_BATCH := Batch(0, 0, [0])

  function Emitted(p: PState): Session { Session(p, [DOT_BATCH], 0, map[], [], 1, map[0 := 0], {}) }

  function InFlight(p: PState): Session { Emitted(p).(queue := [], nextSeq := 1, inFlight := map[1 := Flight(DOT_BATCH, 0)]) }

  function Expired(p: PState): Session { InFlight(p).(inFlight := map[], lost := [DOT_BATCH]) }

  /** The session once the loss has been handed to the pipeline. */
  function Rearmed(p: PState): Session { Expired(p).(lost := []) }

  ghost predicate Goes(cfg: Config, hash: Hash, codec: Codec, s: Session, step: SessionStep, s': Session) {
    CanStep(cfg, hash, codec, s, step) && After(cfg, hash, codec, s, step) == s'
  }

  lemma DotIsEmitted(cfg: Config, hash: Hash, codec: Codec, s: Session, call: Call, next: PState)
    requires CanStep(cfg, hash, codec, s, Emit(call, next)) && s == Opened(s.p) && s.p.epoch == 0
    requires call.out.Some? && call.out.value.tiles != [] && call.out.value.epoch == 0 && call.out.value.ackIndices == [0]
    ensures After(cfg, hash, codec, s, Emit(call, next)) == Emitted(next)
  {
    assert Latest(s, 0, [0]) == map[0 := 0];
  }

  lemma DotIsLost(cfg: Config, hash: Hash, codec: Codec, h: u64, bytes: seq<byte>)
    ensures var sent, lost := DotState(DotKept(h, bytes), 1), DotState(DOT_LOST, 1);
            && Goes(cfg, hash, codec, Emitted(sent), Register(0), InFlight(sent))
            && Goes(cfg, hash, codec, InFlight(sent), Expire(151, [1]), Expired(sent))
            && Goes(cfg, hash, codec, Expired(sent), Recover(lost), Rearmed(lost))
  {
    var s := InFlight(DotState(DotKept(h, bytes), 1));
    assert forall n: u32 :: n in [1] <==> n in s.inFlight && FlightExpired(s.inFlight[n], 151);
    assert Batched(s.inFlight, [1]) == [DOT_BATCH];
    assert InvalidateTiles(State([DotKept(h, bytes)], 1), [0]) == State([DOT_LOST], 1);
  }

  lemma DotIsOrphaned(cfg: Config, hash: Hash, codec: Codec, call: Call, h: u64)
    requires call.DoProcess? && call.out.None?
    requires PipelineRuns.Calls(cfg, hash, codec, DotState(DOT_LOST, 1), call, DotState(DotThrottled(h), 2))
    ensures var end := DotState(DotThrottled(h), 2);
            Goes(cfg, hash, codec, Rearmed(DotState(DOT_LOST, 1)), Emit(call, end), Rearmed(end))
  {
    var s := Rearmed(DotState(DOT_LOST, 1));
    assert Latest(s, 0, []) == s.latest;
  }

  lemma EndIsOrphan(h: u64)
    ensures !NoOrphan(Rearmed(DotState(DotThrottled(h), 2)))
  {
    assert !Accounted(Rearmed(DotState(DotThrottled(h), 2)), 0);
  }

  lemma Extended(cfg: Config, hash: Hash, codec: Codec, states: seq<Session>, steps: seq<SessionStep>,
                 step: SessionStep, s': Session)
    returns (states': seq<Session>, steps': seq<SessionStep>)
    requires SessionRun(cfg, hash, codec, states, steps) && Goes(cfg, hash, codec, states[|steps|], step, s')
    ensures SessionRun(cfg, hash, codec, states', steps') && states'[|steps'|] == s'
    ensures states' == states + [s'] && steps' == steps + [step]
  {
    states', steps' := states + [s'], steps + [step];
    forall k | 0 <= k < |steps'|
      ensures Goes(cfg, hash, codec, states'[k], steps'[k], states'[k + 1])
    {
      if k < |steps| {
        assert states'[k] == states[k] && steps'[k] == steps[k] && states'[k + 1] == states[k + 1];
      }
    }
  }

  lemma DotRunEmits(cfg: Config, hash: Hash, codec: Codec, call: Call, sent: PState)
    returns (states: seq<Session>, steps: seq<SessionStep>)
    requires cfg.Valid() && call.DoProcess?
    requires PipelineRuns.Calls(cfg, hash, codec, Pipelines.PState(INITIAL_STATE, None, 0, 0), call, sent)
    requires call.out.Some? && call.out.value.tiles != [] && call.out.value.epoch == 0 && call.out.value.ackIndices == [0]
    ensures SessionRun(cfg, hash, codec, states, steps)
    ensures states[|steps|] == Emitted(sent) && steps == [Emit(call, sent)]
  {
    var start := Opened(Pipelines.PState(INITIAL_STATE, None, 0, 0));
    DotIsEmitted(cfg, hash, codec, start, call, sent);
    states, steps := Extended(cfg, hash, codec, [start], [], Emit(call, sent), Emitted(sent));
  }

  lemma DotRunLoses(cfg: Config, hash: Hash, codec: Codec, h: u64, bytes: seq<byte>,
                    before: seq<Session>, taken: seq<SessionStep>)
    returns (states: seq<Session>, steps: seq<SessionStep>)
    requires SessionRun(cfg, hash, codec, before, taken)
    requires before[|taken|] == Emitted(DotState(DotKept(h, bytes), 1))
    ensures SessionRun(cfg, hash, codec, states, steps) && states[|steps|] == Rearmed(DotState(DOT_LOST, 1))
    ensures steps == taken + [Register(0), Expire(151, [1]), Recover(DotState(DOT_LOST, 1))]
  {
    var sent, lost := DotState(DotKept(h, bytes), 1), DotState(DOT_LOST, 1);
    DotIsLost(cfg, hash, codec, h, bytes);
    states, steps := Extended(cfg, hash, codec, before, taken, Register(0), InFlight(sent));
    states, steps := Extended(cfg, hash, codec, states, steps, Expire(151, [1]), Expired(sent));
    states, steps := Extended(cfg, hash, codec, states, steps, Recover(lost), Rearmed(lost));
  }

  lemma DotRunEnds(cfg: Config, hash: Hash, codec: Codec, call: Call, h: u64,
                   before: seq<Session>, taken: seq<SessionStep>)
    returns (states: seq<Session>, steps: seq<SessionStep>)
    requires SessionRun(cfg, hash, codec, before, taken) && before[|taken|] == Rearmed(DotState(DOT_LOST, 1))
    requires call.DoProcess? && call.out.None?
    requires PipelineRuns.Calls(cfg, hash, codec, DotState(DOT_LOST, 1), call, DotState(DotThrottled(h), 2))
    ensures SessionRun(cfg, hash, codec, states, steps)
    ensures states[|steps|] == Rearmed(DotState(DotThrottled(h), 2))
    ensures steps == taken + [Emit(call, DotState(DotThrottled(h), 2))]
  {
    var end := DotState(DotThrottled(h), 2);
    DotIsOrphaned(cfg, hash, codec, call, h);
    states, steps := Extended(cfg, hash, codec, before, taken, Emit(call, end), Rearmed(end));
  }

  /** The schedule: the dot is emitted and registered at time 0, expires at 151, and its
      resend meets a frame at 151. */
  function DotSchedule(call1: Call, sent: PState, lost: PState, call2: Call, end: PState): seq<SessionStep> {
    [Emit(call1, sent), Register(0), Expire(151, [1]), Recover(lost), Emit(call2, end)]
  }

  lemma DotIsChronological(call1: Call, sent: PState, lost: PState, call2: Call, end: PState)
    requires call1.DoProcess? && call1.now == 0 && call2.DoProcess? && call2.now == 151
    ensures Chronological(DotSchedule(call1, sent, lost, call2, end))
  {}

  /** With a static interval of three frames or more there is a run that orphans a cell,
      for every codec and every hash that some pixel does not send to zero. */
  lemma LongIntervalOrphans(cfg: Config, hash: Hash, codec: Codec, p: Pixel)
    returns (states: seq<Session>, steps: seq<SessionStep>)
    requires cfg.Valid() && cfg.StaticInterval() >= 3 && hash(p) != 0
    ensures SessionRun(cfg, hash, codec, states, steps) && Chronological(steps) && !NoOrphan(states[|steps|])
  {
    var call1, tile, bytes := FirstDot(cfg, hash, codec, p);
    var call2 := SecondDot(cfg, hash, codec, p);
    var sent, lost, end := DotState(DotKept(hash(p), bytes), 1), DotState(DOT_LOST, 1), DotState(DotThrottled(hash(p)), 2);
    states, steps := DotRunEmits(cfg, hash, codec, call1, sent);
    states, steps := DotRunLoses(cfg, hash, codec, hash(p), bytes, states, steps);
    states, steps := DotRunEnds(cfg, hash, codec, call2, hash(p), states, steps);
    assert steps == DotSchedule(call1, sent, lost, call2, end);
    DotIsChronological(call1, sent, lost, call2, end);
    EndIsOrphan(hash(p));
  }

  // ---------- the exact condition ----------

  ghost predicate NeverOrphans(cfg: Config, hash: Hash, codec: Codec)
    requires cfg.Valid()
  {
    forall states, steps ::
      SessionRun(cfg, hash, codec, states, steps) && Chronological(steps) ==> NoOrphan(states[|steps|])
  }

  /** Loss recovery never loses a cell, over all runs, exactly when the static interval is
      at most two frames, for every codec and every hash that some pixel does not send to
      zero. */
  lemma NeverOrphansIff(cfg: Config, hash: Hash, codec: Codec, p: Pixel)
    requires cfg.Valid() && hash(p) != 0
    ensures NeverOrphans(cfg, hash, codec) <==> cfg.StaticInterval() <= 2
  {
    if cfg.StaticInterval() <= 2 {
      forall states, steps | SessionRun(cfg, hash, codec, states, steps) && Chronological(steps)
        ensures NoOrphan(states[|steps|])
      {
        ShortIntervalIsOnTime(cfg, hash, codec, states, steps);
        NoCellIsOrphaned(cfg, hash, codec, states, steps);
      }
    } else {
      var states, steps := LongIntervalOrphans(cfg, hash, codec, p);
    }
  }

  /** The engine with its own hash: the defaults, 60 frames per second with 16 for static
      tiles, make the interval three frames, so some run orphans a cell. */
  lemma DefaultsOrphanACell(cfg: Config, lanes: nat, codec: Codec)
    requires cfg.Valid() && cfg.targetFps == 60 && cfg.staticTileFps == 16 && 0 < lanes <= 4
    ensures cfg.StaticInterval() == 3 && !NeverOrphans(cfg, Baselines.ByteHash(lanes), codec)
  {
    var a, b := Baselines.TwoOrdinaryPixels(lanes);
    NeverOrphansIff(cfg, Baselines.ByteHash(lanes), codec, a);
  }
}
