/** When the page shows an old frame: a pixel is shown, then changed, and the older tile is
    decoded after the newer one. Everything arrives, everything is acknowledged, the session
    comes to rest, and the browser shows the first pixel. */
module LateDecodes {
  import opened Common
  import Grids
  import opened Detection
  import opened DetectionRuns
  import opened Sessions
  import opened Orphans
  import opened SessionLogs
  import opened Canvases
  import opened Deliveries
  import Baselines
  import Clients
  import DeltaStream
  import EncodingPools
  import Pipelines
  import PipelineRuns
  import Wire

  // ---------- the second pixel through the pipeline ----------

  /** The cell after its second frame, which is sent at once: the cell is dynamic. */
  function DotMoved(c: Cell, h: u64): Cell {
    Cell(h, c.prev, c.meta.(prevHalfHash := h, lastSentFrame := 2, lastSentAsDynamic := true, isDynamic := true), false)
  }

  lemma MovedStep(cfg: Config, bytes: seq<byte>, ha: u64, hb: u64)
    requires cfg.Valid() && ha != 0 && hb != 0 && ha != hb
    ensures var c, l := DotKept(ha, bytes), Look(false, false, 2, hb, hb);
            Sent(cfg, c, l) && NextCell(cfg, c, l) == DotMoved(c, hb)
    ensures var c := DotMoved(DotKept(ha, bytes), hb);
            c.meta.cachedEncoded.Some? ==> c.meta.cachedHash != c.prev
  {}

  function AfterSecond(ha: u64, hb: u64, bytes: seq<byte>, more: seq<byte>): PState {
    DotState(Keeping(DotMoved(DotKept(ha, bytes), hb), more), 2)
  }

  lemma SecondSent(cfg: Config, hash: Hash, codec: Codec, a: Pixel, b: Pixel, bytes: seq<byte>)
    returns (call: Call, tile: Grids.Tile, more: seq<byte>)
    requires cfg.Valid() && hash(a) != 0 && hash(b) != 0 && hash(a) != hash(b)
    ensures ShowsDot(codec, b, call, None, tile, more)
    ensures PipelineRuns.Calls(cfg, hash, codec, DotState(DotKept(hash(a), bytes), 1), call,
                               AfterSecond(hash(a), hash(b), bytes, more))
  {
    var c, ha, hb := DotKept(hash(a), bytes), hash(a), hash(b);
    var p := DotState(c, 1);
    var f := Dot(b);
    SecondDetected(cfg, hash, c, b, ha, bytes);
    tile, more := DotOutput(cfg, hash, codec, p.det, b, None);
    DotStored(f, tile, DotMoved(c, hb), more);
    MovedStep(cfg, bytes, ha, hb);
    DotEncoded(codec, b, DotMoved(c, hb), tile);
    assert Pipelines.Met(p, f, 0) == p.det;
    call := PipelineRuns.DoProcess(f, 0, 1.0, Some(DotFrame(None, tile, more)), [DOT_RANGE]);
  }

  lemma SecondDetected(cfg: Config, hash: Hash, c: Cell, b: Pixel, ha: u64, bytes: seq<byte>)
    requires cfg.Valid() && ha != 0 && hash(b) != 0 && ha != hash(b) && c == DotKept(ha, bytes)
    ensures Fits(cfg, State([c], 1), Dot(b)) && AllHashable(cfg, hash, Dot(b))
    ensures cfg.GridOf(Dot(b)) == DOT_GRID && DOT_GRID.CellCount() == 1
    ensures SentAt(cfg, hash, State([c], 1), Dot(b), 0)
    ensures Detect(cfg, hash, State([c], 1), Dot(b)) == State([DotMoved(c, hash(b))], 2)
  {
    DotFirst(cfg, hash, b);
    DotContent(cfg, b);
    assert CellsFor(cfg, State([c], 1), Dot(b)) == [c];
    MovedStep(cfg, bytes, ha, hash(b));
    DotDetected(cfg, hash, State([c], 1), b, c);
  }

  // ---------- both pixels through a session ----------

  const SECOND_BATCH := Batch(1, 0, [0])

  function BothEmitted(p: PState): Session { Session(p, [DOT_BATCH, SECOND_BATCH], 0, map[], [], 2, map[0 := 1], {}) }

  function OneSent(p: PState): Session {
    BothEmitted(p).(queue := [SECOND_BATCH], nextSeq := 1, inFlight := map[1 := Flight(DOT_BATCH, 0)])
  }

  function BothSent(p: PState): Session {
    OneSent(p).(queue := [], nextSeq := 2, inFlight := map[1 := Flight(DOT_BATCH, 0), 2 := Flight(SECOND_BATCH, 0)])
  }

  function SecondAcked(p: PState): Session { BothSent(p).(inFlight := map[1 := Flight(DOT_BATCH, 0)], acked := {1}) }

  function BothAcked(p: PState): Session { SecondAcked(p).(inFlight := map[], acked := {0, 1}) }

  /** A run to `s`, on time throughout, all of it at time 0, that has emitted `log`. */
  ghost predicate RunsTo(cfg: Config, hash: Hash, codec: Codec, states: seq<Session>, steps: seq<SessionStep>,
                         s: Session, log: seq<Call>)
  {
    && SessionRun(cfg, hash, codec, states, steps) && AllOnTime(cfg, states, steps) && states[|steps|] == s
    && LogOf(steps) == log && (forall k :: 0 <= k < |steps| ==> TimeOf(steps[k]) in {None, Some(0)})
  }

  lemma Continued(cfg: Config, hash: Hash, codec: Codec, states: seq<Session>, steps: seq<SessionStep>,
                  s: Session, log: seq<Call>, step: SessionStep, s': Session)
    returns (states': seq<Session>, steps': seq<SessionStep>)
    requires RunsTo(cfg, hash, codec, states, steps, s, log) && Goes(cfg, hash, codec, s, step, s')
    requires OnTime(cfg, s, step) && TimeOf(step) in {None, Some(0)}
    ensures RunsTo(cfg, hash, codec, states', steps', s', if Emits(step) then log + [step.call] else log)
  {
    states', steps' := Extended(cfg, hash, codec, states, steps, step, s');
    StaysOnTime(cfg, states, steps, states', steps', step);
    assert steps'[..|steps|] == steps;
    LogNext(steps');
  }

  lemma StaysOnTime(cfg: Config, states: seq<Session>, steps: seq<SessionStep>,
                    states': seq<Session>, steps': seq<SessionStep>, step: SessionStep)
    requires cfg.Valid() && |states| == |steps| + 1 && |states'| == |steps'| + 1
    requires AllOnTime(cfg, states, steps) && steps' == steps + [step] && states <= states'
    requires OnTime(cfg, states[|steps|], step)
    ensures AllOnTime(cfg, states', steps')
  {
    forall k | 0 <= k < |steps'|
      ensures OnTime(cfg, states'[k], steps'[k])
    {
      if k < |steps| {
        assert OnTime(cfg, states[k], steps[k]) && states'[k] == states[k] && steps'[k] == steps[k];
      }
    }
  }

  lemma FirstIsOnTime(cfg: Config, call: Call, p: Pixel, next: PState)
    requires cfg.Valid() && call.DoProcess? && call.frame == Dot(p)
    ensures OnTime(cfg, Opened(Pipelines.PState(INITIAL_STATE, None, 0, 0)), Emit(call, next))
  {}

  lemma SecondIsOnTime(cfg: Config, call: Call, p: Pixel, h: u64, bytes: seq<byte>, next: PState)
    requires cfg.Valid() && call.DoProcess? && call.frame == Dot(p) && call.now == 0
    ensures OnTime(cfg, Emitted(DotState(DotKept(h, bytes), 1)), Emit(call, next))
  {
    assert Pipelines.Met(DotState(DotKept(h, bytes), 1), Dot(p), 0).cells == [DotKept(h, bytes)];
  }

  lemma SecondIsEmitted(cfg: Config, hash: Hash, codec: Codec, s: Session, call: Call, next: PState)
    requires CanStep(cfg, hash, codec, s, Emit(call, next)) && s == Emitted(s.p) && s.p.epoch == 0
    requires call.out.Some? && call.out.value.tiles != [] && call.out.value.epoch == 0 && call.out.value.ackIndices == [0]
    ensures After(cfg, hash, codec, s, Emit(call, next)) == BothEmitted(next)
  {
    SecondIsLatest(s);
  }

  lemma SecondIsLatest(s: Session)
    requires s.made == 1 && s.latest == map[0 := 0] && s.p.epoch == 0
    ensures Latest(s, 0, [0]) == map[0 := 1]
  {}

  lemma BothAreSent(cfg: Config, hash: Hash, codec: Codec, p: PState)
    ensures Goes(cfg, hash, codec, BothEmitted(p), Register(0), OneSent(p))
    ensures Goes(cfg, hash, codec, OneSent(p), Register(0), BothSent(p))
  {}

  lemma BothAreAcked(cfg: Config, hash: Hash, codec: Codec, p: PState)
    ensures Goes(cfg, hash, codec, BothSent(p), Acknowledge(2), SecondAcked(p))
    ensures Goes(cfg, hash, codec, SecondAcked(p), Acknowledge(1), BothAcked(p))
  {
    assert BothSent(p).inFlight - {2} == SecondAcked(p).inFlight;
    assert SecondAcked(p).inFlight - {1} == map[];
    assert {1} + {0} == {0, 1};
  }

  lemma RunEmits(cfg: Config, hash: Hash, codec: Codec, a: Pixel, b: Pixel)
    returns (states: seq<Session>, steps: seq<SessionStep>, call1: Call, call2: Call, end: PState,
             tile1: Grids.Tile, tile2: Grids.Tile, bytes1: seq<byte>, bytes2: seq<byte>)
    requires cfg.Valid() && hash(a) != 0 && hash(b) != 0 && hash(a) != hash(b)
    ensures ShowsDot(codec, a, call1, Some((1, 1)), tile1, bytes1) && ShowsDot(codec, b, call2, None, tile2, bytes2)
    ensures end == AfterSecond(hash(a), hash(b), bytes1, bytes2)
    ensures RunsTo(cfg, hash, codec, states, steps, BothEmitted(end), [call1, call2])
  {
    call1, tile1, bytes1 := FirstDot(cfg, hash, codec, a);
    call2, tile2, bytes2 := SecondSent(cfg, hash, codec, a, b, bytes1);
    end := AfterSecond(hash(a), hash(b), bytes1, bytes2);
    var start, sent := Opened(Pipelines.PState(INITIAL_STATE, None, 0, 0)), DotState(DotKept(hash(a), bytes1), 1);
    DotIsEmitted(cfg, hash, codec, start, call1, sent);
    FirstIsOnTime(cfg, call1, a, sent);
    states, steps := Continued(cfg, hash, codec, [start], [], start, [], Emit(call1, sent), Emitted(sent));
    SecondIsEmitted(cfg, hash, codec, Emitted(sent), call2, end);
    SecondIsOnTime(cfg, call2, b, hash(a), bytes1, end);
    states, steps := Continued(cfg, hash, codec, states, steps, Emitted(sent), [call1], Emit(call2, end), BothEmitted(end));
  }

  lemma RunRests(cfg: Config, hash: Hash, codec: Codec, before: seq<Session>, taken: seq<SessionStep>, log: seq<Call>,
                 p: PState)
    returns (states: seq<Session>, steps: seq<SessionStep>)
    requires RunsTo(cfg, hash, codec, before, taken, BothEmitted(p), log)
    ensures RunsTo(cfg, hash, codec, states, steps, BothAcked(p), log)
  {
    BothAreSent(cfg, hash, codec, p);
    BothAreAcked(cfg, hash, codec, p);
    states, steps := Continued(cfg, hash, codec, before, taken, BothEmitted(p), log, Register(0), OneSent(p));
    states, steps := Continued(cfg, hash, codec, states, steps, OneSent(p), log, Register(0), BothSent(p));
    states, steps := Continued(cfg, hash, codec, states, steps, BothSent(p), log, Acknowledge(2), SecondAcked(p));
    states, steps := Continued(cfg, hash, codec, states, steps, SecondAcked(p), log, Acknowledge(1), BothAcked(p));
  }

  // ---------- both tiles on the wire ----------

  type WireTile = Wire.WireTile
  type Message = Wire.Message

  function DotOnWire(bytes: seq<byte>): WireTile { Wire.WireTile(0, 0, 1, 1, bytes) }

  /** Lengths that do not look like markers. */
  const SMALL: nat := 65526

  /** A sending that the browser hears as the header of the dot's frame. */
  ghost predicate Opens(s: Sending) {
    Clients.Proper(s) && s.Header? && Wire.DispatchAll(Clients.Packets(s)) == [Wire.Resolution(1, 1)]
  }

  /** A sending that it hears as a batch of the one tile. */
  ghost predicate Brings(s: Sending, seqNo: u32, bytes: seq<byte>) {
    && Clients.Proper(s) && s.Batch? && s.seqNo == seqNo && s.tiles == [DotOnWire(bytes)]
    && Wire.DispatchAll(Clients.Packets(s)) == [Wire.Sequence(seqNo, 1), Wire.TileData([Wire.Seen(DotOnWire(bytes))])]
  }

  lemma HeaderFor() returns (s: Sending)
    ensures Opens(s)
  {
    Wire.HeaderRoundTrip(1, 1);
    s := Clients.Header(Wire.HeaderPacket(1, 1));
    assert Wire.DispatchAll(Clients.Packets(s)) == [Wire.Resolution(1, 1)];
  }

  lemma BatchFor(seqNo: u32, bytes: seq<byte>) returns (s: Sending)
    requires |bytes| < SMALL
    ensures Brings(s, seqNo, bytes)
  {
    var t := DotOnWire(bytes);
    s := Clients.Batch(seqNo, [t], [Wire.SeqPacket(seqNo, 1), Wire.EncodeAll([t])], [[t]]);
    Wire.LoneBatch(seqNo, t);
    Wire.SeqRoundTrip(seqNo, 1);
    Wire.DispatchIff([t]);
    assert Wire.SeenAll([t]) == [Wire.Seen(t)];
    TwoDispatched(Wire.SeqPacket(seqNo, 1), Wire.EncodeAll([t]));
  }

  lemma TwoDispatched(p: seq<byte>, q: seq<byte>)
    ensures Wire.DispatchAll([p, q]) == [Wire.Dispatch(p), Wire.Dispatch(q)]
  {
    assert [p, q][1..] == [q];
  }

  lemma ChannelNext(sendings: seq<Sending>, s: Sending)
    ensures Clients.Channel(sendings + [s]) == Clients.Channel(sendings) + Wire.DispatchAll(Clients.Packets(s))
  {
    assert (sendings + [s])[..|sendings|] == sendings;
  }

  /** The messages of the traffic. */
  function Messages(t: Wire.ClientTile, u: Wire.ClientTile): seq<Message> {
    [Wire.Resolution(1, 1), Wire.Sequence(1, 1), Wire.TileData([t]), Wire.Sequence(2, 1), Wire.TileData([u])]
  }

  lemma AllThree(a: Sending, b: Sending, c: Sending)
    requires Clients.Proper(a) && Clients.Proper(b) && Clients.Proper(c)
    ensures Clients.AllProper([a, b, c])
  {}

  lemma ThreeHeard(a: Sending, b: Sending, c: Sending, t: Wire.ClientTile, u: Wire.ClientTile)
    requires Wire.DispatchAll(Clients.Packets(a)) == [Wire.Resolution(1, 1)]
    requires Wire.DispatchAll(Clients.Packets(b)) == [Wire.Sequence(1, 1), Wire.TileData([t])]
    requires Wire.DispatchAll(Clients.Packets(c)) == [Wire.Sequence(2, 1), Wire.TileData([u])]
    ensures Clients.Channel([a, b, c]) == Messages(t, u)
  {
    ChannelNext([], a);
    ChannelNext([a], b);
    ChannelNext([a, b], c);
    assert [] + [a] == [a] && [a] + [b] == [a, b] && [a, b] + [c] == [a, b, c];
  }

  /** Traffic that a browser hears as the two tiles. */
  ghost predicate Carries(sendings: seq<Sending>, t: Wire.ClientTile, u: Wire.ClientTile) {
    && Clients.AllProper(sendings) && Clients.Channel(sendings) == Messages(t, u)
    && t.x == t.y == 0 && t.width == t.height == 1
  }

  lemma TrafficCarries(a: Sending, b: Sending, c: Sending, t: Wire.ClientTile, u: Wire.ClientTile)
    requires Clients.Proper(a) && Clients.Proper(b) && Clients.Proper(c)
    requires Wire.DispatchAll(Clients.Packets(a)) == [Wire.Resolution(1, 1)]
    requires Wire.DispatchAll(Clients.Packets(b)) == [Wire.Sequence(1, 1), Wire.TileData([t])]
    requires Wire.DispatchAll(Clients.Packets(c)) == [Wire.Sequence(2, 1), Wire.TileData([u])]
    requires t.x == t.y == 0 && t.width == t.height == 1
    ensures Carries([a, b, c], t, u)
  {
    AllThree(a, b, c);
    ThreeHeard(a, b, c, t, u);
  }

  lemma DotIsSeen(bytes: seq<byte>)
    ensures var t := Wire.Seen(DotOnWire(bytes)); t.x == t.y == 0 && t.width == t.height == 1
  {}

  lemma TrafficIsSent(a: Sending, b: Sending, c: Sending, codec: Codec, p: Pixel, q: Pixel, call1: Call, call2: Call,
                      tile1: Grids.Tile, tile2: Grids.Tile, bytes1: seq<byte>, bytes2: seq<byte>)
    requires a.Header? && b.Batch? && b.seqNo == 1 && b.tiles == [DotOnWire(bytes1)]
    requires c.Batch? && c.seqNo == 2 && c.tiles == [DotOnWire(bytes2)]
    requires ShowsDot(codec, p, call1, Some((1, 1)), tile1, bytes1) && ShowsDot(codec, q, call2, None, tile2, bytes2)
    ensures IsLog([call1, call2]) && Sends([a, b, c], [call1, call2])
  {
    assert SentAs(c, call2, 1) && SentAs(b, call1, 0);
    assert [a, b, c][..2] == [a, b] && [call1, call2][..1] == [call1];
    assert [a, b][..0] == [] && [call1][..0] == [];
    assert Sends([a, b], [call1]);
  }

  // ---------- both tiles at the browser ----------

  /** The page after some steps. */
  ghost predicate At(steps: seq<Clients.ClientStep>, c: Client, v: Canvas, msgs: seq<Message>) {
    Clients.ClientAfter(steps) == Some(c) && CanvasAfter(steps) == v && Clients.MessagesOf(steps) == msgs
  }

  lemma PageNext(steps: seq<Clients.ClientStep>, c: Client, v: Canvas, msgs: seq<Message>, step: Clients.ClientStep,
                 c': Client, v': Canvas)
    returns (steps': seq<Clients.ClientStep>)
    requires At(steps, c, v, msgs) && (step.Finished? ==> Clients.CanFinish(c, step.k)) && v' == CanvasStep(c, v, step)
    requires c' == match step
                   case Arrive(m) => Clients.Receive(c, m)
                   case Finished(k, ok) => Clients.Finish(c, k, ok)
                   case Repaint => c
    ensures steps' == steps + [step] && At(steps', c', v', msgs + if step.Arrive? then [step.message] else [])
  {
    steps' := steps + [step];
    assert steps'[..|steps|] == steps;
  }

  function Running(t: Wire.ClientTile, e: nat): Clients.Decoding { Clients.Decoding(t, Some(e), Clients.Running) }

  function Done(t: Wire.ClientTile, e: nat): Clients.Decoding { Clients.Decoding(t, Some(e), Clients.Decoded) }

  function Count(seqNo: u32, remaining: int): Clients.Entry { Clients.Entry(seqNo, 1, remaining) }

  /** An announcement and its tile. */
  lemma OneArrives(seqNo: u32, steps: seq<Clients.ClientStep>, c: Client, v: Canvas, msgs: seq<Message>, t: Wire.ClientTile,
                   c': Client)
    returns (steps': seq<Clients.ClientStep>)
    requires At(steps, c, v, msgs)
    requires c'.entries == c.entries + [Count(seqNo, 1)] && c'.current == Some(|c.entries|)
    requires c'.decodes == c.decodes + [Running(t, |c.entries|)] && c'.acks == c.acks
    ensures At(steps', c', v, msgs + [Wire.Sequence(seqNo, 1), Wire.TileData([t])])
  {
    var e := |c.entries|;
    var c1 := c.(entries := c'.entries, current := Some(e));
    assert Clients.StartAll([t], Some(e)) == [Running(t, e)];
    steps' := PageNext(steps, c, v, msgs, Clients.Arrive(Wire.Sequence(seqNo, 1)), c1, v);
    steps' := PageNext(steps', c1, v, msgs + [Wire.Sequence(seqNo, 1)], Clients.Arrive(Wire.TileData([t])), c', v);
    assert msgs + [Wire.Sequence(seqNo, 1)] + [Wire.TileData([t])]
        == msgs + [Wire.Sequence(seqNo, 1), Wire.TileData([t])];
  }

  /** Everything arrives. */
  lemma AllArrive(t: Wire.ClientTile, u: Wire.ClientTile) returns (steps: seq<Clients.ClientStep>)
    ensures At(steps, Clients.Client([Count(1, 1), Count(2, 1)], Some(1), [Running(t, 0), Running(u, 1)], []),
               Canvas([], [], 0, true), Messages(t, u))
  {
    var v := Canvas([], [], 0, true);
    var c1 := Clients.Client([Count(1, 1)], Some(0), [Running(t, 0)], []);
    var c2 := Clients.Client([Count(1, 1), Count(2, 1)], Some(1), [Running(t, 0), Running(u, 1)], []);
    var m1, m2 := [Wire.Sequence(1, 1), Wire.TileData([t])], [Wire.Sequence(2, 1), Wire.TileData([u])];
    steps := HeaderArrives();
    steps := OneArrives(1, steps, Clients.NEW_CLIENT, v, [Wire.Resolution(1, 1)], t, c1);
    steps := OneArrives(2, steps, c1, v, [Wire.Resolution(1, 1)] + m1, u, c2);
    assert [Wire.Resolution(1, 1)] + m1 + m2 == Messages(t, u);
  }

  lemma HeaderArrives() returns (steps: seq<Clients.ClientStep>)
    ensures At(steps, Clients.NEW_CLIENT, Canvas([], [], 0, true), [Wire.Resolution(1, 1)])
  {
    var r := Wire.Resolution(1, 1);
    steps := PageNext([], Clients.NEW_CLIENT, NEW_CANVAS, [], Clients.Arrive(r), Clients.NEW_CLIENT, Canvas([], [], 0, true));
    assert [] + [r] == [r];
  }

  /** The second tile is decoded before the first; then the page paints. */
  lemma DecodedLate(before: seq<Clients.ClientStep>, msgs: seq<Message>, t: Wire.ClientTile, u: Wire.ClientTile)
    returns (steps: seq<Clients.ClientStep>)
    requires At(before, Clients.Client([Count(1, 1), Count(2, 1)], Some(1), [Running(t, 0), Running(u, 1)], []),
                Canvas([], [], 0, true), msgs)
    ensures At(steps, Clients.Client([Count(1, 0), Count(2, 0)], Some(1), [Done(t, 0), Done(u, 1)], [1, 0]),
               Canvas([Running(u, 1), Running(t, 0)], [], 0, true), msgs)
  {
    var c0 := Clients.Client([Count(1, 1), Count(2, 1)], Some(1), [Running(t, 0), Running(u, 1)], []);
    var c1 := Clients.Client([Count(1, 1), Count(2, 0)], Some(1), [Running(t, 0), Done(u, 1)], [1]);
    var c2 := Clients.Client([Count(1, 0), Count(2, 0)], Some(1), [Done(t, 0), Done(u, 1)], [1, 0]);
    var v1, v2 := Canvas([], [Running(u, 1)], 0, true), Canvas([], [Running(u, 1), Running(t, 0)], 0, true);
    steps := PageNext(before, c0, Canvas([], [], 0, true), msgs, Clients.Finished(1, true), c1, v1);
    steps := PageNext(steps, c1, v1, msgs, Clients.Finished(0, true), c2, v2);
    steps := PageNext(steps, c2, v2, msgs, Clients.Repaint, c2, Canvas([Running(u, 1), Running(t, 0)], [], 0, true));
  }

  // ---------- the run as a whole ----------

  /** Encodes of one pixel are small enough not to be taken for markers. */
  ghost predicate Compact(codec: Codec) {
    forall t: EncodingPools.EncodingTask :: |t.data| == 4 ==> |codec.Produce(t)| < SMALL
  }

  lemma DotServable(cfg: Config, hash: Hash, codec: Codec, decode: Decoder, p: Pixel, call: Call,
                    header: Option<(nat, nat)>, tile: Grids.Tile, bytes: seq<byte>)
    requires ShowsDot(codec, p, call, header, tile, bytes) && PipelineRuns.Lossless(codec, decode) && Compact(codec)
    ensures Servable(hash, decode, call) && |bytes| < SMALL
  {
    DeltaStream.DotPixel(p);
    var t: EncodingPools.EncodingTask :| t.data == p && bytes == codec.Produce(t);
    assert decode(bytes) == p;
  }

  lemma BothArePictures(cfg: Config, hash: Hash, codec: Codec, decode: Decoder, states: seq<Session>, steps: seq<SessionStep>)
    requires SessionRun(cfg, hash, codec, states, steps) && PipelineRuns.Lossless(codec, decode)
    requires forall j: nat :: j < |LogOf(steps)| ==> Servable(hash, decode, LogOf(steps)[j])
    ensures AllPictures(cfg, decode, LogOf(steps))
  {
    forall k | 0 <= k < |LogOf(steps)|
      ensures Pictures(cfg, decode, LogOf(steps)[k])
    {
      RunPictures(cfg, hash, codec, decode, states, steps, k);
    }
  }

  /** The page ends up with the first pixel on top. */
  lemma PageEnds(t: Wire.ClientTile, u: Wire.ClientTile) returns (csteps: seq<Clients.ClientStep>)
    ensures At(csteps, Clients.Client([Count(1, 0), Count(2, 0)], Some(1), [Done(t, 0), Done(u, 1)], [1, 0]),
               Canvas([Running(u, 1), Running(t, 0)], [], 0, true), Messages(t, u))
  {
    csteps := AllArrive(t, u);
    csteps := DecodedLate(csteps, Messages(t, u), t, u);
  }

  lemma AllGenuine(s: Session, c: Client)
    requires s.acked == {0, 1} && c.acks == [1, 0]
    ensures Genuine(s, c)
  {
    assert c.acks[..1] == [1];
  }

  /** What the page shows: the older of the two. */
  lemma ShowsFirst(cfg: Config, decode: Decoder, csteps: seq<Clients.ClientStep>, sendings: seq<Sending>, log: seq<Call>,
                   a: Pixel, t: Wire.ClientTile, u: Wire.ClientTile)
    requires IsLog(log) && Receives(csteps, sendings, log) && AllPictures(cfg, decode, log) && Narrow(log)
    requires log != [] && log[0].frame == Dot(a) && CanvasAfter(csteps).drawn == [Running(u, 1), Running(t, 0)]
    requires t.x == t.y == 0 && t.width == t.height == 1
    ensures LastOver(CanvasAfter(csteps).drawn, 0, 0, 1) && ScreenOf(CanvasAfter(csteps), decode)(0, 0) == a
  {
    assert LastOver(CanvasAfter(csteps).drawn, 0, 0, 1);
    LastCompletedShows(cfg, decode, csteps, sendings, log, 0, 0, 1);
    DeltaStream.DotPixel(a);
  }

  /** The session's side: a run on time that has come to rest. */
  ghost predicate Rests(cfg: Config, hash: Hash, codec: Codec, decode: Decoder, states: seq<Session>,
                        steps: seq<SessionStep>)
  {
    && SessionRun(cfg, hash, codec, states, steps) && AllOnTime(cfg, states, steps) && Chronological(steps)
    && Quiet(states[|steps|]) && AllPictures(cfg, decode, LogOf(steps)) && Narrow(LogOf(steps))
  }

  /** Two batches, the second the latest, both acknowledged. */
  ghost predicate Showed(s: Session, log: seq<Call>, a: Pixel, b: Pixel)
    requires IsLog(log)
  {
    && |log| == 2 && log[0].frame == Dot(a) && log[1].frame == Dot(b)
    && s.latest == map[0 := 1] && s.acked == {0, 1} && |s.p.det.cells| == 1
  }

  lemma SessionRests(cfg: Config, hash: Hash, codec: Codec, decode: Decoder, a: Pixel, b: Pixel)
    returns (states: seq<Session>, steps: seq<SessionStep>, sendings: seq<Sending>, t: Wire.ClientTile, u: Wire.ClientTile)
    requires cfg.Valid() && hash(a) != 0 && hash(b) != 0 && hash(a) != hash(b)
    requires PipelineRuns.Lossless(codec, decode) && Compact(codec)
    ensures Rests(cfg, hash, codec, decode, states, steps) && Carries(sendings, t, u) && Sends(sendings, LogOf(steps))
    ensures Showed(states[|steps|], LogOf(steps), a, b) && AtCell(cfg, states[|steps|], 0, 0, 0)
  {
    var call1, call2, p, tile1, tile2, bytes1, bytes2;
    states, steps, call1, call2, p, tile1, tile2, bytes1, bytes2 := RunEmits(cfg, hash, codec, a, b);
    states, steps := RunRests(cfg, hash, codec, states, steps, [call1, call2], p);
    DotServable(cfg, hash, codec, decode, a, call1, Some((1, 1)), tile1, bytes1);
    DotServable(cfg, hash, codec, decode, b, call2, None, tile2, bytes2);
    EndOfRun(cfg, p, hash(a), hash(b), bytes1, bytes2);
    RunRested(cfg, hash, codec, decode, states, steps, p, call1, call2);
    DotsShowed(call1, call2, a, b, p);
    sendings, t, u := TrafficFor(codec, a, b, call1, call2, tile1, tile2, bytes1, bytes2);
  }

  lemma EndOfRun(cfg: Config, p: PState, ha: u64, hb: u64, bytes1: seq<byte>, bytes2: seq<byte>)
    requires p == AfterSecond(ha, hb, bytes1, bytes2)
    ensures Quiet(BothAcked(p)) && |p.det.cells| == 1 && AtCell(cfg, BothAcked(p), 0, 0, 0)
  {
    assert Grids.New(cfg.tilesX, 1, 1) == DOT_GRID;
  }

  lemma RunRested(cfg: Config, hash: Hash, codec: Codec, decode: Decoder, states: seq<Session>, steps: seq<SessionStep>,
                  p: PState, call1: Call, call2: Call)
    requires call1.DoProcess? && call1.out.Some? && call2.DoProcess? && call2.out.Some?
    requires RunsTo(cfg, hash, codec, states, steps, BothAcked(p), [call1, call2]) && Quiet(BothAcked(p))
    requires PipelineRuns.Lossless(codec, decode)
    requires Servable(hash, decode, call1) && Servable(hash, decode, call2)
    requires call1.frame.width == call1.frame.height == call2.frame.width == call2.frame.height == 1
    ensures Rests(cfg, hash, codec, decode, states, steps)
  {
    BothArePictures(cfg, hash, codec, decode, states, steps);
  }

  lemma DotsShowed(call1: Call, call2: Call, a: Pixel, b: Pixel, p: PState)
    requires call1.DoProcess? && call1.out.Some? && call1.frame == Dot(a)
    requires call2.DoProcess? && call2.out.Some? && call2.frame == Dot(b) && |p.det.cells| == 1
    ensures Showed(BothAcked(p), [call1, call2], a, b)
  {}

  lemma TrafficFor(codec: Codec, a: Pixel, b: Pixel, call1: Call, call2: Call, tile1: Grids.Tile, tile2: Grids.Tile,
                   bytes1: seq<byte>, bytes2: seq<byte>)
    returns (sendings: seq<Sending>, t: Wire.ClientTile, u: Wire.ClientTile)
    requires |bytes1| < SMALL && |bytes2| < SMALL
    requires ShowsDot(codec, a, call1, Some((1, 1)), tile1, bytes1) && ShowsDot(codec, b, call2, None, tile2, bytes2)
    ensures Carries(sendings, t, u) && IsLog([call1, call2]) && Sends(sendings, [call1, call2])
  {
    var header := HeaderFor();
    var first := BatchFor(1, bytes1);
    var second := BatchFor(2, bytes2);
    TrafficIsSent(header, first, second, codec, a, b, call1, call2, tile1, tile2, bytes1, bytes2);
    t, u := Wire.Seen(DotOnWire(bytes1)), Wire.Seen(DotOnWire(bytes2));
    DotIsSeen(bytes1);
    TrafficCarries(header, first, second, t, u);
    sendings := [header, first, second];
  }

  /** The browser's side: everything received and painted, the second pixel first. */
  lemma PageRests(sendings: seq<Sending>, log: seq<Call>, t: Wire.ClientTile, u: Wire.ClientTile)
    returns (csteps: seq<Clients.ClientStep>)
    requires IsLog(log) && Carries(sendings, t, u) && Sends(sendings, log)
    ensures Receives(csteps, sendings, log) && CanvasAfter(csteps).drawn == [Running(u, 1), Running(t, 0)]
    ensures CanvasAfter(csteps).pending == [] && Clients.ClientAfter(csteps).value.acks == [1, 0]
  {
    csteps := PageEnds(t, u);
  }

  lemma PageRested(cfg: Config, hash: Hash, codec: Codec, decode: Decoder, states: seq<Session>, steps: seq<SessionStep>,
                   csteps: seq<Clients.ClientStep>, sendings: seq<Sending>)
    requires Rests(cfg, hash, codec, decode, states, steps) && Receives(csteps, sendings, LogOf(steps))
    requires states[|steps|].acked == {0, 1}
    requires CanvasAfter(csteps).pending == [] && Clients.ClientAfter(csteps).value.acks == [1, 0]
    ensures Resting(cfg, hash, codec, decode, states, steps, csteps, sendings)
  {
    AllGenuine(states[|steps|], Clients.ClientAfter(csteps).value);
  }

  /** The order of completion matters: for every two pixels with different nonzero hashes and
      every lossless codec with small encodes of a pixel, there is a run, on time, in which the browser receives
      everything and acknowledges everything, the session comes to rest, and the browser
      shows the first pixel although the latest batch, acknowledged, shows the second. */
  lemma LateDecodeShowsOld(cfg: Config, hash: Hash, codec: Codec, decode: Decoder, a: Pixel, b: Pixel)
    returns (states: seq<Session>, steps: seq<SessionStep>, csteps: seq<Clients.ClientStep>, sendings: seq<Sending>)
    requires cfg.Valid() && hash(a) != 0 && hash(b) != 0 && hash(a) != hash(b)
    requires PipelineRuns.Lossless(codec, decode) && Compact(codec)
    ensures Resting(cfg, hash, codec, decode, states, steps, csteps, sendings) && Chronological(steps)
    ensures Showed(states[|steps|], LogOf(steps), a, b) && AtCell(cfg, states[|steps|], 0, 0, 0)
    ensures ScreenOf(CanvasAfter(csteps), decode)(0, 0) == a != b
  {
    var t, u;
    states, steps, sendings, t, u := SessionRests(cfg, hash, codec, decode, a, b);
    csteps := PageRests(sendings, LogOf(steps), t, u);
    PageRested(cfg, hash, codec, decode, states, steps, csteps, sendings);
    ShowsFirst(cfg, decode, csteps, sendings, LogOf(steps), a, t, u);
  }

  function AsBytes(data: seq<bv8>): seq<byte> { seq(|data|, k requires 0 <= k < |data| => data[k] as byte) }

  function AsPixels(bytes: seq<byte>): seq<bv8> { seq(|bytes|, k requires 0 <= k < |bytes| => bytes[k] as bv8) }

  /** A codec that sends pixels as they are. */
  const PLAIN := Pipelines.Codec((t: EncodingPools.EncodingTask) => AsBytes(t.data),
                                 (t: EncodingPools.EncodingTask) => AsBytes(t.data))

  lemma ByteOfPixel(v: bv8)
    ensures (v as byte) as bv8 == v
  {}

  lemma PlainIsLossless()
    ensures PipelineRuns.Lossless(PLAIN, AsPixels) && Compact(PLAIN)
  {
    forall t: EncodingPools.EncodingTask
      ensures AsPixels(PLAIN.Produce(t)) == t.data
    {
      forall k | 0 <= k < |t.data| ensures AsPixels(AsBytes(t.data))[k] == t.data[k] { ByteOfPixel(t.data[k]); }
    }
  }

  /** With the engine's own hash there is such a run for every configuration. */
  lemma LateDecodeHappens(cfg: Config, lanes: nat)
    returns (states: seq<Session>, steps: seq<SessionStep>, csteps: seq<Clients.ClientStep>, sendings: seq<Sending>)
    requires cfg.Valid() && 0 < lanes <= 4
    ensures Resting(cfg, Baselines.ByteHash(lanes), PLAIN, AsPixels, states, steps, csteps, sendings)
    ensures Chronological(steps) && |states[|steps|].p.det.cells| == 1 && AtCell(cfg, states[|steps|], 0, 0, 0)
    ensures 0 in states[|steps|].latest && states[|steps|].latest[0] < |LogOf(steps)|
    ensures !LatestPixel(states[|steps|], LogOf(steps), 0, 0, 0, ScreenOf(CanvasAfter(csteps), AsPixels)(0, 0))
  {
    var a, b := Baselines.TwoOrdinaryPixels(lanes);
    Baselines.PixelsHashApart(lanes, a, b);
    PlainIsLossless();
    states, steps, csteps, sendings := LateDecodeShowsOld(cfg, Baselines.ByteHash(lanes), PLAIN, AsPixels, a, b);
    DeltaStream.DotPixel(b);
  }
}
