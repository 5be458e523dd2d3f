/** What a session has emitted, and the screen it would make if every frame were drawn in
    order: each pixel is that of the last frame whose batch covered the pixel's cell. */
module SessionLogs {
  import opened Common
  import Grids
  import opened Frames
  import opened DetectionRuns
  import opened DeltaStream
  import opened Pipelines
  import opened PipelineRuns
  import opened Sessions
  import Detection
  import Merging

  type Config = Detection.Config

  // ---------- the frames that became batches ----------

  predicate Emits(step: SessionStep) {
    step.Emit? && step.call.DoProcess? && step.call.out.Some? && step.call.out.value.tiles != []
  }

  /** The frames of a run that carried tiles; batch `k` is frame `k`. */
  function LogOf(steps: seq<SessionStep>): (log: seq<Call>)
    ensures forall k :: 0 <= k < |log| ==> log[k].DoProcess? && log[k].out.Some?
  {
    if steps == [] then [] else
      var last := steps[|steps| - 1];
      LogOf(steps[..|steps| - 1]) + (if Emits(last) then [last.call] else [])
  }

  lemma LogNext(steps: seq<SessionStep>)
    requires steps != []
    ensures var n := |steps| - 1;
            LogOf(steps) == if Emits(steps[n]) then LogOf(steps[..n]) + [steps[n].call] else LogOf(steps[..n])
  {}

  ghost predicate IsLog(log: seq<Call>) {
    forall k :: 0 <= k < |log| ==> log[k].DoProcess? && log[k].out.Some?
  }

  /** Batch `k` covers cell `i` of the current grid; later batches are of the same grid and
      do not cover it. */
  ghost predicate LastToCover(s: Session, log: seq<Call>, i: nat, k: nat)
    requires IsLog(log)
  {
    && k < |log| && i in log[k].out.value.ackIndices
    && s.p.size == Some((log[k].frame.width, log[k].frame.height))
    && (forall m: nat :: k < m < |log| ==>
          && i !in log[m].out.value.ackIndices && log[m].out.value.header.None?
          && s.p.size == Some((log[m].frame.width, log[m].frame.height)))
  }

  ghost predicate Logged(s: Session, log: seq<Call>)
    requires IsLog(log)
  {
    |log| == s.made && forall i :: i in s.latest ==> LastToCover(s, log, i, s.latest[i])
  }

  /** What a step that emits a batch does to the record. */
  ghost predicate Grew(s: Session, s': Session, call: Call)
    requires call.DoProcess? && call.out.Some?
  {
    && s'.made == s.made + 1 && s'.p.size == Some((call.frame.width, call.frame.height))
    && (forall i :: i in s'.latest ==>
          (if i in call.out.value.ackIndices then s'.latest[i] == s.made
           else i in s.latest && s'.latest[i] == s.latest[i]
                && (s.p.size.Some? ==> s'.p.size == s.p.size && call.out.value.header.None?)))
  }

  /** What any other step does: it forgets the record of an old grid at most. */
  ghost predicate Stayed(s: Session, s': Session) {
    && s'.made == s.made
    && (forall i :: i in s'.latest ==> i in s.latest && s'.latest[i] == s.latest[i]
                                       && (s.p.size.Some? ==> s'.p.size == s.p.size))
  }

  lemma EmitGrows(cfg: Config, hash: Hash, codec: Codec, s: Session, step: SessionStep)
    requires Emits(step) && CanStep(cfg, hash, codec, s, step)
    ensures Grew(s, After(cfg, hash, codec, s, step), step.call)
  {}

  lemma OtherStays(cfg: Config, hash: Hash, codec: Codec, s: Session, step: SessionStep)
    requires !Emits(step) && CanStep(cfg, hash, codec, s, step)
    ensures Stayed(s, After(cfg, hash, codec, s, step))
  {}

  lemma EmitLogged(s: Session, s': Session, log: seq<Call>, call: Call)
    requires IsLog(log) && Logged(s, log) && call.DoProcess? && call.out.Some? && Grew(s, s', call)
    ensures IsLog(log + [call]) && Logged(s', log + [call])
  {
    forall i | i in s'.latest
      ensures LastToCover(s', log + [call], i, s'.latest[i])
    {
      assert i !in call.out.value.ackIndices ==> LastToCover(s, log, i, s.latest[i]);
    }
  }

  lemma OtherLogged(s: Session, s': Session, log: seq<Call>)
    requires IsLog(log) && Logged(s, log) && Stayed(s, s')
    ensures Logged(s', log)
  {
    forall i | i in s'.latest
      ensures LastToCover(s', log, i, s'.latest[i])
    {
      assert LastToCover(s, log, i, s.latest[i]);
    }
  }

  lemma {:induction false} RunLogged(cfg: Config, hash: Hash, codec: Codec, states: seq<Session>, steps: seq<SessionStep>)
    requires SessionRun(cfg, hash, codec, states, steps)
    ensures Logged(states[|steps|], LogOf(steps))
  {
    if steps != [] {
      var n := |steps| - 1;
      PrefixSession(cfg, hash, codec, states, steps, n);
      RunLogged(cfg, hash, codec, states[..n + 1], steps[..n]);
      if Emits(steps[n]) {
        EmitGrows(cfg, hash, codec, states[n], steps[n]);
        EmitLogged(states[n], states[n + 1], LogOf(steps[..n]), steps[n].call);
      } else {
        OtherStays(cfg, hash, codec, states[n], steps[n]);
        OtherLogged(states[n], states[n + 1], LogOf(steps[..n]));
      }
    }
  }

  // ---------- batches and their numbers ----------

  /** Batches are registered in the order they were made, under consecutive numbers. */
  ghost predicate Numbered(s: Session) {
    && |s.queue| <= s.made && s.nextSeq == (s.made - |s.queue|) % U32_LIMIT
    && (forall k :: 0 <= k < |s.queue| ==> s.queue[k].id == s.made - |s.queue| + k)
    && (forall n :: n in s.inFlight ==> s.inFlight[n].batch.id < s.made && n == (s.inFlight[n].batch.id + 1) % U32_LIMIT)
  }

  lemma EmitNumbered(cfg: Config, hash: Hash, codec: Codec, s: Session, step: SessionStep)
    requires Numbered(s) && step.Emit? && CanStep(cfg, hash, codec, s, step)
    ensures Numbered(After(cfg, hash, codec, s, step))
  {}

  lemma RegisterNumbered(cfg: Config, hash: Hash, codec: Codec, s: Session, step: SessionStep)
    requires Numbered(s) && step.Register? && CanStep(cfg, hash, codec, s, step)
    ensures Numbered(After(cfg, hash, codec, s, step))
  {
    NextNumber(s.made - |s.queue|);
  }

  lemma StepNumbered(cfg: Config, hash: Hash, codec: Codec, s: Session, step: SessionStep)
    requires Numbered(s) && CanStep(cfg, hash, codec, s, step)
    ensures Numbered(After(cfg, hash, codec, s, step))
  {
    match step
    case Emit(_, _) => EmitNumbered(cfg, hash, codec, s, step);
    case Register(_) => RegisterNumbered(cfg, hash, codec, s, step);
    case _ =>
  }

  lemma NextNumber(n: nat)
    ensures (n % U32_LIMIT + 1) % U32_LIMIT == (n + 1) % U32_LIMIT
  {}

  lemma {:induction false} RunNumbered(cfg: Config, hash: Hash, codec: Codec, states: seq<Session>, steps: seq<SessionStep>)
    requires SessionRun(cfg, hash, codec, states, steps)
    ensures Numbered(states[|steps|])
  {
    if steps != [] {
      var n := |steps| - 1;
      PrefixSession(cfg, hash, codec, states, steps, n);
      RunNumbered(cfg, hash, codec, states[..n + 1], steps[..n]);
      StepNumbered(cfg, hash, codec, states[n], steps[n]);
    }
  }

  // ---------- every batch is cut from its frame ----------

  lemma {:induction false} RunKeepsCache(cfg: Config, hash: Hash, codec: Codec, states: seq<Session>, steps: seq<SessionStep>)
    requires SessionRun(cfg, hash, codec, states, steps)
    ensures CacheInv(cfg, hash, codec, states[|steps|].p)
  {
    if steps != [] {
      var n := |steps| - 1;
      PrefixSession(cfg, hash, codec, states, steps, n);
      RunKeepsCache(cfg, hash, codec, states[..n + 1], steps[..n]);
      var s, step := states[n], steps[n];
      if step.Emit? {
        CallKeepsCache(cfg, hash, codec, s.p, step.call, step.next);
      } else if step.Recover? {
        CallKeepsCache(cfg, hash, codec, s.p, DoInvalidate(s.lost[0].epoch, s.lost[0].cells), step.next);
      }
    }
  }

  /** The decoded tiles of a batch are disjoint cutouts of its frame that hold exactly the
      cells to acknowledge. */
  ghost predicate Pictures(cfg: Config, decode: Decoder, call: Call)
    requires call.DoProcess? && call.out.Some?
  {
    var f, out := call.frame, call.out.value;
    && f.WellFormed() && |out.encoded| == |out.tiles|
    && Cutouts(cfg.GridOf(f), f, call.ranges, ImagesOf(out, decode))
    && Merging.PairwiseDisjoint(call.ranges) && ListsCovered(cfg.GridOf(f), call.ranges, out.ackIndices)
  }

  lemma EmittedPictures(cfg: Config, hash: Hash, codec: Codec, decode: Decoder, p: PState, call: Call, p': PState)
    requires CacheInv(cfg, hash, codec, p) && Calls(cfg, hash, codec, p, call, p') && call.DoProcess? && call.out.Some?
    requires Lossless(codec, decode)
    requires |call.out.value.encoded| == |call.out.value.tiles| && call.frame.WellFormed() ==>
               NoServedCollision(hash, call.frame, call.out.value, decode)
    ensures Pictures(cfg, decode, call)
  {
    var f, s := call.frame, Met(p, call.frame, call.now);
    MetKeepsCache(cfg, hash, codec, p, f, call.now);
    DetectKeepsCache(cfg, hash, codec, s, f);
    OutputIsCutouts(cfg, hash, codec, decode, s, f, call.scale, call.out.value, call.ranges);
  }

  // ---------- drawing everything in order ----------

  /** The pipeline call a step makes, if it makes one. */
  function CallOf(s: Session, step: SessionStep): Option<Call> {
    match step
    case Emit(call, _) => Some(call)
    case Recover(_) => if s.lost != [] then Some(DoInvalidate(s.lost[0].epoch, s.lost[0].cells)) else None
    case _ => None
  }

  /** The stream steps that the calls of a run amount to, with the conditions `Streams`
      puts on each. */
  ghost predicate Streamed(cfg: Config, hash: Hash, decode: Decoder, screen: Screen,
                           states: seq<Session>, steps: seq<SessionStep>, stream: seq<Step>)
    requires |states| == |steps| + 1
    decreases |steps|
  {
    if steps == [] then stream == [] else
      var n := |steps| - 1;
      var call := CallOf(states[n], steps[n]);
      if call.None? then Streamed(cfg, hash, decode, screen, states[..n + 1], steps[..n], stream) else
        && stream != []
        && Streamed(cfg, hash, decode, screen, states[..n + 1], steps[..n], stream[..|stream| - 1])
        && (Play(cfg, hash, screen, stream[..|stream| - 1]).Some? ==>
              Streams(cfg, hash, decode, Play(cfg, hash, screen, stream[..|stream| - 1]).value, stream[|stream| - 1],
                      states[n].p, call.value))
  }

  /** Every pixel is that of the last batch that covered its cell. */
  ghost predicate Ideal(cfg: Config, s: Session, log: seq<Call>, screen: Screen)
    requires IsLog(log)
  {
    && Logged(s, log)
    && (s.p.size.Some? ==>
          forall px: nat, py: nat :: px < s.p.size.value.0 && py < s.p.size.value.1 ==> IdealAt(cfg, s, log, screen, px, py))
  }

  ghost predicate IdealAt(cfg: Config, s: Session, log: seq<Call>, screen: Screen, px: nat, py: nat)
    requires IsLog(log) && Logged(s, log) && s.p.size.Some? && px < s.p.size.value.0 && py < s.p.size.value.1
  {
    var i := Grids.New(cfg.tilesX, s.p.size.value.0, s.p.size.value.1).CellOf(px, py);
    i in s.latest ==> LatestPixel(s, log, i, px, py, screen(px, py))
  }

  ghost predicate LatestPixel(s: Session, log: seq<Call>, i: nat, px: nat, py: nat, pixel: seq<bv8>)
    requires IsLog(log) && i in s.latest && s.latest[i] < |log|
  {
    var f := log[s.latest[i]].frame;
    f.WellFormed() && px < f.width && py < f.height && pixel == f.Pixel(px, py)
  }

  /** A batch covers a cell exactly when it paints each of the cell's pixels. */
  lemma CoveredIsPainted(g: Grids.Grid, ranges: seq<Grids.CellRange>, cells: seq<nat>, px: nat, py: nat)
    requires g.Valid() && ListsCovered(g, ranges, cells) && px < g.frameWidth && py < g.frameHeight
    ensures g.CellOf(px, py) in cells <==> Merging.Covers(ranges, g.ColumnOf(px), g.RowOf(py))
  {
    Grids.CellsPartitionFrame(g, px, py);
    Grids.InRows(g, Grids.CellRange(0, 0, 0, 0), py);
    Grids.IndexJoin(g, g.ColumnOf(px), g.RowOf(py));
  }

  lemma EmitIdeal(cfg: Config, decode: Decoder, s: Session, s': Session, log: seq<Call>, call: Call, screen: Screen)
    requires IsLog(log) && Ideal(cfg, s, log, screen) && call.DoProcess? && call.out.Some? && Grew(s, s', call)
    requires Pictures(cfg, decode, call)
    ensures IsLog(log + [call]) && Ideal(cfg, s', log + [call], DrawAll(screen, ImagesOf(call.out.value, decode)))
  {
    var f, out, log' := call.frame, call.out.value, log + [call];
    EmitLogged(s, s', log, call);
    forall px: nat, py: nat | px < f.width && py < f.height
      ensures IdealAt(cfg, s', log', DrawAll(screen, ImagesOf(out, decode)), px, py)
    {
      EmitIdealAt(cfg, decode, s, s', log, call, screen, px, py);
    }
  }

  lemma EmitIdealAt(cfg: Config, decode: Decoder, s: Session, s': Session, log: seq<Call>, call: Call, screen: Screen,
                    px: nat, py: nat)
    requires IsLog(log) && Ideal(cfg, s, log, screen) && call.DoProcess? && call.out.Some? && Grew(s, s', call)
    requires IsLog(log + [call]) && Logged(s', log + [call])
    requires Pictures(cfg, decode, call) && px < call.frame.width && py < call.frame.height
    ensures IdealAt(cfg, s', log + [call], DrawAll(screen, ImagesOf(call.out.value, decode)), px, py)
  {
    var f, out := call.frame, call.out.value;
    var g := cfg.GridOf(f);
    var i := g.CellOf(px, py);
    CoveredIsPainted(g, call.ranges, out.ackIndices, px, py);
    DrawnPixel(g, f, call.ranges, ImagesOf(out, decode), screen, px, py);
    if i in s'.latest && i !in out.ackIndices {
      assert LastToCover(s, log, i, s.latest[i]);
      assert IdealAt(cfg, s, log, screen, px, py);
    }
  }

  lemma OtherIdeal(cfg: Config, s: Session, s': Session, log: seq<Call>, screen: Screen)
    requires IsLog(log) && Ideal(cfg, s, log, screen) && Stayed(s, s')
    ensures Ideal(cfg, s', log, screen)
  {
    OtherLogged(s, s', log);
    if s'.p.size.Some? {
      forall px: nat, py: nat | px < s'.p.size.value.0 && py < s'.p.size.value.1
        ensures IdealAt(cfg, s', log, screen, px, py)
      {
        var i := Grids.New(cfg.tilesX, s'.p.size.value.0, s'.p.size.value.1).CellOf(px, py);
        if i in s'.latest {
          assert LastToCover(s, log, i, s.latest[i]);
          assert IdealAt(cfg, s, log, screen, px, py);
        }
      }
    }
  }

  /** The screen of the ghost stream is the ideal one, in every run. */
  lemma {:induction false} RunIsIdeal(cfg: Config, hash: Hash, codec: Codec, decode: Decoder, screen: Screen,
                                      states: seq<Session>, steps: seq<SessionStep>, stream: seq<Step>)
    requires SessionRun(cfg, hash, codec, states, steps) && Lossless(codec, decode)
    requires Streamed(cfg, hash, decode, screen, states, steps, stream)
    ensures Play(cfg, hash, screen, stream).Some?
    ensures Linked(states[|steps|].p, Play(cfg, hash, screen, stream).value)
    ensures Ideal(cfg, states[|steps|], LogOf(steps), Play(cfg, hash, screen, stream).value.screen)
    decreases |steps|
  {
    if steps == [] {
      assert Erase(Detector([], 0)) == Detection.INITIAL_STATE;
      RunLogged(cfg, hash, codec, states, steps);
    } else {
      var n := |steps| - 1;
      PrefixSession(cfg, hash, codec, states, steps, n);
      RunKeepsCache(cfg, hash, codec, states[..n + 1], steps[..n]);
      LogNext(steps);
      if CallOf(states[n], steps[n]).None? {
        RunIsIdeal(cfg, hash, codec, decode, screen, states[..n + 1], steps[..n], stream);
        QuietStep(cfg, hash, codec, screen, states[n], steps[n], LogOf(steps[..n]), Play(cfg, hash, screen, stream).value);
      } else {
        var before := stream[..|stream| - 1];
        RunIsIdeal(cfg, hash, codec, decode, screen, states[..n + 1], steps[..n], before);
        CallIsIdeal(cfg, hash, codec, decode, states[n], steps[n], LogOf(steps[..n]),
                    Play(cfg, hash, screen, before).value, stream[|stream| - 1]);
      }
    }
  }

  lemma QuietStep(cfg: Config, hash: Hash, codec: Codec, screen: Screen, s: Session, step: SessionStep, log: seq<Call>,
                  st: Stream)
    requires CanStep(cfg, hash, codec, s, step) && CallOf(s, step).None?
    requires IsLog(log) && Linked(s.p, st) && Ideal(cfg, s, log, st.screen)
    ensures var s' := After(cfg, hash, codec, s, step); Linked(s'.p, st) && Ideal(cfg, s', log, st.screen)
  {
    OtherStays(cfg, hash, codec, s, step);
    OtherIdeal(cfg, s, After(cfg, hash, codec, s, step), log, st.screen);
  }

  lemma CallIsIdeal(cfg: Config, hash: Hash, codec: Codec, decode: Decoder, s: Session, step: SessionStep, log: seq<Call>,
                    st: Stream, streamed: Step)
    requires Lossless(codec, decode) && CacheInv(cfg, hash, codec, s.p) && Linked(s.p, st)
    requires CanStep(cfg, hash, codec, s, step) && CallOf(s, step).Some?
    requires Streams(cfg, hash, decode, st, streamed, s.p, CallOf(s, step).value)
    requires IsLog(log) && Ideal(cfg, s, log, st.screen)
    ensures Plays(cfg, hash, st, streamed)
    ensures Linked(After(cfg, hash, codec, s, step).p, PlayStep(cfg, hash, st, streamed))
    ensures IsLog(if Emits(step) then log + [step.call] else log)
    ensures Ideal(cfg, After(cfg, hash, codec, s, step), if Emits(step) then log + [step.call] else log,
                  PlayStep(cfg, hash, st, streamed).screen)
  {
    CallPlays(cfg, hash, codec, decode, s, step, st, streamed);
    var s' := After(cfg, hash, codec, s, step);
    if Emits(step) {
      EmitGrows(cfg, hash, codec, s, step);
      EmittedPictures(cfg, hash, codec, decode, s.p, step.call, step.next);
      EmitIdeal(cfg, decode, s, s', log, step.call, st.screen);
    } else {
      OtherStays(cfg, hash, codec, s, step);
      OtherIdeal(cfg, s, s', log, st.screen);
    }
  }

  lemma CallPlays(cfg: Config, hash: Hash, codec: Codec, decode: Decoder, s: Session, step: SessionStep,
                  st: Stream, streamed: Step)
    requires Lossless(codec, decode) && CacheInv(cfg, hash, codec, s.p) && Linked(s.p, st)
    requires CanStep(cfg, hash, codec, s, step) && CallOf(s, step).Some?
    requires Streams(cfg, hash, decode, st, streamed, s.p, CallOf(s, step).value)
    ensures Plays(cfg, hash, st, streamed)
    ensures Linked(After(cfg, hash, codec, s, step).p, PlayStep(cfg, hash, st, streamed))
    ensures PlayStep(cfg, hash, st, streamed).screen
         == if Emits(step) then DrawAll(st.screen, ImagesOf(step.call.out.value, decode)) else st.screen
  {
    var call := CallOf(s, step).value;
    if step.Emit? {
      ProcessPlays(cfg, hash, codec, decode, s.p, call, step.next, st, streamed);
    } else {
      InvalidatePlays(cfg, hash, codec, decode, s.p, call, step.next, st, streamed);
    }
  }

  /** Every batch of a run is cut from its frame, if served bytes never collide. */
  lemma {:induction false} RunPictures(cfg: Config, hash: Hash, codec: Codec, decode: Decoder,
                                       states: seq<Session>, steps: seq<SessionStep>, k: nat)
    requires SessionRun(cfg, hash, codec, states, steps) && Lossless(codec, decode) && k < |LogOf(steps)|
    requires forall j: nat :: j < |LogOf(steps)| ==> Servable(hash, decode, LogOf(steps)[j])
    ensures Pictures(cfg, decode, LogOf(steps)[k])
  {
    var n := |steps| - 1;
    PrefixSession(cfg, hash, codec, states, steps, n);
    LogNext(steps);
    if k < |LogOf(steps[..n])| {
      assert forall j: nat :: j < |LogOf(steps[..n])| ==> LogOf(steps[..n])[j] == LogOf(steps)[j];
      RunPictures(cfg, hash, codec, decode, states[..n + 1], steps[..n], k);
    } else {
      RunKeepsCache(cfg, hash, codec, states[..n + 1], steps[..n]);
      assert Servable(hash, decode, LogOf(steps)[k]);
      EmittedPictures(cfg, hash, codec, decode, states[n].p, steps[n].call, steps[n].next);
    }
  }

  ghost predicate Servable(hash: Hash, decode: Decoder, call: Call)
    requires call.DoProcess? && call.out.Some?
  {
    |call.out.value.encoded| == |call.out.value.tiles| && call.frame.WellFormed() ==>
      NoServedCollision(hash, call.frame, call.out.value, decode)
  }

  /** A frame that is on time for the session throttles no armed cell of the stream. */
  lemma OnTimeIsPrompt(cfg: Config, hash: Hash, decode: Decoder, s: Session, step: SessionStep, st: Stream, streamed: Step)
    requires cfg.Valid() && Linked(s.p, st) && step.Emit? && step.call.DoProcess? && OnTime(cfg, s, step)
    requires Streams(cfg, hash, decode, st, streamed, s.p, step.call)
    ensures streamed.Framed? && NoneThrottled(cfg, Meets(cfg, hash, st, streamed))
  {
    var f, now, d := step.call.frame, step.call.now, Meets(cfg, hash, st, streamed);
    MetIsMeets(cfg, hash, s.p, st, streamed, now);
    forall i | 0 <= i < |d.cells|
      ensures Unthrottled(cfg, d.cells[i].cell, d.n + 1)
    {
      assert Detection.Uncached(Met(s.p, f, now).cells[i]) == Detection.Uncached(Erase(d).cells[i]);
      assert Unthrottled(cfg, Met(s.p, f, now).cells[i], Met(s.p, f, now).frameCount + 1);
    }
  }

  lemma {:induction false} RunIsPrompt(cfg: Config, hash: Hash, codec: Codec, decode: Decoder, screen: Screen,
                                       states: seq<Session>, steps: seq<SessionStep>, stream: seq<Step>)
    requires SessionRun(cfg, hash, codec, states, steps) && Lossless(codec, decode) && AllOnTime(cfg, states, steps)
    requires Streamed(cfg, hash, decode, screen, states, steps, stream)
    ensures PromptStream(cfg, hash, screen, stream)
    decreases |steps|
  {
    if steps != [] {
      var n := |steps| - 1;
      PrefixSession(cfg, hash, codec, states, steps, n);
      assert OnTime(cfg, states[n], steps[n]);
      assert AllOnTime(cfg, states[..n + 1], steps[..n]);
      if CallOf(states[n], steps[n]).None? {
        RunIsPrompt(cfg, hash, codec, decode, screen, states[..n + 1], steps[..n], stream);
      } else {
        var before := stream[..|stream| - 1];
        RunIsPrompt(cfg, hash, codec, decode, screen, states[..n + 1], steps[..n], before);
        RunIsIdeal(cfg, hash, codec, decode, screen, states[..n + 1], steps[..n], before);
        if steps[n].Emit? {
          OnTimeIsPrompt(cfg, hash, decode, states[n], steps[n], Play(cfg, hash, screen, before).value, stream[|stream| - 1]);
        }
      }
    }
  }
}
