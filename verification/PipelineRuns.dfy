/** What holds over whole runs of the pipeline: the encode cache never serves bytes of
    other content, a quality refresh really encodes again, and the frames it emits
    keep the client's screen in step with the desktop. */
module PipelineRuns {
  import opened Common
  import opened Grids
  import opened Frames
  import Merging
  import opened Detection
  import opened DetectionRuns
  import Baselines
  import opened DeltaStream
  import EncodingPools
  import opened Pipelines

  // ---------- the encode cache ----------

  /** The cached bytes of cell `i` were encoded from content of that cell's size whose
      hash is the cached one. */
  ghost predicate Made(hash: Hash, codec: Codec, g: Grid, i: nat, c: Cell, t: EncodingPools.EncodingTask)
    requires g.Valid() && i < g.CellCount() && c.meta.cachedEncoded.Some?
  {
    && t.tile.Area() == g.CellRect(i) && hash(t.data) == c.meta.cachedHash
    && codec.Produce(t) == c.meta.cachedEncoded.value != []
  }

  ghost predicate CacheOk(hash: Hash, codec: Codec, g: Grid, i: nat, c: Cell)
    requires g.Valid() && i < g.CellCount()
  {
    && (c.meta.cachedEncoded.Some? ==>
          c.meta.lastSentFrame > 0 && exists t: EncodingPools.EncodingTask :: Made(hash, codec, g, i, c, t))
    && (c.meta.lastSentFrame > 0 ==> c.prevPrev != c.prev)
  }

  ghost predicate CacheInv(cfg: Config, hash: Hash, codec: Codec, p: PState) {
    && Settled(cfg, p)
    && (p.size.Some? ==>
          var g := New(cfg.tilesX, p.size.value.0, p.size.value.1);
          forall i: nat :: i < |p.det.cells| ==> i < g.CellCount() && CacheOk(hash, codec, g, i, p.det.cells[i]))
  }

  ghost predicate AllCacheOk(hash: Hash, codec: Codec, g: Grid, cells: seq<Cell>)
    requires g.Valid()
  {
    forall i: nat :: i < |cells| ==> i < g.CellCount() && CacheOk(hash, codec, g, i, cells[i])
  }

  lemma NextKeepsCache(cfg: Config, hash: Hash, codec: Codec, g: Grid, i: nat, c: Cell, l: Look)
    requires cfg.Valid() && g.Valid() && i < g.CellCount() && CacheOk(hash, codec, g, i, c)
    requires l.full != 0 && l.frameCount > 0 && (l.first ==> c == FRESH_CELL)
    ensures CacheOk(hash, codec, g, i, NextCell(cfg, c, l))
  {
    if c.meta.cachedEncoded.Some? {
      var t: EncodingPools.EncodingTask :| Made(hash, codec, g, i, c, t);
      assert Made(hash, codec, g, i, NextCell(cfg, c, l), t);
    }
  }

  lemma DetectKeepsCache(cfg: Config, hash: Hash, codec: Codec, s: State, f: Frame)
    requires Fits(cfg, s, f) && AllHashable(cfg, hash, f) && AllCacheOk(hash, codec, cfg.GridOf(f), s.cells)
    ensures AllCacheOk(hash, codec, cfg.GridOf(f), Detect(cfg, hash, s, f).cells)
  {
    var g := cfg.GridOf(f);
    forall i: nat | i < g.CellCount()
      ensures CacheOk(hash, codec, g, i, Detect(cfg, hash, s, f).cells[i])
    {
      assert Hashable(hash, ContentAt(cfg, f, i));
      NextKeepsCache(cfg, hash, codec, g, i, CellsFor(cfg, s, f)[i], LookAt(cfg, hash, s, f, i));
    }
  }

  lemma ResetsKeepCache(hash: Hash, codec: Codec, g: Grid, i: nat, c: Cell)
    requires g.Valid() && i < g.CellCount() && CacheOk(hash, codec, g, i, c)
    ensures CacheOk(hash, codec, g, i, Invalidated(c)) && CacheOk(hash, codec, g, i, Refreshed(c))
  {}

  lemma MetKeepsCache(cfg: Config, hash: Hash, codec: Codec, p: PState, f: Frame, now: nat)
    requires CacheInv(cfg, hash, codec, p) && Acceptable(cfg, f)
    ensures AllCacheOk(hash, codec, cfg.GridOf(f), Met(p, f, now).cells)
  {}

  /** A cell the detector sends ends up with the hash of what the frame shows there. */
  lemma SentHashIsCurrent(cfg: Config, hash: Hash, s: State, f: Frame, i: nat)
    requires Fits(cfg, s, f) && i < cfg.GridOf(f).CellCount() && SentAt(cfg, hash, s, f, i)
    ensures var c := Detect(cfg, hash, s, f).cells[i];
            c.prev == hash(ContentAt(cfg, f, i).rows) && c.meta.lastSentFrame == s.frameCount + 1
  {}

  /** A single-cell tile shows exactly a cell that the detector sends. */
  lemma SingleTileIsSentCell(cfg: Config, hash: Hash, codec: Codec, s: State, f: Frame, scale: real,
                             out: EncodedFrame, ranges: seq<CellRange>, k: nat)
    requires Fits(cfg, s, f) && Output(cfg, hash, codec, s, f, scale, out, ranges)
    requires k < |out.tiles| && out.tiles[k].IsSingleCell(cfg.GridOf(f))
    ensures var g, i := cfg.GridOf(f), out.tiles[k].RepresentativeIndex(cfg.GridOf(f));
            && i < g.CellCount() && SentAt(cfg, hash, s, f, i) && out.tiles[k].Area() == g.CellRect(i)
  {
    var g := cfg.GridOf(f);
    MergeIsPlaced(f, g, cfg.mergeGap, SentQualities(cfg, hash, s, f, scale), out.tiles, ranges);
    var r := ranges[k];
    assert r.Single();
    Merging.SingleCellIsDirty(g, cfg.mergeGap, SentQualities(cfg, hash, s, f, scale), out.tiles, ranges, k);
    SentCellIndex(cfg, hash, s, f, (r.x0, r.y0));
    IndexJoin(g, r.x0, r.y0);
    assert g.CellAt(g.IndexOf(r.x0, r.y0)) == r;
  }

  /** Whatever a tile is served, it was encoded from content of the tile's size with the
      hash of what the frame shows there. */
  lemma ServedContent(cfg: Config, hash: Hash, codec: Codec, s: State, f: Frame, scale: real,
                      out: EncodedFrame, ranges: seq<CellRange>, k: nat) returns (t: EncodingPools.EncodingTask)
    requires Fits(cfg, s, f) && Output(cfg, hash, codec, s, f, scale, out, ranges) && k < |out.tiles|
    requires AllCacheOk(hash, codec, cfg.GridOf(f), Detect(cfg, hash, s, f).cells)
    ensures t.tile.Area() == out.tiles[k].Area() && hash(t.data) == hash(f.TileBytes(out.tiles[k].Area()))
    ensures out.encoded[k] == codec.Produce(t)
  {
    var g, cells, tile := cfg.GridOf(f), Detect(cfg, hash, s, f).cells, out.tiles[k];
    var i := tile.RepresentativeIndex(g);
    if Hit(g, cells, tile) {
      SingleTileIsSentCell(cfg, hash, codec, s, f, scale, out, ranges, k);
      SentHashIsCurrent(cfg, hash, s, f, i);
      assert CacheOk(hash, codec, g, i, cells[i]);
      t :| Made(hash, codec, g, i, cells[i], t);
    } else {
      t := TaskOf(f, g, tile);
    }
  }

  lemma StoreKeepsCache(cfg: Config, hash: Hash, codec: Codec, s: State, f: Frame, scale: real,
                        out: EncodedFrame, ranges: seq<CellRange>, cells': seq<Cell>)
    requires Fits(cfg, s, f) && Output(cfg, hash, codec, s, f, scale, out, ranges)
    requires AllCacheOk(hash, codec, cfg.GridOf(f), Detect(cfg, hash, s, f).cells)
    requires Stored(f, cfg.GridOf(f), out.tiles, out.encoded, |out.tiles|, Detect(cfg, hash, s, f).cells, cells')
    ensures AllCacheOk(hash, codec, cfg.GridOf(f), cells')
  {
    var g, cells := cfg.GridOf(f), Detect(cfg, hash, s, f).cells;
    forall i: nat | i < |cells'|
      ensures CacheOk(hash, codec, g, i, cells'[i])
    {
      assert CacheOk(hash, codec, g, i, cells[i]);
      if k: nat :| k < |out.tiles| && StoresAt(g, out.tiles, out.encoded, k, i) {
        SingleTileIsSentCell(cfg, hash, codec, s, f, scale, out, ranges, k);
        SentHashIsCurrent(cfg, hash, s, f, i);
        var t := ServedContent(cfg, hash, codec, s, f, scale, out, ranges, k);
        assert Made(hash, codec, g, i, cells'[i], t);
      }
    }
  }

  // ---------- runs of the pipeline ----------

  /** A `process` call with everything it read and returned, or a loss reported back. */
  datatype Call =
    | DoProcess(frame: Frame, now: nat, scale: real, out: Option<EncodedFrame>, ranges: seq<CellRange>)
    | DoInvalidate(epoch: nat, indices: seq<nat>)

  ghost predicate Calls(cfg: Config, hash: Hash, codec: Codec, p: PState, call: Call, p': PState) {
    match call
    case DoProcess(f, now, scale, out, ranges) =>
      && Acceptable(cfg, f) && AllHashable(cfg, hash, f)
      && Fits(cfg, Met(p, f, now), f)
      && Processed(cfg, hash, codec, scale, p, f, now, out, ranges, p')
    case DoInvalidate(epoch, indices) =>
      p' == p.(det := if epoch == p.epoch then InvalidateTiles(p.det, indices) else p.det)
  }

  /** States visited by a sequence of calls on a new pipeline. */
  ghost predicate PipelineRun(cfg: Config, hash: Hash, codec: Codec, states: seq<PState>, calls: seq<Call>) {
    && cfg.Valid() && |states| == |calls| + 1
    && states[0].det == INITIAL_STATE && states[0].size == None
    && (forall k :: 0 <= k < |calls| ==> Calls(cfg, hash, codec, states[k], calls[k], states[k + 1]))
  }

  lemma CallKeepsCache(cfg: Config, hash: Hash, codec: Codec, p: PState, call: Call, p': PState)
    requires CacheInv(cfg, hash, codec, p) && Calls(cfg, hash, codec, p, call, p')
    ensures CacheInv(cfg, hash, codec, p')
  {
    match call
    case DoProcess(f, now, scale, out, ranges) =>
      var s := Met(p, f, now);
      MetKeepsCache(cfg, hash, codec, p, f, now);
      DetectKeepsCache(cfg, hash, codec, s, f);
      if out.Some? {
        StoreKeepsCache(cfg, hash, codec, s, f, scale, out.value, ranges, p'.det.cells);
      }
      assert cfg.GridOf(f) == New(cfg.tilesX, f.width, f.height);
    case DoInvalidate(epoch, indices) =>
      if p.size.Some? {
        var g := New(cfg.tilesX, p.size.value.0, p.size.value.1);
        forall i: nat | i < |p'.det.cells|
          ensures i < g.CellCount() && CacheOk(hash, codec, g, i, p'.det.cells[i])
        {
          ResetsKeepCache(hash, codec, g, i, p.det.cells[i]);
        }
      }
  }

  /** Every reachable pipeline state has a sound cache, across resizes, refreshes,
      losses and merges of any shape. */
  lemma {:induction false} ReachableCache(cfg: Config, hash: Hash, codec: Codec, states: seq<PState>, calls: seq<Call>)
    requires PipelineRun(cfg, hash, codec, states, calls)
    ensures CacheInv(cfg, hash, codec, states[|calls|])
  {
    if calls != [] {
      var n := |calls| - 1;
      assert Calls(cfg, hash, codec, states[n], calls[n], states[n + 1]);
      assert PipelineRun(cfg, hash, codec, states[..n + 1], calls[..n]);
      ReachableCache(cfg, hash, codec, states[..n + 1], calls[..n]);
      CallKeepsCache(cfg, hash, codec, states[n], calls[n], states[n + 1]);
    }
  }

  /** In every run, whatever bytes a tile is sent with were encoded from content of its
      size with the current hash, cache hit or not. */
  lemma CacheAgreesWithReencoding(cfg: Config, hash: Hash, codec: Codec, states: seq<PState>, calls: seq<Call>,
                                  f: Frame, now: nat, scale: real, out: EncodedFrame, ranges: seq<CellRange>, k: nat)
    returns (t: EncodingPools.EncodingTask)
    requires PipelineRun(cfg, hash, codec, states, calls)
    requires Acceptable(cfg, f) && AllHashable(cfg, hash, f) && Fits(cfg, Met(states[|calls|], f, now), f)
    requires Output(cfg, hash, codec, Met(states[|calls|], f, now), f, scale, out, ranges) && k < |out.tiles|
    ensures t.tile.Area() == out.tiles[k].Area() && hash(t.data) == hash(f.TileBytes(out.tiles[k].Area()))
    ensures out.encoded[k] == codec.Produce(t)
  {
    var p := states[|calls|];
    ReachableCache(cfg, hash, codec, states, calls);
    MetKeepsCache(cfg, hash, codec, p, f, now);
    DetectKeepsCache(cfg, hash, codec, Met(p, f, now), f);
    t := ServedContent(cfg, hash, codec, Met(p, f, now), f, scale, out, ranges, k);
  }

  /** A cell chosen at static quality after the first frame is never served from the
      cache: the refresh at high quality truly encodes again. */
  lemma StaticIsReencoded(cfg: Config, hash: Hash, codec: Codec, states: seq<PState>, calls: seq<Call>,
                          f: Frame, now: nat, scale: real, out: EncodedFrame, ranges: seq<CellRange>, k: nat)
    requires PipelineRun(cfg, hash, codec, states, calls)
    requires Acceptable(cfg, f) && AllHashable(cfg, hash, f) && Fits(cfg, Met(states[|calls|], f, now), f)
    requires Output(cfg, hash, codec, Met(states[|calls|], f, now), f, scale, out, ranges) && k < |out.tiles|
    requires Met(states[|calls|], f, now).cells != []
    requires var s, i := Met(states[|calls|], f, now), out.tiles[k].RepresentativeIndex(cfg.GridOf(f));
             out.tiles[k].IsSingleCell(cfg.GridOf(f)) && !Dynamic(s.cells[i], LookAt(cfg, hash, s, f, i))
    ensures out.encoded[k] == codec.Produce(TaskOf(f, cfg.GridOf(f), out.tiles[k]))
  {
    var p := states[|calls|];
    var s := Met(p, f, now);
    var g, i := cfg.GridOf(f), out.tiles[k].RepresentativeIndex(cfg.GridOf(f));
    ReachableCache(cfg, hash, codec, states, calls);
    MetKeepsCache(cfg, hash, codec, p, f, now);
    SingleTileIsSentCell(cfg, hash, codec, s, f, scale, out, ranges, k);
    assert CacheOk(hash, codec, g, i, s.cells[i]);
    assert s.cells[i].meta.lastSentFrame == 0;
    assert Detect(cfg, hash, s, f).cells[i].meta.cachedEncoded == s.cells[i].meta.cachedEncoded;
  }

  // ---------- what the client sees ----------

  /** The same detector state, up to cached encodes. */
  ghost predicate SameButCache(a: State, b: State) {
    && |a.cells| == |b.cells| && a.frameCount == b.frameCount
    && (forall i :: 0 <= i < |a.cells| ==> Uncached(a.cells[i]) == Uncached(b.cells[i]))
  }

  /** Detection never looks at cached encodes. */
  lemma CacheIrrelevant(cfg: Config, hash: Hash, a: State, b: State, f: Frame)
    requires SameButCache(a, b) && Fits(cfg, a, f)
    ensures Fits(cfg, b, f) && SentCells(cfg, hash, a, f) == SentCells(cfg, hash, b, f)
    ensures forall i: nat :: i < cfg.GridOf(f).CellCount() ==> (SentAt(cfg, hash, a, f, i) <==> SentAt(cfg, hash, b, f, i))
    ensures SameButCache(Detect(cfg, hash, a, f), Detect(cfg, hash, b, f))
  {
    var g := cfg.GridOf(f);
    forall i: nat | i < g.CellCount()
      ensures SentAt(cfg, hash, a, f, i) <==> SentAt(cfg, hash, b, f, i)
      ensures Uncached(Detect(cfg, hash, a, f).cells[i]) == Uncached(Detect(cfg, hash, b, f).cells[i])
    {
      assert LookAt(cfg, hash, a, f, i) == LookAt(cfg, hash, b, f, i);
      assert Uncached(CellsFor(cfg, a, f)[i]) == Uncached(CellsFor(cfg, b, f)[i]);
    }
  }

  /** The pipeline and the ghost stream are at the same point. */
  ghost predicate Linked(p: PState, st: Stream) {
    && SameButCache(p.det, Erase(st.d))
    && p.size == (if st.frame.Some? then Some((st.frame.value.width, st.frame.value.height)) else None)
    && (st.frame.None? ==> st.d == Detector([], 0))
  }

  type Decoder = seq<byte> -> seq<bv8>

  /** Decoding undoes every encode. */
  ghost predicate Lossless(codec: Codec, decode: Decoder) {
    forall t: EncodingPools.EncodingTask :: decode(codec.Produce(t)) == t.data
  }

  function ImagesOf(out: EncodedFrame, decode: Decoder): seq<Image>
    requires |out.encoded| == |out.tiles|
  {
    seq(|out.tiles|, k requires 0 <= k < |out.tiles| => Image(out.tiles[k].Area(), decode(out.encoded[k])))
  }

  /** The stream step of a call; cells lost from another grid are none of the stream's. */
  ghost function StepOf(p: PState, call: Call, decode: Decoder): Step
    requires call.DoProcess? && call.out.Some? ==> |call.out.value.encoded| == |call.out.value.tiles|
  {
    match call
    case DoProcess(f, now, scale, out, ranges) =>
      if out.Some? then Framed(RefreshDue(p, f, now), f, ranges, ImagesOf(out.value, decode))
      else Framed(RefreshDue(p, f, now), f, [], [])
    case DoInvalidate(epoch, indices) => Lossy(if epoch == p.epoch then indices else [])
  }

  /** Served bytes with the hash of the current content are that content. */
  ghost predicate NoServedCollision(hash: Hash, f: Frame, out: EncodedFrame, decode: Decoder)
    requires f.WellFormed() && |out.encoded| == |out.tiles|
  {
    forall k :: 0 <= k < |out.tiles| && f.Inside(out.tiles[k].Area()) ==>
      (hash(decode(out.encoded[k])) == hash(f.TileBytes(out.tiles[k].Area())) ==>
         decode(out.encoded[k]) == f.TileBytes(out.tiles[k].Area()))
  }

  lemma MetIsMeets(cfg: Config, hash: Hash, p: PState, st: Stream, step: Step, now: nat)
    requires Linked(p, st) && step.Framed? && step.refresh == RefreshDue(p, step.frame, now)
    ensures SameButCache(Met(p, step.frame, now), Erase(Meets(cfg, hash, st, step)))
  {}

  /** The decoded tiles of a frame are cutouts of it. */
  lemma OutputIsCutouts(cfg: Config, hash: Hash, codec: Codec, decode: Decoder, s: State, f: Frame, scale: real,
                        out: EncodedFrame, ranges: seq<CellRange>)
    requires Fits(cfg, s, f) && Output(cfg, hash, codec, s, f, scale, out, ranges)
    requires AllCacheOk(hash, codec, cfg.GridOf(f), Detect(cfg, hash, s, f).cells)
    requires Lossless(codec, decode) && NoServedCollision(hash, f, out, decode)
    ensures Cutouts(cfg.GridOf(f), f, ranges, ImagesOf(out, decode))
    ensures forall c <- SentCells(cfg, hash, s, f) :: Merging.Covers(ranges, c.0, c.1)
  {
    var g, q := cfg.GridOf(f), SentQualities(cfg, hash, s, f, scale);
    MergeIsPlaced(f, g, cfg.mergeGap, q, out.tiles, ranges);
    forall k | 0 <= k < |ranges|
      ensures ranges[k].Within(g) && f.Inside(g.RangeRect(ranges[k]))
      ensures ImagesOf(out, decode)[k] == Image(g.RangeRect(ranges[k]), f.TileBytes(g.RangeRect(ranges[k])))
    {
      var t := ServedContent(cfg, hash, codec, s, f, scale, out, ranges, k);
      assert decode(out.encoded[k]) == t.data;
    }
    forall c | c in SentCells(cfg, hash, s, f)
      ensures Merging.Covers(ranges, c.0, c.1)
    {
      SentCellIndex(cfg, hash, s, f, c);
      assert c in q.Keys;
      assert Merging.Filled(q.Keys, cfg.mergeGap, g.tilesY, c.0, c.1);
    }
  }

  /** Conditions on one call: accurate damage, and hashes that tell apart the contents
      they meet. */
  ghost predicate Benign(cfg: Config, hash: Hash, decode: Decoder, st: Stream, step: Step, call: Call) {
    call.DoProcess? ==>
      && step.Framed?
      && (st.frame.Some? && SameSize(st.frame.value, call.frame) ==>
            Baselines.Continues(cfg, hash, Meets(cfg, hash, st, step), st.frame.value, call.frame))
      && (call.out.Some? && call.frame.WellFormed() && |call.out.value.encoded| == |call.out.value.tiles| ==>
            NoServedCollision(hash, call.frame, call.out.value, decode))
  }

  /** A call, with the stream step it amounts to. */
  ghost predicate Streams(cfg: Config, hash: Hash, decode: Decoder, st: Stream, step: Step, p: PState, call: Call) {
    && (call.DoProcess? && call.out.Some? ==> |call.out.value.encoded| == |call.out.value.tiles|)
    && step == StepOf(p, call, decode) && Benign(cfg, hash, decode, st, step, call)
  }

  /** The images of an emitted frame are cutouts of it, and storing encodes changes only
      the cache. */
  lemma EmissionFaithful(cfg: Config, hash: Hash, codec: Codec, decode: Decoder, p: PState, call: Call, p': PState)
    requires Lossless(codec, decode) && CacheInv(cfg, hash, codec, p) && call.DoProcess? && call.out.Some?
    requires Calls(cfg, hash, codec, p, call, p')
    requires NoServedCollision(hash, call.frame, call.out.value, decode)
    ensures var s, f := Met(p, call.frame, call.now), call.frame;
            && Cutouts(cfg.GridOf(f), f, call.ranges, ImagesOf(call.out.value, decode))
            && (forall c <- SentCells(cfg, hash, s, f) :: Merging.Covers(call.ranges, c.0, c.1))
            && SameButCache(p'.det, Detect(cfg, hash, s, f))
  {
    var f, s, out := call.frame, Met(p, call.frame, call.now), call.out.value;
    MetKeepsCache(cfg, hash, codec, p, f, call.now);
    DetectKeepsCache(cfg, hash, codec, s, f);
    OutputIsCutouts(cfg, hash, codec, decode, s, f, call.scale, out, call.ranges);
    StoreIsCacheOnly(f, cfg.GridOf(f), out.tiles, out.encoded, Detect(cfg, hash, s, f).cells, p'.det.cells);
  }

  /** What the pipeline emits for a frame is a step of the ghost stream. */
  lemma ProcessPlays(cfg: Config, hash: Hash, codec: Codec, decode: Decoder, p: PState, call: Call, p': PState,
                     st: Stream, step: Step)
    requires Lossless(codec, decode) && CacheInv(cfg, hash, codec, p) && Linked(p, st) && call.DoProcess?
    requires Calls(cfg, hash, codec, p, call, p') && Streams(cfg, hash, decode, st, step, p, call)
    ensures Plays(cfg, hash, st, step) && Linked(p', PlayStep(cfg, hash, st, step))
    ensures SameButCache(Met(p, call.frame, call.now), Erase(Meets(cfg, hash, st, step)))
  {
    var f := call.frame;
    var s, d := Met(p, f, call.now), Meets(cfg, hash, st, step);
    MetIsMeets(cfg, hash, p, st, step, call.now);
    CacheIrrelevant(cfg, hash, s, Erase(d), f);
    EraseApply(cfg, hash, d, Show(f));
    if call.out.Some? { EmissionFaithful(cfg, hash, codec, decode, p, call, p'); }
  }

  lemma InvalidatePlays(cfg: Config, hash: Hash, codec: Codec, decode: Decoder, p: PState, call: Call, p': PState,
                        st: Stream, step: Step)
    requires Linked(p, st) && call.DoInvalidate?
    requires Calls(cfg, hash, codec, p, call, p') && Streams(cfg, hash, decode, st, step, p, call)
    ensures Plays(cfg, hash, st, step) && Linked(p', PlayStep(cfg, hash, st, step))
  {
    var d' := PlayStep(cfg, hash, st, step).d;
    forall i | 0 <= i < |p'.det.cells|
      ensures Uncached(p'.det.cells[i]) == Uncached(Erase(d').cells[i])
    {
      assert Uncached(p.det.cells[i]) == Uncached(Erase(st.d).cells[i]);
    }
  }

  lemma StoreIsCacheOnly(f: Frame, g: Grid, tiles: seq<Tile>, encoded: seq<seq<byte>>, cells: seq<Cell>, cells': seq<Cell>)
    requires Placed(f, g, tiles) && |encoded| == |tiles| && Stored(f, g, tiles, encoded, |tiles|, cells, cells')
    ensures forall i :: 0 <= i < |cells| ==> Uncached(cells'[i]) == Uncached(cells[i])
  {}

  /** A run of frames and losses, with the stream steps they amount to. */
  ghost predicate StreamedRun(cfg: Config, hash: Hash, codec: Codec, decode: Decoder, screen: Screen,
                              states: seq<PState>, calls: seq<Call>, steps: seq<Step>)
  {
    && PipelineRun(cfg, hash, codec, states, calls) && |steps| == |calls|
    && (forall k :: 0 <= k < |calls| ==>
          (Play(cfg, hash, screen, steps[..k]).Some? ==>
             Streams(cfg, hash, decode, Play(cfg, hash, screen, steps[..k]).value, steps[k], states[k], calls[k])))
  }

  /** A run of the pipeline, frames and losses alike, is a stream. */
  lemma {:induction false} PipelinePlays(cfg: Config, hash: Hash, codec: Codec, decode: Decoder, screen: Screen,
                                         states: seq<PState>, calls: seq<Call>, steps: seq<Step>)
    requires Lossless(codec, decode) && StreamedRun(cfg, hash, codec, decode, screen, states, calls, steps)
    ensures Play(cfg, hash, screen, steps).Some? && Linked(states[|calls|], Play(cfg, hash, screen, steps).value)
  {
    if calls == [] {
      assert Erase(Detector([], 0)) == INITIAL_STATE;
    } else {
      var n := |calls| - 1;
      PrefixRun(cfg, hash, codec, decode, screen, states, calls, steps, n);
      PipelinePlays(cfg, hash, codec, decode, screen, states[..n + 1], calls[..n], steps[..n]);
      LastCallPlays(cfg, hash, codec, decode, screen, states, calls, steps);
    }
  }

  lemma LastCallPlays(cfg: Config, hash: Hash, codec: Codec, decode: Decoder, screen: Screen,
                      states: seq<PState>, calls: seq<Call>, steps: seq<Step>)
    requires Lossless(codec, decode) && StreamedRun(cfg, hash, codec, decode, screen, states, calls, steps) && calls != []
    requires var n := |calls| - 1;
             Play(cfg, hash, screen, steps[..n]).Some? && Linked(states[n], Play(cfg, hash, screen, steps[..n]).value)
    ensures Play(cfg, hash, screen, steps).Some? && Linked(states[|calls|], Play(cfg, hash, screen, steps).value)
    ensures var n := |calls| - 1;
            calls[n].DoProcess? ==> SameButCache(Met(states[n], calls[n].frame, calls[n].now),
                                                 Erase(Meets(cfg, hash, Play(cfg, hash, screen, steps[..n]).value, steps[n])))
  {
    var n := |calls| - 1;
    var st := Play(cfg, hash, screen, steps[..n]).value;
    PrefixRun(cfg, hash, codec, decode, screen, states, calls, steps, n);
    ReachableCache(cfg, hash, codec, states[..n + 1], calls[..n]);
    assert Calls(cfg, hash, codec, states[n], calls[n], states[n + 1]);
    if calls[n].DoProcess? {
      ProcessPlays(cfg, hash, codec, decode, states[n], calls[n], states[n + 1], st, steps[n]);
    } else {
      InvalidatePlays(cfg, hash, codec, decode, states[n], calls[n], states[n + 1], st, steps[n]);
    }
  }

  /** End to end: over every run of the pipeline, throttled or not, with losses, refreshes
      and resizes, a client that draws the decoded tiles of each emitted frame shows the
      last frame on the sampled rows of every cell it is owed nothing for, and right
      after a frame on the whole of every cell reported changed. */
  lemma PipelineMirrors(cfg: Config, hash: Hash, codec: Codec, decode: Decoder, screen: Screen,
                        states: seq<PState>, calls: seq<Call>, steps: seq<Step>)
    requires Lossless(codec, decode) && StreamedRun(cfg, hash, codec, decode, screen, states, calls, steps)
    ensures Play(cfg, hash, screen, steps).Some?
    ensures var st := Play(cfg, hash, screen, steps).value;
            && InStep(cfg, hash, st) && Linked(states[|calls|], st)
            && (calls != [] && calls[|calls| - 1].DoProcess? ==>
                  var n := |calls| - 1;
                  && st.frame == Some(calls[n].frame)
                  && ShowsAllSent(cfg, hash, Met(states[n], calls[n].frame, calls[n].now), calls[n].frame, st.screen))
  {
    PipelinePlays(cfg, hash, codec, decode, screen, states, calls, steps);
    StreamMirrors(cfg, hash, screen, steps);
    if calls != [] && calls[|calls| - 1].DoProcess? {
      LastFrameShows(cfg, hash, codec, decode, screen, states, calls, steps);
    }
  }

  lemma LastFrameShows(cfg: Config, hash: Hash, codec: Codec, decode: Decoder, screen: Screen,
                       states: seq<PState>, calls: seq<Call>, steps: seq<Step>)
    requires Lossless(codec, decode) && StreamedRun(cfg, hash, codec, decode, screen, states, calls, steps)
    requires calls != [] && calls[|calls| - 1].DoProcess? && Play(cfg, hash, screen, steps).Some?
    ensures var n, st := |calls| - 1, Play(cfg, hash, screen, steps).value;
            && st.frame == Some(calls[n].frame)
            && ShowsAllSent(cfg, hash, Met(states[n], calls[n].frame, calls[n].now), calls[n].frame, st.screen)
  {
    var n := |calls| - 1;
    PrefixRun(cfg, hash, codec, decode, screen, states, calls, steps, n);
    PipelinePlays(cfg, hash, codec, decode, screen, states[..n + 1], calls[..n], steps[..n]);
    LastCallPlays(cfg, hash, codec, decode, screen, states, calls, steps);
    StreamMirrors(cfg, hash, screen, steps);
    assert Calls(cfg, hash, codec, states[n], calls[n], states[n + 1]);
    SentAlike(cfg, hash, Met(states[n], calls[n].frame, calls[n].now),
              Erase(Meets(cfg, hash, Play(cfg, hash, screen, steps[..n]).value, steps[n])), calls[n].frame,
              Play(cfg, hash, screen, steps).value.screen);
  }

  lemma SentAlike(cfg: Config, hash: Hash, a: State, b: State, f: Frame, screen: Screen)
    requires SameButCache(a, b) && Fits(cfg, a, f) && ShowsAllSent(cfg, hash, b, f, screen)
    ensures ShowsAllSent(cfg, hash, a, f, screen)
  {
    CacheIrrelevant(cfg, hash, a, b, f);
    forall px: nat, py: nat | px < f.width && py < f.height
      ensures ShowsSent(cfg, hash, a, f, screen, px, py)
    {
      CellsPartitionFrame(cfg.GridOf(f), px, py);
      assert ShowsSent(cfg, hash, b, f, screen, px, py);
    }
  }

  /** In every run without throttling the client shows each frame on every sampled row; and
      in every run in which no frame throttles an armed cell, whatever else is held back or
      lost, it does so after each frame that begins with a refresh. */
  lemma PipelineConverges(cfg: Config, hash: Hash, codec: Codec, decode: Decoder, screen: Screen,
                          states: seq<PState>, calls: seq<Call>, steps: seq<Step>)
    requires Lossless(codec, decode) && StreamedRun(cfg, hash, codec, decode, screen, states, calls, steps)
    requires calls != [] && calls[|calls| - 1].DoProcess?
    requires var n := |calls| - 1;
             || NoThrottle(cfg)
             || (PromptStream(cfg, hash, screen, steps) && RefreshDue(states[n], calls[n].frame, calls[n].now))
    ensures Play(cfg, hash, screen, steps).Some?
    ensures ShowsAllSampled(cfg, calls[|calls| - 1].frame, Play(cfg, hash, screen, steps).value.screen)
  {
    var n := |calls| - 1;
    PipelineMirrors(cfg, hash, codec, decode, screen, states, calls, steps);
    if NoThrottle(cfg) {
      UnthrottledStreamMirrors(cfg, hash, screen, steps);
    } else {
      assert Streams(cfg, hash, decode, Play(cfg, hash, screen, steps[..n]).value, steps[n], states[n], calls[n]);
      RefreshMirrors(cfg, hash, screen, steps);
    }
  }

  lemma PrefixRun(cfg: Config, hash: Hash, codec: Codec, decode: Decoder, screen: Screen,
                  states: seq<PState>, calls: seq<Call>, steps: seq<Step>, n: nat)
    requires StreamedRun(cfg, hash, codec, decode, screen, states, calls, steps) && n <= |calls|
    ensures StreamedRun(cfg, hash, codec, decode, screen, states[..n + 1], calls[..n], steps[..n])
  {
    forall k | 0 <= k < n
      ensures steps[..n][..k] == steps[..k]
    {
    }
  }

  // ---------- a full frame against the pool ----------

  /** On a first frame every cell is sent, so there is a tile per sixteen cells. */
  lemma FullFrameTiles(cfg: Config, hash: Hash, f: Frame, scale: real, tiles: seq<Tile>, ranges: seq<CellRange>)
    requires Fits(cfg, INITIAL_STATE, f) && Cut(cfg, hash, INITIAL_STATE, f, scale, tiles, ranges)
    ensures cfg.GridOf(f).CellCount() <= 16 * |tiles|
  {
    var g, q := cfg.GridOf(f), SentQualities(cfg, hash, INITIAL_STATE, f, scale);
    forall i: nat | i < g.CellCount()
      ensures CellKey(g, i) in q.Keys
    {
      assert SentAt(cfg, hash, INITIAL_STATE, f, i);
    }
    forall c | c in q.Keys
      ensures c.0 < g.tilesX && c.1 < g.tilesY
    {
      SentCellIndex(cfg, hash, INITIAL_STATE, f, c);
    }
    AllKeys(g, g.CellCount(), q.Keys);
    Merging.MergeSizeBound(g, cfg.mergeGap, q, tiles, ranges);
  }

  /** On a first frame every cell is sent and nothing is cached, so at least one task per
      sixteen cells is submitted before anything is collected. With more than 80 cells
      per worker, every run of the pool then ends in deadlock. */
  lemma FullFrameDeadlocksPool(cfg: Config, hash: Hash, codec: Codec, f: Frame, scale: real, n: nat,
                               tiles: seq<Tile>, ranges: seq<CellRange>,
                               tasks: seq<EncodingPools.EncodingTask>, slots: seq<nat>,
                               schedule: seq<EncodingPools.Action>)
    requires cfg.Valid() && f.WellFormed() && n > 0 && cfg.GridOf(f).CellCount() > 80 * n
    requires Fits(cfg, INITIAL_STATE, f)
    requires Merging.IsMerge(cfg.GridOf(f), cfg.mergeGap, SentQualities(cfg, hash, INITIAL_STATE, f, scale), tiles, ranges)
    requires Placed(f, cfg.GridOf(f), tiles)
    requires Submitted(f, cfg.GridOf(f), Detect(cfg, hash, INITIAL_STATE, f).cells, tiles, |tiles|, tasks, slots)
    requires EncodingPools.PoolAfter(codec.worker, n, tasks, schedule).Some?
    requires EncodingPools.Halted(EncodingPools.PoolAfter(codec.worker, n, tasks, schedule).value)
    ensures EncodingPools.Deadlocked(EncodingPools.PoolAfter(codec.worker, n, tasks, schedule).value)
  {
    FullFrameTiles(cfg, hash, f, scale, tiles, ranges);
    assert forall k: nat :: k < |tiles| ==> k in slots;
    SlotsCount(slots, |tiles|);
    EncodingPools.PoolCompletesIff(codec.worker, n, tasks, schedule, EncodingPools.EncodedResult(0, []));
  }

  /** So a call of `Process` on a first frame with more than 80 cells per worker does not
      return. */
  lemma FullFrameNeverReturns(cfg: Config, hash: Hash, f: Frame, scale: real, n: nat, tiles: seq<Tile>, ranges: seq<CellRange>)
    requires Fits(cfg, INITIAL_STATE, f) && cfg.GridOf(f).CellCount() > 80 * n
    requires Cut(cfg, hash, INITIAL_STATE, f, scale, tiles, ranges)
    ensures Misses(f, cfg.GridOf(f), Detect(cfg, hash, INITIAL_STATE, f).cells, tiles) > 5 * n
  {
    FullFrameTiles(cfg, hash, f, scale, tiles, ranges);
    AllFalse(HitFlags(f, cfg.GridOf(f), Detect(cfg, hash, INITIAL_STATE, f).cells, tiles));
  }

  lemma {:induction false} AllKeys(g: Grid, n: nat, keys: Merging.Cells)
    requires g.Valid() && n <= g.CellCount() && forall i: nat :: i < n ==> CellKey(g, i) in keys
    ensures |keys| >= n
    decreases n
  {
    if n > 0 {
      var last := CellKey(g, n - 1);
      forall i: nat | i < n - 1
        ensures CellKey(g, i) in keys - {last}
      {
        IndexSplit(g, i);
        IndexSplit(g, n - 1);
      }
      AllKeys(g, n - 1, keys - {last});
    }
  }

  lemma {:induction false} SlotsCount(slots: seq<nat>, n: nat)
    requires Increasing(slots) && forall k: nat :: k < n ==> k in slots
    ensures |slots| >= n
    decreases n
  {
    if n > 0 {
      var last: nat := n - 1;
      assert last in slots;
      var j :| 0 <= j < |slots| && slots[j] == last;
      var below := slots[..j];
      forall k: nat | k < n - 1
        ensures k in below
      {
        assert k in slots;
        var i :| 0 <= i < |slots| && slots[i] == k;
        assert i < j;
        assert below[i] == k;
      }
      SlotsCount(below, n - 1);
    }
  }

  /** The default 20 columns over a 1920x1080 frame make 400 cells: too many for the
      minimum of four workers. */
  lemma DefaultFrameExceedsFourWorkers()
    ensures New(20, 1920, 1080).CellCount() == 400 > 80 * 4
  {
    assert 1920 / 20 == 96 && 96 * 1080 / 1920 == 54;
    assert CeilDiv(1080, 54) == 20;
  }
}
