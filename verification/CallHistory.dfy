/** What the pipeline does, told from the calls of a run alone (src/pipeline.rs): when the
    encode cache serves a tile, and when a header and a new epoch are announced. */
module CallHistories {
  import opened Common
  import opened Grids
  import opened Frames
  import opened Detection
  import opened DetectionRuns
  import opened Pipelines
  import opened PipelineRuns

  // ---------- the encode cache ----------

  /** Bytes kept for a cell, and the hash of the content they were made for. */
  datatype Encode = Encode(hash: u64, bytes: seq<byte>)

  /** A frame of another size, or one a second after the clock was restarted, drops every
      encode. */
  predicate DropsAll(p: PState, f: Frame, now: nat) {
    p.size != Some((f.width, f.height)) || now >= p.lastRefresh + 1000
  }

  /** Tile `k` of a batch is cell `i` alone, and has bytes. */
  ghost predicate Alone(cfg: Config, f: Frame, out: EncodedFrame, i: nat, k: nat)
    requires f.WellFormed() && |out.encoded| == |out.tiles| && i < cfg.GridOf(f).CellCount()
  {
    k < |out.tiles| && out.tiles[k].Area() == cfg.GridOf(f).CellRect(i) && out.encoded[k] != []
  }

  /** The encode of cell `i` in a batch, if it has one of its own. */
  ghost function OwnEncode(cfg: Config, hash: Hash, f: Frame, out: EncodedFrame, i: nat): Option<Encode>
    requires f.WellFormed()
  {
    if i < cfg.GridOf(f).CellCount() && |out.encoded| == |out.tiles| && exists k: nat :: Alone(cfg, f, out, i, k) then
      var k: nat :| Alone(cfg, f, out, i, k);
      Some(Encode(hash(ContentAt(cfg, f, i).rows), out.encoded[k]))
    else None
  }

  /** What a call leaves of an encode: a loss of the cell drops it, a frame may drop or
      replace it. */
  ghost function KeptBy(cfg: Config, hash: Hash, p: PState, call: Call, i: nat, kept: Option<Encode>): Option<Encode> {
    match call
    case DoInvalidate(epoch, indices) => if epoch == p.epoch && i in indices then None else kept
    case DoProcess(f, now, _, out, _) =>
      var own := if out.Some? && f.WellFormed() then OwnEncode(cfg, hash, f, out.value, i) else None;
      if own.Some? then own else if DropsAll(p, f, now) then None else kept
  }

  /** The last encode of cell `i` alone, unless it has been dropped since. */
  ghost function Kept(cfg: Config, hash: Hash, states: seq<PState>, calls: seq<Call>, i: nat): Option<Encode>
    requires |states| == |calls| + 1
    decreases |calls|
  {
    if calls == [] then None else
      var n := |calls| - 1;
      KeptBy(cfg, hash, states[n], calls[n], i, Kept(cfg, hash, states[..n + 1], calls[..n], i))
  }

  /** The cache of a cell is that encode. */
  ghost predicate Caches(c: Cell, kept: Option<Encode>) {
    if kept.None? then c.meta.cachedEncoded.None?
    else c.meta.cachedEncoded == Some(kept.value.bytes) && c.meta.cachedHash == kept.value.hash && kept.value.bytes != []
  }

  ghost predicate CacheIs(p: PState, i: nat, kept: Option<Encode>) {
    if i < |p.det.cells| then Caches(p.det.cells[i], kept) else kept.None?
  }

  lemma DetectLeavesCache(cfg: Config, hash: Hash, s: State, f: Frame, i: nat, kept: Option<Encode>)
    requires Fits(cfg, s, f) && i < cfg.GridOf(f).CellCount()
    requires if s.cells == [] then kept.None? else Caches(s.cells[i], kept)
    ensures Caches(Detect(cfg, hash, s, f).cells[i], kept)
  {}

  lemma MetCache(cfg: Config, p: PState, f: Frame, now: nat, i: nat, kept: Option<Encode>)
    requires Settled(cfg, p) && Acceptable(cfg, f) && CacheIs(p, i, kept)
    ensures var s, left := Met(p, f, now), if DropsAll(p, f, now) then None else kept;
            (s.cells == [] ==> left.None?) && (i < |s.cells| ==> Caches(s.cells[i], left))
    ensures !DropsAll(p, f, now) ==> Met(p, f, now) == p.det && p.size == Some((f.width, f.height))
  {}

  lemma RangeOfCell(g: Grid, r: CellRange, t: Tile, i: nat)
    requires g.Valid() && r.Within(g) && t.Area() == g.RangeRect(r) && i < g.CellCount()
    ensures t.width > 0 && t.height > 0
    ensures t.Area() == g.CellRect(i) <==> t.IsSingleCell(g) && t.RepresentativeIndex(g) == i
  {
    BoundsInvertSpans(g, r, t.quality);
    BoundsInvertSpans(g, g.CellAt(i), t.quality);
    assert t == RangeTile(g, r, t.quality);
    if t.Area() == g.CellRect(i) { SameTile(g, r, g.CellAt(i), t); }
    if t.IsSingleCell(g) && t.RepresentativeIndex(g) == i {
      IndexJoin(g, r.x0, r.y0);
      assert g.CellAt(i) == r;
    }
  }

  lemma SameTile(g: Grid, a: CellRange, b: CellRange, t: Tile)
    requires g.Valid() && a.Within(g) && b.Within(g) && t.Area() == g.RangeRect(a) == g.RangeRect(b)
    ensures a == b
  {
    BoundsInvertSpans(g, a, t.quality);
    BoundsInvertSpans(g, b, t.quality);
    assert RangeTile(g, a, t.quality) == RangeTile(g, b, t.quality);
  }

  /** A tile with a cell's rectangle is that cell. */
  lemma TileOfCell(cfg: Config, hash: Hash, codec: Codec, s: State, f: Frame, scale: real,
                   out: EncodedFrame, ranges: seq<CellRange>, k: nat, i: nat)
    requires Fits(cfg, s, f) && Output(cfg, hash, codec, s, f, scale, out, ranges)
    requires k < |out.tiles| && i < cfg.GridOf(f).CellCount()
    ensures out.tiles[k].Area() == cfg.GridOf(f).CellRect(i)
            <==> out.tiles[k].IsSingleCell(cfg.GridOf(f)) && out.tiles[k].RepresentativeIndex(cfg.GridOf(f)) == i
  {
    var g := cfg.GridOf(f);
    MergeIsPlaced(f, g, cfg.mergeGap, SentQualities(cfg, hash, s, f, scale), out.tiles, ranges);
    RangeOfCell(g, ranges[k], out.tiles[k], i);
  }

  lemma AloneIsStored(cfg: Config, hash: Hash, codec: Codec, s: State, f: Frame, scale: real,
                      out: EncodedFrame, ranges: seq<CellRange>, cells': seq<Cell>, i: nat, k: nat)
    requires Fits(cfg, s, f) && Output(cfg, hash, codec, s, f, scale, out, ranges)
    requires Stored(f, cfg.GridOf(f), out.tiles, out.encoded, |out.tiles|, Detect(cfg, hash, s, f).cells, cells')
    requires i < cfg.GridOf(f).CellCount() && Alone(cfg, f, out, i, k)
    ensures i < |cells'| && Caches(cells'[i], Some(Encode(hash(ContentAt(cfg, f, i).rows), out.encoded[k])))
  {
    TileOfCell(cfg, hash, codec, s, f, scale, out, ranges, k, i);
    SingleTileIsSentCell(cfg, hash, codec, s, f, scale, out, ranges, k);
    SentHashIsCurrent(cfg, hash, s, f, i);
    assert StoresAt(cfg.GridOf(f), out.tiles, out.encoded, k, i);
  }

  lemma NotAloneIsLeft(cfg: Config, hash: Hash, codec: Codec, s: State, f: Frame, scale: real,
                       out: EncodedFrame, ranges: seq<CellRange>, cells': seq<Cell>, i: nat)
    requires Fits(cfg, s, f) && Output(cfg, hash, codec, s, f, scale, out, ranges)
    requires Stored(f, cfg.GridOf(f), out.tiles, out.encoded, |out.tiles|, Detect(cfg, hash, s, f).cells, cells')
    requires i < cfg.GridOf(f).CellCount() && forall k: nat :: !Alone(cfg, f, out, i, k)
    ensures i < |cells'| && cells'[i] == Detect(cfg, hash, s, f).cells[i]
  {
    forall k: nat | k < |out.tiles|
      ensures !StoresAt(cfg.GridOf(f), out.tiles, out.encoded, k, i)
    {
      TileOfCell(cfg, hash, codec, s, f, scale, out, ranges, k, i);
      assert !Alone(cfg, f, out, i, k);
    }
  }

  lemma BatchCaches(cfg: Config, hash: Hash, codec: Codec, s: State, f: Frame, scale: real,
                    out: EncodedFrame, ranges: seq<CellRange>, cells': seq<Cell>, i: nat, kept: Option<Encode>)
    requires Fits(cfg, s, f) && Output(cfg, hash, codec, s, f, scale, out, ranges)
    requires Stored(f, cfg.GridOf(f), out.tiles, out.encoded, |out.tiles|, Detect(cfg, hash, s, f).cells, cells')
    requires i < cfg.GridOf(f).CellCount() && Caches(Detect(cfg, hash, s, f).cells[i], kept)
    ensures var own := OwnEncode(cfg, hash, f, out, i);
            i < |cells'| && Caches(cells'[i], if own.Some? then own else kept)
  {
    if exists k: nat :: Alone(cfg, f, out, i, k) {
      var k: nat :| Alone(cfg, f, out, i, k)
                    && OwnEncode(cfg, hash, f, out, i) == Some(Encode(hash(ContentAt(cfg, f, i).rows), out.encoded[k]));
      AloneIsStored(cfg, hash, codec, s, f, scale, out, ranges, cells', i, k);
    } else {
      NotAloneIsLeft(cfg, hash, codec, s, f, scale, out, ranges, cells', i);
    }
  }

  lemma CallCaches(cfg: Config, hash: Hash, codec: Codec, p: PState, call: Call, p': PState, i: nat, kept: Option<Encode>)
    requires Settled(cfg, p) && Calls(cfg, hash, codec, p, call, p') && CacheIs(p, i, kept)
    ensures CacheIs(p', i, KeptBy(cfg, hash, p, call, i, kept))
  {
    match call
    case DoInvalidate(epoch, indices) =>
    case DoProcess(f, now, scale, out, ranges) =>
      var s, left := Met(p, f, now), if DropsAll(p, f, now) then None else kept;
      MetCache(cfg, p, f, now, i, kept);
      if i < cfg.GridOf(f).CellCount() {
        DetectLeavesCache(cfg, hash, s, f, i, left);
        if out.Some? { BatchCaches(cfg, hash, codec, s, f, scale, out.value, ranges, p'.det.cells, i, left); }
      }
  }

  lemma LastCall(cfg: Config, hash: Hash, codec: Codec, states: seq<PState>, calls: seq<Call>)
    requires PipelineRun(cfg, hash, codec, states, calls) && calls != []
    ensures var n := |calls| - 1;
            && PipelineRun(cfg, hash, codec, states[..n + 1], calls[..n])
            && Calls(cfg, hash, codec, states[n], calls[n], states[n + 1]) && Settled(cfg, states[n])
  {
    var n := |calls| - 1;
    assert Calls(cfg, hash, codec, states[n], calls[n], states[n + 1]);
    assert PipelineRun(cfg, hash, codec, states[..n + 1], calls[..n]);
    ReachableCache(cfg, hash, codec, states[..n + 1], calls[..n]);
  }

  /** In every run. */
  lemma {:induction false} RunCaches(cfg: Config, hash: Hash, codec: Codec, states: seq<PState>, calls: seq<Call>, i: nat)
    requires PipelineRun(cfg, hash, codec, states, calls)
    ensures CacheIs(states[|calls|], i, Kept(cfg, hash, states, calls, i))
    decreases |calls|
  {
    if calls != [] {
      var n := |calls| - 1;
      LastCall(cfg, hash, codec, states, calls);
      RunCaches(cfg, hash, codec, states[..n + 1], calls[..n], i);
      CallCaches(cfg, hash, codec, states[n], calls[n], states[n + 1], i, Kept(cfg, hash, states[..n + 1], calls[..n], i));
    }
  }

  /** The cache serves a tile exactly when it is a cell alone, the cell's last encode has not
      been dropped, and the frame shows content of the hash that encode was made for. Any
      other tile is encoded. */
  lemma ServedIff(cfg: Config, hash: Hash, codec: Codec, states: seq<PState>, calls: seq<Call>,
                  f: Frame, now: nat, scale: real, out: EncodedFrame, ranges: seq<CellRange>, k: nat, i: nat)
    requires PipelineRun(cfg, hash, codec, states, calls)
    requires Acceptable(cfg, f) && Fits(cfg, Met(states[|calls|], f, now), f)
    requires Output(cfg, hash, codec, Met(states[|calls|], f, now), f, scale, out, ranges) && k < |out.tiles|
    requires i < cfg.GridOf(f).CellCount() && out.tiles[k].Area() == cfg.GridOf(f).CellRect(i)
    ensures var kept := Kept(cfg, hash, states, calls, i);
            out.encoded[k] == if kept.Some? && !DropsAll(states[|calls|], f, now)
                                 && kept.value.hash == hash(f.TileBytes(out.tiles[k].Area()))
                              then kept.value.bytes else codec.Produce(TaskOf(f, cfg.GridOf(f), out.tiles[k]))
  {
    var p, g := states[|calls|], cfg.GridOf(f);
    var s, kept := Met(p, f, now), Kept(cfg, hash, states, calls, i);
    RunCaches(cfg, hash, codec, states, calls, i);
    ReachableCache(cfg, hash, codec, states, calls);
    MetCache(cfg, p, f, now, i, kept);
    var left := if DropsAll(p, f, now) then None else kept;
    DetectLeavesCache(cfg, hash, s, f, i, left);
    TileOfCell(cfg, hash, codec, s, f, scale, out, ranges, k, i);
    SingleTileIsSentCell(cfg, hash, codec, s, f, scale, out, ranges, k);
    SentHashIsCurrent(cfg, hash, s, f, i);
    BytesByCache(codec, f, g, Detect(cfg, hash, s, f).cells, out.tiles[k], left);
  }

  lemma BytesByCache(codec: Codec, f: Frame, g: Grid, cells: seq<Cell>, t: Tile, kept: Option<Encode>)
    requires f.WellFormed() && f.Inside(t.Area()) && g.Shape() && t.RepresentativeIndex(g) < |cells| && t.IsSingleCell(g)
    requires Caches(cells[t.RepresentativeIndex(g)], kept)
    ensures BytesFor(codec, f, g, cells, t)
         == if kept.Some? && kept.value.hash == cells[t.RepresentativeIndex(g)].prev then kept.value.bytes
            else codec.Produce(TaskOf(f, g, t))
  {}

  /** A tile of several cells is always encoded. */
  lemma MergedIsEncoded(cfg: Config, hash: Hash, codec: Codec, s: State, f: Frame, scale: real,
                        out: EncodedFrame, ranges: seq<CellRange>, k: nat)
    requires Fits(cfg, s, f) && Output(cfg, hash, codec, s, f, scale, out, ranges) && k < |out.tiles|
    requires forall i: nat :: i < cfg.GridOf(f).CellCount() ==> out.tiles[k].Area() != cfg.GridOf(f).CellRect(i)
    ensures out.encoded[k] == codec.Produce(TaskOf(f, cfg.GridOf(f), out.tiles[k]))
  {
    TileOfCell(cfg, hash, codec, s, f, scale, out, ranges, k, out.tiles[k].RepresentativeIndex(cfg.GridOf(f)));
  }

  // ---------- headers and epochs ----------

  /** The size a call announces. */
  function HeaderOf(call: Call): Option<(nat, nat)> {
    if call.DoProcess? && call.out.Some? then call.out.value.header else None
  }

  /** The last size announced, and how many there were. */
  function Announced(calls: seq<Call>): Option<(nat, nat)> {
    if calls == [] then None else
      var header := HeaderOf(calls[|calls| - 1]);
      if header.Some? then header else Announced(calls[..|calls| - 1])
  }

  function Headers(calls: seq<Call>): nat {
    if calls == [] then 0 else Headers(calls[..|calls| - 1]) + (if HeaderOf(calls[|calls| - 1]).Some? then 1 else 0)
  }

  /** A frame announces its size exactly when it was not the last one announced. */
  lemma CallAnnounces(cfg: Config, hash: Hash, codec: Codec, p: PState, call: Call, p': PState)
    requires Calls(cfg, hash, codec, p, call, p')
    ensures call.DoInvalidate? ==> p'.size == p.size && p'.epoch == p.epoch
    ensures call.DoProcess? ==>
              var size := Some((call.frame.width, call.frame.height));
              && p'.size == size && HeaderOf(call) == (if p.size == size then None else size)
              && p'.epoch == (if p.size.Some? && p.size != size then p.epoch + 1 else p.epoch)
              && (call.out.Some? ==> call.out.value.epoch == p'.epoch)
  {}

  /** In every run: the last size announced is that of the last frame, so that a client never
      draws on a canvas of another size; a size is announced only when it is not already the
      last one announced; and a new epoch begins with every header but the first. */
  lemma {:induction false} HeadersFollow(cfg: Config, hash: Hash, codec: Codec, states: seq<PState>, calls: seq<Call>)
    requires PipelineRun(cfg, hash, codec, states, calls)
    ensures states[|calls|].size == Announced(calls)
    ensures states[|calls|].epoch == if Headers(calls) == 0 then states[0].epoch else states[0].epoch + Headers(calls) - 1
    ensures Announced(calls).None? <==> Headers(calls) == 0
  {
    if calls != [] {
      var n := |calls| - 1;
      assert Calls(cfg, hash, codec, states[n], calls[n], states[n + 1]);
      assert PipelineRun(cfg, hash, codec, states[..n + 1], calls[..n]);
      HeadersFollow(cfg, hash, codec, states[..n + 1], calls[..n]);
      CallAnnounces(cfg, hash, codec, states[n], calls[n], states[n + 1]);
    }
  }

  /** Told of the last call: its frame's size is now the last one announced, its header is
      not the one announced before, and its batch carries the number of headers so far. */
  lemma LastCallAnnounces(cfg: Config, hash: Hash, codec: Codec, states: seq<PState>, calls: seq<Call>)
    requires PipelineRun(cfg, hash, codec, states, calls) && calls != [] && calls[|calls| - 1].DoProcess?
    ensures var n := |calls| - 1;
            && Announced(calls) == Some((calls[n].frame.width, calls[n].frame.height))
            && (HeaderOf(calls[n]).Some? <==> Announced(calls) != Announced(calls[..n]))
            && (calls[n].out.Some? ==> calls[n].out.value.epoch == states[0].epoch + Headers(calls) - 1)
  {
    var n := |calls| - 1;
    assert Calls(cfg, hash, codec, states[n], calls[n], states[n + 1]);
    assert PipelineRun(cfg, hash, codec, states[..n + 1], calls[..n]);
    HeadersFollow(cfg, hash, codec, states[..n + 1], calls[..n]);
    HeadersFollow(cfg, hash, codec, states, calls);
    CallAnnounces(cfg, hash, codec, states[n], calls[n], states[n + 1]);
  }
}
