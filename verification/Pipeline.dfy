/** One frame through the pipeline (`Pipeline` in src/pipeline.rs): epoch and refresh
    bookkeeping, detection, merging, the per-cell encode cache, the pool, and the
    routing of results. Sorting by priority and the order in which results come back
    are left arbitrary. */
module Pipelines {
  import opened Common
  import opened Grids
  import opened Frames
  import opened Merging
  import opened Detection
  import DiffDetectors
  import opened DetectionRuns
  import opened DeltaStream
  import EncodingPools

  /** Milliseconds between quality refreshes. */
  const FULL_REFRESH_INTERVAL: nat := 1000

  /** Encoding threads on a machine with fewer processors. */
  const MIN_WORKERS: nat := 4

  datatype EncodedFrame = EncodedFrame(header: Option<(nat, nat)>, tiles: seq<Tile>, encoded: seq<seq<byte>>,
                                       ackIndices: seq<nat>, epoch: nat)

  /** A pool worker's encode, and the main thread's second try when it yields nothing. */
  datatype Codec = Codec(worker: EncodingPools.Encoder, fallback: EncodingPools.Encoder) {
    function Produce(t: EncodingPools.EncodingTask): seq<byte> {
      if worker(t) != [] then worker(t) else fallback(t)
    }
  }

  // ---------- arbitrary orders ----------

  /** Some order of `0..n`: any order is possible. */
  method ArbitraryOrder(n: nat) returns (order: seq<nat>)
    ensures Permutation(order, n)
  {
    order := [];
    var remaining := UpTo(n);
    while remaining != {}
      invariant NoDuplicates(order) && |order| + |remaining| == n
      invariant forall k: nat :: k < n <==> k in order || k in remaining
      invariant forall k: nat :: !(k in order && k in remaining)
    {
      var k :| k in remaining;
      order, remaining := order + [k], remaining - {k};
    }
  }

  function UpTo(n: nat): (s: set<nat>)
    ensures |s| == n && forall k: nat :: k in s <==> k < n
  {
    if n == 0 then {} else UpTo(n - 1) + {n - 1}
  }

  function Reorder<T>(s: seq<T>, order: seq<nat>): (r: seq<T>)
    requires forall k :: 0 <= k < |order| ==> order[k] < |s|
    ensures |r| == |order| && forall k :: 0 <= k < |order| ==> r[k] == s[order[k]]
  {
    seq(|order|, k requires 0 <= k < |order| => s[order[k]])
  }

  lemma OverlapSymmetric(a: CellRange, b: CellRange)
    ensures Overlap(a, b) <==> Overlap(b, a)
  {}

  /** A merge stays one however its tiles are ordered. */
  lemma ReorderedMerge(g: Grid, gap: nat, q: Qualities, tiles: seq<Tile>, ranges: seq<CellRange>, order: seq<nat>)
    requires IsMerge(g, gap, q, tiles, ranges) && Permutation(order, |tiles|)
    requires forall k :: 0 <= k < |order| ==> order[k] < |tiles|
    ensures IsMerge(g, gap, q, Reorder(tiles, order), Reorder(ranges, order))
  {
    var ranges' := Reorder(ranges, order);
    forall i, j | 0 <= i < j < |ranges'|
      ensures !Overlap(ranges'[i], ranges'[j])
    {
      assert order[i] != order[j];
      if order[i] < order[j] {
        assert !Overlap(ranges[order[i]], ranges[order[j]]);
      } else {
        assert !Overlap(ranges[order[j]], ranges[order[i]]);
        OverlapSymmetric(ranges[order[i]], ranges[order[j]]);
      }
    }
    forall tx: nat, ty: nat
      ensures Covers(ranges', tx, ty) <==> Covers(ranges, tx, ty)
    {
      if Covers(ranges, tx, ty) {
        var k :| 0 <= k < |ranges| && ranges[k].Has(tx, ty);
        assert k in order;
        var j :| 0 <= j < |order| && order[j] == k;
        assert ranges'[j].Has(tx, ty);
      }
      if Covers(ranges', tx, ty) {
        var j :| 0 <= j < |ranges'| && ranges'[j].Has(tx, ty);
        assert ranges[order[j]].Has(tx, ty);
      }
    }
  }

  // ---------- what a frame is cut into ----------

  /** Quality of every cell the detector sends. */
  ghost function SentQualities(cfg: Config, hash: Hash, s: State, f: Frame, scale: real): Qualities
    requires Fits(cfg, s, f)
  {
    map c | c in SentCells(cfg, hash, s, f) :: QualityOf(cfg, hash, s, f, scale, c)
  }

  ghost function QualityOf(cfg: Config, hash: Hash, s: State, f: Frame, scale: real, c: (nat, nat)): real
    requires Fits(cfg, s, f)
  {
    var i := cfg.GridOf(f).IndexOf(c.0, c.1);
    if i < cfg.GridOf(f).CellCount() then DiffDetectors.SentTile(cfg, hash, s, f, scale, i).quality else GAP_QUALITY
  }

  lemma SentCellIndex(cfg: Config, hash: Hash, s: State, f: Frame, c: (nat, nat))
    requires Fits(cfg, s, f) && c in SentCells(cfg, hash, s, f)
    ensures var g := cfg.GridOf(f);
            && c.0 < g.tilesX && c.1 < g.tilesY && g.IndexOf(c.0, c.1) < g.CellCount()
            && SentAt(cfg, hash, s, f, g.IndexOf(c.0, c.1)) && CellKey(g, g.IndexOf(c.0, c.1)) == c
  {
    var g := cfg.GridOf(f);
    var i: nat :| i < g.CellCount() && SentAt(cfg, hash, s, f, i) && c == CellKey(g, i);
    IndexSplit(g, i);
  }

  /** The quality map the merger works with is that of the cells to send. */
  lemma QualitiesAreSent(cfg: Config, hash: Hash, s: State, f: Frame, scale: real,
                                            tiles: seq<Tile>, indices: seq<nat>)
    requires Fits(cfg, s, f) && DiffDetectors.SentTiles(cfg, hash, s, f, scale, tiles, indices)
    ensures QualityMap(tiles, cfg.GridOf(f)) == SentQualities(cfg, hash, s, f, scale)
  {
    SentTilesAreDirty(cfg, hash, s, f, scale, tiles, indices);
    var q, q' := QualityMap(tiles, cfg.GridOf(f)), SentQualities(cfg, hash, s, f, scale);
    assert tiles[..|tiles|] == tiles;
    forall c | c in q
      ensures q[c] == q'[c]
    {
      PrefixQuality(cfg, hash, s, f, scale, tiles, indices, |tiles|, c);
    }
    MapsEqual(q, q');
  }

  lemma MapsEqual<K, V>(a: map<K, V>, b: map<K, V>)
    requires a.Keys == b.Keys && forall k <- a.Keys :: a[k] == b[k]
    ensures a == b
  {}

  lemma {:induction false} PrefixQuality(cfg: Config, hash: Hash, s: State, f: Frame, scale: real,
                                         tiles: seq<Tile>, indices: seq<nat>, n: nat, c: (nat, nat))
    requires Fits(cfg, s, f) && DiffDetectors.SentTiles(cfg, hash, s, f, scale, tiles, indices) && n <= |tiles|
    requires c in QualityMap(tiles[..n], cfg.GridOf(f))
    ensures QualityMap(tiles[..n], cfg.GridOf(f))[c] == QualityOf(cfg, hash, s, f, scale, c)
  {
    var g := cfg.GridOf(f);
    if n > 0 {
      assert tiles[..n][..n - 1] == tiles[..n - 1];
      var t := tiles[n - 1];
      CellTileKey(g, indices[n - 1], t.quality);
      if c == (t.x / g.tileWidth, t.y / g.tileHeight) {
        IndexSplit(g, indices[n - 1]);
      } else {
        PrefixQuality(cfg, hash, s, f, scale, tiles, indices, n - 1, c);
      }
    }
  }

  // ---------- bytes of a tile ----------

  /** What a tile asks of the pool: its pixels, and its representative cell as the
      key its result is routed by. */
  function TaskOf(f: Frame, g: Grid, t: Tile): EncodingPools.EncodingTask
    requires f.WellFormed() && f.Inside(t.Area()) && g.Shape()
  {
    EncodingPools.EncodingTask(t, f.TileBytes(t.Area()), t.RepresentativeIndex(g))
  }

  /** Tiles of a frame: inside it, each with a cell of the grid as representative. */
  ghost predicate Placed(f: Frame, g: Grid, tiles: seq<Tile>) {
    && f.WellFormed() && g.Valid()
    && (forall k :: 0 <= k < |tiles| ==>
          f.Inside(tiles[k].Area()) && tiles[k].RepresentativeIndex(g) < g.CellCount())
    && (forall j, k :: 0 <= j < k < |tiles| ==> tiles[j].RepresentativeIndex(g) != tiles[k].RepresentativeIndex(g))
  }

  /** The cache may serve a tile of a single cell whose current hash is the cached one. */
  predicate Hit(g: Grid, cells: seq<Cell>, t: Tile)
    requires g.Shape() && t.width > 0 && t.height > 0 && t.RepresentativeIndex(g) < |cells|
  {
    var c := cells[t.RepresentativeIndex(g)];
    t.IsSingleCell(g) && c.meta.cachedHash == c.prev && c.meta.cachedEncoded.Some?
  }

  /** The bytes first obtained for a tile: cached, or from the pool. */
  function FirstBytes(codec: Codec, f: Frame, g: Grid, cells: seq<Cell>, t: Tile): seq<byte>
    requires f.WellFormed() && f.Inside(t.Area()) && g.Shape() && t.RepresentativeIndex(g) < |cells|
  {
    if Hit(g, cells, t) then cells[t.RepresentativeIndex(g)].meta.cachedEncoded.value
    else codec.worker(TaskOf(f, g, t))
  }

  /** The bytes sent: nothing obtained means encoding again on the main thread. */
  function BytesFor(codec: Codec, f: Frame, g: Grid, cells: seq<Cell>, t: Tile): seq<byte>
    requires f.WellFormed() && f.Inside(t.Area()) && g.Shape() && t.RepresentativeIndex(g) < |cells|
  {
    var first := FirstBytes(codec, f, g, cells, t);
    if first == [] then codec.fallback(TaskOf(f, g, t)) else first
  }

  /** Cuts a tile out of the frame into a buffer of its own. */
  method CutOut(f: Frame, r: Rect, level: SimdLevel) returns (bytes: seq<bv8>)
    requires f.WellFormed() && f.Inside(r)
    ensures bytes == f.TileBytes(r)
  {
    TileLength(f, r);
    var buffer := new bv8[ByteCount(r)];
    ExtractTile(f, buffer, r, level);
    bytes := buffer[..];
  }

  /** The tasks of the tiles the cache does not serve; `slots` are their positions. */
  ghost predicate Submitted(f: Frame, g: Grid, cells: seq<Cell>, tiles: seq<Tile>, n: nat,
                            tasks: seq<EncodingPools.EncodingTask>, slots: seq<nat>)
    requires Placed(f, g, tiles) && |cells| == g.CellCount() && n <= |tiles|
  {
    && |slots| == |tasks| && Increasing(slots)
    && (forall k: nat :: k in slots <==> k < n && !Hit(g, cells, tiles[k]))
    && (forall j :: 0 <= j < |slots| ==> slots[j] < |tiles| && tasks[j] == TaskOf(f, g, tiles[slots[j]]))
  }

  /** Which tiles the cache serves. */
  ghost function HitFlags(f: Frame, g: Grid, cells: seq<Cell>, tiles: seq<Tile>): seq<bool>
    requires Placed(f, g, tiles) && |cells| == g.CellCount()
  {
    seq(|tiles|, k requires 0 <= k < |tiles| => Hit(g, cells, tiles[k]))
  }

  function CountFalse(flags: seq<bool>): nat {
    if flags == [] then 0 else CountFalse(flags[..|flags| - 1]) + (if flags[|flags| - 1] then 0 else 1)
  }

  lemma CountFalseNext(flags: seq<bool>, flag: bool)
    ensures CountFalse(flags + [flag]) == CountFalse(flags) + if flag then 0 else 1
  {}

  lemma {:induction false} AllFalse(flags: seq<bool>)
    requires forall k :: 0 <= k < |flags| ==> !flags[k]
    ensures CountFalse(flags) == |flags|
  {
    if flags != [] { AllFalse(flags[..|flags| - 1]); }
  }

  /** How many tiles the cache does not serve. */
  ghost function Misses(f: Frame, g: Grid, cells: seq<Cell>, tiles: seq<Tile>): nat
    requires Placed(f, g, tiles) && |cells| == g.CellCount()
  {
    CountFalse(HitFlags(f, g, cells, tiles))
  }

  lemma ServedNext(f: Frame, g: Grid, cells: seq<Cell>, tiles: seq<Tile>, i: nat,
                   tasks: seq<EncodingPools.EncodingTask>, slots: seq<nat>)
    requires Placed(f, g, tiles) && |cells| == g.CellCount() && i < |tiles| && Hit(g, cells, tiles[i])
    requires Submitted(f, g, cells, tiles, i, tasks, slots)
    ensures Submitted(f, g, cells, tiles, i + 1, tasks, slots)
  {}

  lemma SubmittedNext(f: Frame, g: Grid, cells: seq<Cell>, tiles: seq<Tile>, i: nat,
                      tasks: seq<EncodingPools.EncodingTask>, slots: seq<nat>)
    requires Placed(f, g, tiles) && |cells| == g.CellCount() && i < |tiles| && !Hit(g, cells, tiles[i])
    requires Submitted(f, g, cells, tiles, i, tasks, slots)
    ensures Submitted(f, g, cells, tiles, i + 1, tasks + [TaskOf(f, g, tiles[i])], slots + [i])
  {
    forall j | 0 <= j < |slots| ensures slots[j] < i { assert slots[j] in slots; }
  }

  /** First loop of the encoding phase: serve from the cache or submit. */
  method ServeOrSubmit(f: Frame, g: Grid, cells: seq<Cell>, tiles: seq<Tile>, level: SimdLevel)
    returns (encoded: seq<seq<byte>>, tasks: seq<EncodingPools.EncodingTask>, ghost slots: seq<nat>)
    requires Placed(f, g, tiles) && |cells| == g.CellCount()
    ensures Submitted(f, g, cells, tiles, |tiles|, tasks, slots) && |encoded| == |tiles|
    ensures |tasks| == Misses(f, g, cells, tiles)
    ensures forall k :: 0 <= k < |tiles| && Hit(g, cells, tiles[k]) ==>
              encoded[k] == cells[tiles[k].RepresentativeIndex(g)].meta.cachedEncoded.value
  {
    encoded := seq(|tiles|, i => []);
    tasks, slots := [], [];
    ghost var hits: seq<bool> := [];
    for i: nat := 0 to |tiles|
      invariant |hits| == i && |tasks| == CountFalse(hits)
      invariant forall k :: 0 <= k < i ==> hits[k] == Hit(g, cells, tiles[k])
      invariant |encoded| == |tiles| && Submitted(f, g, cells, tiles, i, tasks, slots)
      invariant forall k :: 0 <= k < i && Hit(g, cells, tiles[k]) ==>
                  encoded[k] == cells[tiles[k].RepresentativeIndex(g)].meta.cachedEncoded.value
    {
      var tile := tiles[i];
      var tileIdx := tile.RepresentativeIndex(g);
      CountFalseNext(hits, Hit(g, cells, tile));
      hits := hits + [Hit(g, cells, tile)];
      if tile.IsSingleCell(g) && cells[tileIdx].meta.cachedHash == cells[tileIdx].prev
         && cells[tileIdx].meta.cachedEncoded.Some? {
        ServedNext(f, g, cells, tiles, i, tasks, slots);
        encoded := encoded[i := cells[tileIdx].meta.cachedEncoded.value];
      } else {
        var data := CutOut(f, tile.Area(), level);
        SubmittedNext(f, g, cells, tiles, i, tasks, slots);
        tasks, slots := tasks + [EncodingPools.EncodingTask(tile, data, tileIdx)], slots + [i];
      }
    }
    assert hits == HitFlags(f, g, cells, tiles);
  }

  /** Submits the tasks and collects their results from a pool of `workers` threads, whose
      steps interleave in any order. The call returns if every task is submitted in the
      end: exactly when there are at most five a worker, and then the result of every task
      has been collected once, in some order. Otherwise it waits forever. */
  method Collect(codec: Codec, workers: nat, tasks: seq<EncodingPools.EncodingTask>)
    returns (returned: bool, results: seq<EncodingPools.EncodedResult>, ghost order: seq<nat>)
    requires workers > 0
    ensures returned <==> |tasks| <= 5 * workers
    ensures returned ==> EncodingPools.ResultsIn(codec.worker, tasks, results, order)
  {
    var pool;
    ghost var schedule;
    pool, schedule := EncodingPools.Run(codec.worker, workers, tasks);
    EncodingPools.PoolCompletesIff(codec.worker, workers, tasks, schedule, EncodingPools.EncodedResult(0, []));
    returned, results, order := pool.toSubmit == [], pool.collected, [];
    if returned {
      order := EncodingPools.FinishedPoolCollects(codec.worker, workers, tasks, schedule);
    }
  }

  /** Positions by representative cell. */
  method PositionsByCell(g: Grid, tiles: seq<Tile>) returns (positions: map<nat, nat>)
    requires g.Valid()
    requires forall j, k :: 0 <= j < k < |tiles| ==> tiles[j].RepresentativeIndex(g) != tiles[k].RepresentativeIndex(g)
    ensures forall k :: 0 <= k < |tiles| ==>
              tiles[k].RepresentativeIndex(g) in positions && positions[tiles[k].RepresentativeIndex(g)] == k
  {
    positions := map[];
    for i: nat := 0 to |tiles|
      invariant forall k :: 0 <= k < i ==>
                  tiles[k].RepresentativeIndex(g) in positions && positions[tiles[k].RepresentativeIndex(g)] == k
    {
      positions := positions[tiles[i].RepresentativeIndex(g) := i];
    }
  }

  /** Routes each result to the tile it belongs to. */
  method Route(codec: Codec, f: Frame, g: Grid, cells: seq<Cell>, tiles: seq<Tile>, served: seq<seq<byte>>,
               results: seq<EncodingPools.EncodedResult>, ghost tasks: seq<EncodingPools.EncodingTask>,
               ghost slots: seq<nat>, ghost order: seq<nat>)
    returns (encoded: seq<seq<byte>>)
    requires Placed(f, g, tiles) && |cells| == g.CellCount() && |served| == |tiles|
    requires Submitted(f, g, cells, tiles, |tiles|, tasks, slots)
    requires EncodingPools.ResultsIn(codec.worker, tasks, results, order)
    requires forall k :: 0 <= k < |tiles| && Hit(g, cells, tiles[k]) ==>
               served[k] == cells[tiles[k].RepresentativeIndex(g)].meta.cachedEncoded.value
    ensures |encoded| == |tiles|
    ensures forall k :: 0 <= k < |tiles| ==> encoded[k] == FirstBytes(codec, f, g, cells, tiles[k])
  {
    var positions := PositionsByCell(g, tiles);
    encoded := served;
    for m: nat := 0 to |results|
      invariant |encoded| == |tiles|
      invariant forall k :: 0 <= k < |tiles| && Hit(g, cells, tiles[k]) ==> encoded[k] == served[k]
      invariant forall j :: 0 <= j < m ==>
                  order[j] < |slots| && slots[order[j]] < |tiles|
                  && encoded[slots[order[j]]] == FirstBytes(codec, f, g, cells, tiles[slots[order[j]]])
    {
      ghost var slot := slots[order[m]];
      assert slot in slots;
      if results[m].tileIdx in positions {
        encoded := encoded[positions[results[m].tileIdx] := results[m].data];
      }
    }
    forall k: nat | k < |tiles| && !Hit(g, cells, tiles[k])
      ensures encoded[k] == FirstBytes(codec, f, g, cells, tiles[k])
    {
      assert k in slots;
      var t: nat :| t < |slots| && slots[t] == k;
      assert t in order;
      var j :| 0 <= j < |order| && order[j] == t;
    }
  }

  /** The whole encoding phase. It returns exactly when the cache misses on at most five
      tiles a worker; every tile then has the bytes `BytesFor` names, whatever order the
      pool returned its results in. */
  method EncodeTiles(codec: Codec, workers: nat, f: Frame, g: Grid, cells: seq<Cell>, tiles: seq<Tile>, level: SimdLevel)
    returns (returned: bool, encoded: seq<seq<byte>>)
    requires Placed(f, g, tiles) && |cells| == g.CellCount() && workers > 0
    ensures returned <==> Misses(f, g, cells, tiles) <= 5 * workers
    ensures returned ==>
              |encoded| == |tiles|
              && forall k :: 0 <= k < |tiles| ==> encoded[k] == BytesFor(codec, f, g, cells, tiles[k])
  {
    var served: seq<seq<byte>>, tasks: seq<EncodingPools.EncodingTask>, results: seq<EncodingPools.EncodedResult>;
    ghost var slots: seq<nat>, order: seq<nat>;
    served, tasks, slots := ServeOrSubmit(f, g, cells, tiles, level);
    returned, results, order := Collect(codec, workers, tasks);
    if !returned {
      return false, [];
    }
    encoded := Route(codec, f, g, cells, tiles, served, results, tasks, slots, order);
    for i: nat := 0 to |encoded|
      invariant |encoded| == |tiles|
      invariant forall k :: 0 <= k < i ==> encoded[k] == BytesFor(codec, f, g, cells, tiles[k])
      invariant forall k :: i <= k < |tiles| ==> encoded[k] == FirstBytes(codec, f, g, cells, tiles[k])
    {
      if encoded[i] == [] {
        var data := CutOut(f, tiles[i].Area(), level);
        encoded := encoded[i := codec.fallback(EncodingPools.EncodingTask(tiles[i], data, tiles[i].RepresentativeIndex(g)))];
      }
    }
  }

  // ---------- cache store and acknowledgement cells ----------

  function WithCache(c: Cell, bytes: seq<byte>): Cell {
    c.(meta := c.meta.(cachedEncoded := Some(bytes), cachedHash := c.prev))
  }

  /** Tile `k` leaves its bytes in the cache of its only cell. */
  predicate StoresAt(g: Grid, tiles: seq<Tile>, encoded: seq<seq<byte>>, k: nat, i: nat)
    requires g.Shape() && k < |tiles| == |encoded| && tiles[k].width > 0 && tiles[k].height > 0
  {
    tiles[k].IsSingleCell(g) && encoded[k] != [] && tiles[k].RepresentativeIndex(g) == i
  }

  /** The first `n` tiles have been stored, and nothing else changed. */
  ghost predicate Stored(f: Frame, g: Grid, tiles: seq<Tile>, encoded: seq<seq<byte>>, n: nat,
                         cells: seq<Cell>, cells': seq<Cell>)
    requires Placed(f, g, tiles) && |encoded| == |tiles| && n <= |tiles|
  {
    && |cells'| == |cells| == g.CellCount()
    && (forall k: nat :: k < n && StoresAt(g, tiles, encoded, k, tiles[k].RepresentativeIndex(g)) ==>
          cells'[tiles[k].RepresentativeIndex(g)] == WithCache(cells[tiles[k].RepresentativeIndex(g)], encoded[k]))
    && (forall i: nat :: i < |cells| && (forall k: nat :: k < n ==> !StoresAt(g, tiles, encoded, k, i)) ==>
          cells'[i] == cells[i])
  }

  predicate CoversCell(g: Grid, ranges: seq<CellRange>, i: nat)
    requires g.Shape()
  {
    Covers(ranges, i % g.tilesX, i / g.tilesX)
  }

  /** Exactly the cells of the ranges, each once. */
  ghost predicate ListsCovered(g: Grid, ranges: seq<CellRange>, indices: seq<nat>)
    requires g.Shape()
  {
    && NoDuplicates(indices)
    && (forall i: nat :: i in indices <==> i < g.CellCount() && CoversCell(g, ranges, i))
  }

  /** All cells of all tiles, for loss recovery. */
  method CollectCells(g: Grid, tiles: seq<Tile>, ghost ranges: seq<CellRange>) returns (ack: seq<nat>)
    requires g.Valid() && |ranges| == |tiles| && PairwiseDisjoint(ranges)
    requires forall k :: 0 <= k < |tiles| ==>
               tiles[k].width > 0 && tiles[k].height > 0 && ranges[k].Within(g) && tiles[k].GridBounds(g) == ranges[k]
    ensures ListsCovered(g, ranges, ack)
  {
    ack := [];
    for n: nat := 0 to |tiles|
      invariant ListsCovered(g, ranges[..n], ack)
    {
      var own := CoveredIndices(tiles[n], g);
      ListMore(g, ranges, n, ack, own);
      ack := ack + own;
    }
    assert ranges[..|tiles|] == ranges;
  }

  lemma ListMore(g: Grid, ranges: seq<CellRange>, n: nat, ack: seq<nat>, own: seq<nat>)
    requires g.Shape() && n < |ranges| && PairwiseDisjoint(ranges)
    requires ListsCovered(g, ranges[..n], ack) && Increasing(own) && Lists(ranges[n], g, own)
    ensures ListsCovered(g, ranges[..n + 1], ack + own)
  {
    forall i: nat | i < g.CellCount()
      ensures CoversCell(g, ranges[..n + 1], i) <==> CoversCell(g, ranges[..n], i) || ranges[n].HasCell(g, i)
      ensures CoversCell(g, ranges[..n], i) ==> !ranges[n].HasCell(g, i)
    {
      CoversNext(ranges, n, i % g.tilesX, i / g.tilesX);
    }
    forall j, k | 0 <= j < |ack| && 0 <= k < |own|
      ensures ack[j] != own[k]
    {
      assert ack[j] in ack && own[k] in own;
    }
  }

  lemma CoversNext(ranges: seq<CellRange>, n: nat, tx: nat, ty: nat)
    requires n < |ranges| && PairwiseDisjoint(ranges)
    ensures Covers(ranges[..n + 1], tx, ty) <==> Covers(ranges[..n], tx, ty) || ranges[n].Has(tx, ty)
    ensures Covers(ranges[..n], tx, ty) ==> !ranges[n].Has(tx, ty)
  {}

  /** The tiles of a merge lie in the frame, on distinct representative cells. */
  lemma MergeIsPlaced(f: Frame, g: Grid, gap: nat, q: Qualities, tiles: seq<Tile>, ranges: seq<CellRange>)
    requires f.WellFormed() && g.frameWidth == f.width && g.frameHeight == f.height
    requires IsMerge(g, gap, q, tiles, ranges)
    ensures Placed(f, g, tiles)
    ensures forall k :: 0 <= k < |tiles| ==>
              && tiles[k].Area() == g.RangeRect(ranges[k]) && tiles[k].GridBounds(g) == ranges[k]
              && tiles[k].RepresentativeIndex(g) == g.IndexOf(ranges[k].x0, ranges[k].y0)
  {
    RepresentativesDistinct(g, gap, q, tiles, ranges);
    forall k | 0 <= k < |tiles|
      ensures f.Inside(tiles[k].Area()) && tiles[k].RepresentativeIndex(g) < g.CellCount()
      ensures tiles[k].Area() == g.RangeRect(ranges[k])
      ensures tiles[k].RepresentativeIndex(g) == g.IndexOf(ranges[k].x0, ranges[k].y0)
    {
      RangeNonempty(g, ranges[k]);
      BoundsInvertSpans(g, ranges[k], tiles[k].quality);
      IndexJoin(g, ranges[k].x0, ranges[k].y0);
    }
  }

  // ---------- the pipeline ----------

  /** Abstract state: detector, frame size, grid epoch, time of the last refresh. */
  datatype PState = PState(det: State, size: Option<(nat, nat)>, epoch: nat, lastRefresh: nat)

  predicate Resized(p: PState, f: Frame) { p.size != Some((f.width, f.height)) }

  /** The refresh clock restarts on a resize and at every refresh. */
  predicate RefreshDue(p: PState, f: Frame, now: nat) {
    now - (if Resized(p, f) then now else p.lastRefresh) >= FULL_REFRESH_INTERVAL
  }

  /** The detector state a frame meets: reset by a resize, refreshed when due. */
  function Met(p: PState, f: Frame, now: nat): State {
    var s := if Resized(p, f) && p.size.Some? then INITIAL_STATE else p.det;
    if RefreshDue(p, f, now) then InvalidateCache(s) else s
  }

  function NextEpoch(p: PState, f: Frame): nat {
    if Resized(p, f) && p.size.Some? then p.epoch + 1 else p.epoch
  }

  /** Frame sizes and the detector's cell count agree between frames. */
  predicate Settled(cfg: Config, p: PState) {
    match p.size
    case None => p.det.cells == []
    case Some((w, h)) => p.det.cells == [] || |p.det.cells| == New(cfg.tilesX, w, h).CellCount()
  }

  predicate Acceptable(cfg: Config, f: Frame) {
    cfg.Valid() && f.WellFormed() && (f.damage == [] || cfg.tilesX == cfg.GridOf(f).tilesX)
  }

  lemma MetFits(cfg: Config, p: PState, f: Frame, now: nat)
    requires Settled(cfg, p) && Acceptable(cfg, f)
    ensures Fits(cfg, Met(p, f, now), f)
  {}

  /** The tiles of a frame: a merge of the cells the detector sends, in some order,
      each with its bytes, and all their cells to acknowledge. */
  ghost predicate Output(cfg: Config, hash: Hash, codec: Codec, s: State, f: Frame, scale: real,
                         out: EncodedFrame, ranges: seq<CellRange>)
    requires Fits(cfg, s, f)
  {
    var g, cells := cfg.GridOf(f), Detect(cfg, hash, s, f).cells;
    && IsMerge(g, cfg.mergeGap, SentQualities(cfg, hash, s, f, scale), out.tiles, ranges)
    && Placed(f, g, out.tiles)
    && |out.encoded| == |out.tiles|
    && (forall k :: 0 <= k < |out.tiles| ==> out.encoded[k] == BytesFor(codec, f, g, cells, out.tiles[k]))
    && ListsCovered(g, ranges, out.ackIndices)
  }

  /** The tiles a frame is cut into: a merge of the cells the detector sends, in some order. */
  ghost predicate Cut(cfg: Config, hash: Hash, s: State, f: Frame, scale: real, tiles: seq<Tile>, ranges: seq<CellRange>)
    requires Fits(cfg, s, f)
  {
    && IsMerge(cfg.GridOf(f), cfg.mergeGap, SentQualities(cfg, hash, s, f, scale), tiles, ranges)
    && Placed(f, cfg.GridOf(f), tiles)
  }

  /** A whole `process` call, from one abstract state to the next. */
  ghost predicate Processed(cfg: Config, hash: Hash, codec: Codec, scale: real, p: PState, f: Frame, now: nat,
                            out: Option<EncodedFrame>, ranges: seq<CellRange>, p': PState)
    requires Fits(cfg, Met(p, f, now), f)
  {
    var s := Met(p, f, now);
    var after := Detect(cfg, hash, s, f);
    && p'.size == Some((f.width, f.height)) && p'.epoch == NextEpoch(p, f)
    && p'.lastRefresh == (if Resized(p, f) || RefreshDue(p, f, now) then now else p.lastRefresh)
    && p'.det.frameCount == after.frameCount
    && (out.None? <==> !Resized(p, f) && SentCells(cfg, hash, s, f) == {})
    && (out.None? ==> p'.det == after)
    && (out.Some? ==>
          && out.value.header == (if Resized(p, f) then Some((f.width, f.height)) else None)
          && out.value.epoch == p'.epoch
          && Output(cfg, hash, codec, s, f, scale, out.value, ranges)
          && Stored(f, cfg.GridOf(f), out.value.tiles, out.value.encoded, |out.value.tiles|, after.cells, p'.det.cells))
  }

  lemma NothingSent(cfg: Config, hash: Hash, s: State, f: Frame, scale: real, tiles: seq<Tile>, indices: seq<nat>)
    requires Fits(cfg, s, f) && DiffDetectors.SentTiles(cfg, hash, s, f, scale, tiles, indices)
    ensures tiles == [] <==> SentCells(cfg, hash, s, f) == {}
  {
    SentTilesAreDirty(cfg, hash, s, f, scale, tiles, indices);
    EmptyQualityMap(cfg.GridOf(f), tiles);
  }

  lemma EmptyQualityMap(g: Grid, tiles: seq<Tile>)
    requires g.Shape()
    ensures tiles == [] <==> QualityMap(tiles, g).Keys == {}
  {
    if tiles != [] {
      var t := tiles[|tiles| - 1];
      assert (t.x / g.tileWidth, t.y / g.tileHeight) in QualityMap(tiles, g).Keys;
    }
  }

  lemma EmptyOutput(cfg: Config, hash: Hash, codec: Codec, s: State, f: Frame, scale: real,
                    header: Option<(nat, nat)>, epoch: nat)
    requires Fits(cfg, s, f) && SentCells(cfg, hash, s, f) == {}
    ensures Output(cfg, hash, codec, s, f, scale, EncodedFrame(header, [], [], [], epoch), [])
    ensures Stored(f, cfg.GridOf(f), [], [], 0, Detect(cfg, hash, s, f).cells, Detect(cfg, hash, s, f).cells)
  {}

  class Pipeline {
    const config: Config
    const codec: Codec
    const level: SimdLevel
    const workers: nat
    const detector: DiffDetectors.DiffDetector
    var screenSize: Option<(nat, nat)>
    var lastFullRefresh: nat
    var epoch: nat

    ghost predicate Valid()
      reads this, detector
    {
      detector.Valid() && detector.config == config && Settled(config, Abstract()) && workers >= MIN_WORKERS
    }

    ghost function Abstract(): PState
      requires detector.Valid()
      reads this, detector
    {
      PState(detector.Abstract(), screenSize, epoch, lastFullRefresh)
    }

    constructor (config: Config, codec: Codec, level: SimdLevel, cpus: nat, hash: Hash, now: nat)
      requires config.Valid()
      ensures Valid() && fresh(detector) && detector.hash == hash && this.config == config && this.codec == codec
      ensures workers == if cpus < 4 then 4 else cpus
      ensures Abstract() == PState(INITIAL_STATE, None, 0, now)
    {
      this.config, this.codec, this.level, workers := config, codec, level, Max(cpus, MIN_WORKERS);
      detector := new DiffDetectors.DiffDetector(config, hash);
      screenSize, lastFullRefresh, epoch := None, now, 0;
    }

    /** Loss recovery: cells of another epoch describe another grid and are ignored. */
    method Invalidate(epoch: nat, indices: seq<nat>) returns (applied: bool)
      requires Valid()
      modifies detector
      ensures Valid() && applied == (epoch == this.epoch)
      ensures Abstract() == old(Abstract()).(det := if epoch == this.epoch then InvalidateTiles(old(Abstract()).det, indices)
                                                    else old(Abstract()).det)
      ensures detector.qualityScale == old(detector.qualityScale)
    {
      if epoch != this.epoch {
        return false;
      }
      detector.InvalidateTiles(indices);
      return true;
    }

    /** Scales the quality of every tile from here on; nothing else changes. */
    method SetQualityScale(scale: real)
      requires Valid()
      modifies detector`qualityScale
      ensures Valid() && detector.qualityScale == scale && Abstract() == old(Abstract())
    {
      detector.SetQualityScale(scale);
    }

    /** Resize and refresh bookkeeping; returns the header to send, if any. */
    method Admit(frame: Frame, now: nat) returns (header: Option<(nat, nat)>)
      requires Valid() && Acceptable(config, frame)
      modifies this, detector
      ensures Valid() && detector.qualityScale == old(detector.qualityScale)
      ensures header == if Resized(old(Abstract()), frame) then Some((frame.width, frame.height)) else None
      ensures Abstract() == PState(Met(old(Abstract()), frame, now), Some((frame.width, frame.height)),
                                   NextEpoch(old(Abstract()), frame),
                                   if Resized(old(Abstract()), frame) || RefreshDue(old(Abstract()), frame, now) then now
                                   else old(lastFullRefresh))
    {
      header := None;
      ghost var p := Abstract();
      if screenSize != Some((frame.width, frame.height)) {
        if screenSize.Some? {
          detector.Reset();
          epoch := epoch + 1;
        }
        screenSize := Some((frame.width, frame.height));
        lastFullRefresh := now;
        header := Some((frame.width, frame.height));
      }
      if now - lastFullRefresh >= FULL_REFRESH_INTERVAL {
        detector.InvalidateCache();
        lastFullRefresh := now;
      }
    }

    /** Stores every single-cell tile's bytes in its cell. */
    method StoreAll(frame: Frame, g: Grid, tiles: seq<Tile>, encoded: seq<seq<byte>>)
      requires detector.Valid() && Placed(frame, g, tiles) && |encoded| == |tiles|
      requires |detector.Abstract().cells| == g.CellCount()
      modifies detector`tileMetadata
      ensures detector.Valid()
      ensures Stored(frame, g, tiles, encoded, |tiles|, old(detector.Abstract().cells), detector.Abstract().cells)
    {
      ghost var cells := detector.Abstract().cells;
      for k: nat := 0 to |tiles|
        invariant detector.Valid()
        invariant Stored(frame, g, tiles, encoded, k, cells, detector.Abstract().cells)
      {
        if tiles[k].IsSingleCell(g) && encoded[k] != [] {
          var i := tiles[k].RepresentativeIndex(g);
          ghost var before := detector.Abstract().cells;
          StoredElsewhere(frame, g, tiles, encoded, k, cells, before);
          detector.KeepEncode(i, encoded[k], detector.prevHashes[i]);
          StoreNext(frame, g, tiles, encoded, k, cells, before, detector.Abstract().cells);
        } else {
          StoreSkipped(frame, g, tiles, encoded, k, cells, detector.Abstract().cells);
        }
      }
    }

    /** Merges the changed tiles and puts them in priority order, which is arbitrary here. */
    method MergeAndSort(changed: seq<Tile>, g: Grid) returns (sorted: seq<Tile>, ghost ranges: seq<CellRange>)
      requires g.Valid()
      ensures IsMerge(g, config.mergeGap, QualityMap(changed, g), sorted, ranges)
    {
      var merged: seq<Tile>;
      merged, ranges := Merge(changed, config.mergeGap, g);
      var order := ArbitraryOrder(|merged|);
      forall k | 0 <= k < |order| ensures order[k] < |merged| { assert order[k] in order; }
      ReorderedMerge(g, config.mergeGap, QualityMap(changed, g), merged, ranges, order);
      sorted, ranges := Reorder(merged, order), Reorder(ranges, order);
    }

    /** Everything after detection, for at least one changed tile: merge, encode,
        list the cells to acknowledge and store single-cell encodes. */
    method Package(frame: Frame, changed: seq<Tile>, header: Option<(nat, nat)>, ghost s: State, ghost indices: seq<nat>)
      returns (returned: bool, out: EncodedFrame, ghost ranges: seq<CellRange>)
      requires detector.Valid() && detector.config == config && Fits(config, s, frame) && workers > 0
      requires detector.Abstract() == Detect(config, detector.hash, s, frame)
      requires DiffDetectors.SentTiles(config, detector.hash, s, frame, detector.qualityScale, changed, indices)
      modifies detector`tileMetadata
      ensures detector.Valid() && detector.frameCount == old(detector.frameCount)
      ensures Cut(config, detector.hash, s, frame, detector.qualityScale, out.tiles, ranges)
      ensures returned <==> Misses(frame, config.GridOf(frame), Detect(config, detector.hash, s, frame).cells, out.tiles)
                            <= 5 * workers
      ensures returned ==>
                && out.header == header && out.epoch == epoch
                && Output(config, detector.hash, codec, s, frame, detector.qualityScale, out, ranges)
                && Stored(frame, config.GridOf(frame), out.tiles, out.encoded, |out.tiles|,
                          old(detector.Abstract().cells), detector.Abstract().cells)
    {
      var g := config.GridOf(frame);
      var sorted: seq<Tile>;
      sorted, ranges := MergeAndSort(changed, g);
      QualitiesAreSent(config, detector.hash, s, frame, detector.qualityScale, changed, indices);
      MergeIsPlaced(frame, g, config.mergeGap, QualityMap(changed, g), sorted, ranges);
      var ack := CollectCells(g, sorted, ranges);
      var cells := DiffDetectors.Zip(detector.prevHashes, detector.prevPrevHashes, detector.tileMetadata,
                                     detector.forceRedetect);
      var encoded: seq<seq<byte>>;
      returned, encoded := EncodeTiles(codec, workers, frame, g, cells, sorted, level);
      out := EncodedFrame(header, sorted, encoded, ack, epoch);
      if returned {
        StoreAll(frame, g, sorted, encoded);
      }
    }

    /** `Pipeline::process`. The call returns exactly when at most five of the frame's
        tiles a worker are not served from the cache. It then yields nothing when there is
        neither a changed cell nor a header; otherwise the tiles of `Output`, with the
        encodes of single cells kept. */
    method Process(frame: Frame, now: nat)
      returns (returned: bool, out: Option<EncodedFrame>, ghost tiles: seq<Tile>, ghost ranges: seq<CellRange>)
      requires Valid() && Acceptable(config, frame)
      modifies this, detector
      ensures detector.Valid() && detector.qualityScale == old(detector.qualityScale)
      ensures Fits(config, Met(old(Abstract()), frame, now), frame)
      ensures var s := Met(old(Abstract()), frame, now);
              && Cut(config, detector.hash, s, frame, detector.qualityScale, tiles, ranges)
              && (returned <==> Misses(frame, config.GridOf(frame), Detect(config, detector.hash, s, frame).cells, tiles)
                                <= 5 * workers)
      ensures returned ==> Valid() && Processed(config, detector.hash, codec, detector.qualityScale, old(Abstract()), frame,
                                                now, out, ranges, Abstract())
      ensures returned ==> tiles == if out.Some? then out.value.tiles else []
    {
      ghost var p, scale := Abstract(), detector.qualityScale;
      ghost var s := Met(p, frame, now);
      MetFits(config, p, frame, now);
      var header := Admit(frame, now);
      var changed: seq<Tile>, indices: seq<nat>;
      changed, indices := detector.DetectChanges(frame);
      returned, out, tiles, ranges := true, None, [], [];
      NothingSent(config, detector.hash, s, frame, scale, changed, indices);
      if changed == [] {
        EmptyOutput(config, detector.hash, codec, s, frame, scale, header, epoch);
        if header.Some? {
          out := Some(EncodedFrame(header, [], [], [], epoch));
        }
      } else {
        var o: EncodedFrame;
        returned, o, ranges := Package(frame, changed, header, s, indices);
        tiles := o.tiles;
        if returned {
          out := Some(o);
        }
      }
    }
  }

  lemma StoredElsewhere(f: Frame, g: Grid, tiles: seq<Tile>, encoded: seq<seq<byte>>, k: nat,
                        cells: seq<Cell>, now: seq<Cell>)
    requires Placed(f, g, tiles) && |encoded| == |tiles| && k < |tiles| && Stored(f, g, tiles, encoded, k, cells, now)
    ensures now[tiles[k].RepresentativeIndex(g)] == cells[tiles[k].RepresentativeIndex(g)]
  {}

  lemma StoreSkipped(f: Frame, g: Grid, tiles: seq<Tile>, encoded: seq<seq<byte>>, k: nat,
                     cells: seq<Cell>, now: seq<Cell>)
    requires Placed(f, g, tiles) && |encoded| == |tiles| && k < |tiles| && Stored(f, g, tiles, encoded, k, cells, now)
    requires !(tiles[k].IsSingleCell(g) && encoded[k] != [])
    ensures Stored(f, g, tiles, encoded, k + 1, cells, now)
  {
    forall i: nat | i < |cells| && (forall j: nat :: j < k + 1 ==> !StoresAt(g, tiles, encoded, j, i))
      ensures now[i] == cells[i]
    {
      assert forall j: nat :: j < k ==> !StoresAt(g, tiles, encoded, j, i);
    }
  }

  lemma StoreNext(f: Frame, g: Grid, tiles: seq<Tile>, encoded: seq<seq<byte>>, k: nat,
                  cells: seq<Cell>, now: seq<Cell>, next: seq<Cell>)
    requires Placed(f, g, tiles) && |encoded| == |tiles| && k < |tiles| && Stored(f, g, tiles, encoded, k, cells, now)
    requires tiles[k].IsSingleCell(g) && encoded[k] != []
    requires var i := tiles[k].RepresentativeIndex(g); next == now[i := WithCache(cells[i], encoded[k])]
    ensures Stored(f, g, tiles, encoded, k + 1, cells, next)
  {}
}
