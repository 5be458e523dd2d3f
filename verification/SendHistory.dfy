/** When a changed cell is sent, and at what quality, from the history of a run alone: the
    frames, losses and refreshes so far, and no field of the detector. */
module SendHistories {
  import opened Common
  import opened Grids
  import opened Frames
  import opened Detection
  import opened DetectionRuns
  import opened Pipelines
  import DiffDetectors
  import Merging

  /** The last sending of a cell since its last reset: the number of the frame, and whether
      the cell was sent as dynamic, that is, had been sent since its last reset before. */
  datatype Sending = Sending(number: nat, dynamic: bool)

  /** A loss resets the cell, and so does a refresh if the cell was last sent as dynamic. */
  function LastSending(cfg: Config, hash: Hash, events: seq<Event>, i: nat): Option<Sending>
    requires Exec(cfg, hash, events).Some?
  {
    if events == [] then None else
      var before, e := events[..|events| - 1], events[|events| - 1];
      var last := LastSending(cfg, hash, before, i);
      match e
      case Show(f) =>
        var d := Exec(cfg, hash, before).value;
        if i < cfg.GridOf(f).CellCount() && SentAt(cfg, hash, Erase(d), f, i) then Some(Sending(d.n + 1, last.Some?))
        else last
      case Lose(indices) => if i in indices then None else last
      case Refresh => if last.Some? && last.value.dynamic then None else last
      case Reset => None
  }

  /** The detector's fields record just that. */
  ghost predicate Records(c: Cell, last: Option<Sending>) {
    && (last.None? ==> c.meta.lastSentFrame == 0)
    && (last.Some? ==>
          0 < c.meta.lastSentFrame == last.value.number
          && (c.meta.lastSentAsDynamic <==> last.value.dynamic) && (c.meta.isDynamic <==> last.value.dynamic))
  }

  lemma ShowRecords(cfg: Config, hash: Hash, d: Detector, f: Frame, i: nat, last: Option<Sending>)
    requires DetectorInv(hash, d) && Fits(cfg, Erase(d), f) && AllHashable(cfg, hash, f) && i < cfg.GridOf(f).CellCount()
    requires if d.cells == [] then last.None? else Records(d.cells[i].cell, last)
    ensures Records(ShowFrame(cfg, hash, d, f).cells[i].cell,
                    if SentAt(cfg, hash, Erase(d), f, i) then Some(Sending(d.n + 1, last.Some?)) else last)
  {
    var l := LookAt(cfg, hash, Erase(d), f, i);
    assert CellsFor(cfg, Erase(d), f)[i] == TrackedFor(cfg, d, f)[i].cell;
    if d.cells != [] {
      assert CellInv(hash, d.cells[i], d.n);
      if Changed(d.cells[i].cell, l) { SentBeforeIsDynamic(hash, d.cells[i], d.n, l); }
    }
  }

  /** In every run. */
  lemma {:induction false} RunRecords(cfg: Config, hash: Hash, events: seq<Event>, i: nat)
    requires Exec(cfg, hash, events).Some?
    ensures var d, last := Exec(cfg, hash, events).value, LastSending(cfg, hash, events, i);
            if i < |d.cells| then Records(d.cells[i].cell, last) else d.cells == [] ==> last.None?
  {
    if events != [] {
      var before, e := events[..|events| - 1], events[|events| - 1];
      RunRecords(cfg, hash, before, i);
      ReachableInv(cfg, hash, before);
      var d := Exec(cfg, hash, before).value;
      if e.Show? && i < cfg.GridOf(e.frame).CellCount() {
        ShowRecords(cfg, hash, d, e.frame, i, LastSending(cfg, hash, before, i));
      }
    }
  }

  // ---------- when ----------

  /** Throttling, exactly: after the first frame a changed cell is sent at once if its last
      sending was its first since a reset; otherwise when `target_fps / dynamic_tile_fps`
      frames have passed since its last sending; and if it has not been sent since its last
      reset, when the detector has seen `target_fps / static_tile_fps` frames. */
  lemma SentIffDue(cfg: Config, hash: Hash, events: seq<Event>, f: Frame, i: nat)
    requires Exec(cfg, hash, events + [Show(f)]).Some? && i < cfg.GridOf(f).CellCount()
    ensures Exec(cfg, hash, events).Some? && Fits(cfg, Erase(Exec(cfg, hash, events).value), f)
    ensures var d, last := Exec(cfg, hash, events).value, LastSending(cfg, hash, events, i);
            var changed := Changed(CellsFor(cfg, Erase(d), f)[i], LookAt(cfg, hash, Erase(d), f, i));
            SentAt(cfg, hash, Erase(d), f, i) <==>
              || d.cells == []
              || (changed && match last
                             case None => d.n + 1 >= cfg.targetFps / cfg.staticTileFps
                             case Some(s) => !s.dynamic || d.n + 1 - s.number >= cfg.targetFps / cfg.dynamicTileFps)
  {
    ExecNext(cfg, hash, events, Show(f));
    var d := Exec(cfg, hash, events).value;
    RunRecords(cfg, hash, events, i);
    ReachableInv(cfg, hash, events);
    var l := LookAt(cfg, hash, Erase(d), f, i);
    if d.cells != [] && Changed(CellsFor(cfg, Erase(d), f)[i], l) { SentBeforeIsDynamic(hash, d.cells[i], d.n, l); }
  }

  // ---------- at what quality ----------

  /** `q` is `x`, limited to 1 to 100. */
  ghost predicate Limited(x: real, q: real) {
    && (x < 1.0 ==> q == 1.0) && (1.0 <= x <= 100.0 ==> q == x) && (x > 100.0 ==> q == 100.0)
  }

  /** In every run, what a frame is cut into before merging: each cell sent has the high
      quality if it has not been sent since its last reset, as on a first frame, after a loss
      and after a refresh that found it last sent as dynamic, and the low one otherwise, times
      the scale and limited to 1 to 100. */
  lemma QualityOfSent(cfg: Config, hash: Hash, events: seq<Event>, f: Frame, scale: real,
                      tiles: seq<Tile>, indices: seq<nat>, k: nat, wanted: real)
    requires Exec(cfg, hash, events + [Show(f)]).Some? && k < |tiles| == |indices|
    requires Exec(cfg, hash, events).Some? && Fits(cfg, Erase(Exec(cfg, hash, events).value), f)
    requires DiffDetectors.SentTiles(cfg, hash, Erase(Exec(cfg, hash, events).value), f, scale, tiles, indices)
    requires LastSending(cfg, hash, events, indices[k]).None? ==> wanted == cfg.qualityHigh * scale
    requires LastSending(cfg, hash, events, indices[k]).Some? ==> wanted == cfg.qualityLow * scale
    ensures Limited(wanted, tiles[k].quality)
  {
    TileQuality(cfg, hash, events, f, scale, tiles, indices, k);
    QualityIsLimited(cfg, LastSending(cfg, hash, events, indices[k]).None?, scale, wanted, tiles[k].quality);
  }

  /** And after merging, of a tile that is one cell. */
  lemma QualityOfEmitted(cfg: Config, hash: Hash, events: seq<Event>, f: Frame, scale: real,
                         tiles: seq<Tile>, ranges: seq<CellRange>, k: nat, wanted: real)
    requires Exec(cfg, hash, events).Some? && Fits(cfg, Erase(Exec(cfg, hash, events).value), f)
    requires Cut(cfg, hash, Erase(Exec(cfg, hash, events).value), f, scale, tiles, ranges)
    requires k < |tiles| && tiles[k].IsSingleCell(cfg.GridOf(f))
    requires var last := LastSending(cfg, hash, events, tiles[k].RepresentativeIndex(cfg.GridOf(f)));
             && (last.None? ==> wanted == cfg.qualityHigh * scale)
             && (last.Some? ==> wanted == cfg.qualityLow * scale)
    ensures Limited(wanted, tiles[k].quality)
  {
    var s, g, i := Erase(Exec(cfg, hash, events).value), cfg.GridOf(f), tiles[k].RepresentativeIndex(cfg.GridOf(f));
    SingleQuality(cfg, hash, s, f, scale, tiles, ranges, k);
    DynamicIffSentBefore(cfg, hash, events, f, i);
    QualityIsLimited(cfg, LastSending(cfg, hash, events, i).None?, scale, wanted, tiles[k].quality);
  }

  lemma SingleQuality(cfg: Config, hash: Hash, s: State, f: Frame, scale: real,
                      tiles: seq<Tile>, ranges: seq<CellRange>, k: nat)
    requires Fits(cfg, s, f) && Cut(cfg, hash, s, f, scale, tiles, ranges)
    requires k < |tiles| && tiles[k].IsSingleCell(cfg.GridOf(f))
    ensures var i := tiles[k].RepresentativeIndex(cfg.GridOf(f));
            && i < cfg.GridOf(f).CellCount() && SentAt(cfg, hash, s, f, i)
            && tiles[k].quality
               == DiffDetectors.Quality(cfg, Dynamic(CellsFor(cfg, s, f)[i], LookAt(cfg, hash, s, f, i)), scale)
  {
    var g, q := cfg.GridOf(f), SentQualities(cfg, hash, s, f, scale);
    MergeIsPlaced(f, g, cfg.mergeGap, q, tiles, ranges);
    var r := ranges[k];
    assert r.Single();
    Merging.SingleCellIsDirty(g, cfg.mergeGap, q, tiles, ranges, k);
    SentCellIndex(cfg, hash, s, f, (r.x0, r.y0));
    assert tiles[k].quality == QualityOf(cfg, hash, s, f, scale, (r.x0, r.y0));
  }

  lemma QualityIsLimited(cfg: Config, unsent: bool, scale: real, wanted: real, q: real)
    requires unsent ==> wanted == cfg.qualityHigh * scale
    requires !unsent ==> wanted == cfg.qualityLow * scale
    requires q == DiffDetectors.Quality(cfg, !unsent, scale)
    ensures Limited(wanted, q)
  {}

  lemma TileQuality(cfg: Config, hash: Hash, events: seq<Event>, f: Frame, scale: real,
                    tiles: seq<Tile>, indices: seq<nat>, k: nat)
    requires Exec(cfg, hash, events).Some? && Fits(cfg, Erase(Exec(cfg, hash, events).value), f)
    requires DiffDetectors.SentTiles(cfg, hash, Erase(Exec(cfg, hash, events).value), f, scale, tiles, indices)
    requires k < |tiles|
    ensures k < |indices|
    ensures tiles[k].quality == DiffDetectors.Quality(cfg, !LastSending(cfg, hash, events, indices[k]).None?, scale)
  {
    var d, i := Exec(cfg, hash, events).value, indices[k];
    assert i in indices;
    DynamicIffSentBefore(cfg, hash, events, f, i);
    assert tiles[k] == DiffDetectors.SentTile(cfg, hash, Erase(d), f, scale, i);
  }

  lemma DynamicIffSentBefore(cfg: Config, hash: Hash, events: seq<Event>, f: Frame, i: nat)
    requires Exec(cfg, hash, events).Some? && Fits(cfg, Erase(Exec(cfg, hash, events).value), f)
    requires i < cfg.GridOf(f).CellCount() && SentAt(cfg, hash, Erase(Exec(cfg, hash, events).value), f, i)
    ensures var d := Exec(cfg, hash, events).value;
            Dynamic(CellsFor(cfg, Erase(d), f)[i], LookAt(cfg, hash, Erase(d), f, i))
            <==> LastSending(cfg, hash, events, i).Some?
  {
    var d := Exec(cfg, hash, events).value;
    RunRecords(cfg, hash, events, i);
    ReachableInv(cfg, hash, events);
    if d.cells != [] { SentBeforeIsDynamic(hash, d.cells[i], d.n, LookAt(cfg, hash, Erase(d), f, i)); }
  }

  // ---------- the scale ----------

  /** More scale never means less quality, cell by cell. */
  lemma QualityRises(cfg: Config, dynamic: bool, low: real, high: real)
    requires cfg.qualityLow >= 0.0 && cfg.qualityHigh >= 0.0 && low <= high
    ensures DiffDetectors.Quality(cfg, dynamic, low) <= DiffDetectors.Quality(cfg, dynamic, high)
  {
    var base := if dynamic then cfg.qualityLow else cfg.qualityHigh;
    assert base * (high - low) >= 0.0;
    assert base * high == base * low + base * (high - low);
  }

  lemma SentQualitiesRise(cfg: Config, hash: Hash, s: State, f: Frame, low: real, high: real)
    requires Fits(cfg, s, f) && cfg.qualityLow >= 0.0 && cfg.qualityHigh >= 0.0 && low <= high
    ensures Merging.NoHigher(SentQualities(cfg, hash, s, f, low), SentQualities(cfg, hash, s, f, high))
  {
    forall c | c in SentQualities(cfg, hash, s, f, low)
      ensures SentQualities(cfg, hash, s, f, low)[c] <= SentQualities(cfg, hash, s, f, high)[c]
    {
      var i := cfg.GridOf(f).IndexOf(c.0, c.1);
      if i < cfg.GridOf(f).CellCount() {
        QualityRises(cfg, Dynamic(CellsFor(cfg, s, f)[i], LookAt(cfg, hash, s, f, i)), low, high);
      }
    }
  }

  /** The same frame cut at two scales: the tile of each rectangle has at the higher scale at
      least the quality it has at the lower. */
  lemma EmittedQualityRises(cfg: Config, hash: Hash, s: State, f: Frame, low: real, high: real,
                            lowTiles: seq<Tile>, highTiles: seq<Tile>, ranges: seq<CellRange>, k: nat)
    requires Fits(cfg, s, f) && cfg.qualityLow >= 0.0 && cfg.qualityHigh >= 0.0 && low <= high
    requires Cut(cfg, hash, s, f, low, lowTiles, ranges) && Cut(cfg, hash, s, f, high, highTiles, ranges)
    requires k < |ranges|
    ensures k < |lowTiles| && k < |highTiles| && lowTiles[k].Area() == highTiles[k].Area()
    ensures lowTiles[k].quality <= highTiles[k].quality
  {
    SentQualitiesRise(cfg, hash, s, f, low, high);
    Merging.AverageRises(SentQualities(cfg, hash, s, f, low), SentQualities(cfg, hash, s, f, high), ranges[k]);
  }
}
