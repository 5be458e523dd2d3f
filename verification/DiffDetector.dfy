/** The imperative change detector (`DiffDetector` in src/diff.rs): parallel arrays
    updated in passes over the cells. Every method is proved to act on the abstract
    state as the functions of `Detection` say. */
module DiffDetectors {
  import opened Common
  import opened Grids
  import opened Frames
  import opened Detection

  function Clamp(x: real, lo: real, hi: real): real {
    if x < lo then lo else if x > hi then hi else x
  }

  /** WebP quality of a cell: low while it is dynamic, scaled to the link. */
  function Quality(cfg: Config, dynamic: bool, scale: real): real {
    Clamp((if dynamic then cfg.qualityLow else cfg.qualityHigh) * scale, 1.0, 100.0)
  }

  /** The tile of one cell. */
  function CellTile(g: Grid, i: nat, quality: real): Tile
    requires g.Valid() && i < g.CellCount()
  {
    RangeTile(g, g.CellAt(i), quality)
  }

  function Zip(prev: seq<u64>, prevPrev: seq<u64>, meta: seq<TileMetadata>, force: seq<bool>): (cells: seq<Cell>)
    requires |prev| == |prevPrev| == |meta| == |force|
    ensures |cells| == |prev|
    ensures forall i :: 0 <= i < |prev| ==> cells[i] == Cell(prev[i], prevPrev[i], meta[i], force[i])
  {
    seq(|prev|, i requires 0 <= i < |prev| => Cell(prev[i], prevPrev[i], meta[i], force[i]))
  }

  /** What the pass over the cells decides about one of them. */
  datatype Verdict = Unchanged | Send(tile: Tile, half: u64) | Hold(half: u64)

  /** The verdict on a cell of the given look. */
  ghost predicate Judged(cfg: Config, scale: real, g: Grid, i: nat, c: Cell, l: Look, v: Verdict)
    requires cfg.Valid() && g.Valid() && i < g.CellCount()
  {
    && (v.Unchanged? <==> !Changed(c, l))
    && (v.Send? <==> Sent(cfg, c, l))
    && (v.Send? ==> v.tile == CellTile(g, i, Quality(cfg, Dynamic(c, l), scale)))
    && (!v.Unchanged? ==> v.half == l.half)
  }

  /** Cell `i` changed and was sent (or, with `sent` false, held back). */
  predicate Picked(cfg: Config, cells: seq<Cell>, looks: seq<Look>, sent: bool, i: nat)
    requires cfg.Valid() && |looks| == |cells| && i < |cells|
  {
    Changed(cells[i], looks[i]) && (Sent(cfg, cells[i], looks[i]) <==> sent)
  }

  /** The picked cells below `n`, in order, with their half hashes. */
  ghost predicate Picks(cfg: Config, cells: seq<Cell>, looks: seq<Look>, sent: bool, n: nat, entries: seq<(nat, u64)>)
    requires cfg.Valid() && |looks| == |cells|
  {
    && (forall j, k :: 0 <= j < k < |entries| ==> entries[j].0 < entries[k].0)
    && (forall k :: 0 <= k < |entries| ==>
          && entries[k].0 < n && entries[k].0 < |cells| && Picked(cfg, cells, looks, sent, entries[k].0)
          && entries[k].1 == looks[entries[k].0].half)
    && (forall i: nat :: i < n && i < |cells| && Picked(cfg, cells, looks, sent, i) ==> i in Indices(entries))
  }

  ghost function Indices(entries: seq<(nat, u64)>): set<nat> {
    set k | 0 <= k < |entries| :: entries[k].0
  }

  lemma PickNext(cfg: Config, cells: seq<Cell>, looks: seq<Look>, sent: bool, n: nat, entries: seq<(nat, u64)>)
    requires cfg.Valid() && |looks| == |cells| && n < |cells| && Picks(cfg, cells, looks, sent, n, entries)
    ensures Picked(cfg, cells, looks, sent, n) ==>
              Picks(cfg, cells, looks, sent, n + 1, entries + [(n, looks[n].half)])
    ensures !Picked(cfg, cells, looks, sent, n) ==> Picks(cfg, cells, looks, sent, n + 1, entries)
  {
    var more := entries + [(n, looks[n].half)];
    forall i: nat | i in Indices(entries) || i == n
      ensures i in Indices(more)
    {
      if i in Indices(entries) {
        var k :| 0 <= k < |entries| && entries[k].0 == i;
        assert more[k].0 == i;
      } else {
        assert more[|entries|].0 == i;
      }
    }
  }

  /** The pass has judged the cells below `n`. */
  ghost predicate Passed(cfg: Config, scale: real, g: Grid, cells: seq<Cell>, looks: seq<Look>, n: nat,
                         newHashes: seq<u64>, tiles: seq<Tile>, sent: seq<(nat, u64)>, held: seq<(nat, u64)>)
    requires cfg.Valid() && g.Valid() && |looks| == |cells| == g.CellCount()
  {
    && |newHashes| == n <= |cells| && (forall j: nat :: j < n ==> newHashes[j] == Observed(cells[j], looks[j]))
    && Picks(cfg, cells, looks, true, n, sent) && Picks(cfg, cells, looks, false, n, held)
    && |tiles| == |sent|
    && (forall k :: 0 <= k < |sent| ==>
          && sent[k].0 < |cells|
          && tiles[k] == CellTile(g, sent[k].0, Quality(cfg, Dynamic(cells[sent[k].0], looks[sent[k].0]), scale)))
  }

  lemma PassCell(cfg: Config, scale: real, g: Grid, cells: seq<Cell>, looks: seq<Look>, n: nat,
                 newHashes: seq<u64>, tiles: seq<Tile>, sent: seq<(nat, u64)>, held: seq<(nat, u64)>,
                 newHash: u64, v: Verdict)
    requires cfg.Valid() && g.Valid() && |looks| == |cells| == g.CellCount() && n < |cells|
    requires Passed(cfg, scale, g, cells, looks, n, newHashes, tiles, sent, held)
    requires newHash == Observed(cells[n], looks[n]) && Judged(cfg, scale, g, n, cells[n], looks[n], v)
    ensures match v
            case Unchanged => Passed(cfg, scale, g, cells, looks, n + 1, newHashes + [newHash], tiles, sent, held)
            case Send(tile, half) =>
              Passed(cfg, scale, g, cells, looks, n + 1, newHashes + [newHash], tiles + [tile], sent + [(n, half)], held)
            case Hold(half) =>
              Passed(cfg, scale, g, cells, looks, n + 1, newHashes + [newHash], tiles, sent, held + [(n, half)])
  {
    PickNext(cfg, cells, looks, true, n, sent);
    PickNext(cfg, cells, looks, false, n, held);
  }

  /** The tile `detect_changes` returns for a cell it sends. */
  function SentTile(cfg: Config, hash: seq<bv8> -> u64, s: State, f: Frame, scale: real, i: nat): Tile
    requires Fits(cfg, s, f) && i < cfg.GridOf(f).CellCount()
  {
    CellTile(cfg.GridOf(f), i, Quality(cfg, Dynamic(CellsFor(cfg, s, f)[i], LookAt(cfg, hash, s, f, i)), scale))
  }

  /** Exactly the cells to send, in order, each with its tile. */
  ghost predicate SentTiles(cfg: Config, hash: seq<bv8> -> u64, s: State, f: Frame, scale: real,
                            tiles: seq<Tile>, indices: seq<nat>)
    requires Fits(cfg, s, f)
  {
    && Increasing(indices) && |tiles| == |indices|
    && (forall i: nat :: i in indices <==> i < cfg.GridOf(f).CellCount() && SentAt(cfg, hash, s, f, i))
    && (forall k :: 0 <= k < |indices| ==>
          indices[k] < cfg.GridOf(f).CellCount() && tiles[k] == SentTile(cfg, hash, s, f, scale, indices[k]))
  }

  /** `SentTiles`, for given cells and looks. */
  ghost predicate TilesOf(cfg: Config, scale: real, g: Grid, cells: seq<Cell>, looks: seq<Look>,
                          tiles: seq<Tile>, indices: seq<nat>)
    requires cfg.Valid() && g.Valid() && |looks| == |cells| == g.CellCount()
  {
    && Increasing(indices) && |tiles| == |indices|
    && (forall i: nat :: i in indices <==> i < |cells| && Sent(cfg, cells[i], looks[i]))
    && (forall k :: 0 <= k < |indices| ==>
          && indices[k] < |cells|
          && tiles[k] == CellTile(g, indices[k], Quality(cfg, Dynamic(cells[indices[k]], looks[indices[k]]), scale)))
  }

  lemma SentIndices(cfg: Config, cells: seq<Cell>, looks: seq<Look>, sent: seq<(nat, u64)>, indices: seq<nat>)
    requires cfg.Valid() && |looks| == |cells| && Picks(cfg, cells, looks, true, |cells|, sent)
    requires |indices| == |sent| && forall k :: 0 <= k < |sent| ==> indices[k] == sent[k].0
    ensures Increasing(indices)
    ensures forall i: nat :: i in indices <==> i < |cells| && Sent(cfg, cells[i], looks[i])
    ensures forall k :: 0 <= k < |indices| ==> indices[k] < |cells|
  {
    forall i: nat | i < |cells| && Sent(cfg, cells[i], looks[i])
      ensures i in indices
    {
      assert Picked(cfg, cells, looks, true, i) && i in Indices(sent);
      var k :| 0 <= k < |sent| && sent[k].0 == i;
      assert indices[k] == i;
    }
  }

  class DiffDetector {
    const config: Config
    const hash: seq<bv8> -> u64
    var prevHashes: seq<u64>
    var prevPrevHashes: seq<u64>
    var tileMetadata: seq<TileMetadata>
    var damagedTiles: seq<bool>
    var forceRedetect: seq<bool>
    var frameCount: nat
    var qualityScale: real

    ghost predicate Valid()
      reads this
    {
      && config.Valid()
      && |prevHashes| == |prevPrevHashes| == |tileMetadata| == |damagedTiles| == |forceRedetect|
    }

    ghost function Abstract(): State
      requires Valid()
      reads this
    {
      State(Zip(prevHashes, prevPrevHashes, tileMetadata, forceRedetect), frameCount)
    }

    constructor (config: Config, hash: seq<bv8> -> u64)
      requires config.Valid()
      ensures Valid() && this.config == config && this.hash == hash
      ensures Abstract() == INITIAL_STATE && qualityScale == 1.0
    {
      this.config, this.hash := config, hash;
      prevHashes, prevPrevHashes, tileMetadata, damagedTiles, forceRedetect := [], [], [], [], [];
      frameCount, qualityScale := 0, 1.0;
    }

    method SetQualityScale(scale: real)
      requires Valid()
      modifies this`qualityScale
      ensures Valid() && qualityScale == scale
    {
      qualityScale := scale;
    }

    method Reset()
      requires Valid()
      modifies this
      ensures Valid() && Abstract() == INITIAL_STATE && qualityScale == old(qualityScale)
    {
      prevHashes, prevPrevHashes := [], [];
      tileMetadata, damagedTiles, forceRedetect := [], [], [];
      frameCount := 0;
    }

    method ForceRedetectTile(i: nat)
      requires Valid() && i < |tileMetadata|
      modifies this`tileMetadata, this`prevHashes, this`prevPrevHashes, this`forceRedetect
      ensures Valid()
      ensures Abstract().cells == old(Abstract().cells)[i := Forced(old(Abstract().cells[i]))]
    {
      tileMetadata := tileMetadata[i := tileMetadata[i].(prevHalfHash := 0, lastSentFrame := 0)];
      prevHashes := prevHashes[i := 0];
      prevPrevHashes := prevPrevHashes[i := 0];
      if i < |forceRedetect| {
        forceRedetect := forceRedetect[i := true];
      }
    }

    method DropCache(i: nat)
      requires Valid() && i < |tileMetadata|
      modifies this`tileMetadata
      ensures Valid()
      ensures Abstract().cells == old(Abstract().cells)[i := Uncached(old(Abstract().cells[i]))]
    {
      tileMetadata := tileMetadata[i := tileMetadata[i].(cachedHash := 0, cachedEncoded := None)];
    }

    /** Keeps a cell's encode, under the hash it was made for. */
    method KeepEncode(i: nat, bytes: seq<byte>, h: u64)
      requires Valid() && i < |tileMetadata|
      modifies this`tileMetadata
      ensures Valid()
      ensures var c := old(Abstract().cells[i]);
              Abstract().cells ==
                old(Abstract().cells)[i := c.(meta := c.meta.(cachedEncoded := Some(bytes), cachedHash := h))]
    {
      tileMetadata := tileMetadata[i := tileMetadata[i].(cachedEncoded := Some(bytes), cachedHash := h)];
    }

    /** `invalidate_tiles`: indices of no cell are ignored; repeated ones are harmless. */
    method InvalidateTiles(indices: seq<nat>)
      requires Valid()
      modifies this`tileMetadata, this`prevHashes, this`prevPrevHashes, this`forceRedetect
      ensures Valid() && Abstract() == Detection.InvalidateTiles(old(Abstract()), indices)
    {
      ghost var before := Abstract().cells;
      for k: nat := 0 to |indices|
        invariant Valid() && |Abstract().cells| == |before|
        invariant forall j :: 0 <= j < |before| ==>
                    Abstract().cells[j] == if j in indices[..k] then Invalidated(before[j]) else before[j]
      {
        var i := indices[k];
        assert indices[..k + 1] == indices[..k] + [i];
        if i < |tileMetadata| {
          DropCache(i);
          ForceRedetectTile(i);
        }
      }
      assert indices[..|indices|] == indices;
    }

    /** `invalidate_cache`: drops every cached encode and re-arms the cells last sent
        at low quality. */
    method InvalidateCache()
      requires Valid()
      modifies this`tileMetadata, this`prevHashes, this`prevPrevHashes, this`forceRedetect
      ensures Valid() && Abstract() == Detection.InvalidateCache(old(Abstract()))
    {
      ghost var before := Abstract().cells;
      for i: nat := 0 to |tileMetadata|
        invariant Valid() && |Abstract().cells| == |before| == |tileMetadata|
        invariant forall j :: 0 <= j < |before| ==>
                    Abstract().cells[j] == if j < i then Refreshed(before[j]) else before[j]
      {
        DropCache(i);
        if tileMetadata[i].lastSentAsDynamic {
          ForceRedetectTile(i);
        }
      }
    }

    // ---------- damage ----------

    /** Sets one row's stretch of flags. */
    method MarkRow(g: Grid, ty: nat, txStart: nat, txEnd: nat)
      requires Valid() && g.Shape() && |damagedTiles| == g.CellCount() && config.tilesX == g.tilesX
      requires txEnd <= g.tilesX && ty < g.tilesY
      modifies this`damagedTiles
      ensures |damagedTiles| == g.CellCount()
      ensures forall i: nat :: i < g.CellCount() ==>
                (damagedTiles[i] <==> old(damagedTiles)[i] || (i / g.tilesX == ty && txStart <= i % g.tilesX < txEnd))
    {
      var tx := txStart;
      while tx < txEnd
        invariant |damagedTiles| == g.CellCount()
        invariant forall i: nat :: i < g.CellCount() ==>
                    (damagedTiles[i] <==>
                       old(damagedTiles)[i]
                       || (i / g.tilesX == ty && txStart <= i % g.tilesX < txEnd && i % g.tilesX < tx))
      {
        IndexJoin(g, tx, ty);
        ghost var before := damagedTiles;
        damagedTiles := damagedTiles[ty * config.tilesX + tx := true];
        forall i: nat | i < g.CellCount()
          ensures damagedTiles[i] <==> before[i] || (i / g.tilesX == ty && i % g.tilesX == tx)
        {
          IndexSplit(g, i);
        }
        tx := tx + 1;
      }
    }

    /** Sets the same stretch of several rows. */
    method MarkRows(g: Grid, tyStart: nat, tyEnd: nat, txStart: nat, txEnd: nat)
      requires Valid() && g.Shape() && |damagedTiles| == g.CellCount() && config.tilesX == g.tilesX
      requires txEnd <= g.tilesX && tyEnd <= g.tilesY
      modifies this`damagedTiles
      ensures |damagedTiles| == g.CellCount()
      ensures forall i: nat :: i < g.CellCount() ==>
                (damagedTiles[i] <==>
                 old(damagedTiles)[i] || (tyStart <= i / g.tilesX < tyEnd && txStart <= i % g.tilesX < txEnd))
    {
      var ty := tyStart;
      while ty < tyEnd
        invariant tyStart <= ty && |damagedTiles| == g.CellCount()
        invariant forall i: nat :: i < g.CellCount() ==>
                    (damagedTiles[i] <==>
                     || old(damagedTiles)[i]
                     || (tyStart <= i / g.tilesX < tyEnd && i / g.tilesX < ty && txStart <= i % g.tilesX < txEnd))
      {
        MarkRow(g, ty, txStart, txEnd);
        ty := ty + 1;
      }
    }

    /** Flags the cells that one region's column and row ranges select. */
    method MarkRegion(g: Grid, d: DamageRegion)
      requires Valid() && g.Valid() && |damagedTiles| == g.CellCount() && config.tilesX == g.tilesX
      modifies this`damagedTiles
      ensures |damagedTiles| == g.CellCount()
      ensures forall i: nat :: i < g.CellCount() ==> (damagedTiles[i] <==> old(damagedTiles)[i] || MarkedBy(g, d, i))
    {
      MarkBounds(g, d);
      MarkRows(g, MarkYStart(g, d), MarkYEnd(g, d), MarkXStart(config.tilesX, g, d), MarkXEnd(config.tilesX, g, d));
    }

    /** The set of cells meeting the frame's damage, rebuilt from scratch. */
    method MarkDamage(g: Grid, damage: seq<DamageRegion>)
      requires Valid() && g.Valid() && |damagedTiles| == g.CellCount() && config.tilesX == g.tilesX
      modifies this`damagedTiles
      ensures |damagedTiles| == g.CellCount()
      ensures forall i: nat :: i < g.CellCount() ==> (damagedTiles[i] <==> Marked(g, damage, i))
    {
      damagedTiles := seq(|damagedTiles|, i => false);
      for k: nat := 0 to |damage|
        invariant |damagedTiles| == g.CellCount()
        invariant forall i: nat :: i < g.CellCount() ==> (damagedTiles[i] <==> Marked(g, damage[..k], i))
      {
        MarkRegion(g, damage[k]);
        forall i: nat | i < g.CellCount()
          ensures Marked(g, damage[..k + 1], i) <==> Marked(g, damage[..k], i) || MarkedBy(g, damage[k], i)
        {
          MarkedSnoc(g, damage, k, i);
        }
      }
      assert damage[..|damage|] == damage;
    }

    // ---------- detect_changes ----------

    /** The fields hold the given cells, except that some of them have moved on. */
    ghost predicate Holds(cells: seq<Cell>, done: set<nat>, looks: seq<Look>)
      requires Valid() && |looks| == |cells|
      reads this
    {
      && |prevHashes| == |cells|
      && (forall i: nat :: i < |cells| ==>
            Abstract().cells[i] == if i in done then NextCell(config, cells[i], looks[i]) else cells[i].(force := false))
    }

    /** The body of the parallel pass for one cell. */
    method Examine(frame: Frame, g: Grid, i: nat, isFirst: bool, hasDamage: bool, ghost look: Look)
      returns (newHash: u64, v: Verdict)
      requires Valid() && frame.WellFormed() && g.Valid() && i < g.CellCount() == |prevHashes|
      requires frame.Inside(g.CellRect(i))
      requires look == Look(isFirst, hasDamage && !damagedTiles[i], frameCount,
                            hash(frame.SampledBytes(g.CellRect(i))), hash(frame.TileBytes(g.CellRect(i))))
      ensures newHash == Observed(Abstract().cells[i], look)
      ensures Judged(config, qualityScale, g, i, Abstract().cells[i], look, v)
    {
      if hasDamage && !isFirst && !damagedTiles[i] && !forceRedetect[i] {
        return prevHashes[i], Unchanged;
      }
      var rect := g.CellRect(i);
      var half := hash(frame.SampledBytes(rect));
      var meta := tileMetadata[i];
      if !isFirst && half == meta.prevHalfHash {
        newHash := prevHashes[i];
      } else {
        newHash := hash(frame.TileBytes(rect));
      }
      if !(isFirst || newHash != prevHashes[i]) {
        return newHash, Unchanged;
      }
      var isDynamic := !isFirst && meta.lastSentFrame > 0
                       && prevPrevHashes[i] != prevHashes[i] && prevHashes[i] != newHash;
      var interval := if isDynamic then config.targetFps / config.dynamicTileFps
                      else config.targetFps / config.staticTileFps;
      var shouldSend := isFirst || (!meta.lastSentAsDynamic && isDynamic)
                        || frameCount - meta.lastSentFrame >= interval;
      if shouldSend {
        v := Send(CellTile(g, i, Quality(config, isDynamic, qualityScale)), half);
      } else {
        v := Hold(half);
      }
    }

    /** The parallel pass: hashes every cell once and sorts it into sent, held back
        or unchanged, without touching the detector. */
    method Pass(frame: Frame, g: Grid, isFirst: bool, hasDamage: bool, ghost looks: seq<Look>)
      returns (newHashes: seq<u64>, tiles: seq<Tile>, sent: seq<(nat, u64)>, held: seq<(nat, u64)>)
      requires Valid() && frame.WellFormed() && g == config.GridOf(frame) && |prevHashes| == |looks| == g.CellCount()
      requires forall i: nat :: i < g.CellCount() ==> frame.Inside(g.CellRect(i))
      requires forall i: nat :: i < g.CellCount() ==>
                 looks[i] == Look(isFirst, hasDamage && !damagedTiles[i], frameCount,
                                  hash(frame.SampledBytes(g.CellRect(i))), hash(frame.TileBytes(g.CellRect(i))))
      ensures Passed(config, qualityScale, g, Abstract().cells, looks, g.CellCount(), newHashes, tiles, sent, held)
    {
      newHashes, tiles, sent, held := [], [], [], [];
      for i: nat := 0 to g.CellCount()
        invariant Passed(config, qualityScale, g, Abstract().cells, looks, i, newHashes, tiles, sent, held)
      {
        var newHash, v := Examine(frame, g, i, isFirst, hasDamage, looks[i]);
        PassCell(config, qualityScale, g, Abstract().cells, looks, i, newHashes, tiles, sent, held, newHash, v);
        newHashes := newHashes + [newHash];
        match v {
          case Unchanged =>
          case Send(tile, half) => tiles, sent := tiles + [tile], sent + [(i, half)];
          case Hold(half) => held := held + [(i, half)];
        }
      }
    }

    /** The sequential update of a cell that was sent. */
    method RecordSent(i: nat, half: u64, newHash: u64, isFirst: bool)
      requires Valid() && i < |prevHashes|
      modifies this`tileMetadata, this`prevHashes, this`prevPrevHashes
      ensures Valid()
      ensures var c := old(Abstract().cells[i]);
              var dynamic := !isFirst && c.meta.lastSentFrame > 0 && c.prevPrev != c.prev && c.prev != newHash;
              Abstract().cells == old(Abstract().cells)[i := Cell(newHash, c.prev,
                  c.meta.(prevHalfHash := half, lastSentFrame := frameCount,
                          lastSentAsDynamic := dynamic, isDynamic := dynamic), c.force)]
    {
      var isDynamic := !isFirst && tileMetadata[i].lastSentFrame > 0
                       && prevPrevHashes[i] != prevHashes[i] && prevHashes[i] != newHash;
      tileMetadata := tileMetadata[i := tileMetadata[i].(prevHalfHash := half, lastSentFrame := frameCount,
                                                         lastSentAsDynamic := isDynamic, isDynamic := isDynamic)];
      prevPrevHashes := prevPrevHashes[i := prevHashes[i]];
      prevHashes := prevHashes[i := newHash];
    }

    /** The sequential update of a cell that changed but was held back: its baseline
        moves, its send history does not. */
    method RecordHeld(i: nat, half: u64, newHash: u64)
      requires Valid() && i < |prevHashes|
      modifies this`tileMetadata, this`prevHashes, this`prevPrevHashes
      ensures Valid()
      ensures var c := old(Abstract().cells[i]);
              Abstract().cells ==
                old(Abstract().cells)[i := Cell(newHash, c.prev, c.meta.(prevHalfHash := half), c.force)]
    {
      tileMetadata := tileMetadata[i := tileMetadata[i].(prevHalfHash := half)];
      prevPrevHashes := prevPrevHashes[i := prevHashes[i]];
      prevHashes := prevHashes[i := newHash];
    }

    /** Both update loops. */
    method Record(newHashes: seq<u64>, sent: seq<(nat, u64)>, held: seq<(nat, u64)>, isFirst: bool,
                  ghost cells: seq<Cell>, ghost looks: seq<Look>)
      requires Valid() && |newHashes| == |cells| == |looks| == |prevHashes|
      requires forall i: nat :: i < |cells| ==> newHashes[i] == Observed(cells[i], looks[i])
      requires forall i: nat :: i < |cells| ==> looks[i].first == isFirst && looks[i].frameCount == frameCount
      requires Picks(config, cells, looks, true, |cells|, sent) && Picks(config, cells, looks, false, |cells|, held)
      requires Holds(cells, {}, looks)
      modifies this`tileMetadata, this`prevHashes, this`prevPrevHashes
      ensures Valid() && |prevHashes| == |cells|
      ensures forall i: nat :: i < |cells| ==> Abstract().cells[i] == NextCell(config, cells[i], looks[i])
    {
      ghost var done: set<nat> := {};
      for k: nat := 0 to |sent|
        invariant Valid() && Holds(cells, done, looks)
        invariant done == Indices(sent[..k])
      {
        assert sent[k].0 !in done;
        RecordSent(sent[k].0, sent[k].1, newHashes[sent[k].0], isFirst);
        IndicesSnoc(sent, k);
        done := done + {sent[k].0};
      }
      assert sent[..|sent|] == sent;
      for k: nat := 0 to |held|
        invariant Valid() && Holds(cells, done, looks)
        invariant done == Indices(sent) + Indices(held[..k])
      {
        assert held[k].0 !in done;
        RecordHeld(held[k].0, held[k].1, newHashes[held[k].0]);
        IndicesSnoc(held, k);
        done := done + {held[k].0};
      }
      assert held[..|held|] == held;
    }

    /** Numbers the frame, sizes the arrays on the first one and rebuilds the damage flags. */
    method Prepare(frame: Frame, g: Grid)
      requires Valid() && Fits(config, Abstract(), frame) && g == config.GridOf(frame)
      modifies this
      ensures Valid() && qualityScale == old(qualityScale) && frameCount == old(frameCount) + 1
      ensures Abstract().cells == CellsFor(config, old(Abstract()), frame)
      ensures frame.damage != [] ==> forall i: nat :: i < g.CellCount() ==> (damagedTiles[i] <==> Marked(g, frame.damage, i))
    {
      frameCount := frameCount + 1;
      var total := g.CellCount();
      if prevHashes == [] {
        prevHashes := seq(total, i => 0);
        prevPrevHashes := seq(total, i => 0);
        tileMetadata := seq(total, i => FRESH_METADATA);
        damagedTiles := seq(total, i => false);
        forceRedetect := seq(total, i => false);
      }
      if frame.damage != [] {
        MarkDamage(g, frame.damage);
      }
    }

    /** The pass over prepared cells and the updates that follow it. */
    method PassAndRecord(frame: Frame, g: Grid, isFirst: bool, ghost looks: seq<Look>)
      returns (tiles: seq<Tile>, indices: seq<nat>)
      requires Valid() && frame.WellFormed() && g == config.GridOf(frame) && |prevHashes| == |looks| == g.CellCount()
      requires forall i: nat :: i < g.CellCount() ==> frame.Inside(g.CellRect(i))
      requires forall i: nat :: i < g.CellCount() ==>
                 looks[i] == Look(isFirst, frame.damage != [] && !damagedTiles[i], frameCount,
                                  hash(frame.SampledBytes(g.CellRect(i))), hash(frame.TileBytes(g.CellRect(i))))
      modifies this`tileMetadata, this`prevHashes, this`prevPrevHashes, this`forceRedetect
      ensures Valid() && |prevHashes| == g.CellCount()
      ensures forall i: nat :: i < g.CellCount() ==>
                Abstract().cells[i] == NextCell(config, old(Abstract().cells[i]), looks[i])
      ensures TilesOf(config, qualityScale, g, old(Abstract().cells), looks, tiles, indices)
    {
      ghost var cells := Abstract().cells;
      var newHashes: seq<u64>, sent: seq<(nat, u64)>, held: seq<(nat, u64)>;
      newHashes, tiles, sent, held := Pass(frame, g, isFirst, frame.damage != [], looks);
      forceRedetect := seq(|forceRedetect|, i => false);
      Record(newHashes, sent, held, isFirst, cells, looks);
      indices := seq(|sent|, k requires 0 <= k < |sent| => sent[k].0);
      SentIndices(config, cells, looks, sent, indices);
    }

    /** `detect_changes`: returns the tiles to send and their cells, in order, and
        leaves the detector in the state `Detect` describes. */
    method DetectChanges(frame: Frame) returns (tiles: seq<Tile>, indices: seq<nat>)
      requires Valid() && Fits(config, Abstract(), frame)
      modifies this
      ensures Valid() && qualityScale == old(qualityScale)
      ensures Abstract() == Detect(config, hash, old(Abstract()), frame)
      ensures SentTiles(config, hash, old(Abstract()), frame, qualityScale, tiles, indices)
    {
      var g := config.GridOf(frame);
      var isFirst := prevHashes == [];
      ghost var start := Abstract();
      ghost var looks := seq(g.CellCount(), i requires 0 <= i < g.CellCount() => LookAt(config, hash, start, frame, i));
      Prepare(frame, g);
      forall i: nat | i < g.CellCount() ensures frame.Inside(g.CellRect(i)) { CellInFrame(config, frame, i); }
      tiles, indices := PassAndRecord(frame, g, isFirst, looks);
      assert Abstract().cells == Detect(config, hash, start, frame).cells;
    }
  }

  lemma IndicesSnoc(entries: seq<(nat, u64)>, k: nat)
    requires k < |entries|
    ensures Indices(entries[..k + 1]) == Indices(entries[..k]) + {entries[k].0}
  {}

  lemma MarkBounds(g: Grid, d: DamageRegion)
    requires g.Shape()
    ensures 0 <= MarkXStart(g.tilesX, g, d) && 0 <= MarkXEnd(g.tilesX, g, d) <= g.tilesX
    ensures 0 <= MarkYStart(g, d) && 0 <= MarkYEnd(g, d) <= g.tilesY
  {
    DivBounds(d.x, g.tileWidth, 0, 1);
    DivBounds(d.y, g.tileHeight, 0, 1);
    DivBounds(SatAdd(SatAdd(d.x, d.width), g.tileWidth) - 1, g.tileWidth, 0, 1);
    DivBounds(SatAdd(SatAdd(d.y, d.height), g.tileHeight) - 1, g.tileHeight, 0, 1);
  }

  lemma MarkedSnoc(g: Grid, damage: seq<DamageRegion>, k: nat, i: nat)
    requires g.Shape() && k < |damage|
    ensures Marked(g, damage[..k + 1], i) <==> Marked(g, damage[..k], i) || MarkedBy(g, damage[k], i)
  {}
}
