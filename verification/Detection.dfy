/** What one frame does to one cell of the change detector (src/diff.rs), as
    functions, and which cells a damage region marks. `DiffDetectors` proves the
    imperative detector against these. */
module Detection {
  import opened Common
  import opened Grids
  import opened Frames

  datatype Config = Config(tilesX: nat, mergeGap: nat, targetFps: nat, staticTileFps: nat, dynamicTileFps: nat,
                           qualityLow: real, qualityHigh: real)
  {
    predicate Valid() { targetFps > 0 && staticTileFps > 0 && dynamicTileFps > 0 }

    function GridOf(f: Frame): (g: Grid)
      ensures g.Valid()
    {
      New(tilesX, f.width, f.height)
    }

    function StaticInterval(): nat
      requires Valid()
    {
      targetFps / staticTileFps
    }

    function DynamicInterval(): nat
      requires Valid()
    {
      targetFps / dynamicTileFps
    }
  }

  datatype TileMetadata = TileMetadata(lastSentFrame: nat, isDynamic: bool, lastSentAsDynamic: bool,
                                       prevHalfHash: u64, cachedEncoded: Option<seq<byte>>, cachedHash: u64)

  const FRESH_METADATA := TileMetadata(0, false, false, 0, None, 0)

  /** Everything the detector knows about one cell; zero hashes mean "reset". */
  datatype Cell = Cell(prev: u64, prevPrev: u64, meta: TileMetadata, force: bool)

  const FRESH_CELL := Cell(0, 0, FRESH_METADATA, false)

  /** One cell's view of a frame: whether it is the detector's first frame, whether
      damage information excludes the cell, the frame number, and the two hashes. */
  datatype Look = Look(first: bool, outsideDamage: bool, frameCount: nat, half: u64, full: u64)

  predicate Skipped(c: Cell, l: Look) {
    l.outsideDamage && !l.first && !c.force
  }

  /** The full hash is computed only when the half hash moved. */
  function Observed(c: Cell, l: Look): u64 {
    if Skipped(c, l) || (!l.first && l.half == c.meta.prevHalfHash) then c.prev else l.full
  }

  predicate Changed(c: Cell, l: Look) {
    !Skipped(c, l) && (l.first || Observed(c, l) != c.prev)
  }

  predicate Dynamic(c: Cell, l: Look) {
    !l.first && c.meta.lastSentFrame > 0 && c.prevPrev != c.prev && c.prev != Observed(c, l)
  }

  function Interval(cfg: Config, c: Cell, l: Look): nat
    requires cfg.Valid()
  {
    if Dynamic(c, l) then cfg.DynamicInterval() else cfg.StaticInterval()
  }

  predicate Sent(cfg: Config, c: Cell, l: Look)
    requires cfg.Valid()
  {
    && Changed(c, l)
    && (l.first
        || (!c.meta.lastSentAsDynamic && Dynamic(c, l))
        || l.frameCount - c.meta.lastSentFrame >= Interval(cfg, c, l))
  }

  /** The cell after the frame. */
  function NextCell(cfg: Config, c: Cell, l: Look): Cell
    requires cfg.Valid()
  {
    if Sent(cfg, c, l) then
      Cell(Observed(c, l), c.prev,
           c.meta.(prevHalfHash := l.half, lastSentFrame := l.frameCount,
                   lastSentAsDynamic := Dynamic(c, l), isDynamic := Dynamic(c, l)),
           false)
    else if Changed(c, l) then
      Cell(Observed(c, l), c.prev, c.meta.(prevHalfHash := l.half), false)
    else
      c.(force := false)
  }

  /** `force_redetect_tile`. */
  function Forced(c: Cell): Cell {
    Cell(0, 0, c.meta.(prevHalfHash := 0, lastSentFrame := 0), true)
  }

  function Uncached(c: Cell): Cell {
    c.(meta := c.meta.(cachedHash := 0, cachedEncoded := None))
  }

  /** `invalidate_tiles` on one of its cells. */
  function Invalidated(c: Cell): Cell { Forced(Uncached(c)) }

  /** `invalidate_cache` on one cell. */
  function Refreshed(c: Cell): Cell {
    if c.meta.lastSentAsDynamic then Forced(Uncached(c)) else Uncached(c)
  }

  // ---------- the whole detector ----------

  datatype State = State(cells: seq<Cell>, frameCount: nat)

  const INITIAL_STATE := State([], 0)

  /** A detector that has seen frames only knows frames of one size. */
  predicate Fits(cfg: Config, s: State, f: Frame) {
    && cfg.Valid() && f.WellFormed()
    && (s.cells == [] || |s.cells| == cfg.GridOf(f).CellCount())
    && (f.damage == [] || cfg.tilesX == cfg.GridOf(f).tilesX)
  }

  function CellsFor(cfg: Config, s: State, f: Frame): (cells: seq<Cell>)
    requires Fits(cfg, s, f)
    ensures |cells| == cfg.GridOf(f).CellCount()
  {
    if s.cells == [] then seq(cfg.GridOf(f).CellCount(), i => FRESH_CELL) else s.cells
  }

  lemma CellInFrame(cfg: Config, f: Frame, i: nat)
    requires f.WellFormed() && i < cfg.GridOf(f).CellCount()
    ensures f.Inside(cfg.GridOf(f).CellRect(i))
  {
    CellInsideFrame(cfg.GridOf(f), i);
  }

  function LookAt(cfg: Config, hash: seq<bv8> -> u64, s: State, f: Frame, i: nat): Look
    requires Fits(cfg, s, f) && i < cfg.GridOf(f).CellCount()
  {
    CellInFrame(cfg, f, i);
    var r := cfg.GridOf(f).CellRect(i);
    Look(s.cells == [], f.damage != [] && !Marked(cfg.GridOf(f), f.damage, i), s.frameCount + 1,
         hash(f.SampledBytes(r)), hash(f.TileBytes(r)))
  }

  predicate SentAt(cfg: Config, hash: seq<bv8> -> u64, s: State, f: Frame, i: nat)
    requires Fits(cfg, s, f) && i < cfg.GridOf(f).CellCount()
  {
    Sent(cfg, CellsFor(cfg, s, f)[i], LookAt(cfg, hash, s, f, i))
  }

  /** `detect_changes`, the detector's side. */
  function Detect(cfg: Config, hash: seq<bv8> -> u64, s: State, f: Frame): (s': State)
    requires Fits(cfg, s, f)
    ensures |s'.cells| == cfg.GridOf(f).CellCount() && s'.frameCount == s.frameCount + 1
  {
    var n := cfg.GridOf(f).CellCount();
    State(seq(n, i requires 0 <= i < n => NextCell(cfg, CellsFor(cfg, s, f)[i], LookAt(cfg, hash, s, f, i))),
          s.frameCount + 1)
  }

  function InvalidateTiles(s: State, indices: seq<nat>): (s': State)
    ensures |s'.cells| == |s.cells|
  {
    s.(cells := seq(|s.cells|, i requires 0 <= i < |s.cells| =>
                  if i in indices then Invalidated(s.cells[i]) else s.cells[i]))
  }

  function InvalidateCache(s: State): (s': State)
    ensures |s'.cells| == |s.cells|
  {
    s.(cells := seq(|s.cells|, i requires 0 <= i < |s.cells| => Refreshed(s.cells[i])))
  }

  // ---------- damage regions ----------

  /** First and one-past-last column and row the marking loop visits for a region;
      the columns are computed with the configured column count. */
  function MarkXStart(tilesX: nat, g: Grid, d: DamageRegion): int
    requires g.Shape()
  {
    Min(d.x / g.tileWidth, tilesX - 1)
  }

  function MarkXEnd(tilesX: nat, g: Grid, d: DamageRegion): int
    requires g.Shape()
  {
    Min((SatAdd(SatAdd(d.x, d.width), g.tileWidth) - 1) / g.tileWidth, tilesX)
  }

  function MarkYStart(g: Grid, d: DamageRegion): int
    requires g.Shape()
  {
    Min(d.y / g.tileHeight, g.tilesY - 1)
  }

  function MarkYEnd(g: Grid, d: DamageRegion): int
    requires g.Shape()
  {
    Min((SatAdd(SatAdd(d.y, d.height), g.tileHeight) - 1) / g.tileHeight, g.tilesY)
  }

  predicate Visits(tilesX: nat, g: Grid, d: DamageRegion, tx: int, ty: int)
    requires g.Shape()
  {
    MarkXStart(tilesX, g, d) <= tx < MarkXEnd(tilesX, g, d) && MarkYStart(g, d) <= ty < MarkYEnd(g, d)
  }

  predicate MarkedBy(g: Grid, d: DamageRegion, i: nat)
    requires g.Shape()
  {
    Visits(g.tilesX, g, d, i % g.tilesX, i / g.tilesX)
  }

  predicate Marked(g: Grid, damage: seq<DamageRegion>, i: nat)
    requires g.Shape()
  {
    exists k :: 0 <= k < |damage| && MarkedBy(g, damage[k], i)
  }

  predicate InFrame(g: Grid, d: DamageRegion) {
    d.width > 0 && d.height > 0 && d.x + d.width <= g.frameWidth && d.y + d.height <= g.frameHeight
  }

  /** Pixel coordinates leave room in u32, as those of any frame whose RGBA bytes
      can be addressed in u32 do. */
  predicate Addressable(g: Grid) {
    g.frameWidth < U32_LIMIT / 4 && g.frameHeight < U32_LIMIT / 4
  }

  lemma ColumnMeets(g: Grid, d: DamageRegion, tx: nat)
    requires g.Valid() && Addressable(g) && tx < g.tilesX
    ensures MarkXStart(g.tilesX, g, d) <= tx < MarkXEnd(g.tilesX, g, d) <==>
            g.XSpan(tx, tx).0 < d.x + d.width && Min(d.x, g.frameWidth - 1) < g.XSpan(tx, tx).1
  {
    MulMonotone(1, g.tilesX, g.tileWidth);
    MulMonotone(tx + 1, g.tilesX, g.tileWidth);
    MulStrict(g.tilesX - 1, g.tilesX, g.tileWidth);
    if tx + 1 < g.tilesX { MulStrict(tx + 1, g.tilesX, g.tileWidth); }
    StartBelow(d.x, g.tileWidth, tx, g.tilesX, g.frameWidth, g.XSpan(tx, tx).1);
    EndAbove(d.x + d.width, g.tileWidth, tx, g.tilesX, g.frameWidth);
  }

  lemma RowMeets(g: Grid, d: DamageRegion, ty: nat)
    requires g.Valid() && Addressable(g) && ty < g.tilesY
    ensures MarkYStart(g, d) <= ty < MarkYEnd(g, d) <==>
            g.YSpan(ty, ty).0 < d.y + d.height && Min(d.y, g.frameHeight - 1) < g.YSpan(ty, ty).1
  {
    if ty + 1 < g.tilesY { MulMonotone(ty + 1, g.tilesY - 1, g.tileHeight); }
    StartBelow(d.y, g.tileHeight, ty, g.tilesY, g.frameHeight, g.YSpan(ty, ty).1);
    EndAbove(d.y + d.height, g.tileHeight, ty, g.tilesY, g.frameHeight);
  }

  lemma StartBelow(x: nat, size: nat, a: nat, count: nat, limit: nat, stop: nat)
    requires size > 0 && a < count && limit > 0
    requires if a + 1 < count then stop == (a + 1) * size < limit else stop == limit
    ensures Min(x / size, count - 1) <= a <==> Min(x, limit - 1) < stop
  {
    DivBounds(x, size, a, a + 1);
  }

  /** The end of the marked stretch, saturated or not. */
  lemma EndAbove(end: nat, size: nat, a: nat, count: nat, limit: nat)
    requires 0 < size <= limit < U32_LIMIT / 4 && a < count && (count - 1) * size < limit
    ensures a < Min((SatAdd(Min(end, U32_LIMIT - 1), size) - 1) / size, count) <==> a * size < end
  {
    MulMonotone(a, count - 1, size);
    CeilAbove(end, size, a);
    DivBounds(SatAdd(Min(end, U32_LIMIT - 1), size) - 1, size, a + 1, a + 1);
    assert (a + 1) * size == a * size + size;
  }

  lemma CeilAbove(end: nat, size: nat, a: nat)
    requires size > 0
    ensures a < (end + size - 1) / size <==> a * size < end
  {
    DivBounds(end + size - 1, size, a + 1, a + 1);
    assert (a + 1) * size == a * size + size;
  }

  /** For every region, empty ones and ones that reach or lie beyond the frame included: the
      marking loop visits exactly the cells that the region meets, once a corner beyond the
      frame has been moved to the nearest pixel of the frame. */
  lemma MarkingOfAnyRegion(g: Grid, d: DamageRegion, i: nat)
    requires g.Valid() && Addressable(g) && i < g.CellCount()
    ensures var r, x, y := g.CellRect(i), Min(d.x, g.frameWidth - 1), Min(d.y, g.frameHeight - 1);
            MarkedBy(g, d, i) <==>
              r.x < d.x + d.width && x < r.x + r.width && r.y < d.y + d.height && y < r.y + r.height
  {
    var c := g.CellAt(i);
    RangeNonempty(g, c);
    ColumnMeets(g, d, c.x0);
    RowMeets(g, d, c.y0);
  }

  /** So for a nonempty region inside the frame, it visits exactly the cells whose rectangle
      meets it. */
  lemma MarkingIsExact(g: Grid, d: DamageRegion, i: nat)
    requires g.Valid() && Addressable(g) && InFrame(g, d) && i < g.CellCount()
    ensures MarkedBy(g, d, i) <==> g.CellRect(i).Intersects(d.Area())
  {
    MarkingOfAnyRegion(g, d, i);
    CellInsideFrame(g, i);
    SpansMeet(g.CellRect(i), d.Area());
  }

  lemma SpansMeet(r: Rect, o: Rect)
    requires r.width > 0 && r.height > 0 && o.width > 0 && o.height > 0
    ensures r.Intersects(o) <==>
            r.x < o.x + o.width && o.x < r.x + r.width && r.y < o.y + o.height && o.y < r.y + r.height
  {
    var px: nat, py: nat := Max(r.x, o.x), Max(r.y, o.y);
    if px < r.x + r.width && px < o.x + o.width && py < r.y + r.height && py < o.y + o.height {
      assert r.Contains(px, py) && o.Contains(px, py);
    }
  }

  /** Every write index of the marking loop is a cell index. */
  ghost predicate MarksInRange(tilesX: nat, g: Grid, d: DamageRegion)
    requires g.Shape()
  {
    forall tx: nat, ty: nat :: Visits(tilesX, g, d, tx, ty) ==> ty * tilesX + tx < g.CellCount()
  }

  /** The loop multiplies rows by the configured column count. For a frame narrower
      than that, and of more than one row, this overruns the cells; otherwise it
      never does, whatever the regions inside the frame. */
  lemma MarkingInRangeIff(tilesX: nat, g: Grid)
    requires tilesX > 0 && g.Valid() && Addressable(g) && g.tilesX == Min(tilesX, g.frameWidth)
    ensures (forall d: DamageRegion :: InFrame(g, d) ==> MarksInRange(tilesX, g, d))
        <==> tilesX <= g.frameWidth || g.tilesY == 1
  {
    if tilesX <= g.frameWidth {
      forall d: DamageRegion | InFrame(g, d) ensures MarksInRange(tilesX, g, d) { SameColumnsInRange(g, d); }
    } else {
      if g.tileWidth > 1 { MulMonotone(2, g.tileWidth, g.tilesX); }
      if g.tilesY == 1 {
        forall d: DamageRegion | InFrame(g, d) ensures MarksInRange(tilesX, g, d) { OneRowInRange(tilesX, g, d); }
      } else {
        NarrowFrameOverruns(tilesX, g);
      }
    }
  }

  lemma OneRowInRange(tilesX: nat, g: Grid, d: DamageRegion)
    requires g.Valid() && g.tilesY == 1 && Addressable(g) && InFrame(g, d)
    requires g.tileWidth == 1 && g.tilesX == g.frameWidth <= tilesX
    ensures MarksInRange(tilesX, g, d)
  {}

  lemma NarrowFrameOverruns(tilesX: nat, g: Grid)
    requires g.Valid() && Addressable(g) && g.tilesY > 1
    requires g.tileWidth == 1 && g.tilesX == g.frameWidth < tilesX
    ensures exists d: DamageRegion :: InFrame(g, d) && !MarksInRange(tilesX, g, d)
  {
    var whole := DamageRegion(0, 0, g.frameWidth, g.frameHeight);
    var tx: nat, ty: nat := g.tilesX - 1, g.tilesY - 1;
    CeilAbove(g.frameWidth, 1, tx);
    CeilAbove(g.frameHeight, g.tileHeight, ty);
    assert Visits(tilesX, g, whole, tx, ty);
    Overrun(g.tilesX, tilesX, g.tilesY);
    assert !MarksInRange(tilesX, g, whole);
  }

  lemma Overrun(columns: nat, configured: nat, rows: nat)
    requires 0 < columns < configured && rows > 1
    ensures (rows - 1) * configured + (columns - 1) >= columns * rows
  {
    MulMonotone(columns + 1, configured, rows - 1);
    assert (columns + 1) * (rows - 1) == columns * (rows - 1) + (rows - 1);
    assert columns * rows == columns * (rows - 1) + columns;
  }

  lemma SameColumnsInRange(g: Grid, d: DamageRegion)
    requires g.Valid()
    ensures MarksInRange(g.tilesX, g, d)
  {
    forall tx: nat, ty: nat | Visits(g.tilesX, g, d, tx, ty)
      ensures ty * g.tilesX + tx < g.CellCount()
    {
      IndexJoin(g, tx, ty);
    }
  }
}
