/** The tile grid laid over a frame and the rectangles made of whole cells
    (`Grid` and the geometric half of `Tile` in src/tile.rs). Integers are
    unbounded here; `IntermediatesFit` says when the code's u32 arithmetic
    agrees with them. */
module Grids {
  import opened Common

  datatype Rect = Rect(x: nat, y: nat, width: nat, height: nat) {
    predicate Contains(px: nat, py: nat) {
      x <= px < x + width && y <= py < y + height
    }

    ghost predicate Intersects(other: Rect) {
      exists px: nat, py: nat :: Contains(px, py) && other.Contains(px, py)
    }
  }

  /** Columns `x0..=x1` of rows `y0..=y1`. */
  datatype CellRange = CellRange(x0: nat, y0: nat, x1: nat, y1: nat) {
    predicate Has(tx: nat, ty: nat) {
      x0 <= tx <= x1 && y0 <= ty <= y1
    }

    predicate Within(g: Grid) {
      x0 <= x1 < g.tilesX && y0 <= y1 < g.tilesY
    }

    predicate Single() { x0 == x1 && y0 == y1 }

    predicate HasCell(g: Grid, i: nat)
      requires g.Shape()
    {
      Has(i % g.tilesX, i / g.tilesX)
    }
  }

  datatype Tile = Tile(x: nat, y: nat, width: nat, height: nat, quality: real) {
    function Area(): Rect { Rect(x, y, width, height) }

    function GridBounds(g: Grid): CellRange
      requires g.Shape() && width > 0 && height > 0
    {
      CellRange(x / g.tileWidth, y / g.tileHeight,
                Min((x + width - 1) / g.tileWidth, g.tilesX - 1),
                Min((y + height - 1) / g.tileHeight, g.tilesY - 1))
    }

    function RepresentativeIndex(g: Grid): nat
      requires g.Shape()
    {
      g.IndexOf(x / g.tileWidth, y / g.tileHeight)
    }

    predicate IsSingleCell(g: Grid)
      requires g.Shape() && width > 0 && height > 0
    {
      GridBounds(g).Single()
    }
  }

  datatype Grid = Grid(tilesX: nat, tilesY: nat, tileWidth: nat, tileHeight: nat,
                       frameWidth: nat, frameHeight: nat)
  {
    /** What `New` guarantees: the columns fit the frame and the last one takes
        the remainder; the last row is a nonempty, possibly short one. */
    predicate Valid() {
      && Shape()
      && tilesX * tileWidth <= frameWidth && tileHeight <= frameHeight
      && (tilesY - 1) * tileHeight < frameHeight <= tilesY * tileHeight
    }

    predicate Shape() {
      tilesX > 0 && tilesY > 0 && tileWidth > 0 && tileHeight > 0
    }

    function CellCount(): nat { tilesX * tilesY }

    /** Pixel range `[start, end)` of columns `a..=b`; the last column reaches the
        right edge of the frame. */
    function XSpan(a: nat, b: nat): (nat, nat) {
      (a * tileWidth, if b + 1 >= tilesX then frameWidth else (b + 1) * tileWidth)
    }

    function YSpan(a: nat, b: nat): (nat, nat) {
      (a * tileHeight,
       if b + 1 >= tilesY then frameHeight else Min((b + 1) * tileHeight, frameHeight))
    }

    /** The rectangle of a range of cells. */
    function RangeRect(r: CellRange): Rect
      requires Valid() && r.Within(this)
    {
      RangeNonempty(this, r);
      var (xs, xe) := XSpan(r.x0, r.x1);
      var (ys, ye) := YSpan(r.y0, r.y1);
      Rect(xs, ys, xe - xs, ye - ys)
    }

    function CellRect(i: nat): Rect
      requires Valid() && i < CellCount()
    {
      RangeRect(CellAt(i))
    }

    /** Cell `i` as a range of its own. */
    function CellAt(i: nat): (r: CellRange)
      requires Shape() && i < CellCount()
      ensures r.Within(this) && r.Single() && IndexOf(r.x0, r.y0) == i
    {
      IndexSplit(this, i);
      CellRange(i % tilesX, i / tilesX, i % tilesX, i / tilesX)
    }

    function IndexOf(tx: nat, ty: nat): nat { ty * tilesX + tx }

    /** The column and the row holding a pixel. */
    function ColumnOf(px: nat): nat
      requires Shape()
    {
      Min(px / tileWidth, tilesX - 1)
    }

    function RowOf(py: nat): nat
      requires Shape()
    {
      py / tileHeight
    }

    function CellOf(px: nat, py: nat): nat
      requires Shape()
    {
      IndexOf(ColumnOf(px), RowOf(py))
    }
  }

  lemma ScaledDown(a: nat, w: nat, h: nat)
    requires 0 < w && a <= w
    ensures a * h / w <= h
  {
    MulMonotone(a, w, h);
    DivBounds(a * h, w, 0, h + 1);
    assert (h + 1) * w == h * w + w;
  }

  /** `Grid::new`: degenerate sizes are clamped to one pixel per tile. */
  function New(tilesX: nat, frameWidth: nat, frameHeight: nat): (g: Grid)
    ensures g.Valid()
    ensures g.frameWidth == Max(frameWidth, 1) && g.frameHeight == Max(frameHeight, 1)
    ensures g.tilesX == Max(1, Min(tilesX, g.frameWidth))
  {
    var w: nat := Max(frameWidth, 1);
    var h: nat := Max(frameHeight, 1);
    var columns: nat := Max(1, Min(tilesX, w));
    var tileWidth := w / columns;
    var tileHeight: nat := Max(tileWidth * h / w, 1);
    NewIsValid(columns, tileWidth, tileHeight, w, h);
    Grid(columns, CeilDiv(h, tileHeight), tileWidth, tileHeight, w, h)
  }

  lemma NewIsValid(columns: nat, tileWidth: nat, tileHeight: nat, w: nat, h: nat)
    requires 0 < columns <= w && h > 0 && tileWidth == w / columns && tileHeight == Max(tileWidth * h / w, 1)
    ensures tileHeight > 0
    ensures Grid(columns, CeilDiv(h, tileHeight), tileWidth, tileHeight, w, h).Valid()
  {
    assert tileWidth > 0 && tileWidth <= w by { DivBounds(w, columns, 1, w + 1); Quotient(w, columns); }
    ScaledDown(tileWidth, w, h);
    CeilDivBounds(h, tileHeight);
    Quotient(w, columns);
  }

  lemma Quotient(a: nat, b: nat)
    requires b > 0
    ensures b * (a / b) <= a && a / b <= a
  {
    var q := a / b;
    assert a == q * b + a % b;
    MulMonotone(1, b, q);
  }

  /** The grid's proportions: as many pixels a column as divide evenly, and the tallest rows
      that keep the frame's aspect ratio, but at least one pixel. */
  ghost predicate Proportioned(g: Grid) {
    && g.tilesX * g.tileWidth <= g.frameWidth < g.tilesX * (g.tileWidth + 1)
    && g.tileWidth * g.frameHeight < (g.tileHeight + 1) * g.frameWidth
    && (g.tileHeight * g.frameWidth <= g.tileWidth * g.frameHeight || g.tileHeight == 1)
  }

  /** Columns are as wide as the frame allows; rows are as tall as the aspect ratio allows,
      rounded down, but never empty; and there are as many as it takes to reach the bottom. */
  lemma NewIsProportioned(tilesX: nat, frameWidth: nat, frameHeight: nat)
    ensures var g := New(tilesX, frameWidth, frameHeight);
            && g.tilesX * g.tileWidth <= g.frameWidth < g.tilesX * (g.tileWidth + 1)
            && g.tileWidth * g.frameHeight < (g.tileHeight + 1) * g.frameWidth
            && (g.tileHeight * g.frameWidth <= g.tileWidth * g.frameHeight || g.tileHeight == 1)
            && (g.tilesY - 1) * g.tileHeight < g.frameHeight <= g.tilesY * g.tileHeight
  {
    var g := New(tilesX, frameWidth, frameHeight);
    QuotientBounds(g.frameWidth, g.tilesX);
    QuotientBounds(g.tileWidth * g.frameHeight, g.frameWidth);
  }

  lemma QuotientBounds(a: nat, b: nat)
    requires b > 0
    ensures b * (a / b) <= a < b * (a / b + 1) && (a / b) * b <= a < (a / b + 1) * b
  {
    assert a == (a / b) * b + a % b;
    assert (a / b + 1) * b == (a / b) * b + b;
  }

  /** These proportions leave no choice: they hold of one grid only. */
  lemma ProportionedIsNew(g: Grid, tilesX: nat)
    requires g.Valid() && Proportioned(g) && g.tilesX == Max(1, Min(tilesX, g.frameWidth))
    ensures g == New(tilesX, g.frameWidth, g.frameHeight)
  {
    var n := New(tilesX, g.frameWidth, g.frameHeight);
    NewIsProportioned(tilesX, g.frameWidth, g.frameHeight);
    SameFactor(g.tilesX, g.tileWidth, n.tileWidth, g.frameWidth);
    SameHeight(g, n);
    SameRows(g.tileHeight, g.tilesY, n.tilesY, g.frameHeight);
  }

  lemma SameFactor(b: nat, q: nat, r: nat, a: nat)
    requires b * q <= a < b * (q + 1) && b * r <= a < b * (r + 1)
    ensures q == r
  {
    if q < r { MulMonotone(q + 1, r, b); }
    if r < q { MulMonotone(r + 1, q, b); }
  }

  lemma SameHeight(g: Grid, n: Grid)
    requires g.Valid() && n.Valid() && Proportioned(g) && Proportioned(n)
    requires g.tileWidth == n.tileWidth && g.frameWidth == n.frameWidth && g.frameHeight == n.frameHeight
    ensures g.tileHeight == n.tileHeight
  {
    if g.tileHeight < n.tileHeight { MulMonotone(g.tileHeight + 1, n.tileHeight, g.frameWidth); }
    if n.tileHeight < g.tileHeight { MulMonotone(n.tileHeight + 1, g.tileHeight, g.frameWidth); }
  }

  lemma SameRows(size: nat, a: nat, b: nat, h: nat)
    requires a > 0 && b > 0
    requires (a - 1) * size < h <= a * size && (b - 1) * size < h <= b * size
    ensures a == b
  {
    if a < b { MulMonotone(a, b - 1, size); }
    if b < a { MulMonotone(b, a - 1, size); }
  }

  // ---------- cells and indices ----------

  lemma RangeNonempty(g: Grid, r: CellRange)
    requires g.Valid() && r.Within(g)
    ensures g.XSpan(r.x0, r.x1).0 < g.XSpan(r.x0, r.x1).1 <= g.frameWidth
    ensures g.YSpan(r.y0, r.y1).0 < g.YSpan(r.y0, r.y1).1 <= g.frameHeight
  {
    MulStrict(r.x0, r.x1 + 1, g.tileWidth);
    MulMonotone(r.x1 + 1, g.tilesX, g.tileWidth);
    MulStrict(r.y0, r.y1 + 1, g.tileHeight);
    MulMonotone(r.y0, g.tilesY - 1, g.tileHeight);
  }

  lemma IndexSplit(g: Grid, i: nat)
    requires g.Shape() && i < g.CellCount()
    ensures i % g.tilesX < g.tilesX && i / g.tilesX < g.tilesY
    ensures i == g.IndexOf(i % g.tilesX, i / g.tilesX)
  {
    if i / g.tilesX >= g.tilesY { MulMonotone(g.tilesY, i / g.tilesX, g.tilesX); }
  }

  lemma IndexJoin(g: Grid, tx: nat, ty: nat)
    requires g.Shape() && tx < g.tilesX && ty < g.tilesY
    ensures g.IndexOf(tx, ty) < g.CellCount()
    ensures g.IndexOf(tx, ty) % g.tilesX == tx && g.IndexOf(tx, ty) / g.tilesX == ty
  {
    MulStrict(ty, g.tilesY, g.tilesX);
    DivModUnique(g.IndexOf(tx, ty), g.tilesX, ty, tx);
  }

  lemma DivBounds(p: nat, size: nat, a: nat, b: nat)
    requires size > 0 && a <= b
    ensures a * size <= p <==> a <= p / size
    ensures p < b * size <==> p / size < b
  {
    var q := p / size;
    assert q * size <= p < q * size + size;
    if a <= q { MulMonotone(a, q, size); } else { MulStrict(q, a, size); }
    if q < b { MulStrict(q, b, size); } else { MulMonotone(b, q, size); }
  }

  lemma InColumns(g: Grid, r: CellRange, px: nat)
    requires g.Valid() && r.Within(g) && px < g.frameWidth
    ensures g.XSpan(r.x0, r.x1).0 <= px < g.XSpan(r.x0, r.x1).1 <==> r.x0 <= g.ColumnOf(px) <= r.x1
  {
    DivBounds(px, g.tileWidth, r.x0, r.x1 + 1);
  }

  lemma InRows(g: Grid, r: CellRange, py: nat)
    requires g.Valid() && r.Within(g) && py < g.frameHeight
    ensures g.YSpan(r.y0, r.y1).0 <= py < g.YSpan(r.y0, r.y1).1 <==> r.y0 <= g.RowOf(py) <= r.y1
    ensures g.RowOf(py) < g.tilesY
  {
    DivBounds(py, g.tileHeight, r.y0, r.y1 + 1);
    DivBounds(py, g.tileHeight, r.y0, g.tilesY);
  }

  /** A pixel of the frame lies in the rectangle of a range exactly when its cell
      lies in the range. */
  lemma RangeHasPixel(g: Grid, r: CellRange, px: nat, py: nat)
    requires g.Valid() && r.Within(g) && px < g.frameWidth && py < g.frameHeight
    ensures g.RangeRect(r).Contains(px, py) <==> r.Has(g.ColumnOf(px), g.RowOf(py))
  {
    RangeNonempty(g, r);
    InColumns(g, r, px);
    InRows(g, r, py);
  }

  lemma CellHasPixel(g: Grid, i: nat, px: nat, py: nat)
    requires g.Valid() && i < g.CellCount() && px < g.frameWidth && py < g.frameHeight
    ensures g.CellRect(i).Contains(px, py) <==> i == g.CellOf(px, py)
  {
    var r := g.CellAt(i);
    RangeHasPixel(g, r, px, py);
    InRows(g, r, py);
    IndexJoin(g, g.ColumnOf(px), g.RowOf(py));
    IndexJoin(g, r.x0, r.y0);
  }

  /** The cells partition the frame: a pixel of the frame lies in exactly one. */
  lemma CellsPartitionFrame(g: Grid, px: nat, py: nat)
    requires g.Valid() && px < g.frameWidth && py < g.frameHeight
    ensures g.CellOf(px, py) < g.CellCount()
    ensures forall i: nat :: i < g.CellCount() ==> (g.CellRect(i).Contains(px, py) <==> i == g.CellOf(px, py))
  {
    InRows(g, CellRange(0, 0, 0, 0), py);
    IndexJoin(g, g.ColumnOf(px), g.RowOf(py));
    forall i: nat | i < g.CellCount()
      ensures g.CellRect(i).Contains(px, py) <==> i == g.CellOf(px, py)
    {
      CellHasPixel(g, i, px, py);
    }
  }

  lemma CellInsideFrame(g: Grid, i: nat)
    requires g.Valid() && i < g.CellCount()
    ensures var c := g.CellRect(i);
            c.width > 0 && c.height > 0 && c.x + c.width <= g.frameWidth && c.y + c.height <= g.frameHeight
  {
    RangeNonempty(g, g.CellAt(i));
  }

  // ---------- rectangles and ranges are inverse ----------

  function RangeTile(g: Grid, r: CellRange, quality: real): Tile
    requires g.Valid() && r.Within(g)
  {
    var a := g.RangeRect(r);
    Tile(a.x, a.y, a.width, a.height, quality)
  }

  /** Cutting a range out as a rectangle and reading its grid bounds back gives the
      range again, remainder column and short last row included. */
  lemma BoundsInvertSpans(g: Grid, r: CellRange, quality: real)
    requires g.Valid() && r.Within(g)
    ensures var t := RangeTile(g, r, quality);
            && t.width > 0 && t.height > 0
            && t.GridBounds(g) == r
            && t.RepresentativeIndex(g) == g.IndexOf(r.x0, r.y0)
            && (t.IsSingleCell(g) <==> r.Single())
  {
    RangeNonempty(g, r);
    var t := RangeTile(g, r, quality);
    DivModUnique(t.x, g.tileWidth, r.x0, 0);
    DivModUnique(t.y, g.tileHeight, r.y0, 0);
    InColumns(g, CellRange(r.x1, r.y1, r.x1, r.y1), t.x + t.width - 1);
    InRows(g, CellRange(r.x1, r.y1, r.x1, r.y1), t.y + t.height - 1);
    MulStrict(r.x1, r.x1 + 1, g.tileWidth);
    MulMonotone(r.x1 + 1, g.tilesX, g.tileWidth);
    MulMonotone(r.y1, g.tilesY - 1, g.tileHeight);
  }

  /** The indices are exactly those of the range's cells. */
  ghost predicate Lists(b: CellRange, g: Grid, indices: seq<nat>)
    requires g.Shape()
  {
    forall i: nat :: i in indices <==> i < g.CellCount() && b.HasCell(g, i)
  }

  /** The cells of a range whose index is below `n`. */
  ghost predicate ListedBelow(g: Grid, b: CellRange, n: nat, indices: seq<nat>)
    requires g.Shape()
  {
    forall i: nat :: i in indices <==> i < g.CellCount() && i < n && b.HasCell(g, i)
  }

  /** No cell of the range has an index between the end of one of its rows and the
      start of the next one. */
  lemma BetweenRows(g: Grid, b: CellRange, ty: nat, i: nat)
    requires g.Shape() && b.Within(g) && i < g.CellCount()
    requires g.IndexOf(b.x1 + 1, ty) <= i < g.IndexOf(b.x0, ty + 1)
    ensures !b.HasCell(g, i)
  {
    IndexSplit(g, i);
    if i / g.tilesX < ty { MulStrict(i / g.tilesX, ty, g.tilesX); }
    if i / g.tilesX > ty { MulMonotone(ty + 1, i / g.tilesX, g.tilesX); }
  }

  lemma FirstRow(g: Grid, b: CellRange, i: nat)
    requires g.Shape() && b.Within(g) && i < g.IndexOf(b.x0, b.y0) && i < g.CellCount()
    ensures !b.HasCell(g, i)
  {
    IndexSplit(g, i);
    if i / g.tilesX > b.y0 { MulMonotone(b.y0 + 1, i / g.tilesX, g.tilesX); }
  }

  lemma LastRow(g: Grid, b: CellRange, i: nat)
    requires g.Shape() && b.Within(g) && i < g.CellCount() && b.HasCell(g, i)
    ensures i < g.IndexOf(b.x0, b.y1 + 1)
  {
    IndexSplit(g, i);
    MulStrict(i / g.tilesX, b.y1 + 1, g.tilesX);
  }

  /** Row-major listing of the cells of a tile (`Tile::covered_indices`): each of
      its cells once, and no other. */
  method CoveredIndices(t: Tile, g: Grid) returns (indices: seq<nat>)
    requires g.Shape() && t.width > 0 && t.height > 0
    requires t.GridBounds(g).Within(g)
    ensures Increasing(indices)
    ensures Lists(t.GridBounds(g), g, indices)
  {
    indices := RowMajor(t.GridBounds(g), g);
  }

  method RowMajor(b: CellRange, g: Grid) returns (indices: seq<nat>)
    requires g.Shape() && b.Within(g)
    ensures Increasing(indices)
    ensures Lists(b, g, indices)
  {
    indices := [];
    ListNone(g, b);
    for ty := b.y0 to b.y1 + 1
      invariant Increasing(indices) && ListedBelow(g, b, g.IndexOf(b.x0, ty), indices)
    {
      for tx := b.x0 to b.x1 + 1
        invariant Increasing(indices) && ListedBelow(g, b, g.IndexOf(tx, ty), indices)
      {
        ListOne(g, b, tx, ty, indices);
        indices := indices + [g.IndexOf(tx, ty)];
      }
      ListRow(g, b, ty, indices);
    }
    ListAll(g, b, indices);
  }

  lemma ListNone(g: Grid, b: CellRange)
    requires g.Shape() && b.Within(g)
    ensures ListedBelow(g, b, g.IndexOf(b.x0, b.y0), [])
  {
    forall i: nat | i < g.IndexOf(b.x0, b.y0) && i < g.CellCount()
      ensures !b.HasCell(g, i)
    {
      FirstRow(g, b, i);
    }
  }

  lemma ListRow(g: Grid, b: CellRange, ty: nat, indices: seq<nat>)
    requires g.Shape() && b.Within(g) && ListedBelow(g, b, g.IndexOf(b.x1 + 1, ty), indices)
    ensures ListedBelow(g, b, g.IndexOf(b.x0, ty + 1), indices)
  {
    assert g.IndexOf(b.x0, ty + 1) == g.IndexOf(b.x0, ty) + g.tilesX;
    forall i: nat | g.IndexOf(b.x1 + 1, ty) <= i < g.IndexOf(b.x0, ty + 1) && i < g.CellCount()
      ensures !b.HasCell(g, i)
    {
      BetweenRows(g, b, ty, i);
    }
  }

  lemma ListAll(g: Grid, b: CellRange, indices: seq<nat>)
    requires g.Shape() && b.Within(g) && ListedBelow(g, b, g.IndexOf(b.x0, b.y1 + 1), indices)
    ensures Lists(b, g, indices)
  {
    forall i: nat | i < g.CellCount() && b.HasCell(g, i)
      ensures i < g.IndexOf(b.x0, b.y1 + 1)
    {
      LastRow(g, b, i);
    }
  }

  lemma ListOne(g: Grid, b: CellRange, tx: nat, ty: nat, indices: seq<nat>)
    requires g.Shape() && b.Within(g) && b.Has(tx, ty)
    requires Increasing(indices) && ListedBelow(g, b, g.IndexOf(tx, ty), indices)
    ensures Increasing(indices + [g.IndexOf(tx, ty)])
    ensures ListedBelow(g, b, g.IndexOf(tx + 1, ty), indices + [g.IndexOf(tx, ty)])
  {
    IndexJoin(g, tx, ty);
    var n := g.IndexOf(tx, ty);
    assert g.IndexOf(tx + 1, ty) == n + 1;
    forall k | 0 <= k < |indices|
      ensures indices[k] < n
    {
      assert indices[k] in indices;
    }
    assert forall i: nat :: i in indices + [n] <==> i in indices || i == n;
  }

  predicate Increasing(s: seq<nat>) {
    forall i, j :: 0 <= i < j < |s| ==> s[i] < s[j]
  }

  // ---------- machine arithmetic ----------

  /** When the RGBA frame has fewer than 2^32 bytes, every product and sum the code
      forms in u32 stays below 2^32, so it equals the unbounded one used here. */
  lemma IntermediatesFit(g: Grid, r: CellRange, px: nat, py: nat)
    requires g.Valid() && r.Within(g) && px < g.frameWidth && py < g.frameHeight
    requires g.frameWidth * g.frameHeight * 4 < U32_LIMIT
    ensures g.tileWidth * g.frameHeight < U32_LIMIT
    ensures g.IndexOf(r.x1, r.y1) < g.CellCount() < U32_LIMIT
    ensures (r.x1 + 1) * g.tileWidth <= g.frameWidth
    ensures r.y1 + 1 < g.tilesY ==> (r.y1 + 1) * g.tileHeight < g.frameHeight
    ensures (py * g.frameWidth + px) * 4 + 4 <= g.frameWidth * g.frameHeight * 4
  {
    CellsFit(g);
    IndexJoin(g, r.x1, r.y1);
    EndsFit(g, r);
    PixelFits(g.frameWidth, g.frameHeight, px, py);
  }

  lemma EndsFit(g: Grid, r: CellRange)
    requires g.Valid() && r.Within(g)
    ensures (r.x1 + 1) * g.tileWidth <= g.frameWidth
    ensures r.y1 + 1 < g.tilesY ==> (r.y1 + 1) * g.tileHeight < g.frameHeight
  {
    MulMonotone(r.x1 + 1, g.tilesX, g.tileWidth);
    if r.y1 + 1 < g.tilesY { MulMonotone(r.y1 + 1, g.tilesY - 1, g.tileHeight); }
  }

  lemma PixelFits(w: nat, h: nat, px: nat, py: nat)
    requires px < w && py < h
    ensures (py * w + px) * 4 + 4 <= w * h * 4
  {
    MulStrict(py, h, w);
  }

  lemma CellsFit(g: Grid)
    requires g.Valid()
    ensures g.tileWidth * g.frameHeight <= g.frameWidth * g.frameHeight
    ensures g.CellCount() <= g.frameWidth * g.frameHeight
  {
    var w, h := g.frameWidth, g.frameHeight;
    assert g.tileWidth <= w by { MulMonotone(1, g.tilesX, g.tileWidth); }
    assert g.tilesX <= w by { MulMonotone(1, g.tileWidth, g.tilesX); }
    assert g.tilesY <= h by { MulMonotone(1, g.tileHeight, g.tilesY - 1); }
    MulMonotone(g.tileWidth, w, h);
    MulMonotone(g.tilesX, w, g.tilesY);
    MulMonotone(g.tilesY, h, w);
  }
}
