/** Captured frames, and the byte copies that cut tiles out of them: the row
    gathering of `hash_tile`/`hash_tile_half` (src/tile.rs) and `extract_tile`
    (src/tile_extract.rs). */
module Frames {
  import opened Common
  import opened Grids

  datatype DamageRegion = DamageRegion(x: u32, y: u32, width: u32, height: u32) {
    function Area(): Rect { Rect(x, y, width, height) }
  }

  /** Offset of row `y` in row-major RGBA data of width `w`, and so the size of `y` rows. */
  function RowStart(w: nat, y: nat): nat {
    if y == 0 then 0 else RowStart(w, y - 1) + w * 4
  }

  lemma {:induction false} RowStartIsProduct(w: nat, y: nat)
    ensures RowStart(w, y) == y * w * 4 == y * (w * 4)
  {
    if y > 0 {
      RowStartIsProduct(w, y - 1);
      assert y * w == (y - 1) * w + w;
    }
  }

  lemma {:induction false} RowStartMonotone(w: nat, a: nat, b: nat)
    requires a <= b
    ensures RowStart(w, a) <= RowStart(w, b)
    ensures a < b ==> RowStart(w, a) + w * 4 <= RowStart(w, b)
    decreases b
  {
    if a < b { RowStartMonotone(w, a, b - 1); }
  }

  lemma {:induction false} RowStartSum(w: nat, a: nat, n: nat)
    ensures RowStart(w, a + n) == RowStart(w, a) + RowStart(w, n)
    decreases n
  {
    if n > 0 { RowStartSum(w, a, n - 1); }
  }

  /** Row-major RGBA pixels plus the regions the compositor reports as damaged
      (none: unknown, everything may have changed). */
  datatype Frame = Frame(rgba: seq<bv8>, width: nat, height: nat, damage: seq<DamageRegion>) {
    predicate WellFormed() {
      width > 0 && height > 0 && |rgba| == RowStart(width, height)
    }

    predicate Inside(r: Rect) {
      r.width > 0 && r.height > 0 && r.x + r.width <= width && r.y + r.height <= height
    }

    /** `w` pixels of row `y` from column `x`, as bytes. */
    function Row(x: nat, y: nat, w: nat): (row: seq<bv8>)
      requires WellFormed() && x + w <= width && y < height
      ensures |row| == w * 4
    {
      RowStartMonotone(width, y, height);
      rgba[RowStart(width, y) + x * 4..RowStart(width, y) + x * 4 + w * 4]
    }

    function Pixel(x: nat, y: nat): (p: seq<bv8>)
      requires WellFormed() && x < width && y < height
      ensures |p| == 4
    {
      Row(x, y, 1)
    }

    /** Every `step`-th row of columns `x..x+w`, from row `y` up to row `yEnd`. */
    function Rows(x: nat, w: nat, y: nat, yEnd: nat, step: nat): seq<bv8>
      requires WellFormed() && x + w <= width && yEnd <= height && step > 0
      decreases yEnd - y
    {
      if y >= yEnd then [] else Row(x, y, w) + Rows(x, w, y + step, yEnd, step)
    }

    /** What `hash_tile` hashes and `extract_tile` copies: every row. */
    function TileBytes(r: Rect): seq<bv8>
      requires WellFormed() && Inside(r)
    {
      Rows(r.x, r.width, r.y, r.y + r.height, 1)
    }

    /** What `hash_tile_half` hashes: every second row. */
    function SampledBytes(r: Rect): seq<bv8>
      requires WellFormed() && Inside(r)
    {
      Rows(r.x, r.width, r.y, r.y + r.height, 2)
    }
  }

  lemma RowFits(f: Frame, x: nat, y: nat, w: nat)
    requires f.WellFormed() && x + w <= f.width && y < f.height
    ensures RowStart(f.width, y) + x * 4 + w * 4 <= |f.rgba|
  {
    RowStartMonotone(f.width, y, f.height);
  }

  predicate SameSize(a: Frame, b: Frame) {
    a.width == b.width && a.height == b.height
  }

  ghost predicate SamePixel(a: Frame, b: Frame, px: nat, py: nat)
    requires a.WellFormed() && b.WellFormed() && SameSize(a, b) && px < a.width && py < a.height
  {
    a.Pixel(px, py) == b.Pixel(px, py)
  }

  lemma PixelOfRow(f: Frame, x: nat, y: nat, w: nat, px: nat)
    requires f.WellFormed() && x + w <= f.width && y < f.height && x <= px < x + w
    ensures f.Pixel(px, y) == f.Row(x, y, w)[(px - x) * 4..(px - x) * 4 + 4]
  {
    RowFits(f, x, y, w);
    RowFits(f, px, y, 1);
    SubSlice(f.rgba, RowStart(f.width, y) + x * 4, w * 4, (px - x) * 4);
  }

  lemma SubSlice(s: seq<bv8>, start: nat, n: nat, offset: nat)
    requires start + n <= |s| && offset + 4 <= n
    ensures s[start..start + n][offset..offset + 4] == s[start + offset..start + offset + 4]
  {
    var part := s[start..start + n];
    assert forall k :: offset <= k < offset + 4 ==> part[k] == s[start + k];
  }

  /** Rows agree exactly when their pixels do. */
  lemma RowsOfPixels(a: Frame, b: Frame, x: nat, y: nat, w: nat)
    requires a.WellFormed() && b.WellFormed() && SameSize(a, b) && x + w <= a.width && y < a.height
    ensures a.Row(x, y, w) == b.Row(x, y, w) <==>
            forall px: nat :: x <= px < x + w ==> SamePixel(a, b, px, y)
  {
    var ra, rb := a.Row(x, y, w), b.Row(x, y, w);
    forall px: nat | x <= px < x + w
      ensures a.Pixel(px, y) == ra[(px - x) * 4..(px - x) * 4 + 4]
      ensures b.Pixel(px, y) == rb[(px - x) * 4..(px - x) * 4 + 4]
    {
      PixelOfRow(a, x, y, w, px);
      PixelOfRow(b, x, y, w, px);
    }
    if forall px: nat :: x <= px < x + w ==> SamePixel(a, b, px, y) {
      forall k | 0 <= k < w * 4
        ensures ra[k] == rb[k]
      {
        var px := x + k / 4;
        assert SamePixel(a, b, px, y);
        assert ra[k] == ra[(px - x) * 4..(px - x) * 4 + 4][k % 4];
        assert rb[k] == rb[(px - x) * 4..(px - x) * 4 + 4][k % 4];
      }
    }
  }

  /** The row at `py` is one of those taken from `y` up to `yEnd` in steps. */
  predicate Taken(y: nat, yEnd: nat, step: nat, py: nat)
    requires step > 0
  {
    y <= py < yEnd && (py - y) % step == 0
  }

  /** Gathered rows agree exactly when every pixel of every gathered row does. */
  lemma {:induction false} GatheredPixels(a: Frame, b: Frame, x: nat, w: nat, y: nat, yEnd: nat, step: nat)
    requires a.WellFormed() && b.WellFormed() && SameSize(a, b) && x + w <= a.width && yEnd <= a.height
    requires step == 1 || step == 2
    ensures a.Rows(x, w, y, yEnd, step) == b.Rows(x, w, y, yEnd, step) <==>
            forall px: nat, py: nat :: x <= px < x + w && Taken(y, yEnd, step, py) ==> SamePixel(a, b, px, py)
    ensures |a.Rows(x, w, y, yEnd, step)| == |b.Rows(x, w, y, yEnd, step)|
    decreases yEnd - y
  {
    if y < yEnd {
      GatheredPixels(a, b, x, w, y + step, yEnd, step);
      RowsOfPixels(a, b, x, y, w);
      var ra, rb := a.Rows(x, w, y + step, yEnd, step), b.Rows(x, w, y + step, yEnd, step);
      var wa, wb := a.Rows(x, w, y, yEnd, step), b.Rows(x, w, y, yEnd, step);
      assert wa[..w * 4] == a.Row(x, y, w) && wb[..w * 4] == b.Row(x, y, w);
      assert wa[w * 4..] == ra && wb[w * 4..] == rb;
      TakenStep(y, yEnd, step);
    }
  }

  lemma TakenStep(y: nat, yEnd: nat, step: nat)
    requires y < yEnd && (step == 1 || step == 2)
    ensures forall py: nat :: Taken(y, yEnd, step, py) <==> py == y || Taken(y + step, yEnd, step, py)
  {
    if step == 1 {
    } else {
      forall py: nat
        ensures Taken(y, yEnd, 2, py) <==> py == y || Taken(y + 2, yEnd, 2, py)
      {
        if py >= y + 2 { assert (py - y) % 2 == (py - (y + 2)) % 2; }
      }
    }
  }

  /** A pixel of a tile that the half hash looks at: rows 0, 2, 4, ... of the tile. */
  predicate SampledPixel(r: Rect, px: nat, py: nat) {
    r.Contains(px, py) && (py - r.y) % 2 == 0
  }

  lemma TileBytesArePixels(a: Frame, b: Frame, r: Rect)
    requires a.WellFormed() && b.WellFormed() && SameSize(a, b) && a.Inside(r)
    ensures a.TileBytes(r) == b.TileBytes(r) <==>
            forall px: nat, py: nat :: r.Contains(px, py) ==> SamePixel(a, b, px, py)
  {
    GatheredPixels(a, b, r.x, r.width, r.y, r.y + r.height, 1);
    assert forall px: nat, py: nat ::
        r.Contains(px, py) <==> r.x <= px < r.x + r.width && Taken(r.y, r.y + r.height, 1, py);
  }

  lemma SampledBytesArePixels(a: Frame, b: Frame, r: Rect)
    requires a.WellFormed() && b.WellFormed() && SameSize(a, b) && a.Inside(r)
    ensures a.SampledBytes(r) == b.SampledBytes(r) <==>
            forall px: nat, py: nat :: SampledPixel(r, px, py) ==> SamePixel(a, b, px, py)
  {
    GatheredPixels(a, b, r.x, r.width, r.y, r.y + r.height, 2);
    assert forall px: nat, py: nat ::
        SampledPixel(r, px, py) <==> r.x <= px < r.x + r.width && Taken(r.y, r.y + r.height, 2, py);
  }

  lemma {:induction false} RowsLength(f: Frame, x: nat, w: nat, y: nat, n: nat)
    requires f.WellFormed() && x + w <= f.width && y + n <= f.height
    ensures |f.Rows(x, w, y, y + n, 1)| == RowStart(w, n)
    decreases n
  {
    if n > 0 { RowsLength(f, x, w, y + 1, n - 1); }
  }

  /** The size of a tile's buffer. */
  function ByteCount(r: Rect): nat { RowStart(r.width, r.height) }

  lemma TileLength(f: Frame, r: Rect)
    requires f.WellFormed() && f.Inside(r)
    ensures |f.TileBytes(r)| == ByteCount(r)
  {
    RowsLength(f, r.x, r.width, r.y, r.height);
  }

  /** A tile's bytes do not depend on where the same pixels sit: equal content in two
      frames means equal bytes, and the sampled rows are part of the content. */
  lemma SameTileSameSample(a: Frame, b: Frame, r: Rect)
    requires a.WellFormed() && b.WellFormed() && SameSize(a, b) && a.Inside(r)
    requires a.TileBytes(r) == b.TileBytes(r)
    ensures a.SampledBytes(r) == b.SampledBytes(r)
  {
    TileBytesArePixels(a, b, r);
    SampledBytesArePixels(a, b, r);
  }

  // ---------- extract_tile ----------

  datatype SimdLevel = Avx2 | Sse2 | Scalar

  /** Bytes moved at a time for a row of the given length; 0: the whole row at once. */
  function LaneBytes(level: SimdLevel, rowBytes: nat): nat {
    if level == Avx2 && rowBytes >= 32 then 32
    else if level != Scalar && rowBytes >= 16 then 16
    else 0
  }

  /** Copies one row in lanes plus a remainder. */
  method CopyRow(src: seq<bv8>, srcOffset: nat, dst: array<bv8>, dstOffset: nat, rowBytes: nat, lane: nat)
    requires srcOffset + rowBytes <= |src| && dstOffset + rowBytes <= dst.Length
    modifies dst
    ensures dst[..] == old(dst[..dstOffset]) + src[srcOffset..srcOffset + rowBytes] + old(dst[dstOffset + rowBytes..])
  {
    var copied: nat := 0;
    while lane > 0 && copied + lane <= rowBytes
      invariant copied <= rowBytes
      invariant forall k :: 0 <= k < dst.Length ==>
                  dst[k] == if dstOffset <= k < dstOffset + copied then src[srcOffset + k - dstOffset] else old(dst[k])
    {
      forall k | 0 <= k < lane {
        dst[dstOffset + copied + k] := src[srcOffset + copied + k];
      }
      copied := copied + lane;
    }
    forall k | 0 <= k < rowBytes - copied {
      dst[dstOffset + copied + k] := src[srcOffset + copied + k];
    }
  }

  /** `extract_tile`: fills the front of the buffer with the tile's rows, whatever
      the instruction set, and leaves the rest of the buffer alone. */
  method ExtractTile(f: Frame, buffer: array<bv8>, r: Rect, level: SimdLevel)
    requires f.WellFormed() && f.Inside(r) && |f.TileBytes(r)| <= buffer.Length
    modifies buffer
    ensures Written(buffer[..], f.TileBytes(r), old(buffer[..]))
  {
    RowsLength(f, r.x, r.width, r.y, r.height);
    if r.width == f.width {
      FullWidthTile(f, r);
      CopyFullWidth(f, buffer, r);
    } else {
      ExtractRows(f, buffer, r, LaneBytes(level, r.width * 4));
    }
  }

  /** Full-width tile: one contiguous copy. */
  method CopyFullWidth(f: Frame, buffer: array<bv8>, r: Rect)
    requires f.WellFormed() && f.Inside(r) && r.width == f.width && |f.TileBytes(r)| <= buffer.Length
    modifies buffer
    ensures Written(buffer[..], f.TileBytes(r), old(buffer[..]))
  {
    FullWidthTile(f, r);
    TileLength(f, r);
    RowStartIsProduct(f.width, r.y);
    CopyRow(f.rgba, r.y * f.width * 4, buffer, 0, ByteCount(r), 0);
  }

  /** One row of a tile, at its place in the buffer. */
  method CopyTileRow(f: Frame, x: nat, y: nat, w: nat, buffer: array<bv8>, dstOffset: nat, lane: nat)
    requires f.WellFormed() && x + w <= f.width && y < f.height && dstOffset + w * 4 <= buffer.Length
    modifies buffer
    ensures buffer[..] == old(buffer[..])[..dstOffset] + f.Row(x, y, w) + old(buffer[..])[dstOffset + w * 4..]
  {
    RowFits(f, x, y, w);
    RowStartIsProduct(f.width, y);
    CopyRow(f.rgba, (y * f.width + x) * 4, buffer, dstOffset, w * 4, lane);
  }

  /** `done` has been written over the front of `before`. */
  predicate Written(now: seq<bv8>, done: seq<bv8>, before: seq<bv8>) {
    |now| == |before| && done <= now && now[|done|..] == before[|done|..]
  }

  lemma WriteRow(now: seq<bv8>, done: seq<bv8>, before: seq<bv8>, row: seq<bv8>, done': seq<bv8>, now': seq<bv8>)
    requires Written(now, done, before) && |done| + |row| <= |before| && done' == done + row
    requires now' == now[..|done|] + row + now[|done| + |row|..]
    ensures Written(now', done', before)
  {}

  /** The first `n` rows of a tile. */
  function Top(f: Frame, r: Rect, n: nat): seq<bv8>
    requires f.WellFormed() && f.Inside(r) && n <= r.height
  {
    f.Rows(r.x, r.width, r.y, r.y + n, 1)
  }

  /** Row `row` of a tile follows the rows above it. */
  method ExtractRow(f: Frame, buffer: array<bv8>, r: Rect, row: nat, lane: nat, ghost before: seq<bv8>)
    requires f.WellFormed() && f.Inside(r) && row < r.height && |f.TileBytes(r)| <= buffer.Length
    requires Written(buffer[..], Top(f, r, row), before)
    modifies buffer
    ensures Written(buffer[..], Top(f, r, row + 1), before)
  {
    NextRow(f, r, row);
    ghost var now, next := buffer[..], f.Row(r.x, r.y + row, r.width);
    CopyTileRow(f, r.x, r.y + row, r.width, buffer, RowStart(r.width, row), lane);
    WriteRow(now, Top(f, r, row), before, next, Top(f, r, row + 1), buffer[..]);
  }

  /** `extract_tile_rows_avx2`, `_sse2` and `_scalar`: one row after the other. */
  method ExtractRows(f: Frame, buffer: array<bv8>, r: Rect, lane: nat)
    requires f.WellFormed() && f.Inside(r) && |f.TileBytes(r)| <= buffer.Length
    modifies buffer
    ensures Written(buffer[..], Top(f, r, r.height), old(buffer[..]))
  {
    for row: nat := 0 to r.height
      invariant Written(buffer[..], Top(f, r, row), old(buffer[..]))
    {
      ExtractRow(f, buffer, r, row, lane, old(buffer[..]));
    }
  }

  lemma NextRow(f: Frame, r: Rect, row: nat)
    requires f.WellFormed() && f.Inside(r) && row < r.height
    ensures Top(f, r, row + 1) == Top(f, r, row) + f.Row(r.x, r.y + row, r.width)
    ensures |Top(f, r, row)| == RowStart(r.width, row)
    ensures RowStart(r.width, row) + r.width * 4 <= |f.TileBytes(r)|
  {
    RowsSnoc(f, r.x, r.width, r.y, row);
    RowsMonotone(f, r, row + 1);
    RowsLength(f, r.x, r.width, r.y, row);
  }

  lemma RowsMonotone(f: Frame, r: Rect, n: nat)
    requires f.WellFormed() && f.Inside(r) && n <= r.height
    ensures |f.Rows(r.x, r.width, r.y, r.y + n, 1)| <= |f.TileBytes(r)|
  {
    RowsLength(f, r.x, r.width, r.y, n);
    RowsLength(f, r.x, r.width, r.y, r.height);
    RowStartMonotone(r.width, n, r.height);
  }

  lemma {:induction false} RowsSnoc(f: Frame, x: nat, w: nat, y: nat, n: nat)
    requires f.WellFormed() && x + w <= f.width && y + n < f.height
    ensures f.Rows(x, w, y, y + n + 1, 1) == f.Rows(x, w, y, y + n, 1) + f.Row(x, y + n, w)
    decreases n
  {
    if n > 0 {
      RowsSnoc(f, x, w, y + 1, n - 1);
      Associate(f.Row(x, y, w), f.Rows(x, w, y + 1, y + n, 1), f.Row(x, y + n, w));
    }
  }

  /** The rows of a full-width tile are contiguous in the frame. */
  lemma FullWidthTile(f: Frame, r: Rect)
    requires f.WellFormed() && f.Inside(r) && r.width == f.width
    ensures RowStart(f.width, r.y) + ByteCount(r) <= |f.rgba|
    ensures f.TileBytes(r) == f.rgba[RowStart(f.width, r.y)..RowStart(f.width, r.y) + ByteCount(r)]
  {
    FullRows(f, r.y, r.height);
    RowStartSum(f.width, r.y, r.height);
  }

  lemma {:induction false} FullRows(f: Frame, y: nat, n: nat)
    requires f.WellFormed() && y + n <= f.height
    ensures RowStart(f.width, y) <= RowStart(f.width, y + n) <= |f.rgba|
    ensures f.Rows(0, f.width, y, y + n, 1) == f.rgba[RowStart(f.width, y)..RowStart(f.width, y + n)]
    decreases n
  {
    RowStartMonotone(f.width, y, y + n);
    RowStartMonotone(f.width, y + n, f.height);
    if n > 0 {
      FullRows(f, y + 1, n - 1);
      RowStartMonotone(f.width, y + 1, y + n);
      FirstFullRow(f, y);
      JoinSlices(f.rgba, RowStart(f.width, y), RowStart(f.width, y + 1), RowStart(f.width, y + n));
    }
  }

  lemma FirstFullRow(f: Frame, y: nat)
    requires f.WellFormed() && y < f.height
    ensures RowStart(f.width, y) <= RowStart(f.width, y + 1) <= |f.rgba|
    ensures f.Row(0, y, f.width) == f.rgba[RowStart(f.width, y)..RowStart(f.width, y + 1)]
  {
    RowStartMonotone(f.width, y + 1, f.height);
  }

  lemma JoinSlices(s: seq<bv8>, a: nat, b: nat, c: nat)
    requires a <= b <= c <= |s|
    ensures s[a..b] + s[b..c] == s[a..c]
  {}

  // ---------- hash_tile and hash_tile_half ----------

  lemma {:induction false} SampledSnoc(f: Frame, x: nat, w: nat, y: nat, k: nat)
    requires f.WellFormed() && x + w <= f.width && y + 2 * k < f.height
    ensures f.Rows(x, w, y, y + 2 * k + 1, 2) == f.Rows(x, w, y, y + 2 * k, 2) + f.Row(x, y + 2 * k, w)
    decreases k
  {
    if k > 0 {
      SampledSnoc(f, x, w, y + 2, k - 1);
      Associate(f.Row(x, y, w), f.Rows(x, w, y + 2, y + 2 * k, 2), f.Row(x, y + 2 * k, w));
    } else {
      assert f.Rows(x, w, y + 2, y + 1, 2) == [];
      assert f.Row(x, y, w) + [] == [] + f.Row(x, y, w);
    }
  }

  /** An odd row at the end is not sampled. */
  lemma {:induction false} SampledPad(f: Frame, x: nat, w: nat, y: nat, k: nat)
    requires f.WellFormed() && x + w <= f.width && y + 2 * k + 2 <= f.height
    ensures f.Rows(x, w, y, y + 2 * k + 2, 2) == f.Rows(x, w, y, y + 2 * k + 1, 2)
    decreases k
  {
    if k > 0 {
      SampledPad(f, x, w, y + 2, k - 1);
      assert y + 2 + 2 * (k - 1) == y + 2 * k;
    } else {
      assert f.Rows(x, w, y + 2, y + 2, 2) == f.Rows(x, w, y + 2, y + 1, 2) == [];
    }
  }

  lemma {:induction false} SampledLength(f: Frame, x: nat, w: nat, y: nat, n: nat)
    requires f.WellFormed() && x + w <= f.width && y + n <= f.height
    ensures |f.Rows(x, w, y, y + n, 2)| == RowStart(w, (n + 1) / 2)
    decreases n
  {
    if n >= 2 {
      SampledLength(f, x, w, y + 2, n - 2);
      assert (n + 1) / 2 == (n - 2 + 1) / 2 + 1;
    } else if n == 1 {
      assert f.Rows(x, w, y + 2, y + 1, 2) == [];
    }
  }

  /** The reusable gathering buffer of a hashing thread. */
  class TileHasher {
    /** `hash_contiguous`: whichever hash the processor supports. */
    const hash: seq<bv8> -> u64
    var buffer: seq<bv8>

    constructor (hash: seq<bv8> -> u64)
      ensures this.hash == hash
    {
      this.hash := hash;
      buffer := [];
    }

    /** Grows the buffer; it never shrinks, so stale bytes may follow the tile. */
    method Grow(size: nat)
      modifies this
      ensures |buffer| >= size && old(buffer) <= buffer
    {
      if |buffer| < size {
        buffer := buffer + seq(size - |buffer|, i => 0);
      }
    }

    method PutRow(f: Frame, x: nat, y: nat, w: nat, ghost done: seq<bv8>, dstOffset: nat,
                  ghost done': seq<bv8>, ghost before: seq<bv8>)
      requires f.WellFormed() && x + w <= f.width && y < f.height && done' == done + f.Row(x, y, w)
      requires Written(buffer, done, before) && dstOffset == |done| && |done| + w * 4 <= |before|
      modifies this
      ensures Written(buffer, done', before)
    {
      ghost var now := buffer;
      buffer := buffer[..dstOffset] + f.Row(x, y, w) + buffer[dstOffset + w * 4..];
      WriteRow(now, done, before, f.Row(x, y, w), done', buffer);
    }

    /** `hash_tile`: the hash of all rows of the tile, and of nothing else that the
        buffer may still hold. */
    method HashTile(f: Frame, r: Rect) returns (h: u64)
      requires f.WellFormed() && f.Inside(r)
      modifies this
      ensures h == hash(f.TileBytes(r))
    {
      if r.width == f.width {
        FullWidthTile(f, r);
        RowStartIsProduct(f.width, r.y);
        return hash(f.rgba[r.y * f.width * 4..r.y * f.width * 4 + ByteCount(r)]);
      }
      TileLength(f, r);
      Grow(ByteCount(r));
      ghost var before := buffer;
      for row: nat := 0 to r.height
        invariant |f.TileBytes(r)| <= |before| && Written(buffer, Top(f, r, row), before)
      {
        NextRow(f, r, row);
        PutRow(f, r.x, r.y + row, r.width, Top(f, r, row), RowStart(r.width, row), Top(f, r, row + 1), before);
      }
      assert buffer[..ByteCount(r)] == f.TileBytes(r);
      h := hash(buffer[..ByteCount(r)]);
    }

    /** `hash_tile_half`: the hash of rows 0, 2, 4, ... of the tile. */
    method HashTileHalf(f: Frame, r: Rect) returns (h: u64)
      requires f.WellFormed() && f.Inside(r)
      modifies this
      ensures h == hash(f.SampledBytes(r))
    {
      SampledSize(f, r);
      var tileSize := RowStart(r.width, CeilDiv(r.height, 2));
      Grow(tileSize);
      ghost var before := buffer;
      var dstRow: nat, srcRow := 0, r.y;
      while srcRow < r.y + r.height
        invariant srcRow == r.y + 2 * dstRow <= r.y + r.height + 1
        invariant |f.SampledBytes(r)| <= |before| && Written(buffer, SampledTop(f, r, dstRow), before)
      {
        NextSample(f, r, dstRow);
        SampleFits(f, r, dstRow);
        PutRow(f, r.x, srcRow, r.width, SampledTop(f, r, dstRow), RowStart(r.width, dstRow),
               SampledTop(f, r, dstRow + 1), before);
        srcRow, dstRow := srcRow + 2, dstRow + 1;
      }
      assert buffer[..tileSize] == f.SampledBytes(r);
      h := hash(buffer[..tileSize]);
    }
  }

  /** The first `k` sampled rows of a tile. */
  function SampledTop(f: Frame, r: Rect, k: nat): seq<bv8>
    requires f.WellFormed() && f.Inside(r) && 2 * k <= r.height + 1
  {
    f.Rows(r.x, r.width, r.y, Min(r.y + 2 * k, r.y + r.height), 2)
  }

  lemma NextSample(f: Frame, r: Rect, k: nat)
    requires f.WellFormed() && f.Inside(r) && 2 * k < r.height
    ensures SampledTop(f, r, k + 1) == SampledTop(f, r, k) + f.Row(r.x, r.y + 2 * k, r.width)
  {
    SampledSnoc(f, r.x, r.width, r.y, k);
    if 2 * k + 2 <= r.height { SampledPad(f, r.x, r.width, r.y, k); }
  }

  lemma SampleFits(f: Frame, r: Rect, k: nat)
    requires f.WellFormed() && f.Inside(r) && 2 * k < r.height
    ensures |SampledTop(f, r, k)| == RowStart(r.width, k)
    ensures RowStart(r.width, k) + r.width * 4 <= |f.SampledBytes(r)|
  {
    SampledLength(f, r.x, r.width, r.y, 2 * k);
    assert (2 * k + 1) / 2 == k;
    SampledSize(f, r);
    RowStartMonotone(r.width, k, CeilDiv(r.height, 2));
  }

  lemma SampledSize(f: Frame, r: Rect)
    requires f.WellFormed() && f.Inside(r)
    ensures |f.SampledBytes(r)| == RowStart(r.width, CeilDiv(r.height, 2))
  {
    SampledLength(f, r.x, r.width, r.y, r.height);
    assert CeilDiv(r.height, 2) == (r.height + 1) / 2;
  }
}
