/** The delta stream refines whole-frame copying: what the client has on screen after
    drawing the merged tiles of each frame, compared pixel by pixel with the frame. */
module DeltaStream {
  import opened Common
  import opened Grids
  import opened Frames
  import Merging
  import opened Detection
  import DiffDetectors
  import opened DetectionRuns
  import opened Baselines

  // ---------- the client's canvas ----------

  type Screen = (nat, nat) -> seq<bv8>

  /** A decoded tile: its place and its pixels, row by row. */
  datatype Image = Image(rect: Rect, bytes: seq<bv8>) {
    function PixelAt(px: nat, py: nat): seq<bv8> {
      var offset := if rect.Contains(px, py) then RowStart(rect.width, py - rect.y) + (px - rect.x) * 4 else 0;
      if offset + 4 <= |bytes| then bytes[offset..offset + 4] else []
    }
  }

  function Draw(s: Screen, image: Image): Screen {
    (px: nat, py: nat) => if image.rect.Contains(px, py) then image.PixelAt(px, py) else s(px, py)
  }

  /** The images drawn one after the other. */
  function DrawAll(s: Screen, images: seq<Image>): Screen {
    if images == [] then s else Draw(DrawAll(s, images[..|images| - 1]), images[|images| - 1])
  }

  /** Image `k` shows the frame's pixels in range `k`. */
  ghost predicate Cutouts(g: Grid, f: Frame, ranges: seq<CellRange>, images: seq<Image>) {
    && g.Valid() && f.WellFormed() && f.width == g.frameWidth && f.height == g.frameHeight
    && |images| == |ranges|
    && (forall k :: 0 <= k < |ranges| ==>
          && ranges[k].Within(g) && f.Inside(g.RangeRect(ranges[k]))
          && images[k] == Image(g.RangeRect(ranges[k]), f.TileBytes(g.RangeRect(ranges[k]))))
  }

  lemma {:induction false} RowOfTile(f: Frame, x: nat, w: nat, y: nat, yEnd: nat, py: nat)
    requires f.WellFormed() && x + w <= f.width && y <= py < yEnd <= f.height
    ensures RowStart(w, py - y) + w * 4 <= |f.Rows(x, w, y, yEnd, 1)|
    ensures f.Rows(x, w, y, yEnd, 1)[RowStart(w, py - y)..RowStart(w, py - y) + w * 4] == f.Row(x, py, w)
    decreases py - y
  {
    var row, rest := f.Row(x, y, w), f.Rows(x, w, y + 1, yEnd, 1);
    if py == y {
      assert (row + rest)[0..w * 4] == row;
    } else {
      RowOfTile(f, x, w, y + 1, yEnd, py);
      RowStartSum(w, 1, py - (y + 1));
      assert RowStart(w, 1) == w * 4;
      SliceOfTail(row, rest, RowStart(w, py - (y + 1)), w * 4);
    }
  }

  lemma SliceOfTail(head: seq<bv8>, tail: seq<bv8>, start: nat, n: nat)
    requires start + n <= |tail|
    ensures (head + tail)[|head| + start..|head| + start + n] == tail[start..start + n]
  {}

  /** An image cut out of a frame shows the frame's own pixels. */
  lemma CutoutPixel(f: Frame, r: Rect, px: nat, py: nat)
    requires f.WellFormed() && f.Inside(r) && r.Contains(px, py)
    ensures Image(r, f.TileBytes(r)).PixelAt(px, py) == f.Pixel(px, py)
  {
    RowOfTileBytes(f, r, py);
    PixelOfRow(f, r.x, py, r.width, px);
    PixelOfImageRow(r, f.TileBytes(r), f.Row(r.x, py, r.width), px, py);
  }

  lemma RowOfTileBytes(f: Frame, r: Rect, py: nat)
    requires f.WellFormed() && f.Inside(r) && r.y <= py < r.y + r.height
    ensures var start := RowStart(r.width, py - r.y);
            start + r.width * 4 <= |f.TileBytes(r)|
            && f.TileBytes(r)[start..start + r.width * 4] == f.Row(r.x, py, r.width)
  {
    RowOfTile(f, r.x, r.width, r.y, r.y + r.height, py);
  }

  lemma PixelOfImageRow(r: Rect, bytes: seq<bv8>, row: seq<bv8>, px: nat, py: nat)
    requires r.Contains(px, py) && RowStart(r.width, py - r.y) + r.width * 4 <= |bytes|
    requires row == bytes[RowStart(r.width, py - r.y)..RowStart(r.width, py - r.y) + r.width * 4]
    ensures Image(r, bytes).PixelAt(px, py) == row[(px - r.x) * 4..(px - r.x) * 4 + 4]
  {
    ImageSlice(r, bytes, px, py);
    SubSlice(bytes, RowStart(r.width, py - r.y), r.width * 4, (px - r.x) * 4);
  }

  lemma ImageSlice(r: Rect, bytes: seq<bv8>, px: nat, py: nat)
    requires r.Contains(px, py) && RowStart(r.width, py - r.y) + r.width * 4 <= |bytes|
    ensures var at := RowStart(r.width, py - r.y) + (px - r.x) * 4;
            at + 4 <= |bytes| && Image(r, bytes).PixelAt(px, py) == bytes[at..at + 4]
  {}

  /** Drawing cutouts of a frame copies the covered cells and touches no other pixel. */
  lemma {:induction false} DrawnPixel(g: Grid, f: Frame, ranges: seq<CellRange>, images: seq<Image>, s: Screen,
                                      px: nat, py: nat)
    requires Cutouts(g, f, ranges, images) && px < f.width && py < f.height
    ensures DrawAll(s, images)(px, py)
         == if Merging.Covers(ranges, g.ColumnOf(px), g.RowOf(py)) then f.Pixel(px, py) else s(px, py)
  {
    if images != [] {
      var n := |images| - 1;
      DrawnPixel(g, f, ranges[..n], images[..n], s, px, py);
      RangeHasPixel(g, ranges[n], px, py);
      assert ranges == ranges[..n] + [ranges[n]] && [ranges[n]][0] == ranges[n];
      Merging.CoversAppend(ranges[..n], [ranges[n]], g.ColumnOf(px), g.RowOf(py));
      if images[n].rect.Contains(px, py) { CutoutPixel(f, images[n].rect, px, py); }
    }
  }

  // ---------- what a frame sends ----------

  ghost function SentCells(cfg: Config, hash: Hash, s: State, f: Frame): Merging.Cells
    requires Fits(cfg, s, f)
  {
    var g := cfg.GridOf(f);
    set i: nat | i < g.CellCount() && SentAt(cfg, hash, s, f, i) :: CellKey(g, i)
  }

  function CellKey(g: Grid, i: nat): (nat, nat)
    requires g.Shape()
  {
    (i % g.tilesX, i / g.tilesX)
  }

  lemma CellTileKey(g: Grid, i: nat, quality: real)
    requires g.Valid() && i < g.CellCount()
    ensures var t := DiffDetectors.CellTile(g, i, quality); (t.x / g.tileWidth, t.y / g.tileHeight) == CellKey(g, i)
  {
    BoundsInvertSpans(g, g.CellAt(i), quality);
  }

  lemma {:induction false} QualityMapKeys(g: Grid, tiles: seq<Tile>, key: (nat, nat))
    requires g.Shape()
    ensures key in Merging.QualityMap(tiles, g) <==>
            exists k :: 0 <= k < |tiles| && key == (tiles[k].x / g.tileWidth, tiles[k].y / g.tileHeight)
  {
    if tiles != [] {
      var n := |tiles| - 1;
      QualityMapKeys(g, tiles[..n], key);
      assert tiles == tiles[..n] + [tiles[n]];
    }
  }

  /** The merger's dirty cells are the cells the detector sends. */
  lemma SentTilesAreDirty(cfg: Config, hash: Hash, s: State, f: Frame, scale: real, tiles: seq<Tile>, indices: seq<nat>)
    requires Fits(cfg, s, f) && DiffDetectors.SentTiles(cfg, hash, s, f, scale, tiles, indices)
    ensures Merging.QualityMap(tiles, cfg.GridOf(f)).Keys == SentCells(cfg, hash, s, f)
  {
    var g := cfg.GridOf(f);
    forall k | 0 <= k < |tiles|
      ensures (tiles[k].x / g.tileWidth, tiles[k].y / g.tileHeight) == CellKey(g, indices[k])
    {
      CellTileKey(g, indices[k], tiles[k].quality);
    }
    forall key: (nat, nat)
      ensures key in Merging.QualityMap(tiles, g) <==> key in SentCells(cfg, hash, s, f)
    {
      QualityMapKeys(g, tiles, key);
      if key in SentCells(cfg, hash, s, f) {
        var i: nat :| i < g.CellCount() && SentAt(cfg, hash, s, f, i) && key == CellKey(g, i);
        assert i in indices;
        var k :| 0 <= k < |indices| && indices[k] == i;
      }
      if key in Merging.QualityMap(tiles, g) {
        var k :| 0 <= k < |tiles| && key == (tiles[k].x / g.tileWidth, tiles[k].y / g.tileHeight);
        assert indices[k] in indices;
      }
    }
  }

  // ---------- one frame ----------

  /** A pixel in row 0, 2, 4, ... of its cell. */
  predicate InSampledRow(g: Grid, px: nat, py: nat)
    requires g.Valid() && g.CellOf(px, py) < g.CellCount()
  {
    SampledPixel(g.CellRect(g.CellOf(px, py)), px, py)
  }

  /** Nothing is throttled when both intervals are at most one frame. */
  predicate NoThrottle(cfg: Config)
    requires cfg.Valid()
  {
    cfg.StaticInterval() <= 1 && cfg.DynamicInterval() <= 1
  }

  /** The client is owed nothing for the cell: nothing is throttled, or it has been sent
      since its last reset, and not as dynamic. Any change of such a cell is sent at once. */
  predicate Kept(cfg: Config, t: Tracked)
    requires cfg.Valid()
  {
    NoThrottle(cfg) || (t.base.Some? && !t.cell.meta.lastSentAsDynamic && t.cell.meta.lastSentFrame > 0)
  }

  /** The client shows the frame on the sampled rows of every cell it is owed nothing for. */
  ghost predicate Mirrors(cfg: Config, hash: Hash, d: Detector, f: Frame, screen: Screen) {
    && cfg.Valid() && BasesCurrent(cfg, d, f) && DetectorInv(hash, d)
    && (forall px: nat, py: nat :: px < f.width && py < f.height ==> ShowsKept(cfg, d, f, screen, px, py))
  }

  ghost predicate ShowsKept(cfg: Config, d: Detector, f: Frame, screen: Screen, px: nat, py: nat)
    requires cfg.Valid() && f.WellFormed() && |d.cells| == cfg.GridOf(f).CellCount() && px < f.width && py < f.height
  {
    CellsPartitionFrame(cfg.GridOf(f), px, py);
    Kept(cfg, d.cells[cfg.GridOf(f).CellOf(px, py)]) ==> ShowsSampled(cfg, f, screen, px, py)
  }

  /** If the pixel lies in a sampled row, the screen shows it. */
  ghost predicate ShowsSampled(cfg: Config, f: Frame, screen: Screen, px: nat, py: nat)
    requires f.WellFormed() && px < f.width && py < f.height
  {
    var g := cfg.GridOf(f);
    CellsPartitionFrame(g, px, py);
    InSampledRow(g, px, py) ==> screen(px, py) == f.Pixel(px, py)
  }

  /** If the pixel's cell is reported changed, the screen shows it. */
  ghost predicate ShowsSent(cfg: Config, hash: Hash, s: State, f: Frame, screen: Screen, px: nat, py: nat)
    requires Fits(cfg, s, f) && px < f.width && py < f.height
  {
    var g := cfg.GridOf(f);
    CellsPartitionFrame(g, px, py);
    SentAt(cfg, hash, s, f, g.CellOf(px, py)) ==> screen(px, py) == f.Pixel(px, py)
  }

  ghost predicate ShowsAllSampled(cfg: Config, f: Frame, screen: Screen) {
    f.WellFormed() && forall px: nat, py: nat :: px < f.width && py < f.height ==> ShowsSampled(cfg, f, screen, px, py)
  }

  ghost predicate ShowsAllSent(cfg: Config, hash: Hash, s: State, f: Frame, screen: Screen) {
    && Fits(cfg, s, f)
    && (forall px: nat, py: nat :: px < f.width && py < f.height ==> ShowsSent(cfg, hash, s, f, screen, px, py))
  }

  /** How a frame is shown: images cut from it that cover at least the cells the detector
      sends. */
  ghost predicate Faithful(cfg: Config, hash: Hash, d: Detector, f: Frame, ranges: seq<CellRange>, images: seq<Image>) {
    && Fits(cfg, Erase(d), f) && AllHashable(cfg, hash, f)
    && Cutouts(cfg.GridOf(f), f, ranges, images)
    && (forall c <- SentCells(cfg, hash, Erase(d), f) :: Merging.Covers(ranges, c.0, c.1))
  }

  /** A cell that changes without being sent is one the client was owed already, and
      still is. */
  lemma HeldIsOwed(cfg: Config, hash: Hash, d: Detector, f: Frame, i: nat)
    requires DetectorInv(hash, d) && Fits(cfg, Erase(d), f) && AllHashable(cfg, hash, f) && i < cfg.GridOf(f).CellCount()
    requires Changed(CellsFor(cfg, Erase(d), f)[i], LookAt(cfg, hash, Erase(d), f, i))
    requires !SentAt(cfg, hash, Erase(d), f, i)
    ensures !Kept(cfg, ShowFrame(cfg, hash, d, f).cells[i])
  {
    var c, l := CellsFor(cfg, Erase(d), f)[i], LookAt(cfg, hash, Erase(d), f, i);
    if d.cells != [] { assert CellInv(hash, d.cells[i], d.n); }
    if NoThrottle(cfg) { UnthrottledChangeIsSent(cfg, c, l); }
  }

  /** One frame of the stream: afterwards the client shows the new frame on the sampled
      rows of every cell it is owed nothing for, and on the whole of every cell reported
      changed. */
  lemma FrameRefines(cfg: Config, hash: Hash, d: Detector, f: Frame, f': Frame, screen: Screen,
                     ranges: seq<CellRange>, images: seq<Image>)
    requires DetectorInv(hash, d) && Faithful(cfg, hash, d, f', ranges, images)
    requires d.cells != [] ==> Mirrors(cfg, hash, d, f, screen) && Continues(cfg, hash, d, f, f')
    ensures Mirrors(cfg, hash, ShowFrame(cfg, hash, d, f'), f', DrawAll(screen, images))
    ensures ShowsAllSent(cfg, hash, Erase(d), f', DrawAll(screen, images))
  {
    var d' := ShowFrame(cfg, hash, d, f');
    ApplyKeepsInv(cfg, hash, d, Show(f'));
    forall i: nat | i < |d'.cells| && d'.cells[i].base.Some?
      ensures BaseCurrent(cfg, f', i, d'.cells[i].base.value)
    {
      FrameKeepsBase(cfg, hash, d, f, f', i);
    }
    forall px: nat, py: nat | px < f'.width && py < f'.height
      ensures ShowsSent(cfg, hash, Erase(d), f', DrawAll(screen, images), px, py)
      ensures ShowsKept(cfg, d', f', DrawAll(screen, images), px, py)
    {
      PixelRefines(cfg, hash, d, f, f', screen, ranges, images, px, py);
    }
  }

  lemma SentIsDrawn(cfg: Config, hash: Hash, d: Detector, f: Frame, screen: Screen,
                    ranges: seq<CellRange>, images: seq<Image>, px: nat, py: nat)
    requires Faithful(cfg, hash, d, f, ranges, images) && px < f.width && py < f.height
    requires cfg.GridOf(f).CellOf(px, py) < cfg.GridOf(f).CellCount()
    ensures SentAt(cfg, hash, Erase(d), f, cfg.GridOf(f).CellOf(px, py)) ==> DrawAll(screen, images)(px, py) == f.Pixel(px, py)
    ensures DrawAll(screen, images)(px, py) in {f.Pixel(px, py), screen(px, py)}
  {
    var g := cfg.GridOf(f);
    InRows(g, CellRange(0, 0, 0, 0), py);
    IndexJoin(g, g.ColumnOf(px), g.RowOf(py));
    DrawnPixel(g, f, ranges, images, screen, px, py);
    if SentAt(cfg, hash, Erase(d), f, g.CellOf(px, py)) {
      assert CellKey(g, g.CellOf(px, py)) in SentCells(cfg, hash, Erase(d), f);
    }
  }

  lemma PixelRefines(cfg: Config, hash: Hash, d: Detector, f: Frame, f': Frame, screen: Screen,
                     ranges: seq<CellRange>, images: seq<Image>, px: nat, py: nat)
    requires DetectorInv(hash, d) && Faithful(cfg, hash, d, f', ranges, images)
    requires d.cells != [] ==> Mirrors(cfg, hash, d, f, screen) && Continues(cfg, hash, d, f, f')
    requires px < f'.width && py < f'.height
    ensures ShowsSent(cfg, hash, Erase(d), f', DrawAll(screen, images), px, py)
    ensures ShowsKept(cfg, ShowFrame(cfg, hash, d, f'), f', DrawAll(screen, images), px, py)
  {
    var g := cfg.GridOf(f');
    CellsPartitionFrame(g, px, py);
    var i := g.CellOf(px, py);
    SentIsDrawn(cfg, hash, d, f', screen, ranges, images, px, py);
    if Changed(CellsFor(cfg, Erase(d), f')[i], LookAt(cfg, hash, Erase(d), f', i)) {
      if !SentAt(cfg, hash, Erase(d), f', i) { HeldIsOwed(cfg, hash, d, f', i); }
    } else if InSampledRow(g, px, py) && Kept(cfg, ShowFrame(cfg, hash, d, f').cells[i]) {
      UnchangedPixel(cfg, hash, d, f, f', screen, px, py);
    }
  }

  /** A sampled pixel of a cell not found changed is the same in both frames, and already
      on screen if the client was owed nothing. */
  lemma UnchangedPixel(cfg: Config, hash: Hash, d: Detector, f: Frame, f': Frame, screen: Screen, px: nat, py: nat)
    requires DetectorInv(hash, d) && Fits(cfg, Erase(d), f') && AllHashable(cfg, hash, f')
    requires d.cells != [] ==> Mirrors(cfg, hash, d, f, screen) && Continues(cfg, hash, d, f, f')
    requires px < f'.width && py < f'.height && cfg.GridOf(f').CellOf(px, py) < cfg.GridOf(f').CellCount()
    requires InSampledRow(cfg.GridOf(f'), px, py)
    requires Undetected(cfg, hash, d, f', cfg.GridOf(f').CellOf(px, py))
    requires Kept(cfg, ShowFrame(cfg, hash, d, f').cells[cfg.GridOf(f').CellOf(px, py)])
    ensures screen(px, py) == f'.Pixel(px, py)
  {
    var g := cfg.GridOf(f');
    var i := g.CellOf(px, py);
    if d.cells == [] || d.cells[i].base.None? { UnbasedIsChanged(cfg, hash, d, f', i); }
    UnchangedKeepsSample(cfg, hash, d, f, f', i);
    CellInFrame(cfg, f', i);
    SampledBytesArePixels(f, f', g.CellRect(i));
    assert SamePixel(f, f', px, py);
    assert ShowsKept(cfg, d, f, screen, px, py);
  }

  // ---------- whole streams ----------

  /** A frame with the tiles sent for it, possibly right after a quality refresh, or cells
      reported lost. */
  datatype Step =
    | Framed(refresh: bool, frame: Frame, ranges: seq<CellRange>, images: seq<Image>)
    | Lossy(indices: seq<nat>)

  datatype Stream = Stream(d: Detector, frame: Option<Frame>, screen: Screen)

  /** The detector a frame meets: reset when the size changed, else perhaps refreshed. */
  function Meets(cfg: Config, hash: Hash, st: Stream, step: Step): Detector
    requires step.Framed?
  {
    if st.frame.Some? && SameSize(st.frame.value, step.frame) then
      if step.refresh then Apply(cfg, hash, st.d, Refresh) else st.d
    else Detector([], 0)
  }

  ghost predicate Plays(cfg: Config, hash: Hash, st: Stream, step: Step) {
    step.Framed? ==>
      && Faithful(cfg, hash, Meets(cfg, hash, st, step), step.frame, step.ranges, step.images)
      && (st.frame.Some? && SameSize(st.frame.value, step.frame) ==>
            Continues(cfg, hash, Meets(cfg, hash, st, step), st.frame.value, step.frame))
  }

  ghost function PlayStep(cfg: Config, hash: Hash, st: Stream, step: Step): Stream
    requires Plays(cfg, hash, st, step)
  {
    match step
    case Framed(refresh, f, ranges, images) =>
      Stream(ShowFrame(cfg, hash, Meets(cfg, hash, st, step), f), Some(f), DrawAll(st.screen, images))
    case Lossy(indices) => st.(d := Apply(cfg, hash, st.d, Lose(indices)))
  }

  /** The stream after some steps, if each frame is shown faithfully. */
  ghost function Play(cfg: Config, hash: Hash, screen: Screen, steps: seq<Step>): Option<Stream> {
    if steps == [] then Some(Stream(Detector([], 0), None, screen)) else
      var before := Play(cfg, hash, screen, steps[..|steps| - 1]);
      var step := steps[|steps| - 1];
      if before.Some? && Plays(cfg, hash, before.value, step) then Some(PlayStep(cfg, hash, before.value, step)) else None
  }

  ghost predicate InStep(cfg: Config, hash: Hash, st: Stream) {
    && DetectorInv(hash, st.d)
    && (st.frame.None? ==> st.d.cells == []) && (st.frame.Some? ==> Mirrors(cfg, hash, st.d, st.frame.value, st.screen))
  }

  /** What only makes baselines and debts forgotten keeps the screen in step. */
  lemma ForgettingKeepsMirror(cfg: Config, hash: Hash, d: Detector, d': Detector, f: Frame, screen: Screen)
    requires Mirrors(cfg, hash, d, f, screen) && DetectorInv(hash, d') && |d'.cells| == |d.cells|
    requires forall i: nat :: i < |d'.cells| && d'.cells[i].base.Some? ==> d'.cells[i].base == d.cells[i].base
    requires forall i: nat :: i < |d'.cells| && Kept(cfg, d'.cells[i]) ==> Kept(cfg, d.cells[i])
    ensures Mirrors(cfg, hash, d', f, screen)
  {
    forall px: nat, py: nat | px < f.width && py < f.height
      ensures ShowsKept(cfg, d', f, screen, px, py)
    {
      CellsPartitionFrame(cfg.GridOf(f), px, py);
      assert ShowsKept(cfg, d, f, screen, px, py);
    }
  }

  lemma RefreshKeepsMirror(cfg: Config, hash: Hash, d: Detector, f: Frame, screen: Screen)
    requires Mirrors(cfg, hash, d, f, screen)
    ensures Mirrors(cfg, hash, Apply(cfg, hash, d, Refresh), f, screen)
  {
    ApplyKeepsInv(cfg, hash, d, Refresh);
    ForgettingKeepsMirror(cfg, hash, d, Apply(cfg, hash, d, Refresh), f, screen);
  }

  lemma LossKeepsMirror(cfg: Config, hash: Hash, d: Detector, f: Frame, screen: Screen, indices: seq<nat>)
    requires Mirrors(cfg, hash, d, f, screen)
    ensures Mirrors(cfg, hash, Apply(cfg, hash, d, Lose(indices)), f, screen)
  {
    ApplyKeepsInv(cfg, hash, d, Lose(indices));
    ForgettingKeepsMirror(cfg, hash, d, Apply(cfg, hash, d, Lose(indices)), f, screen);
  }

  lemma MeetsMirrors(cfg: Config, hash: Hash, st: Stream, step: Step)
    requires InStep(cfg, hash, st) && step.Framed?
    ensures var d := Meets(cfg, hash, st, step);
            && DetectorInv(hash, d)
            && (d.cells != [] ==> st.frame.Some? && SameSize(st.frame.value, step.frame)
                                  && Mirrors(cfg, hash, d, st.frame.value, st.screen))
  {
    if st.frame.Some? && step.refresh { RefreshKeepsMirror(cfg, hash, st.d, st.frame.value, st.screen); }
  }

  lemma StepMirrors(cfg: Config, hash: Hash, st: Stream, step: Step)
    requires InStep(cfg, hash, st) && Plays(cfg, hash, st, step)
    ensures InStep(cfg, hash, PlayStep(cfg, hash, st, step))
    ensures step.Framed? ==> ShowsAllSent(cfg, hash, Erase(Meets(cfg, hash, st, step)), step.frame,
                                          PlayStep(cfg, hash, st, step).screen)
  {
    match step
    case Framed(refresh, f', ranges, images) =>
      MeetsMirrors(cfg, hash, st, step);
      var f := if st.frame.Some? then st.frame.value else f';
      FrameRefines(cfg, hash, Meets(cfg, hash, st, step), f, f', st.screen, ranges, images);
    case Lossy(indices) =>
      ApplyKeepsInv(cfg, hash, st.d, Lose(indices));
      if st.frame.Some? { LossKeepsMirror(cfg, hash, st.d, st.frame.value, st.screen, indices); }
  }

  /** Over every stream of frames, refreshes, losses and resizes, throttled or not, from
      any initial screen: the client always shows the last frame on the sampled rows of
      every cell it is owed nothing for, and right after a frame on the whole of every
      cell reported changed. */
  lemma {:induction false} StreamMirrors(cfg: Config, hash: Hash, screen: Screen, steps: seq<Step>)
    requires Play(cfg, hash, screen, steps).Some?
    ensures var st := Play(cfg, hash, screen, steps).value;
            && InStep(cfg, hash, st)
            && (steps != [] && steps[|steps| - 1].Framed? ==>
                  var before, step := Play(cfg, hash, screen, steps[..|steps| - 1]), steps[|steps| - 1];
                  && st.frame == Some(step.frame) && before.Some?
                  && ShowsAllSent(cfg, hash, Erase(Meets(cfg, hash, before.value, step)), step.frame, st.screen))
  {
    if steps != [] {
      var before, step := steps[..|steps| - 1], steps[|steps| - 1];
      StreamMirrors(cfg, hash, screen, before);
      StepMirrors(cfg, hash, Play(cfg, hash, screen, before).value, step);
    }
  }

  /** Without throttling the client always shows the last frame on every sampled row. */
  lemma UnthrottledStreamMirrors(cfg: Config, hash: Hash, screen: Screen, steps: seq<Step>)
    requires cfg.Valid() && NoThrottle(cfg) && Play(cfg, hash, screen, steps).Some?
    ensures var st := Play(cfg, hash, screen, steps).value;
            st.frame.Some? ==> ShowsAllSampled(cfg, st.frame.value, st.screen)
  {
    StreamMirrors(cfg, hash, screen, steps);
    var st := Play(cfg, hash, screen, steps).value;
    if st.frame.Some? { KeptShowsAll(cfg, hash, st.d, st.frame.value, st.screen); }
  }

  lemma KeptShowsAll(cfg: Config, hash: Hash, d: Detector, f: Frame, screen: Screen)
    requires Mirrors(cfg, hash, d, f, screen) && NoThrottle(cfg)
    ensures ShowsAllSampled(cfg, f, screen)
  {
    forall px: nat, py: nat | px < f.width && py < f.height
      ensures ShowsSampled(cfg, f, screen, px, py)
    {
      CellsPartitionFrame(cfg.GridOf(f), px, py);
      assert ShowsKept(cfg, d, f, screen, px, py);
    }
  }

  // ---------- convergence on screen ----------

  /** No frame of the stream throttles an armed cell. */
  ghost predicate PromptStream(cfg: Config, hash: Hash, screen: Screen, steps: seq<Step>)
    requires cfg.Valid()
  {
    if steps == [] then true else
      var before, step := Play(cfg, hash, screen, steps[..|steps| - 1]), steps[|steps| - 1];
      && PromptStream(cfg, hash, screen, steps[..|steps| - 1])
      && (step.Framed? && before.Some? ==> NoneThrottled(cfg, Meets(cfg, hash, before.value, step)))
  }

  lemma {:induction false} PromptStreamIsResent(cfg: Config, hash: Hash, screen: Screen, steps: seq<Step>)
    requires cfg.Valid() && Play(cfg, hash, screen, steps).Some? && PromptStream(cfg, hash, screen, steps)
    ensures AllResent(Play(cfg, hash, screen, steps).value.d)
  {
    if steps != [] {
      var before, step := steps[..|steps| - 1], steps[|steps| - 1];
      var st := Play(cfg, hash, screen, before).value;
      PromptStreamIsResent(cfg, hash, screen, before);
      StreamMirrors(cfg, hash, screen, before);
      match step
      case Framed(refresh, f, ranges, images) =>
        MeetsMirrors(cfg, hash, st, step);
        MeetsResent(cfg, hash, st, step);
        ApplyKeepsInv(cfg, hash, Meets(cfg, hash, st, step), Show(f));
      case Lossy(indices) => ApplyKeepsInv(cfg, hash, st.d, Lose(indices));
    }
  }

  lemma MeetsResent(cfg: Config, hash: Hash, st: Stream, step: Step)
    requires DetectorInv(hash, st.d) && AllResent(st.d) && step.Framed?
    ensures AllResent(Meets(cfg, hash, st, step))
  {
    ApplyKeepsInv(cfg, hash, st.d, Refresh);
  }

  /** With a static interval of at most two frames every stream is prompt. */
  lemma {:induction false} ShortIntervalIsPromptStream(cfg: Config, hash: Hash, screen: Screen, steps: seq<Step>)
    requires cfg.Valid() && cfg.StaticInterval() <= 2
    ensures PromptStream(cfg, hash, screen, steps)
  {
    if steps != [] {
      var before, step := steps[..|steps| - 1], steps[|steps| - 1];
      ShortIntervalIsPromptStream(cfg, hash, screen, before);
      if Play(cfg, hash, screen, before).Some? && step.Framed? {
        StreamMirrors(cfg, hash, screen, before);
        MeetsMirrors(cfg, hash, Play(cfg, hash, screen, before).value, step);
      }
    }
  }

  /** After a refresh every cell that the next frame does not send is owed nothing. */
  lemma RefreshedIsSentOrKept(cfg: Config, hash: Hash, d: Detector, f: Frame, i: nat)
    requires DetectorInv(hash, d) && AllResent(d) && Fits(cfg, Erase(d), f) && AllHashable(cfg, hash, f)
    requires d.cells != [] ==> d == Apply(cfg, hash, d, Refresh) && NoneThrottled(cfg, d)
    requires i < cfg.GridOf(f).CellCount() && !SentAt(cfg, hash, Erase(d), f, i)
    ensures Kept(cfg, ShowFrame(cfg, hash, d, f).cells[i])
  {
    assert Hashable(hash, ContentAt(cfg, f, i));
    if d.cells != [] {
      assert CellInv(hash, d.cells[i], d.n) && Resent(d.cells[i]);
      assert d.cells[i] == RefreshedTracked(d.cells[i]);
    }
  }

  lemma RefreshedMeeting(cfg: Config, hash: Hash, st: Stream, step: Step)
    requires InStep(cfg, hash, st) && step.Framed? && step.refresh
    ensures var d := Meets(cfg, hash, st, step); d.cells != [] ==> d == Apply(cfg, hash, d, Refresh)
  {
    var d := Meets(cfg, hash, st, step);
    if d.cells != [] {
      forall i | 0 <= i < |d.cells|
        ensures RefreshedTracked(d.cells[i]) == d.cells[i]
      {
        assert d.cells[i] == RefreshedTracked(st.d.cells[i]);
      }
      assert Apply(cfg, hash, d, Refresh).cells == d.cells;
    }
  }

  /** Convergence on screen: over every stream, throttled or not, in which no frame
      throttles an armed cell, the client shows a frame that begins with a refresh on
      every sampled row of every cell, whatever was lost or held back before. */
  lemma RefreshMirrors(cfg: Config, hash: Hash, screen: Screen, steps: seq<Step>)
    requires cfg.Valid() && Play(cfg, hash, screen, steps).Some? && PromptStream(cfg, hash, screen, steps)
    requires steps != [] && steps[|steps| - 1].Framed? && steps[|steps| - 1].refresh
    ensures ShowsAllSampled(cfg, steps[|steps| - 1].frame, Play(cfg, hash, screen, steps).value.screen)
  {
    var before, step := steps[..|steps| - 1], steps[|steps| - 1];
    var st0, st := Play(cfg, hash, screen, before).value, Play(cfg, hash, screen, steps).value;
    var d, f := Meets(cfg, hash, st0, step), step.frame;
    StreamMirrors(cfg, hash, screen, before);
    StreamMirrors(cfg, hash, screen, steps);
    PromptStreamIsResent(cfg, hash, screen, before);
    MeetsMirrors(cfg, hash, st0, step);
    MeetsResent(cfg, hash, st0, step);
    RefreshedMeeting(cfg, hash, st0, step);
    forall px: nat, py: nat | px < f.width && py < f.height
      ensures ShowsSampled(cfg, f, st.screen, px, py)
    {
      var g := cfg.GridOf(f);
      CellsPartitionFrame(g, px, py);
      assert ShowsSent(cfg, hash, Erase(d), f, st.screen, px, py);
      if !SentAt(cfg, hash, Erase(d), f, g.CellOf(px, py)) {
        RefreshedIsSentOrKept(cfg, hash, d, f, g.CellOf(px, py));
        assert ShowsKept(cfg, st.d, f, st.screen, px, py);
      }
    }
  }

  // ---------- a refresh that shows nothing ----------

  lemma PlayNext(cfg: Config, hash: Hash, screen: Screen, steps: seq<Step>, step: Step)
    requires Play(cfg, hash, screen, steps).Some? && Plays(cfg, hash, Play(cfg, hash, screen, steps).value, step)
    ensures Play(cfg, hash, screen, steps + [step]) == Some(PlayStep(cfg, hash, Play(cfg, hash, screen, steps).value, step))
  {
    assert (steps + [step])[..|steps|] == steps;
  }

  const DOT_RANGE := CellRange(0, 0, 0, 0)

  lemma DotPixel(p: Pixel)
    ensures Dot(p).Pixel(0, 0) == p && Dot(p).Inside(Rect(0, 0, 1, 1)) && Dot(p).TileBytes(Rect(0, 0, 1, 1)) == p
  {
    var f := Dot(p);
    assert f.Row(0, 0, 1) == p;
    assert f.Rows(0, 1, 0, 1, 1) == p + f.Rows(0, 1, 1, 1, 1) == p;
  }

  /** The step that draws the first pixel. */
  function DrawDot(p: Pixel): Step { Framed(false, Dot(p), [DOT_RANGE], [Image(Rect(0, 0, 1, 1), p)]) }

  /** A step for a pixel that is not sent. */
  function HoldDot(refresh: bool, p: Pixel): Step { Framed(refresh, Dot(p), [], []) }

  lemma OneCutout(g: Grid, f: Frame, r: CellRange, rect: Rect)
    requires g.Valid() && f.WellFormed() && f.width == g.frameWidth && f.height == g.frameHeight
    requires r.Within(g) && rect == g.RangeRect(r) && f.Inside(rect)
    ensures Cutouts(g, f, [r], [Image(rect, f.TileBytes(rect))])
  {}

  lemma DotOnScreen(screen: Screen, p: Pixel)
    ensures DrawAll(screen, [Image(Rect(0, 0, 1, 1), p)])(0, 0) == p
  {
    var image := Image(Rect(0, 0, 1, 1), p);
    assert image.PixelAt(0, 0) == p[0..4] == p;
    assert DrawAll(screen, [image]) == Draw(DrawAll(screen, []), image);
  }

  lemma DotFaithful(cfg: Config, hash: Hash, p: Pixel)
    requires cfg.Valid() && hash(p) != 0
    ensures Faithful(cfg, hash, Detector([], 0), Dot(p), [DOT_RANGE], [Image(Rect(0, 0, 1, 1), p)])
  {
    DotShown(cfg, hash, Detector([], 0), p);
    DotCutout(cfg, p);
    DotContent(cfg, p);
    OnlyCellCovered(cfg, hash, INITIAL_STATE, Dot(p), cfg.GridOf(Dot(p)));
    assert Erase(Detector([], 0)) == INITIAL_STATE;
  }

  lemma DotCutout(cfg: Config, p: Pixel)
    ensures Cutouts(cfg.GridOf(Dot(p)), Dot(p), [DOT_RANGE], [Image(Rect(0, 0, 1, 1), p)])
  {
    DotPixel(p);
    DotContent(cfg, p);
    assert DOT_GRID.RangeRect(DOT_RANGE) == Rect(0, 0, 1, 1);
    OneCutout(cfg.GridOf(Dot(p)), Dot(p), DOT_RANGE, Rect(0, 0, 1, 1));
  }

  lemma OnlyCellCovered(cfg: Config, hash: Hash, s: State, f: Frame, g: Grid)
    requires Fits(cfg, s, f) && g == cfg.GridOf(f) && g.CellCount() == 1
    ensures forall c <- SentCells(cfg, hash, s, f) :: Merging.Covers([DOT_RANGE], c.0, c.1)
  {
    assert [DOT_RANGE][0].Has(0, 0);
    forall c | c in SentCells(cfg, hash, s, f)
      ensures c == (0, 0)
    {
      IndexSplit(g, 0);
    }
  }

  lemma DotDrawn(cfg: Config, hash: Hash, st: Stream, p: Pixel)
    requires cfg.Valid() && hash(p) != 0 && st.frame.None?
    ensures Plays(cfg, hash, st, DrawDot(p))
    ensures var st' := PlayStep(cfg, hash, st, DrawDot(p));
            && st'.d == Detector([Shown(cfg, hash, Tracked(FRESH_CELL, None, None), true, false, 1, Content(p, p))], 1)
            && st'.frame == Some(Dot(p)) && st'.screen(0, 0) == p
  {
    DotFaithful(cfg, hash, p);
    DotShown(cfg, hash, Detector([], 0), p);
    DotOnScreen(st.screen, p);
  }

  lemma DotHeld(cfg: Config, hash: Hash, st: Stream, before: Pixel, step: Step, p: Pixel)
    requires cfg.Valid() && hash(p) != 0 && st.frame == Some(Dot(before)) && step.Framed? && step == HoldDot(step.refresh, p)
    requires var d := Meets(cfg, hash, st, step);
             && |d.cells| == 1 && (d.cells[0].base.None? || d.cells[0].base == Some(Content(p, p)))
             && !Sent(cfg, d.cells[0].cell, LookOf(hash, false, false, d.n + 1, Content(p, p)))
    ensures Plays(cfg, hash, st, step)
    ensures PlayStep(cfg, hash, st, step).screen == st.screen && PlayStep(cfg, hash, st, step).frame == Some(Dot(p))
    ensures var d := Meets(cfg, hash, st, step);
            PlayStep(cfg, hash, st, step).d
            == Detector([Shown(cfg, hash, d.cells[0], false, false, d.n + 1, Content(p, p))], d.n + 1)
  {
    var d := Meets(cfg, hash, st, step);
    DotShown(cfg, hash, d, p);
    DotContent(cfg, p);
    DotContent(cfg, before);
    assert LookAt(cfg, hash, Erase(d), Dot(p), 0) == LookOf(hash, false, false, d.n + 1, Content(p, p));
    assert SentCells(cfg, hash, Erase(d), Dot(p)) == {};
  }

  function StaleSteps(a: Pixel, b: Pixel): seq<Step> {
    [DrawDot(a), Lossy([0]), HoldDot(false, b), HoldDot(true, b)]
  }

  lemma StaleOnScreen(cfg: Config, hash: Hash, screen: Screen, a: Pixel, b: Pixel)
    requires cfg.Valid() && cfg.StaticInterval() >= 3 && hash(a) != 0 && hash(b) != 0
    ensures Play(cfg, hash, screen, StaleSteps(a, b)).Some?
    ensures Play(cfg, hash, screen, StaleSteps(a, b)).value.screen(0, 0) == a
  {
    var s0: seq<Step> := [];
    var st0 := Stream(Detector([], 0), None, screen);
    DotDrawn(cfg, hash, st0, a);
    var st1 := PlayStep(cfg, hash, st0, DrawDot(a));
    PlayNext(cfg, hash, screen, s0, DrawDot(a));
    assert s0 + [DrawDot(a)] == [DrawDot(a)];
    var st2 := PlayStep(cfg, hash, st1, Lossy([0]));
    PlayNext(cfg, hash, screen, [DrawDot(a)], Lossy([0]));
    StaleHeld(cfg, hash, screen, a, b, st1, st2);
  }

  lemma StaleHeld(cfg: Config, hash: Hash, screen: Screen, a: Pixel, b: Pixel, st1: Stream, st2: Stream)
    requires cfg.Valid() && cfg.StaticInterval() >= 3 && hash(a) != 0 && hash(b) != 0
    requires st1.d == Detector([Shown(cfg, hash, Tracked(FRESH_CELL, None, None), true, false, 1, Content(a, a))], 1)
    requires st1.frame == Some(Dot(a)) && st1.screen(0, 0) == a && st2 == PlayStep(cfg, hash, st1, Lossy([0]))
    requires Play(cfg, hash, screen, [DrawDot(a)] + [Lossy([0])]) == Some(st2)
    ensures Play(cfg, hash, screen, StaleSteps(a, b)).Some?
    ensures Play(cfg, hash, screen, StaleSteps(a, b)).value.screen(0, 0) == a
  {
    FirstHeld(cfg, hash, a, b, st1, st2);
    var st3 := PlayStep(cfg, hash, st2, HoldDot(false, b));
    PlayNext(cfg, hash, screen, [DrawDot(a)] + [Lossy([0])], HoldDot(false, b));
    SecondHeld(cfg, hash, b, st3);
    PlayNext(cfg, hash, screen, [DrawDot(a)] + [Lossy([0])] + [HoldDot(false, b)], HoldDot(true, b));
    assert [DrawDot(a)] + [Lossy([0])] + [HoldDot(false, b)] + [HoldDot(true, b)] == StaleSteps(a, b);
  }

  const DOT_THROTTLED_META := TileMetadata(0, false, false, 0, None, 0)

  /** After the loss the resend is throttled: nothing is drawn. */
  lemma FirstHeld(cfg: Config, hash: Hash, a: Pixel, b: Pixel, st1: Stream, st2: Stream)
    requires cfg.Valid() && cfg.StaticInterval() >= 3 && hash(a) != 0 && hash(b) != 0
    requires st1.d == Detector([Shown(cfg, hash, Tracked(FRESH_CELL, None, None), true, false, 1, Content(a, a))], 1)
    requires st1.frame == Some(Dot(a)) && st2 == PlayStep(cfg, hash, st1, Lossy([0]))
    ensures Plays(cfg, hash, st2, HoldDot(false, b))
    ensures var st3 := PlayStep(cfg, hash, st2, HoldDot(false, b));
            && st3.screen == st1.screen && st3.frame == Some(Dot(b)) && |st3.d.cells| == 1 && st3.d.n == 2
            && st3.d.cells[0].base == Some(Content(b, b))
            && st3.d.cells[0].cell == Cell(hash(b), 0, DOT_THROTTLED_META.(prevHalfHash := hash(b)), false)
  {
    DotHeld(cfg, hash, st2, a, HoldDot(false, b), b);
  }

  /** The refresh does not touch the cell, and the next frame sees no change. */
  lemma SecondHeld(cfg: Config, hash: Hash, b: Pixel, st3: Stream)
    requires cfg.Valid() && hash(b) != 0 && st3.frame == Some(Dot(b)) && |st3.d.cells| == 1
    requires st3.d.cells[0].base == Some(Content(b, b))
    requires st3.d.cells[0].cell == Cell(hash(b), 0, DOT_THROTTLED_META.(prevHalfHash := hash(b)), false)
    ensures Plays(cfg, hash, st3, HoldDot(true, b)) && PlayStep(cfg, hash, st3, HoldDot(true, b)).screen == st3.screen
  {
    DotHeld(cfg, hash, st3, b, HoldDot(true, b), b);
  }

  predicate EndsWithRefresh(steps: seq<Step>) {
    steps != [] && steps[|steps| - 1].Framed? && steps[|steps| - 1].refresh
  }

  ghost predicate RefreshAlwaysMirrors(cfg: Config, hash: Hash) {
    forall screen: Screen, steps: seq<Step> :: Play(cfg, hash, screen, steps).Some? && EndsWithRefresh(steps) ==>
      ShowsAllSampled(cfg, steps[|steps| - 1].frame, Play(cfg, hash, screen, steps).value.screen)
  }

  /** The exact condition: over all streams a frame that begins with a refresh leaves the
      client showing it on every sampled row exactly when the static interval is at most
      two frames, for any hash with two pixels that do not hash to the reset value. */
  lemma RefreshMirrorsIff(cfg: Config, hash: Hash, a: Pixel, b: Pixel)
    requires cfg.Valid() && a != b && hash(a) != 0 && hash(b) != 0
    ensures RefreshAlwaysMirrors(cfg, hash) <==> cfg.StaticInterval() <= 2
  {
    if cfg.StaticInterval() <= 2 {
      forall screen: Screen, steps: seq<Step> | Play(cfg, hash, screen, steps).Some? && EndsWithRefresh(steps)
        ensures ShowsAllSampled(cfg, steps[|steps| - 1].frame, Play(cfg, hash, screen, steps).value.screen)
      {
        ShortIntervalIsPromptStream(cfg, hash, screen, steps);
        RefreshMirrors(cfg, hash, screen, steps);
      }
    } else {
      StaleIsShown(cfg, hash, (px, py) => [], a, b);
    }
  }

  lemma StaleIsShown(cfg: Config, hash: Hash, screen: Screen, a: Pixel, b: Pixel)
    requires cfg.Valid() && cfg.StaticInterval() >= 3 && a != b && hash(a) != 0 && hash(b) != 0
    ensures !RefreshAlwaysMirrors(cfg, hash)
  {
    StaleOnScreen(cfg, hash, screen, a, b);
    var steps := StaleSteps(a, b);
    assert EndsWithRefresh(steps) && steps[|steps| - 1].frame == Dot(b);
    NotShown(cfg, Play(cfg, hash, screen, steps).value.screen, b);
  }

  lemma NotShown(cfg: Config, screen: Screen, b: Pixel)
    requires screen(0, 0) != b
    ensures !ShowsAllSampled(cfg, Dot(b), screen)
  {
    DotPixel(b);
    DotCorner(cfg.GridOf(Dot(b)));
    MissesSampled(cfg, Dot(b), cfg.GridOf(Dot(b)), screen, 0, 0);
  }

  /** The first pixel of a frame is sampled. */
  lemma DotCorner(g: Grid)
    requires g.Valid()
    ensures g.CellOf(0, 0) < g.CellCount() && InSampledRow(g, 0, 0)
  {
    CellsPartitionFrame(g, 0, 0);
    assert g.CellRect(g.CellOf(0, 0)).Contains(0, 0);
  }

  lemma MissesSampled(cfg: Config, f: Frame, g: Grid, screen: Screen, px: nat, py: nat)
    requires f.WellFormed() && px < f.width && py < f.height && g == cfg.GridOf(f)
    requires g.CellOf(px, py) < g.CellCount() && InSampledRow(g, px, py) && screen(px, py) != f.Pixel(px, py)
    ensures !ShowsAllSampled(cfg, f, screen)
  {
    assert !ShowsSampled(cfg, f, screen, px, py);
  }
}
