/** What the detector's baselines say about the frames: in every run, whatever is
    throttled, a change that goes undetected lies in rows the half hash does not look at,
    and under the real hash a change of one pixel of a sampled row never does. */
module Baselines {
  import opened Common
  import Grids
  import opened Frames
  import opened Detection
  import opened DetectionRuns
  import Hashing

  /** The two contents do not collide, as whole tiles or as sampled rows. */
  predicate NoCollision(hash: Hash, a: Content, b: Content) {
    (hash(a.rows) == hash(b.rows) ==> a.rows == b.rows) && (hash(a.sampled) == hash(b.sampled) ==> a.sampled == b.sampled)
  }

  /** The damage regions, if any, lie in the frame and contain every pixel that moved. */
  ghost predicate Accurate(cfg: Config, f: Frame, f': Frame)
    requires f.WellFormed() && f'.WellFormed() && SameSize(f, f')
  {
    f'.damage != [] ==>
      && Addressable(cfg.GridOf(f'))
      && (forall k :: 0 <= k < |f'.damage| ==> InFrame(cfg.GridOf(f'), f'.damage[k]))
      && (forall px: nat, py: nat :: px < f.width && py < f.height && !SamePixel(f, f', px, py) ==>
            exists k :: 0 <= k < |f'.damage| && f'.damage[k].Area().Contains(px, py))
  }

  /** The baseline of cell `i` was taken from some frame of this size and has the
      sampled rows of the current one. */
  ghost predicate BaseCurrent(cfg: Config, f: Frame, i: nat, base: Content)
    requires f.WellFormed() && i < cfg.GridOf(f).CellCount()
  {
    && base.sampled == ContentAt(cfg, f, i).sampled
    && (exists from: Frame :: from.WellFormed() && SameSize(from, f) && ContentAt(cfg, from, i) == base)
  }

  /** A cell that no region meets shows the same pixels in both frames. */
  lemma OutsideDamageUnchanged(cfg: Config, f: Frame, f': Frame, i: nat)
    requires f.WellFormed() && f'.WellFormed() && SameSize(f, f') && Accurate(cfg, f, f')
    requires i < cfg.GridOf(f).CellCount() && f'.damage != [] && !Marked(cfg.GridOf(f'), f'.damage, i)
    ensures ContentAt(cfg, f', i) == ContentAt(cfg, f, i)
  {
    var g := cfg.GridOf(f);
    var r := g.CellRect(i);
    CellInFrame(cfg, f, i);
    forall px: nat, py: nat | r.Contains(px, py)
      ensures SamePixel(f, f', px, py)
    {
      if !SamePixel(f, f', px, py) {
        var k :| 0 <= k < |f'.damage| && f'.damage[k].Area().Contains(px, py);
        assert r.Intersects(f'.damage[k].Area());
        MarkingIsExact(g, f'.damage[k], i);
      }
    }
    TileBytesArePixels(f, f', r);
    SameTileSameSample(f, f', r);
  }

  /** A cell that is not found changed has the sampled rows of its baseline. */
  lemma UnchangedKeepsSample(cfg: Config, hash: Hash, d: Detector, f: Frame, f': Frame, i: nat)
    requires f.WellFormed() && f'.WellFormed() && SameSize(f, f') && Accurate(cfg, f, f')
    requires Fits(cfg, Erase(d), f') && d.cells != [] && DetectorInv(hash, d) && i < |d.cells|
    requires d.cells[i].base.Some? && BaseCurrent(cfg, f, i, d.cells[i].base.value)
    requires NoCollision(hash, d.cells[i].base.value, ContentAt(cfg, f', i))
    requires !Changed(d.cells[i].cell, LookAt(cfg, hash, Erase(d), f', i))
    ensures ContentAt(cfg, f', i).sampled == d.cells[i].base.value.sampled
  {
    var l := LookAt(cfg, hash, Erase(d), f', i);
    var base, c := d.cells[i].base.value, ContentAt(cfg, f', i);
    assert CellInv(hash, d.cells[i], d.n);
    if Skipped(d.cells[i].cell, l) {
      OutsideDamageUnchanged(cfg, f, f', i);
    } else if l.half != d.cells[i].cell.meta.prevHalfHash {
      var from: Frame :| from.WellFormed() && SameSize(from, f) && ContentAt(cfg, from, i) == base;
      CellInFrame(cfg, f, i);
      SameTileSameSample(from, f', cfg.GridOf(f).CellRect(i));
    }
  }

  // ---------- every run ----------

  /** The baselines are current for the frame. */
  ghost predicate BasesCurrent(cfg: Config, d: Detector, f: Frame) {
    && f.WellFormed() && |d.cells| == cfg.GridOf(f).CellCount()
    && (forall i: nat :: i < |d.cells| && d.cells[i].base.Some? ==> BaseCurrent(cfg, f, i, d.cells[i].base.value))
  }

  /** Frame `f'` follows `f`: same size, accurate damage, and contents that do not collide
      with the baselines they are compared to. */
  ghost predicate Continues(cfg: Config, hash: Hash, d: Detector, f: Frame, f': Frame) {
    && f.WellFormed() && f'.WellFormed() && SameSize(f, f') && Accurate(cfg, f, f')
    && (forall i: nat :: i < |d.cells| && i < cfg.GridOf(f').CellCount() && d.cells[i].base.Some? ==>
          NoCollision(hash, d.cells[i].base.value, ContentAt(cfg, f', i)))
  }

  /** A cell without a baseline is always found changed. */
  lemma UnbasedIsChanged(cfg: Config, hash: Hash, d: Detector, f': Frame, i: nat)
    requires DetectorInv(hash, d) && Fits(cfg, Erase(d), f') && AllHashable(cfg, hash, f')
    requires i < cfg.GridOf(f').CellCount() && TrackedFor(cfg, d, f')[i].base.None?
    ensures Changed(CellsFor(cfg, Erase(d), f')[i], LookAt(cfg, hash, Erase(d), f', i))
  {
    assert Hashable(hash, ContentAt(cfg, f', i));
    if d.cells != [] { assert CellInv(hash, d.cells[i], d.n); }
  }

  /** After a frame every cell has a baseline, and it is current. */
  lemma FrameKeepsBase(cfg: Config, hash: Hash, d: Detector, f: Frame, f': Frame, i: nat)
    requires DetectorInv(hash, d) && Fits(cfg, Erase(d), f') && AllHashable(cfg, hash, f')
    requires d.cells != [] ==> BasesCurrent(cfg, d, f) && Continues(cfg, hash, d, f, f')
    requires i < cfg.GridOf(f').CellCount()
    ensures var base := ShowFrame(cfg, hash, d, f').cells[i].base; base.Some? && BaseCurrent(cfg, f', i, base.value)
  {
    var t' := ShowFrame(cfg, hash, d, f').cells[i];
    var c, l := CellsFor(cfg, Erase(d), f')[i], LookAt(cfg, hash, Erase(d), f', i);
    if Changed(c, l) {
      assert t'.base == Some(ContentAt(cfg, f', i));
    } else {
      if d.cells == [] || d.cells[i].base.None? { UnbasedIsChanged(cfg, hash, d, f', i); }
      UnchangedKeepsSample(cfg, hash, d, f, f', i);
    }
  }

  /** The frame a run showed last, unless the detector was reset since. */
  function LastFrame(events: seq<Event>): Option<Frame> {
    if events == [] then None else
      match events[|events| - 1]
      case Show(f) => Some(f)
      case Reset => None
      case _ => LastFrame(events[..|events| - 1])
  }

  /** A run in which every frame follows the one before. */
  ghost predicate Watched(cfg: Config, hash: Hash, events: seq<Event>) {
    && Exec(cfg, hash, events).Some?
    && (events != [] ==>
          var before, e := events[..|events| - 1], events[|events| - 1];
          && Watched(cfg, hash, before)
          && (e.Show? && LastFrame(before).Some? ==>
                Exec(cfg, hash, before).Some?
                && Continues(cfg, hash, Exec(cfg, hash, before).value, LastFrame(before).value, e.frame)))
  }

  /** Over every run, throttled or not, the baselines have the sampled rows of the last
      frame, and right after a frame every cell has one. */
  lemma {:induction false} BaselineFollowsFrames(cfg: Config, hash: Hash, events: seq<Event>)
    requires Watched(cfg, hash, events)
    ensures var d, last := Exec(cfg, hash, events).value, LastFrame(events);
            && (last.None? ==> d.cells == []) && (last.Some? ==> BasesCurrent(cfg, d, last.value))
            && (events != [] && events[|events| - 1].Show? ==> forall i :: 0 <= i < |d.cells| ==> d.cells[i].base.Some?)
  {
    if events != [] {
      var before, e := events[..|events| - 1], events[|events| - 1];
      var d := Exec(cfg, hash, before).value;
      BaselineFollowsFrames(cfg, hash, before);
      ReachableInv(cfg, hash, before);
      if e.Show? {
        var f := if LastFrame(before).Some? then LastFrame(before).value else e.frame;
        forall i: nat | i < cfg.GridOf(e.frame).CellCount()
          ensures var base := ShowFrame(cfg, hash, d, e.frame).cells[i].base;
                  base.Some? && BaseCurrent(cfg, e.frame, i, base.value)
        {
          FrameKeepsBase(cfg, hash, d, f, e.frame, i);
        }
      }
    }
  }

  /** The frame is not found to change the cell. */
  predicate Undetected(cfg: Config, hash: Hash, d: Detector, f: Frame, i: nat)
    requires Fits(cfg, Erase(d), f) && i < cfg.GridOf(f).CellCount()
  {
    !Changed(CellsFor(cfg, Erase(d), f)[i], LookAt(cfg, hash, Erase(d), f, i))
  }

  /** In every run, throttled or not, a cell that a frame is not found to change shows the
      same pixels as before on every row that is sampled. */
  lemma UndetectedIsUnsampled(cfg: Config, hash: Hash, events: seq<Event>, d: Detector, f: Frame, f': Frame, i: nat,
                              px: nat, py: nat)
    requires Exec(cfg, hash, events) == Some(d) && LastFrame(events) == Some(f)
    requires Fits(cfg, Erase(d), f') && AllHashable(cfg, hash, f')
    requires i < cfg.GridOf(f').CellCount() && Undetected(cfg, hash, d, f', i)
    requires px < f'.width && py < f'.height && SampledPixel(cfg.GridOf(f').CellRect(i), px, py)
    requires Watched(cfg, hash, events) && Continues(cfg, hash, d, f, f')
    ensures SamePixel(f, f', px, py)
  {
    BaselineFollowsFrames(cfg, hash, events);
    ReachableInv(cfg, hash, events);
    if d.cells == [] || d.cells[i].base.None? { UnbasedIsChanged(cfg, hash, d, f', i); }
    UnchangedKeepsSample(cfg, hash, d, f, f', i);
    CellInFrame(cfg, f', i);
    SampledBytesArePixels(f, f', cfg.GridOf(f').CellRect(i));
  }

  // ---------- the real hash ----------

  /** The vector hashes as the detector uses them: `lanes` is 4 for AVX2, 2 for SSE2. */
  function ByteHash(lanes: nat): Hash
    requires 0 < lanes <= 4
  {
    (data: seq<bv8>) => Hashing.WordValue(Hashing.HashBytes(lanes, data))
  }

  lemma SmallChangeIsSeen(lanes: nat, a: seq<bv8>, b: seq<bv8>, p: nat)
    requires 0 < lanes <= 4 && Hashing.DifferInWord(a, b, p)
    ensures ByteHash(lanes)(a) != ByteHash(lanes)(b)
  {
    Hashing.SmallChangeNeverCollides(lanes, a, b, p);
    Hashing.WordValueInjective(Hashing.HashBytes(lanes, a), Hashing.HashBytes(lanes, b));
  }

  /** Equal length, different, but the same outside four aligned bytes. */
  predicate DifferInPixel(a: seq<bv8>, b: seq<bv8>, at: nat) {
    && at % 4 == 0 && |a| == |b| && a != b
    && (forall k :: 0 <= k < |a| && !(at <= k < at + 4) ==> a[k] == b[k])
  }

  lemma PixelInWord(a: seq<bv8>, b: seq<bv8>, at: nat)
    requires DifferInPixel(a, b, at)
    ensures Hashing.DifferInWord(a, b, at / 8)
  {}

  lemma RowDiffers(f: Frame, f': Frame, x: nat, y: nat, w: nat, px: nat)
    requires f.WellFormed() && f'.WellFormed() && SameSize(f, f') && x + w <= f.width && y < f.height
    requires x <= px < x + w && !SamePixel(f, f', px, y)
    requires forall other: nat :: x <= other < x + w && other != px ==> SamePixel(f, f', other, y)
    ensures DifferInPixel(f.Row(x, y, w), f'.Row(x, y, w), (px - x) * 4)
  {
    var a, b := f.Row(x, y, w), f'.Row(x, y, w);
    RowsOfPixels(f, f', x, y, w);
    forall k: nat | k < w * 4 && !((px - x) * 4 <= k < (px - x) * 4 + 4)
      ensures a[k] == b[k]
    {
      var other := x + k / 4;
      PixelOfRow(f, x, y, w, other);
      PixelOfRow(f', x, y, w, other);
      assert SamePixel(f, f', other, y);
      assert a[k] == f.Pixel(other, y)[k % 4] && b[k] == f'.Pixel(other, y)[k % 4];
    }
  }

  /** Row `py` is reached from row `y` in steps. */
  predicate Reaches(y: nat, yEnd: nat, step: nat, py: nat)
    requires step > 0
    decreases yEnd - y
  {
    y <= py && y < yEnd && (py == y || Reaches(y + step, yEnd, step, py))
  }

  lemma {:induction false} TakenIsReached(y: nat, yEnd: nat, step: nat, py: nat)
    requires (step == 1 || step == 2) && Taken(y, yEnd, step, py)
    ensures Reaches(y, yEnd, step, py)
    decreases yEnd - y
  {
    if y != py {
      TakenStep(y, yEnd, step);
      TakenIsReached(y + step, yEnd, step, py);
    }
  }

  /** Gathered rows differ in four aligned bytes if the pixel's row is among them. */
  lemma {:induction false} GatheredDiffer(f: Frame, f': Frame, x: nat, w: nat, y: nat, yEnd: nat, step: nat, px: nat, py: nat)
    returns (at: nat)
    requires f.WellFormed() && f'.WellFormed() && SameSize(f, f') && x + w <= f.width && yEnd <= f.height
    requires (step == 1 || step == 2) && Reaches(y, yEnd, step, py) && OnlyPixel(f, f', x, w, y, yEnd, px, py)
    ensures DifferInPixel(f.Rows(x, w, y, yEnd, step), f'.Rows(x, w, y, yEnd, step), at)
    decreases yEnd - y
  {
    if py == y {
      at := (px - x) * 4;
      FirstRowDiffers(f, f', x, w, y, yEnd, step, px);
    } else {
      var after := GatheredDiffer(f, f', x, w, y + step, yEnd, step, px, py);
      at := w * 4 + after;
      LaterRowDiffers(f, f', x, w, y, yEnd, step, px, py, after);
    }
  }

  lemma LaterRowDiffers(f: Frame, f': Frame, x: nat, w: nat, y: nat, yEnd: nat, step: nat, px: nat, py: nat, after: nat)
    requires f.WellFormed() && f'.WellFormed() && SameSize(f, f') && x + w <= f.width && yEnd <= f.height
    requires step > 0 && y < yEnd && y != py && OnlyPixel(f, f', x, w, y, yEnd, px, py)
    requires DifferInPixel(f.Rows(x, w, y + step, yEnd, step), f'.Rows(x, w, y + step, yEnd, step), after)
    ensures DifferInPixel(f.Rows(x, w, y, yEnd, step), f'.Rows(x, w, y, yEnd, step), w * 4 + after)
  {
    FirstRowAgrees(f, f', x, w, y, yEnd, px, py);
    RowsSplit(f, x, w, y, yEnd, step);
    RowsSplit(f', x, w, y, yEnd, step);
    DifferAfter(f.Row(x, y, w), f.Rows(x, w, y + step, yEnd, step), f'.Rows(x, w, y + step, yEnd, step), after);
  }

  lemma RowsSplit(f: Frame, x: nat, w: nat, y: nat, yEnd: nat, step: nat)
    requires f.WellFormed() && x + w <= f.width && y < yEnd <= f.height && step > 0
    ensures f.Rows(x, w, y, yEnd, step) == f.Row(x, y, w) + f.Rows(x, w, y + step, yEnd, step)
    ensures |f.Row(x, y, w)| == w * 4
  {}

  lemma FirstRowAgrees(f: Frame, f': Frame, x: nat, w: nat, y: nat, yEnd: nat, px: nat, py: nat)
    requires f.WellFormed() && f'.WellFormed() && SameSize(f, f') && x + w <= f.width && yEnd <= f.height
    requires y < yEnd && y != py && OnlyPixel(f, f', x, w, y, yEnd, px, py)
    ensures f.Row(x, y, w) == f'.Row(x, y, w)
  {
    RowsOfPixels(f, f', x, y, w);
  }

  lemma FirstRowDiffers(f: Frame, f': Frame, x: nat, w: nat, y: nat, yEnd: nat, step: nat, px: nat)
    requires f.WellFormed() && f'.WellFormed() && SameSize(f, f') && x + w <= f.width && yEnd <= f.height
    requires (step == 1 || step == 2) && y < yEnd && OnlyPixel(f, f', x, w, y, yEnd, px, y)
    ensures DifferInPixel(f.Rows(x, w, y, yEnd, step), f'.Rows(x, w, y, yEnd, step), (px - x) * 4)
  {
    assert f.Rows(x, w, y + step, yEnd, step) == f'.Rows(x, w, y + step, yEnd, step) by {
      LaterRowsAgree(f, f', x, w, y, yEnd, step, px);
    }
    RowDiffers(f, f', x, y, w, px);
    DifferBefore(f.Row(x, y, w), f'.Row(x, y, w), f.Rows(x, w, y + step, yEnd, step), (px - x) * 4);
  }

  lemma LaterRowsAgree(f: Frame, f': Frame, x: nat, w: nat, y: nat, yEnd: nat, step: nat, px: nat)
    requires f.WellFormed() && f'.WellFormed() && SameSize(f, f') && x + w <= f.width && yEnd <= f.height
    requires (step == 1 || step == 2) && y < yEnd && OnlyPixel(f, f', x, w, y, yEnd, px, y)
    ensures f.Rows(x, w, y + step, yEnd, step) == f'.Rows(x, w, y + step, yEnd, step)
  {
    GatheredPixels(f, f', x, w, y + step, yEnd, step);
  }

  /** In columns `x..x+w` of rows `y..yEnd`, exactly the given pixel differs. */
  ghost predicate OnlyPixel(f: Frame, f': Frame, x: nat, w: nat, y: nat, yEnd: nat, px: nat, py: nat)
    requires f.WellFormed() && f'.WellFormed() && SameSize(f, f') && x + w <= f.width && yEnd <= f.height
  {
    && x <= px < x + w && py < yEnd && !SamePixel(f, f', px, py)
    && (forall ox: nat, oy: nat :: x <= ox < x + w && y <= oy < yEnd && (ox, oy) != (px, py) ==> SamePixel(f, f', ox, oy))
  }

  lemma DifferBefore(a: seq<bv8>, b: seq<bv8>, rest: seq<bv8>, at: nat)
    requires DifferInPixel(a, b, at)
    ensures DifferInPixel(a + rest, b + rest, at)
  {
    var k :| 0 <= k < |a| && a[k] != b[k];
    assert (a + rest)[k] != (b + rest)[k];
  }

  lemma DifferAfter(row: seq<bv8>, a: seq<bv8>, b: seq<bv8>, at: nat)
    requires DifferInPixel(a, b, at) && |row| % 4 == 0
    ensures DifferInPixel(row + a, row + b, |row| + at)
  {
    var k :| 0 <= k < |a| && a[k] != b[k];
    assert (row + a)[|row| + k] != (row + b)[|row| + k];
  }

  /** A change of one pixel in a sampled row lies in one aligned word of the sampled rows
      and in one of all rows. */
  lemma PixelChangesWords(f: Frame, f': Frame, r: Grids.Rect, px: nat, py: nat) returns (p: nat, q: nat)
    requires f.WellFormed() && f'.WellFormed() && SameSize(f, f') && f.Inside(r) && SampledPixel(r, px, py)
    requires OnlyPixel(f, f', r.x, r.width, r.y, r.y + r.height, px, py)
    ensures Hashing.DifferInWord(f.SampledBytes(r), f'.SampledBytes(r), p)
    ensures Hashing.DifferInWord(f.TileBytes(r), f'.TileBytes(r), q)
  {
    TakenIsReached(r.y, r.y + r.height, 2, py);
    TakenIsReached(r.y, r.y + r.height, 1, py);
    var a := GatheredDiffer(f, f', r.x, r.width, r.y, r.y + r.height, 2, px, py);
    var b := GatheredDiffer(f, f', r.x, r.width, r.y, r.y + r.height, 1, px, py);
    PixelInWord(f.SampledBytes(r), f'.SampledBytes(r), a);
    PixelInWord(f.TileBytes(r), f'.TileBytes(r), b);
    p, q := a / 8, b / 8;
  }

  lemma PixelChangesContent(cfg: Config, f: Frame, f': Frame, i: nat, px: nat, py: nat) returns (p: nat, q: nat)
    requires f.WellFormed() && f'.WellFormed() && SameSize(f, f') && i < cfg.GridOf(f).CellCount()
    requires OnlyPixelOfCell(cfg, f, f', i, px, py)
    ensures Hashing.DifferInWord(ContentAt(cfg, f, i).sampled, ContentAt(cfg, f', i).sampled, p)
    ensures Hashing.DifferInWord(ContentAt(cfg, f, i).rows, ContentAt(cfg, f', i).rows, q)
  {
    CellInFrame(cfg, f, i);
    p, q := PixelChangesWords(f, f', cfg.GridOf(f).CellRect(i), px, py);
  }

  /** In cell `i` exactly the given pixel differs, and it is in a sampled row. */
  ghost predicate OnlyPixelOfCell(cfg: Config, f: Frame, f': Frame, i: nat, px: nat, py: nat)
    requires f.WellFormed() && f'.WellFormed() && SameSize(f, f') && i < cfg.GridOf(f).CellCount()
  {
    var r := cfg.GridOf(f).CellRect(i);
    CellInFrame(cfg, f, i);
    SampledPixel(r, px, py) && OnlyPixel(f, f', r.x, r.width, r.y, r.y + r.height, px, py)
  }

  /** The frame that a run last found to change cell `i`, since the last reset. */
  function LastFound(cfg: Config, hash: Hash, events: seq<Event>, i: nat): Option<Frame>
    requires Exec(cfg, hash, events).Some?
  {
    if events == [] then None else
      var before, e := events[..|events| - 1], events[|events| - 1];
      match e
      case Show(f) =>
        if i < cfg.GridOf(f).CellCount() && !Undetected(cfg, hash, Exec(cfg, hash, before).value, f, i) then Some(f)
        else LastFound(cfg, hash, before, i)
      case Reset => None
      case _ => LastFound(cfg, hash, before, i)
  }

  /** In every run each cell has been found changed by some frame, its first one if by no
      other, and its baseline, unless it was reset since, is what that frame showed. */
  lemma {:induction false} BaselineIsLastFound(cfg: Config, hash: Hash, events: seq<Event>, i: nat)
    requires Exec(cfg, hash, events).Some? && i < |Exec(cfg, hash, events).value.cells|
    ensures var base, found := Exec(cfg, hash, events).value.cells[i].base, LastFound(cfg, hash, events, i);
            && found.Some? && found.value.WellFormed() && i < cfg.GridOf(found.value).CellCount()
            && (base.Some? ==> base == Some(ContentAt(cfg, found.value, i)))
  {
    var before, e := events[..|events| - 1], events[|events| - 1];
    var d := Exec(cfg, hash, before).value;
    ReachableInv(cfg, hash, before);
    if d.cells == [] {
      UnbasedIsChanged(cfg, hash, d, e.frame, i);
    } else {
      BaselineIsLastFound(cfg, hash, before, i);
    }
  }

  /** A cell that is looked at and whose two hashes both moved, or that has none, is found
      changed. */
  lemma HashesTell(cfg: Config, hash: Hash, d: Detector, c: Content, f': Frame, i: nat)
    requires DetectorInv(hash, d) && i < |d.cells| && Fits(cfg, Erase(d), f')
    requires f'.damage == [] || Marked(cfg.GridOf(f'), f'.damage, i)
    requires d.cells[i].base.Some? ==> d.cells[i].base.value == c
    requires d.cells[i].base.None? ==> Hashable(hash, ContentAt(cfg, f', i))
    requires hash(c.sampled) != hash(ContentAt(cfg, f', i).sampled) && hash(c.rows) != hash(ContentAt(cfg, f', i).rows)
    ensures !Undetected(cfg, hash, d, f', i)
  {
    assert CellInv(hash, d.cells[i], d.n);
  }

  lemma WordIsSeen(cfg: Config, lanes: nat, d: Detector, c: Content, f': Frame, i: nat, p: nat, q: nat)
    requires 0 < lanes <= 4 && DetectorInv(ByteHash(lanes), d) && i < |d.cells| && Fits(cfg, Erase(d), f')
    requires f'.damage == [] || Marked(cfg.GridOf(f'), f'.damage, i)
    requires d.cells[i].base.Some? ==> d.cells[i].base.value == c
    requires d.cells[i].base.None? ==> Hashable(ByteHash(lanes), ContentAt(cfg, f', i))
    requires Hashing.DifferInWord(c.sampled, ContentAt(cfg, f', i).sampled, p)
    requires Hashing.DifferInWord(c.rows, ContentAt(cfg, f', i).rows, q)
    ensures !Undetected(cfg, ByteHash(lanes), d, f', i)
  {
    SmallChangeIsSeen(lanes, c.sampled, ContentAt(cfg, f', i).sampled, p);
    SmallChangeIsSeen(lanes, c.rows, ContentAt(cfg, f', i).rows, q);
    HashesTell(cfg, ByteHash(lanes), d, c, f', i);
  }

  /** In every run under the real hash, a frame in which a cell, not outside the damage,
      differs within one aligned word of the sampled rows, and within one of all rows, from
      the frame last found to change the cell is found to change it too. */
  lemma WordChangeIsDetected(cfg: Config, lanes: nat, events: seq<Event>, d: Detector, f: Frame, f': Frame, i: nat,
                             p: nat, q: nat)
    requires 0 < lanes <= 4 && Exec(cfg, ByteHash(lanes), events) == Some(d) && i < |d.cells|
    requires LastFound(cfg, ByteHash(lanes), events, i) == Some(f)
    requires Fits(cfg, Erase(d), f') && f.WellFormed() && i < cfg.GridOf(f).CellCount()
    requires f'.damage == [] || Marked(cfg.GridOf(f'), f'.damage, i)
    requires d.cells[i].cell.force ==> Hashable(ByteHash(lanes), ContentAt(cfg, f', i))
    requires Hashing.DifferInWord(ContentAt(cfg, f, i).sampled, ContentAt(cfg, f', i).sampled, p)
    requires Hashing.DifferInWord(ContentAt(cfg, f, i).rows, ContentAt(cfg, f', i).rows, q)
    ensures !Undetected(cfg, ByteHash(lanes), d, f', i)
  {
    ReachableInv(cfg, ByteHash(lanes), events);
    BaselineIsLastFound(cfg, ByteHash(lanes), events, i);
    assert CellInv(ByteHash(lanes), d.cells[i], d.n);
    WordIsSeen(cfg, lanes, d, ContentAt(cfg, f, i), f', i, p, q);
  }

  /** In particular the real hash sees a change of one pixel of a sampled row. */
  lemma OnePixelChangeIsDetected(cfg: Config, lanes: nat, events: seq<Event>, d: Detector, f: Frame, f': Frame, i: nat,
                                 px: nat, py: nat)
    requires 0 < lanes <= 4 && Exec(cfg, ByteHash(lanes), events) == Some(d) && i < |d.cells|
    requires LastFound(cfg, ByteHash(lanes), events, i) == Some(f)
    requires Fits(cfg, Erase(d), f') && f.WellFormed() && SameSize(f, f') && OnlyPixelOfCell(cfg, f, f', i, px, py)
    requires f'.damage == [] || Marked(cfg.GridOf(f'), f'.damage, i)
    requires d.cells[i].cell.force ==> Hashable(ByteHash(lanes), ContentAt(cfg, f', i))
    ensures !Undetected(cfg, ByteHash(lanes), d, f', i)
  {
    var p, q := PixelChangesContent(cfg, f, f', i, px, py);
    WordChangeIsDetected(cfg, lanes, events, d, f, f', i, p, q);
  }

  /** Frame `f'` shows cell `i` as `f` does, or with exactly one pixel changed, in a sampled
      row and not outside the damage. */
  ghost predicate Nudges(cfg: Config, f: Frame, f': Frame, i: nat) {
    && f.WellFormed() && f'.WellFormed() && SameSize(f, f') && i < cfg.GridOf(f).CellCount()
    && (ContentAt(cfg, f, i) == ContentAt(cfg, f', i)
        || ((f'.damage == [] || Marked(cfg.GridOf(f'), f'.damage, i))
            && exists px: nat, py: nat :: OnlyPixelOfCell(cfg, f, f', i, px, py)))
  }

  /** A run in which every frame nudges the one before. */
  ghost predicate Gradual(cfg: Config, events: seq<Event>, i: nat) {
    events != [] ==>
      var before, e := events[..|events| - 1], events[|events| - 1];
      && Gradual(cfg, before, i)
      && (e.Show? && LastFrame(before).Some? ==> Nudges(cfg, LastFrame(before).value, e.frame, i))
  }

  /** The baseline of cell `i`, unless the cell was reset since, is what the last frame shows. */
  ghost predicate Follows(cfg: Config, d: Detector, last: Option<Frame>, i: nat) {
    i < |d.cells| ==>
      && last.Some? && last.value.WellFormed() && i < cfg.GridOf(last.value).CellCount()
      && (d.cells[i].base.Some? ==> d.cells[i].base.value == ContentAt(cfg, last.value, i))
  }

  lemma ShownBase(cfg: Config, hash: Hash, d: Detector, f': Frame, i: nat)
    requires Fits(cfg, Erase(d), f') && i < cfg.GridOf(f').CellCount()
    ensures ShowFrame(cfg, hash, d, f').cells[i].base
         == if Undetected(cfg, hash, d, f', i) then TrackedFor(cfg, d, f')[i].base else Some(ContentAt(cfg, f', i))
  {}

  lemma NudgeIsFollowed(cfg: Config, lanes: nat, hash: Hash, d: Detector, f: Frame, f': Frame, i: nat)
    requires 0 < lanes <= 4 && hash == ByteHash(lanes) && DetectorInv(hash, d) && i < |d.cells| && Fits(cfg, Erase(d), f')
    requires Nudges(cfg, f, f', i) && d.cells[i].base == Some(ContentAt(cfg, f, i))
    ensures ShowFrame(cfg, hash, d, f').cells[i].base == Some(ContentAt(cfg, f', i))
  {
    ShownBase(cfg, hash, d, f', i);
    if ContentAt(cfg, f, i) != ContentAt(cfg, f', i) {
      var px: nat, py: nat :| OnlyPixelOfCell(cfg, f, f', i, px, py);
      var p, q := PixelChangesContent(cfg, f, f', i, px, py);
      WordIsSeen(cfg, lanes, d, ContentAt(cfg, f, i), f', i, p, q);
    }
  }

  lemma ShowFollows(cfg: Config, lanes: nat, hash: Hash, d: Detector, last: Option<Frame>, f': Frame, i: nat)
    requires 0 < lanes <= 4 && hash == ByteHash(lanes) && DetectorInv(hash, d)
    requires Fits(cfg, Erase(d), f') && AllHashable(cfg, hash, f')
    requires Follows(cfg, d, last, i) && (last.Some? ==> Nudges(cfg, last.value, f', i))
    ensures Follows(cfg, ShowFrame(cfg, hash, d, f'), Some(f'), i)
  {
    if i < cfg.GridOf(f').CellCount() {
      if TrackedFor(cfg, d, f')[i].base.None? {
        UnbasedIsChanged(cfg, hash, d, f', i);
        ShownBase(cfg, hash, d, f', i);
      } else {
        NudgeIsFollowed(cfg, lanes, hash, d, last.value, f', i);
      }
    }
  }

  lemma OtherFollows(cfg: Config, hash: Hash, d: Detector, last: Option<Frame>, e: Event, i: nat)
    requires Enabled(cfg, d, e) && !e.Show? && Follows(cfg, d, last, i)
    ensures Follows(cfg, Apply(cfg, hash, d, e), if e.Reset? then None else last, i)
  {}

  /** In every run of frames that change at most one pixel of the cell at a time, with
      losses and refreshes anywhere, the real hash misses nothing: the baseline is always
      what the last frame shows. */
  lemma {:induction false} GradualIsFollowed(cfg: Config, lanes: nat, hash: Hash, events: seq<Event>, i: nat)
    requires 0 < lanes <= 4 && hash == ByteHash(lanes)
    requires Exec(cfg, hash, events).Some? && Gradual(cfg, events, i)
    ensures Follows(cfg, Exec(cfg, hash, events).value, LastFrame(events), i)
  {
    if events != [] {
      var before, e := events[..|events| - 1], events[|events| - 1];
      var d := Exec(cfg, hash, before).value;
      ReachableInv(cfg, hash, before);
      GradualIsFollowed(cfg, lanes, hash, before, i);
      if e.Show? {
        ShowFollows(cfg, lanes, hash, d, LastFrame(before), e.frame, i);
      } else {
        OtherFollows(cfg, hash, d, LastFrame(before), e, i);
      }
    }
  }

  // ---------- the real hash meets what is asked of it ----------

  /** Two different pixels never hash alike, so at most one hashes to the reset value. */
  lemma PixelsHashApart(lanes: nat, a: Pixel, b: Pixel)
    requires 0 < lanes <= 4 && a != b
    ensures ByteHash(lanes)(a) != ByteHash(lanes)(b)
  {
    SmallChangeIsSeen(lanes, a, b, 0);
  }

  /** Of any three pixels two serve as the example of `AlwaysConvergesIff`. */
  lemma TwoOrdinaryPixels(lanes: nat) returns (a: Pixel, b: Pixel)
    requires 0 < lanes <= 4
    ensures a != b && ByteHash(lanes)(a) != 0 && ByteHash(lanes)(b) != 0
  {
    a, b := [0, 0, 0, 255], [255, 255, 255, 255];
    var c: Pixel := [255, 0, 0, 255];
    assert a[0] != b[0] && a[0] != c[0] && b[1] != c[1];
    PixelsHashApart(lanes, a, b);
    PixelsHashApart(lanes, a, c);
    PixelsHashApart(lanes, b, c);
    if ByteHash(lanes)(a) == 0 {
      a := c;
    } else if ByteHash(lanes)(b) == 0 {
      b := c;
    }
  }

  /** Under the real hash a refresh followed by a frame converges in every run exactly
      when the static interval is at most two frames. */
  lemma EngineConvergesIff(cfg: Config, lanes: nat)
    requires cfg.Valid() && 0 < lanes <= 4
    ensures AlwaysConverges(cfg, ByteHash(lanes)) <==> cfg.StaticInterval() <= 2
  {
    var a, b := TwoOrdinaryPixels(lanes);
    AlwaysConvergesIff(cfg, ByteHash(lanes), a, b);
  }
}
