/** Merging dirty cells into rectangles of at most 4x4 cells (`TileMerger` in
    src/encoder.rs): per-column runs that tolerate small gaps, runs shared by
    adjacent columns grouped together, groups cut into chunks. */
module Merging {
  import opened Common
  import opened Grids

  const MAX_MERGE_TILES_X: nat := 4
  const MAX_MERGE_TILES_Y: nat := 4
  /** Quality of a chunk without a single dirty cell. */
  const GAP_QUALITY: real := 10.0

  type Cells = set<(nat, nat)>

  /** Rows `start..=end` of one column. */
  datatype Run = Run(start: nat, end: nat) {
    predicate Has(ty: int) { start <= ty <= end }
  }

  // ---------- what is covered, without reference to runs ----------

  /** A clean cell strictly between two dirty rows of its column that are at most
      `gap + 2` apart, that is, separated by at most `gap + 1` clean rows. */
  ghost predicate Bridged(dirty: Cells, gap: nat, tilesY: nat, tx: nat, ty: nat) {
    exists a: nat, b: nat :: a < ty < b < tilesY && b - a <= gap + 2 && (tx, a) in dirty && (tx, b) in dirty
  }

  ghost predicate Filled(dirty: Cells, gap: nat, tilesY: nat, tx: nat, ty: nat) {
    (tx, ty) in dirty || Bridged(dirty, gap, tilesY, tx, ty)
  }

  // ---------- runs of one column ----------

  predicate InRuns(runs: seq<Run>, ty: nat) {
    exists k :: 0 <= k < |runs| && runs[k].Has(ty)
  }

  lemma InRunsAppend(runs: seq<Run>, r: Run, ty: nat)
    ensures InRuns(runs + [r], ty) <==> InRuns(runs, ty) || r.Has(ty)
  {
    var all := runs + [r];
    assert all[|runs|] == r;
    if InRuns(runs, ty) {
      var k :| 0 <= k < |runs| && runs[k].Has(ty);
      assert all[k].Has(ty);
    }
  }

  /** Runs start and end on dirty rows and lie more than `gap + 2` rows apart. */
  ghost predicate Apart(dirty: Cells, gap: nat, bound: nat, tx: nat, runs: seq<Run>) {
    && (forall k :: 0 <= k < |runs| ==>
          runs[k].start <= runs[k].end < bound && (tx, runs[k].start) in dirty && (tx, runs[k].end) in dirty)
    && (forall i, j :: 0 <= i < j < |runs| ==> runs[i].end + gap + 2 < runs[j].start)
  }

  /** Runs fill nothing but bridged gaps. */
  ghost predicate Dense(dirty: Cells, gap: nat, bound: nat, tx: nat, runs: seq<Run>) {
    forall ty: nat {:trigger InRuns(runs, ty)} :: InRuns(runs, ty) ==> Filled(dirty, gap, bound, tx, ty)
  }

  /** Runs hold every dirty row below `bound`. */
  ghost predicate Complete(dirty: Cells, bound: nat, tx: nat, runs: seq<Run>) {
    forall ty: nat {:trigger InRuns(runs, ty)} :: ty < bound && (tx, ty) in dirty ==> InRuns(runs, ty)
  }

  ghost predicate GoodRuns(dirty: Cells, gap: nat, bound: nat, tx: nat, runs: seq<Run>) {
    Apart(dirty, gap, bound, tx, runs) && Dense(dirty, gap, bound, tx, runs) && Complete(dirty, bound, tx, runs)
  }

  /** Good runs cover exactly the filled cells, so they are determined by the dirty
      cells alone. */
  lemma RunsAreFilledCells(dirty: Cells, gap: nat, tilesY: nat, tx: nat, runs: seq<Run>, ty: nat)
    requires GoodRuns(dirty, gap, tilesY, tx, runs) && ty < tilesY
    ensures InRuns(runs, ty) <==> Filled(dirty, gap, tilesY, tx, ty)
  {
    if Bridged(dirty, gap, tilesY, tx, ty) {
      var a: nat, b: nat :| a < ty < b < tilesY && b - a <= gap + 2 && (tx, a) in dirty && (tx, b) in dirty;
      assert InRuns(runs, a) && InRuns(runs, b);
      var i :| 0 <= i < |runs| && runs[i].Has(a);
      var j :| 0 <= j < |runs| && runs[j].Has(b);
      assert i == j;
      assert runs[i].Has(ty);
    }
  }

  function Pending(start: Option<nat>, last: Option<nat>): seq<Run> {
    if start.Some? && last.Some? then [Run(start.value, last.value)] else []
  }

  lemma OpenRun(dirty: Cells, gap: nat, ty: nat, tx: nat, runs: seq<Run>)
    requires GoodRuns(dirty, gap, ty, tx, runs) && (tx, ty) in dirty
    requires runs != [] ==> runs[|runs| - 1].end + gap + 2 < ty
    ensures GoodRuns(dirty, gap, ty + 1, tx, runs + [Run(ty, ty)])
  {
    DenseBound(dirty, gap, ty, tx, runs);
    forall r: nat
      ensures InRuns(runs + [Run(ty, ty)], r) <==> InRuns(runs, r) || r == ty
    {
      InRunsAppend(runs, Run(ty, ty), r);
    }
    assert forall i :: 0 <= i < |runs| ==> runs[i].end <= runs[|runs| - 1].end;
  }

  lemma ExtendRun(dirty: Cells, gap: nat, ty: nat, tx: nat, runs: seq<Run>, s: nat, l: nat)
    requires GoodRuns(dirty, gap, ty, tx, runs + [Run(s, l)]) && (tx, ty) in dirty && ty - l <= gap + 2
    ensures GoodRuns(dirty, gap, ty + 1, tx, runs + [Run(s, ty)])
  {
    var before, after := runs + [Run(s, l)], runs + [Run(s, ty)];
    assert before[|runs|] == Run(s, l);
    assert forall i :: 0 <= i < |runs| ==> after[i] == before[i];
    DenseBound(dirty, gap, ty, tx, before);
    forall r: nat
      ensures InRuns(after, r) <==> InRuns(before, r) || l < r <= ty
    {
      InRunsAppend(runs, Run(s, l), r);
      InRunsAppend(runs, Run(s, ty), r);
    }
    forall r: nat | InRuns(after, r)
      ensures Filled(dirty, gap, ty + 1, tx, r)
    {
      if l < r < ty { assert Bridged(dirty, gap, ty + 1, tx, r); }
    }
  }

  lemma DenseBound(dirty: Cells, gap: nat, bound: nat, tx: nat, runs: seq<Run>)
    requires Dense(dirty, gap, bound, tx, runs)
    ensures Dense(dirty, gap, bound + 1, tx, runs)
  {}

  lemma SkipRow(dirty: Cells, gap: nat, ty: nat, tx: nat, runs: seq<Run>)
    requires GoodRuns(dirty, gap, ty, tx, runs) && (tx, ty) !in dirty
    ensures GoodRuns(dirty, gap, ty + 1, tx, runs)
  {}

  /** The scan has seen the rows below `ty`; `start..=last` is its open run. */
  ghost predicate Scanned(dirty: Cells, gap: nat, ty: nat, tx: nat, runs: seq<Run>,
                          start: Option<nat>, last: Option<nat>)
  {
    && (start.Some? <==> last.Some?)
    && GoodRuns(dirty, gap, ty, tx, runs + Pending(start, last))
    && (last.Some? ==> last.value < ty <= last.value + gap + 2)
    && (last.None? && runs != [] ==> runs[|runs| - 1].end + gap + 2 < ty)
  }

  lemma ScanDirty(dirty: Cells, gap: nat, ty: nat, tx: nat, runs: seq<Run>, start: Option<nat>, last: Option<nat>)
    requires Scanned(dirty, gap, ty, tx, runs, start, last) && (tx, ty) in dirty
    ensures Scanned(dirty, gap, ty + 1, tx, runs, if start.None? then Some(ty) else start, Some(ty))
  {
    if start.None? {
      assert runs + Pending(start, last) == runs;
      OpenRun(dirty, gap, ty, tx, runs);
    } else {
      ExtendRun(dirty, gap, ty, tx, runs, start.value, last.value);
    }
  }

  lemma ScanClean(dirty: Cells, gap: nat, ty: nat, tx: nat, runs: seq<Run>, start: Option<nat>, last: Option<nat>)
    requires Scanned(dirty, gap, ty, tx, runs, start, last) && (tx, ty) !in dirty
    ensures last.Some? && ty - last.value - 1 > gap ==>
              Scanned(dirty, gap, ty + 1, tx, runs + [Run(start.value, last.value)], None, None)
    ensures !(last.Some? && ty - last.value - 1 > gap) ==> Scanned(dirty, gap, ty + 1, tx, runs, start, last)
  {
    SkipRow(dirty, gap, ty, tx, runs + Pending(start, last));
    if last.Some? {
      var closed := runs + [Run(start.value, last.value)];
      assert closed + Pending(None, None) == closed;
    }
  }

  lemma ScanEnd(dirty: Cells, gap: nat, ty: nat, tx: nat, runs: seq<Run>, start: Option<nat>, last: Option<nat>)
    requires Scanned(dirty, gap, ty, tx, runs, start, last)
    ensures start.Some? ==> GoodRuns(dirty, gap, ty, tx, runs + [Run(start.value, last.value)])
    ensures start.None? ==> GoodRuns(dirty, gap, ty, tx, runs)
  {
    if start.None? { assert runs + Pending(start, last) == runs; }
  }

  /** `TileMerger::column_runs`. */
  method ColumnRuns(dirty: Cells, gap: nat, tx: nat, tilesY: nat) returns (runs: seq<Run>)
    ensures GoodRuns(dirty, gap, tilesY, tx, runs)
  {
    runs := [];
    var start: Option<nat> := None;
    var last: Option<nat> := None;
    for ty: nat := 0 to tilesY
      invariant Scanned(dirty, gap, ty, tx, runs, start, last)
    {
      if (tx, ty) in dirty {
        ScanDirty(dirty, gap, ty, tx, runs, start, last);
        if start.None? {
          start := Some(ty);
        }
        last := Some(ty);
      } else {
        ScanClean(dirty, gap, ty, tx, runs, start, last);
        if start.Some? && last.Some? {
          if ty - last.value - 1 > gap {
            runs := runs + [Run(start.value, last.value)];
            start := None;
            last := None;
          }
        }
      }
    }
    ScanEnd(dirty, gap, tilesY, tx, runs, start, last);
    if start.Some? {
      runs := runs + [Run(start.value, last.value)];
    }
  }

  // ---------- runs shared by columns ----------

  /** Every run of columns `0..|columns|` maps to the columns that have it, in order. */
  ghost predicate Grouped(runCols: map<Run, seq<nat>>, columns: seq<seq<Run>>) {
    && (forall run <- runCols :: runCols[run] != [] && Increasing(runCols[run]))
    && (forall run, tx {:trigger tx in runCols[run]} ::
          run in runCols && tx in runCols[run] ==> tx < |columns| && run in columns[tx])
    && (forall tx: nat, run :: tx < |columns| && run in columns[tx] ==> run in runCols && tx in runCols[run])
  }

  lemma GroupOne(runCols: map<Run, seq<nat>>, columns: seq<seq<Run>>, runs: seq<Run>, run: Run)
    requires Grouped(runCols, columns + [runs]) && run !in runs
    ensures Grouped(runCols[run := (if run in runCols then runCols[run] else []) + [|columns|]], columns + [runs + [run]])
  {
    var tx := |columns|;
    var before, after := columns + [runs], columns + [runs + [run]];
    var cols := if run in runCols then runCols[run] else [];
    var runCols' := runCols[run := cols + [tx]];
    assert forall c: nat :: c < tx ==> before[c] == after[c];
    assert before[tx] == runs && after[tx] == runs + [run];
    forall c | c in cols
      ensures c < tx
    {
      assert run in runCols && c in runCols[run];
      assert c < |before| && run in before[c];
    }
    assert Increasing(cols + [tx]) by {
      forall i | 0 <= i < |cols| ensures cols[i] < tx { assert cols[i] in cols; }
    }
    forall r, c | r in runCols' && c in runCols'[r]
      ensures c < |after| && r in after[c]
    {
      if r != run || c != tx {
        assert r in runCols && c in runCols[r];
        assert c < |before| && r in before[c];
      }
    }
    forall c: nat, r | c < |after| && r in after[c]
      ensures r in runCols' && c in runCols'[r]
    {
      if c != tx || r != run {
        assert r in before[c];
        assert r in runCols && c in runCols[r];
      }
    }
  }

  /** `run_cols` of `TileMerger::merge`. */
  method CollectRuns(dirty: Cells, gap: nat, g: Grid) returns (runCols: map<Run, seq<nat>>, ghost columns: seq<seq<Run>>)
    ensures |columns| == g.tilesX && Grouped(runCols, columns)
    ensures forall tx: nat :: tx < g.tilesX ==> GoodRuns(dirty, gap, g.tilesY, tx, columns[tx])
  {
    runCols := map[];
    columns := [];
    for tx: nat := 0 to g.tilesX
      invariant |columns| == tx && Grouped(runCols, columns)
      invariant forall c: nat :: c < tx ==> GoodRuns(dirty, gap, g.tilesY, c, columns[c])
    {
      var runs := ColumnRuns(dirty, gap, tx, g.tilesY);
      GroupNone(runCols, columns);
      assert runs[..0] == [];
      for k: nat := 0 to |runs|
        invariant Grouped(runCols, columns + [runs[..k]])
      {
        var run := runs[k];
        assert run !in runs[..k];
        assert runs[..k + 1] == runs[..k] + [run];
        GroupOne(runCols, columns, runs[..k], run);
        runCols := runCols[run := (if run in runCols then runCols[run] else []) + [tx]];
      }
      assert runs[..|runs|] == runs;
      columns := columns + [runs];
    }
  }

  lemma GroupNone(runCols: map<Run, seq<nat>>, columns: seq<seq<Run>>)
    requires Grouped(runCols, columns)
    ensures Grouped(runCols, columns + [[]])
  {}

  // ---------- rectangles of chunks ----------

  predicate Covers(ranges: seq<CellRange>, tx: nat, ty: nat) {
    exists k :: 0 <= k < |ranges| && ranges[k].Has(tx, ty)
  }

  ghost predicate Overlap(a: CellRange, b: CellRange) {
    exists tx: nat, ty: nat :: a.Has(tx, ty) && b.Has(tx, ty)
  }

  ghost predicate PairwiseDisjoint(ranges: seq<CellRange>) {
    forall i, j :: 0 <= i < j < |ranges| ==> !Overlap(ranges[i], ranges[j])
  }

  /** One of the 4x4 blocks that columns `gs..=ge` of a run are cut into from their
      top left corner; the last ones of a row or column of blocks may be smaller. */
  predicate ChunkOf(r: CellRange, run: Run, gs: nat, ge: nat) {
    && gs <= r.x0 <= ge && (r.x0 - gs) % MAX_MERGE_TILES_X == 0 && r.x1 == Min(r.x0 + MAX_MERGE_TILES_X - 1, ge)
    && run.Has(r.y0) && (r.y0 - run.start) % MAX_MERGE_TILES_Y == 0
    && r.y1 == Min(r.y0 + MAX_MERGE_TILES_Y - 1, run.end)
  }

  lemma CoversAppend(a: seq<CellRange>, b: seq<CellRange>, tx: nat, ty: nat)
    ensures Covers(a + b, tx, ty) <==> Covers(a, tx, ty) || Covers(b, tx, ty)
  {
    var all := a + b;
    if Covers(a, tx, ty) { var k :| 0 <= k < |a| && a[k].Has(tx, ty); assert all[k].Has(tx, ty); }
    if Covers(b, tx, ty) { var k :| 0 <= k < |b| && b[k].Has(tx, ty); assert all[|a| + k].Has(tx, ty); }
    if Covers(all, tx, ty) {
      var k :| 0 <= k < |all| && all[k].Has(tx, ty);
      if k < |a| { assert a[k].Has(tx, ty); } else { assert b[k - |a|].Has(tx, ty); }
    }
  }

  lemma DisjointAppend(a: seq<CellRange>, b: seq<CellRange>)
    requires PairwiseDisjoint(a) && PairwiseDisjoint(b)
    requires forall tx: nat, ty: nat :: !(Covers(a, tx, ty) && Covers(b, tx, ty))
    ensures PairwiseDisjoint(a + b)
  {
    var all := a + b;
    forall i, j | 0 <= i < j < |all|
      ensures !Overlap(all[i], all[j])
    {
      if i < |a| <= j && Overlap(all[i], all[j]) {
        var tx: nat, ty: nat :| all[i].Has(tx, ty) && all[j].Has(tx, ty);
        assert a[i].Has(tx, ty) && b[j - |a|].Has(tx, ty);
        assert Covers(a, tx, ty) && Covers(b, tx, ty);
      }
    }
  }

  // ---------- quality of a chunk ----------

  type Qualities = map<(nat, nat), real>

  function RowSum(q: Qualities, x0: nat, x1: nat, ty: nat): real
    requires x0 <= x1
    decreases x1
  {
    (if x0 < x1 then RowSum(q, x0, x1 - 1, ty) else 0.0) + (if (x1, ty) in q then q[(x1, ty)] else 0.0)
  }

  function RowCount(q: Qualities, x0: nat, x1: nat, ty: nat): nat
    requires x0 <= x1
    decreases x1
  {
    (if x0 < x1 then RowCount(q, x0, x1 - 1, ty) else 0) + (if (x1, ty) in q then 1 else 0)
  }

  function Sum(q: Qualities, r: CellRange): real
    requires r.x0 <= r.x1 && r.y0 <= r.y1
    decreases r.y1
  {
    (if r.y0 < r.y1 then Sum(q, r.(y1 := r.y1 - 1)) else 0.0) + RowSum(q, r.x0, r.x1, r.y1)
  }

  function Count(q: Qualities, r: CellRange): nat
    requires r.x0 <= r.x1 && r.y0 <= r.y1
    decreases r.y1
  {
    (if r.y0 < r.y1 then Count(q, r.(y1 := r.y1 - 1)) else 0) + RowCount(q, r.x0, r.x1, r.y1)
  }

  function Average(q: Qualities, r: CellRange): real
    requires r.x0 <= r.x1 && r.y0 <= r.y1
  {
    if Count(q, r) == 0 then GAP_QUALITY else Sum(q, r) / Count(q, r) as real
  }

  /** `sum` is a sum of `n` numbers between `lo` and `hi`. */
  ghost predicate Between(sum: real, n: nat, lo: real, hi: real) {
    lo * n as real <= sum <= hi * n as real
  }

  lemma BetweenAdd(s: real, n: nat, s': real, n': nat, lo: real, hi: real)
    requires Between(s, n, lo, hi) && Between(s', n', lo, hi)
    ensures Between(s + s', n + n', lo, hi)
  {
    var a, b := n as real, n' as real;
    assert (n + n') as real == a + b;
    assert lo * (a + b) == lo * a + lo * b && hi * (a + b) == hi * a + hi * b;
  }

  lemma {:induction false} RowBounds(q: Qualities, x0: nat, x1: nat, ty: nat, lo: real, hi: real)
    requires x0 <= x1
    requires forall tx: nat :: x0 <= tx <= x1 && (tx, ty) in q ==> lo <= q[(tx, ty)] <= hi
    ensures Between(RowSum(q, x0, x1, ty), RowCount(q, x0, x1, ty), lo, hi)
    decreases x1
  {
    var last := if (x1, ty) in q then q[(x1, ty)] else 0.0;
    var one := if (x1, ty) in q then 1 else 0;
    assert Between(last, one, lo, hi);
    if x0 < x1 {
      RowBounds(q, x0, x1 - 1, ty, lo, hi);
      BetweenAdd(RowSum(q, x0, x1 - 1, ty), RowCount(q, x0, x1 - 1, ty), last, one, lo, hi);
    }
  }

  lemma {:induction false} SumBounds(q: Qualities, r: CellRange, lo: real, hi: real)
    requires r.x0 <= r.x1 && r.y0 <= r.y1
    requires forall tx: nat, ty: nat :: r.Has(tx, ty) && (tx, ty) in q ==> lo <= q[(tx, ty)] <= hi
    ensures Between(Sum(q, r), Count(q, r), lo, hi)
    decreases r.y1
  {
    RowBounds(q, r.x0, r.x1, r.y1, lo, hi);
    if r.y0 < r.y1 {
      var above := r.(y1 := r.y1 - 1);
      SumBounds(q, above, lo, hi);
      BetweenAdd(Sum(q, above), Count(q, above),
                 RowSum(q, r.x0, r.x1, r.y1), RowCount(q, r.x0, r.x1, r.y1), lo, hi);
    }
  }

  lemma {:induction false} RowCountZero(q: Qualities, x0: nat, x1: nat, ty: nat)
    requires x0 <= x1
    ensures RowCount(q, x0, x1, ty) == 0 <==> forall tx: nat :: x0 <= tx <= x1 ==> (tx, ty) !in q
    decreases x1
  {
    if x0 < x1 { RowCountZero(q, x0, x1 - 1, ty); }
  }

  lemma {:induction false} CountZero(q: Qualities, r: CellRange)
    requires r.x0 <= r.x1 && r.y0 <= r.y1
    ensures Count(q, r) == 0 <==> forall tx: nat, ty: nat :: r.Has(tx, ty) ==> (tx, ty) !in q
    decreases r.y1
  {
    RowCountZero(q, r.x0, r.x1, r.y1);
    if r.y0 < r.y1 { CountZero(q, r.(y1 := r.y1 - 1)); }
    if Count(q, r) != 0 && RowCount(q, r.x0, r.x1, r.y1) == 0 {
      var above := r.(y1 := r.y1 - 1);
      var tx: nat, ty: nat :| above.Has(tx, ty) && (tx, ty) in q;
      assert r.Has(tx, ty);
    } else if Count(q, r) != 0 {
      var tx: nat :| r.x0 <= tx <= r.x1 && (tx, r.y1) in q;
      assert r.Has(tx, r.y1);
    }
  }

  /** The quality of a chunk lies between the qualities of its dirty cells; the gap
      quality stands for a chunk without one. */
  lemma AverageBounds(q: Qualities, r: CellRange, lo: real, hi: real)
    requires r.x0 <= r.x1 && r.y0 <= r.y1
    requires forall tx: nat, ty: nat :: r.Has(tx, ty) && (tx, ty) in q ==> lo <= q[(tx, ty)] <= hi
    ensures (exists tx: nat, ty: nat :: r.Has(tx, ty) && (tx, ty) in q) ==> lo <= Average(q, r) <= hi
    ensures (forall tx: nat, ty: nat :: r.Has(tx, ty) ==> (tx, ty) !in q) ==> Average(q, r) == GAP_QUALITY
  {
    CountZero(q, r);
    SumBounds(q, r, lo, hi);
    if Count(q, r) != 0 {
      QuotientBounds(Sum(q, r), Count(q, r), lo, hi);
    }
  }

  /** The same dirty cells, each with no higher a quality. */
  ghost predicate NoHigher(p: Qualities, q: Qualities) {
    p.Keys == q.Keys && forall c :: c in p ==> p[c] <= q[c]
  }

  lemma {:induction false} RowRises(p: Qualities, q: Qualities, x0: nat, x1: nat, ty: nat)
    requires x0 <= x1 && NoHigher(p, q)
    ensures RowSum(p, x0, x1, ty) <= RowSum(q, x0, x1, ty) && RowCount(p, x0, x1, ty) == RowCount(q, x0, x1, ty)
    decreases x1
  {
    assert (x1, ty) in p <==> (x1, ty) in q;
    if x0 < x1 { RowRises(p, q, x0, x1 - 1, ty); }
  }

  lemma {:induction false} SumRises(p: Qualities, q: Qualities, r: CellRange)
    requires r.x0 <= r.x1 && r.y0 <= r.y1 && NoHigher(p, q)
    ensures Sum(p, r) <= Sum(q, r) && Count(p, r) == Count(q, r)
    decreases r.y1
  {
    RowRises(p, q, r.x0, r.x1, r.y1);
    if r.y0 < r.y1 { SumRises(p, q, r.(y1 := r.y1 - 1)); }
  }

  /** Higher qualities of the cells never lower the mean. */
  lemma AverageRises(p: Qualities, q: Qualities, r: CellRange)
    requires r.x0 <= r.x1 && r.y0 <= r.y1 && NoHigher(p, q)
    ensures Average(p, r) <= Average(q, r)
  {
    SumRises(p, q, r);
    if Count(p, r) > 0 { QuotientRises(Sum(p, r), Sum(q, r), Count(p, r) as real); }
  }

  lemma QuotientRises(a: real, b: real, n: real)
    requires n > 0.0 && a <= b
    ensures a / n <= b / n
  {
    var x, y := a / n, b / n;
    assert x * n == a && y * n == b;
  }

  // ---------- the mean is a mean ----------

  /** The dirty cells of a range. */
  function DirtyIn(q: Qualities, r: CellRange): (s: Cells)
    ensures forall c :: c in s <==> c in q && r.Has(c.0, c.1)
  {
    set c | c in q && r.Has(c.0, c.1)
  }

  lemma {:induction false} RowSize(q: Qualities, x0: nat, x1: nat, ty: nat)
    requires x0 <= x1
    ensures |DirtyIn(q, CellRange(x0, ty, x1, ty))| == RowCount(q, x0, x1, ty)
    decreases x1
  {
    if x0 < x1 {
      RowSize(q, x0, x1 - 1, ty);
      LastOfRow(q, x0, x1, ty);
    } else {
      OneCell(q, x0, ty);
    }
  }

  lemma LastOfRow(q: Qualities, x0: nat, x1: nat, ty: nat)
    requires x0 < x1
    ensures |DirtyIn(q, CellRange(x0, ty, x1, ty))|
         == |DirtyIn(q, CellRange(x0, ty, x1 - 1, ty))| + if (x1, ty) in q then 1 else 0
  {
    var row, rest := DirtyIn(q, CellRange(x0, ty, x1, ty)), DirtyIn(q, CellRange(x0, ty, x1 - 1, ty));
    if (x1, ty) in q {
      assert row == rest + {(x1, ty)};
    } else {
      assert row == rest;
    }
  }

  lemma OneCell(q: Qualities, tx: nat, ty: nat)
    ensures |DirtyIn(q, CellRange(tx, ty, tx, ty))| == if (tx, ty) in q then 1 else 0
  {
    if (tx, ty) in q {
      assert DirtyIn(q, CellRange(tx, ty, tx, ty)) == {(tx, ty)};
    } else {
      assert DirtyIn(q, CellRange(tx, ty, tx, ty)) == {};
    }
  }

  lemma {:induction false} CountIsSize(q: Qualities, r: CellRange)
    requires r.x0 <= r.x1 && r.y0 <= r.y1
    ensures |DirtyIn(q, r)| == Count(q, r)
    decreases r.y1
  {
    var row := CellRange(r.x0, r.y1, r.x1, r.y1);
    RowSize(q, r.x0, r.x1, r.y1);
    if r.y0 < r.y1 {
      var above := r.(y1 := r.y1 - 1);
      CountIsSize(q, above);
      assert DirtyIn(q, r) == DirtyIn(q, above) + DirtyIn(q, row);
    } else {
      assert r == row;
    }
  }

  lemma {:induction false} RowMoves(q: Qualities, x0: nat, x1: nat, ty: nat, c: (nat, nat), x: real)
    requires x0 <= x1 && c in q
    ensures RowCount(q[c := x], x0, x1, ty) == RowCount(q, x0, x1, ty)
    ensures RowSum(q[c := x], x0, x1, ty)
         == RowSum(q, x0, x1, ty) + if c.1 == ty && x0 <= c.0 <= x1 then x - q[c] else 0.0
    decreases x1
  {
    if x0 < x1 { RowMoves(q, x0, x1 - 1, ty, c, x); }
  }

  lemma {:induction false} SumMoves(q: Qualities, r: CellRange, c: (nat, nat), x: real)
    requires r.x0 <= r.x1 && r.y0 <= r.y1 && c in q
    ensures Count(q[c := x], r) == Count(q, r)
    ensures Sum(q[c := x], r) == Sum(q, r) + if r.Has(c.0, c.1) then x - q[c] else 0.0
    decreases r.y1
  {
    RowMoves(q, r.x0, r.x1, r.y1, c, x);
    if r.y0 < r.y1 { SumMoves(q, r.(y1 := r.y1 - 1), c, x); }
  }

  /** Each of the n dirty cells of a chunk weighs one n-th: changing the quality of one moves
      the chunk's by an n-th of the change. With `AverageBounds` this is the mean. */
  lemma AverageMovesEvenly(q: Qualities, r: CellRange, c: (nat, nat), x: real)
    requires r.x0 <= r.x1 && r.y0 <= r.y1 && c in DirtyIn(q, r)
    ensures Average(q[c := x], r) == Average(q, r) + (x - q[c]) / |DirtyIn(q, r)| as real
  {
    CountIsSize(q, r);
    SumMoves(q, r, c, x);
    SumOfQuotients(Sum(q, r), x - q[c], |DirtyIn(q, r)| as real);
  }

  lemma SumOfQuotients(a: real, b: real, n: real)
    requires n > 0.0
    ensures (a + b) / n == a / n + b / n
  {}

  lemma QuotientBounds(sum: real, n: nat, lo: real, hi: real)
    requires n > 0 && Between(sum, n, lo, hi)
    ensures lo <= sum / n as real <= hi
  {
    RealQuotientBounds(sum, n as real, lo, hi);
  }

  lemma RealQuotientBounds(s: real, n: real, lo: real, hi: real)
    requires n > 0.0 && lo * n <= s <= hi * n
    ensures lo <= s / n <= hi
  {
    var m := s / n;
    assert m * n == s;
  }

  /** `TileMerger::average_quality_fast`. */
  method AverageQuality(q: Qualities, r: CellRange) returns (quality: real)
    requires r.x0 <= r.x1 && r.y0 <= r.y1
    ensures quality == Average(q, r)
    ensures DirtyIn(q, r) == {} ==> quality == 10.0
  {
    CountIsSize(q, r);
    var sum := 0.0;
    var count: nat := 0;
    for ty: nat := r.y0 to r.y1 + 1
      invariant sum == (if ty == r.y0 then 0.0 else Sum(q, r.(y1 := ty - 1)))
      invariant count == (if ty == r.y0 then 0 else Count(q, r.(y1 := ty - 1)))
    {
      ghost var sumAbove, countAbove := sum, count;
      for tx: nat := r.x0 to r.x1 + 1
        invariant sum == sumAbove + (if tx == r.x0 then 0.0 else RowSum(q, r.x0, tx - 1, ty))
        invariant count == countAbove + (if tx == r.x0 then 0 else RowCount(q, r.x0, tx - 1, ty))
      {
        if (tx, ty) in q {
          sum := sum + q[(tx, ty)];
          count := count + 1;
        }
      }
    }
    assert r.(y1 := r.y1) == r;
    quality := if count == 0 then GAP_QUALITY else sum / count as real;
  }

  // ---------- the merger ----------

  /** Each tile is the rectangle of its range, with the average quality of its dirty cells. */
  ghost predicate Drawn(g: Grid, q: Qualities, tiles: seq<Tile>, ranges: seq<CellRange>) {
    && g.Valid() && |tiles| == |ranges|
    && (forall k :: 0 <= k < |ranges| ==> ranges[k].Within(g) && tiles[k] == RangeTile(g, ranges[k], Average(q, ranges[k])))
  }

  /** Columns `gs..=ge` are in `cols`, and neither neighbour is. */
  predicate Group(cols: seq<nat>, gs: nat, ge: nat) {
    && gs <= ge && (forall tx: nat :: gs <= tx <= ge ==> tx in cols)
    && (gs > 0 ==> gs - 1 !in cols) && ge + 1 !in cols
  }

  ghost predicate GroupChunks(ranges: seq<CellRange>, run: Run, gs: nat, ge: nat) {
    forall k :: 0 <= k < |ranges| ==> ChunkOf(ranges[k], run, gs, ge)
  }

  ghost predicate AllChunks(ranges: seq<CellRange>, run: Run, cols: seq<nat>) {
    forall k :: 0 <= k < |ranges| ==> exists gs: nat, ge: nat :: Group(cols, gs, ge) && ChunkOf(ranges[k], run, gs, ge)
  }

  /** The ranges cover exactly the given columns of the given rows, each cell once. */
  ghost predicate Tiles(ranges: seq<CellRange>, x0: nat, x1: nat, y0: nat, y1: nat) {
    && PairwiseDisjoint(ranges)
    && (forall tx: nat, ty: nat :: Covers(ranges, tx, ty) <==> x0 <= tx < x1 && y0 <= ty < y1)
  }

  lemma TilesAppend(a: seq<CellRange>, r: CellRange)
    requires PairwiseDisjoint(a) && forall tx: nat, ty: nat :: !(Covers(a, tx, ty) && r.Has(tx, ty))
    ensures PairwiseDisjoint(a + [r])
    ensures forall tx: nat, ty: nat :: Covers(a + [r], tx, ty) <==> Covers(a, tx, ty) || r.Has(tx, ty)
  {
    forall tx: nat, ty: nat
      ensures Covers([r], tx, ty) <==> r.Has(tx, ty)
      ensures Covers(a + [r], tx, ty) <==> Covers(a, tx, ty) || r.Has(tx, ty)
    {
      assert [r][0] == r;
      CoversAppend(a, [r], tx, ty);
    }
    DisjointAppend(a, [r]);
  }

  lemma NextAligned(a: nat, start: nat)
    requires start <= a && (a - start) % MAX_MERGE_TILES_X == 0
    ensures (a + MAX_MERGE_TILES_X - start) % MAX_MERGE_TILES_X == 0
  {
    assert a + MAX_MERGE_TILES_X - start == (a - start) + 4;
  }

  /** Cuts columns `txStart..=txEnd` of a run into chunks, row band by row band. */
  method ChunkGroup(g: Grid, q: Qualities, run: Run, txStart: nat, txEnd: nat)
    returns (tiles: seq<Tile>, ghost ranges: seq<CellRange>)
    requires g.Valid() && txStart <= txEnd < g.tilesX && run.start <= run.end < g.tilesY
    ensures Drawn(g, q, tiles, ranges) && GroupChunks(ranges, run, txStart, txEnd)
    ensures Tiles(ranges, txStart, txEnd + 1, run.start, run.end + 1)
  {
    tiles, ranges := [], [];
    var chunkTyStart := run.start;
    while chunkTyStart <= run.end
      invariant run.start <= chunkTyStart <= run.end + 1
      invariant chunkTyStart <= run.end ==> (chunkTyStart - run.start) % MAX_MERGE_TILES_Y == 0
      invariant Drawn(g, q, tiles, ranges) && GroupChunks(ranges, run, txStart, txEnd)
      invariant Tiles(ranges, txStart, txEnd + 1, run.start, chunkTyStart)
    {
      var chunkTyEnd := Min(chunkTyStart + MAX_MERGE_TILES_Y - 1, run.end);
      var chunkTxStart := txStart;
      while chunkTxStart <= txEnd
        invariant txStart <= chunkTxStart <= txEnd + 1
        invariant chunkTxStart <= txEnd ==> (chunkTxStart - txStart) % MAX_MERGE_TILES_X == 0
        invariant Drawn(g, q, tiles, ranges) && GroupChunks(ranges, run, txStart, txEnd) && PairwiseDisjoint(ranges)
        invariant forall tx: nat, ty: nat :: Covers(ranges, tx, ty) <==>
                    || (txStart <= tx <= txEnd && run.start <= ty < chunkTyStart)
                    || (txStart <= tx < chunkTxStart && chunkTyStart <= ty <= chunkTyEnd)
      {
        var chunkTxEnd := Min(chunkTxStart + MAX_MERGE_TILES_X - 1, txEnd);
        var r := CellRange(chunkTxStart, chunkTyStart, chunkTxEnd, chunkTyEnd);
        var quality := AverageQuality(q, r);
        TilesAppend(ranges, r);
        tiles, ranges := tiles + [RangeTile(g, r, quality)], ranges + [r];
        NextAligned(chunkTxStart, txStart);
        chunkTxStart := chunkTxEnd + 1;
      }
      NextAligned(chunkTyStart, run.start);
      chunkTyStart := chunkTyEnd + 1;
    }
  }

  /** Cuts every group of adjacent columns of a run into chunks. */
  method MergeRun(g: Grid, q: Qualities, run: Run, cols: seq<nat>)
    returns (tiles: seq<Tile>, ghost ranges: seq<CellRange>)
    requires g.Valid() && run.start <= run.end < g.tilesY
    requires cols != [] && Increasing(cols) && forall tx <- cols :: tx < g.tilesX
    ensures Drawn(g, q, tiles, ranges) && AllChunks(ranges, run, cols) && PairwiseDisjoint(ranges)
    ensures forall tx: nat, ty: nat :: Covers(ranges, tx, ty) <==> tx in cols && run.Has(ty)
  {
    tiles, ranges := [], [];
    var groupStart: nat := 0;
    for i: nat := 1 to |cols| + 1
      invariant groupStart <= |cols| && (if i <= |cols| then groupStart < i else groupStart == |cols|)
      invariant groupStart > 0 ==> groupStart == |cols| || cols[groupStart] != cols[groupStart - 1] + 1
      invariant forall j :: groupStart <= j < i <= |cols| ==> cols[j] == cols[groupStart] + (j - groupStart)
      invariant Drawn(g, q, tiles, ranges) && AllChunks(ranges, run, cols) && PairwiseDisjoint(ranges)
      invariant forall tx: nat, ty: nat :: Covers(ranges, tx, ty) <==> tx in cols[..groupStart] && run.Has(ty)
    {
      if i == |cols| || cols[i] != cols[i - 1] + 1 {
        assert cols[groupStart] in cols && cols[i - 1] in cols;
        var txStart, txEnd := cols[groupStart], cols[i - 1];
        var more: seq<Tile>;
        ghost var moreRanges: seq<CellRange>;
        more, moreRanges := ChunkGroup(g, q, run, txStart, txEnd);
        GroupIsMaximal(cols, groupStart, i);
        AddGroup(run, cols, groupStart, i, ranges, moreRanges);
        tiles, ranges := tiles + more, ranges + moreRanges;
        groupStart := i;
      }
    }
    assert cols[..|cols|] == cols;
  }

  lemma GroupIsMaximal(cols: seq<nat>, start: nat, end: nat)
    requires start < end <= |cols| && Increasing(cols)
    requires forall j :: start <= j < end ==> cols[j] == cols[start] + (j - start)
    requires start > 0 ==> cols[start] != cols[start - 1] + 1
    requires end < |cols| ==> cols[end] != cols[end - 1] + 1
    ensures Group(cols, cols[start], cols[end - 1])
  {
    forall tx: nat | cols[start] <= tx <= cols[end - 1]
      ensures tx in cols
    {
      assert cols[start + (tx - cols[start])] == tx;
    }
  }

  lemma AddGroup(run: Run, cols: seq<nat>, start: nat, end: nat, ranges: seq<CellRange>, more: seq<CellRange>)
    requires start < end <= |cols| && Increasing(cols)
    requires forall j :: start <= j < end ==> cols[j] == cols[start] + (j - start)
    requires PairwiseDisjoint(ranges) && Tiles(more, cols[start], cols[end - 1] + 1, run.start, run.end + 1)
    requires forall tx: nat, ty: nat :: Covers(ranges, tx, ty) <==> tx in cols[..start] && run.Has(ty)
    ensures PairwiseDisjoint(ranges + more)
    ensures forall tx: nat, ty: nat :: Covers(ranges + more, tx, ty) <==> tx in cols[..end] && run.Has(ty)
  {
    GroupColumns(cols, start, end);
    forall tx: nat, ty: nat
      ensures Covers(ranges + more, tx, ty) <==> tx in cols[..end] && run.Has(ty)
    {
      CoversAppend(ranges, more, tx, ty);
    }
    DisjointAppend(ranges, more);
  }

  /** The columns of one group are exactly those between its first and its last. */
  lemma GroupColumns(cols: seq<nat>, start: nat, end: nat)
    requires start < end <= |cols| && Increasing(cols)
    requires forall j :: start <= j < end ==> cols[j] == cols[start] + (j - start)
    ensures forall tx: nat :: tx in cols[..end] <==> tx in cols[..start] || cols[start] <= tx <= cols[end - 1]
    ensures forall tx: nat :: !(tx in cols[..start] && cols[start] <= tx)
  {
    forall tx: nat | cols[start] <= tx <= cols[end - 1]
      ensures tx in cols[..end]
    {
      assert cols[..end][start + (tx - cols[start])] == tx;
    }
    assert cols[..end] == cols[..start] + cols[start..end];
  }

  /** Quality of each dirty cell; a later tile of the same cell wins. */
  function QualityMap(tiles: seq<Tile>, g: Grid): Qualities
    requires g.Shape()
  {
    if tiles == [] then map[] else
      var t := tiles[|tiles| - 1];
      QualityMap(tiles[..|tiles| - 1], g)[(t.x / g.tileWidth, t.y / g.tileHeight) := t.quality]
  }

  /** A maximal stretch of filled rows of a column. */
  ghost predicate IsRun(dirty: Cells, gap: nat, tilesY: nat, tx: nat, run: Run) {
    && run.start <= run.end < tilesY
    && (forall ty: nat :: run.Has(ty) ==> Filled(dirty, gap, tilesY, tx, ty))
    && (run.start > 0 ==> !Filled(dirty, gap, tilesY, tx, run.start - 1))
    && (run.end + 1 < tilesY ==> !Filled(dirty, gap, tilesY, tx, run.end + 1))
  }

  /** A maximal stretch of columns sharing a run. */
  ghost predicate IsRunGroup(dirty: Cells, gap: nat, g: Grid, run: Run, gs: nat, ge: nat) {
    && gs <= ge < g.tilesX
    && (forall tx: nat :: gs <= tx <= ge ==> IsRun(dirty, gap, g.tilesY, tx, run))
    && (gs > 0 ==> !IsRun(dirty, gap, g.tilesY, gs - 1, run))
    && (ge + 1 < g.tilesX ==> !IsRun(dirty, gap, g.tilesY, ge + 1, run))
  }

  ghost predicate IsChunk(dirty: Cells, gap: nat, g: Grid, r: CellRange) {
    exists run: Run, gs: nat, ge: nat :: IsRunGroup(dirty, gap, g, run, gs, ge) && ChunkOf(r, run, gs, ge)
  }

  /** What a merge promises: disjoint 4x4 blocks of the groups of columns sharing a
      run, together covering the filled cells of the grid and no other cell. */
  ghost predicate IsMerge(g: Grid, gap: nat, q: Qualities, tiles: seq<Tile>, ranges: seq<CellRange>) {
    && Drawn(g, q, tiles, ranges)
    && PairwiseDisjoint(ranges)
    && (forall tx: nat, ty: nat :: tx < g.tilesX && ty < g.tilesY ==>
          (Covers(ranges, tx, ty) <==> Filled(q.Keys, gap, g.tilesY, tx, ty)))
    && (forall k :: 0 <= k < |ranges| ==> IsChunk(q.Keys, gap, g, ranges[k]))
  }

  lemma RunsAreMaximal(dirty: Cells, gap: nat, tilesY: nat, tx: nat, runs: seq<Run>, run: Run)
    requires GoodRuns(dirty, gap, tilesY, tx, runs)
    ensures run in runs <==> IsRun(dirty, gap, tilesY, tx, run)
  {
    forall ty: nat | ty < tilesY
      ensures InRuns(runs, ty) <==> Filled(dirty, gap, tilesY, tx, ty)
    {
      RunsAreFilledCells(dirty, gap, tilesY, tx, runs, ty);
    }
    if run in runs { RunIsMaximal(dirty, gap, tilesY, tx, runs, run); }
    if IsRun(dirty, gap, tilesY, tx, run) {
      assert run.Has(run.start);
      assert InRuns(runs, run.start);
      var k :| 0 <= k < |runs| && runs[k].Has(run.start);
      RunIsMaximal(dirty, gap, tilesY, tx, runs, runs[k]);
      SameMaximalRun(dirty, gap, tilesY, tx, run, runs[k], run.start);
    }
  }

  lemma RunIsMaximal(dirty: Cells, gap: nat, tilesY: nat, tx: nat, runs: seq<Run>, run: Run)
    requires Apart(dirty, gap, tilesY, tx, runs) && run in runs
    requires forall ty: nat :: ty < tilesY ==> (InRuns(runs, ty) <==> Filled(dirty, gap, tilesY, tx, ty))
    ensures IsRun(dirty, gap, tilesY, tx, run)
  {}

  lemma SameMaximalRun(dirty: Cells, gap: nat, tilesY: nat, tx: nat, a: Run, b: Run, ty: nat)
    requires IsRun(dirty, gap, tilesY, tx, a) && IsRun(dirty, gap, tilesY, tx, b) && a.Has(ty) && b.Has(ty)
    ensures a == b
  {}

  /** The runs in `done`, and only they, have been merged. */
  ghost predicate MergedRuns(gap: nat, g: Grid, q: Qualities, runCols: map<Run, seq<nat>>, done: set<Run>,
                             merged: seq<Tile>, ranges: seq<CellRange>)
  {
    && Drawn(g, q, merged, ranges) && PairwiseDisjoint(ranges)
    && (forall k :: 0 <= k < |ranges| ==> IsChunk(q.Keys, gap, g, ranges[k]))
    && CoversRuns(ranges, runCols, done)
  }

  method MergeOneRun(gap: nat, g: Grid, q: Qualities, runCols: map<Run, seq<nat>>, ghost columns: seq<seq<Run>>,
                     ghost done: set<Run>, run: Run, merged: seq<Tile>, ghost ranges: seq<CellRange>)
    returns (merged': seq<Tile>, ghost ranges': seq<CellRange>)
    requires g.Valid() && Collected(q.Keys, gap, g, runCols, columns) && run in runCols && run !in done
    requires MergedRuns(gap, g, q, runCols, done, merged, ranges)
    ensures MergedRuns(gap, g, q, runCols, done + {run}, merged', ranges')
  {
    RunInGrid(q.Keys, gap, g, runCols, columns, run);
    var more: seq<Tile>;
    ghost var moreRanges: seq<CellRange>;
    more, moreRanges := MergeRun(g, q, run, runCols[run]);
    AddRun(gap, g, q, runCols, columns, done, run, merged, ranges, more, moreRanges);
    merged', ranges' := merged + more, ranges + moreRanges;
  }

  /** `TileMerger::merge`. The runs are taken in any order, as from a hash map; each
      one's columns were pushed left to right, so sorting them changes nothing. */
  method Merge(tiles: seq<Tile>, gap: nat, g: Grid) returns (merged: seq<Tile>, ghost ranges: seq<CellRange>)
    requires g.Valid()
    ensures IsMerge(g, gap, QualityMap(tiles, g), merged, ranges)
    ensures forall px: nat, py: nat :: px < g.frameWidth && py < g.frameHeight ==>
              PaintedOnceIff(merged, px, py, Filled(QualityMap(tiles, g).Keys, gap, g.tilesY, g.ColumnOf(px), g.RowOf(py)))
  {
    var q := QualityMap(tiles, g);
    var runCols: map<Run, seq<nat>>;
    ghost var columns: seq<seq<Run>>;
    runCols, columns := CollectRuns(q.Keys, gap, g);
    merged, ranges := [], [];
    var remaining := runCols.Keys;
    ghost var done: set<Run> := {};
    while remaining != {}
      invariant remaining + done == runCols.Keys && remaining !! done
      invariant MergedRuns(gap, g, q, runCols, done, merged, ranges)
      decreases |remaining|
    {
      var run :| run in remaining;
      merged, ranges := MergeOneRun(gap, g, q, runCols, columns, done, run, merged, ranges);
      remaining, done := remaining - {run}, done + {run};
    }
    assert done == runCols.Keys;
    AllRunsMerged(gap, g, q, runCols, columns, merged, ranges);
    forall px: nat, py: nat | px < g.frameWidth && py < g.frameHeight
      ensures PaintedOnceIff(merged, px, py, Filled(q.Keys, gap, g.tilesY, g.ColumnOf(px), g.RowOf(py)))
    {
      MergePaintsFilled(g, gap, q, merged, ranges, px, py);
    }
  }

  predicate Paints(tiles: seq<Tile>, k: nat, px: nat, py: nat)
    requires k < |tiles|
  {
    tiles[k].Area().Contains(px, py)
  }

  /** The pixel lies in one tile and no more if `filled`, and in none otherwise. */
  ghost predicate PaintedOnceIff(tiles: seq<Tile>, px: nat, py: nat, filled: bool) {
    && (filled <==> exists k: nat :: k < |tiles| && Paints(tiles, k, px, py))
    && (forall j: nat, k: nat :: j < k < |tiles| ==> !(Paints(tiles, j, px, py) && Paints(tiles, k, px, py)))
  }

  /** Tiles of a merge share no pixel, and together hold exactly the pixels of the
      filled cells. */
  lemma MergePaintsFilled(g: Grid, gap: nat, q: Qualities, tiles: seq<Tile>, ranges: seq<CellRange>, px: nat, py: nat)
    requires IsMerge(g, gap, q, tiles, ranges) && px < g.frameWidth && py < g.frameHeight
    ensures PaintedOnceIff(tiles, px, py, Filled(q.Keys, gap, g.tilesY, g.ColumnOf(px), g.RowOf(py)))
  {
    var tx, ty := g.ColumnOf(px), g.RowOf(py);
    PixelInGrid(g, px, py);
    forall k: nat | k < |tiles|
      ensures Paints(tiles, k, px, py) <==> ranges[k].Has(tx, ty)
    {
      RangeHasPixel(g, ranges[k], px, py);
    }
    PaintsAsCovered(tiles, ranges, px, py, tx, ty);
  }

  lemma PixelInGrid(g: Grid, px: nat, py: nat)
    requires g.Valid() && px < g.frameWidth && py < g.frameHeight
    ensures g.ColumnOf(px) < g.tilesX && g.RowOf(py) < g.tilesY
  {
    InRows(g, CellRange(0, 0, 0, 0), py);
  }

  lemma PaintsAsCovered(tiles: seq<Tile>, ranges: seq<CellRange>, px: nat, py: nat, tx: nat, ty: nat)
    requires |tiles| == |ranges| && PairwiseDisjoint(ranges)
    requires forall k: nat :: k < |tiles| ==> (Paints(tiles, k, px, py) <==> ranges[k].Has(tx, ty))
    ensures PaintedOnceIff(tiles, px, py, Covers(ranges, tx, ty))
  {
    if Covers(ranges, tx, ty) {
      var k: nat :| k < |ranges| && ranges[k].Has(tx, ty);
      assert Paints(tiles, k, px, py);
    }
    forall j: nat, k: nat | j < k < |tiles|
      ensures !(Paints(tiles, j, px, py) && Paints(tiles, k, px, py))
    {
      assert !Overlap(ranges[j], ranges[k]);
    }
  }

  ghost predicate CoversRuns(ranges: seq<CellRange>, runCols: map<Run, seq<nat>>, done: set<Run>) {
    forall tx: nat, ty: nat :: Covers(ranges, tx, ty) <==>
      exists run :: run in done && run in runCols && tx in runCols[run] && run.Has(ty)
  }

  ghost predicate Collected(dirty: Cells, gap: nat, g: Grid, runCols: map<Run, seq<nat>>, columns: seq<seq<Run>>) {
    && |columns| == g.tilesX && Grouped(runCols, columns)
    && (forall tx: nat :: tx < g.tilesX ==> GoodRuns(dirty, gap, g.tilesY, tx, columns[tx]))
  }

  lemma RunInGrid(dirty: Cells, gap: nat, g: Grid, runCols: map<Run, seq<nat>>, columns: seq<seq<Run>>, run: Run)
    requires Collected(dirty, gap, g, runCols, columns) && run in runCols
    ensures run.start <= run.end < g.tilesY
    ensures forall tx <- runCols[run] :: tx < g.tilesX && (tx, run.end) in dirty
  {
    assert runCols[run][0] in runCols[run];
    forall tx | tx in runCols[run]
      ensures tx < g.tilesX && (tx, run.end) in dirty && run.start <= run.end < g.tilesY
    {
      var k :| 0 <= k < |columns[tx]| && columns[tx][k] == run;
    }
  }

  lemma AddRun(gap: nat, g: Grid, q: Qualities, runCols: map<Run, seq<nat>>, columns: seq<seq<Run>>,
               done: set<Run>, run: Run, merged: seq<Tile>, ranges: seq<CellRange>,
               more: seq<Tile>, moreRanges: seq<CellRange>)
    requires Collected(q.Keys, gap, g, runCols, columns) && run in runCols && run !in done
    requires MergedRuns(gap, g, q, runCols, done, merged, ranges)
    requires Drawn(g, q, more, moreRanges) && AllChunks(moreRanges, run, runCols[run]) && PairwiseDisjoint(moreRanges)
    requires forall tx: nat, ty: nat :: Covers(moreRanges, tx, ty) <==> tx in runCols[run] && run.Has(ty)
    ensures MergedRuns(gap, g, q, runCols, done + {run}, merged + more, ranges + moreRanges)
  {
    RunIsApart(gap, g, q, runCols, columns, done, run, ranges, moreRanges);
    DisjointAppend(ranges, moreRanges);
    RunCovered(runCols, done, run, ranges, moreRanges);
    RunChunks(gap, g, q, runCols, columns, run, moreRanges);
    DrawnAppend(g, q, merged, ranges, more, moreRanges);
    AllChunksAppend(gap, g, q, ranges, moreRanges);
  }

  lemma DrawnAppend(g: Grid, q: Qualities, tiles: seq<Tile>, ranges: seq<CellRange>,
                    more: seq<Tile>, moreRanges: seq<CellRange>)
    requires Drawn(g, q, tiles, ranges) && Drawn(g, q, more, moreRanges)
    ensures Drawn(g, q, tiles + more, ranges + moreRanges)
  {}

  lemma AllChunksAppend(gap: nat, g: Grid, q: Qualities, a: seq<CellRange>, b: seq<CellRange>)
    requires forall k :: 0 <= k < |a| ==> IsChunk(q.Keys, gap, g, a[k])
    requires forall k :: 0 <= k < |b| ==> IsChunk(q.Keys, gap, g, b[k])
    ensures forall k :: 0 <= k < |a + b| ==> IsChunk(q.Keys, gap, g, (a + b)[k])
  {}

  lemma RunIsApart(gap: nat, g: Grid, q: Qualities, runCols: map<Run, seq<nat>>, columns: seq<seq<Run>>,
                   done: set<Run>, run: Run, ranges: seq<CellRange>, more: seq<CellRange>)
    requires Collected(q.Keys, gap, g, runCols, columns) && run in runCols && run !in done
    requires CoversRuns(ranges, runCols, done)
    requires forall tx: nat, ty: nat :: Covers(more, tx, ty) <==> tx in runCols[run] && run.Has(ty)
    ensures forall tx: nat, ty: nat :: !(Covers(ranges, tx, ty) && Covers(more, tx, ty))
  {}

  lemma RunCovered(runCols: map<Run, seq<nat>>, done: set<Run>, run: Run, ranges: seq<CellRange>, more: seq<CellRange>)
    requires run in runCols && CoversRuns(ranges, runCols, done)
    requires forall tx: nat, ty: nat :: Covers(more, tx, ty) <==> tx in runCols[run] && run.Has(ty)
    ensures CoversRuns(ranges + more, runCols, done + {run})
  {
    forall tx: nat, ty: nat
      ensures Covers(ranges + more, tx, ty) <==>
                exists r :: r in done + {run} && r in runCols && tx in runCols[r] && r.Has(ty)
    {
      CoversAppend(ranges, more, tx, ty);
      if Covers(more, tx, ty) { assert run in done + {run}; }
    }
  }

  lemma RunChunks(gap: nat, g: Grid, q: Qualities, runCols: map<Run, seq<nat>>, columns: seq<seq<Run>>,
                  run: Run, ranges: seq<CellRange>)
    requires Collected(q.Keys, gap, g, runCols, columns) && run in runCols && AllChunks(ranges, run, runCols[run])
    ensures forall k :: 0 <= k < |ranges| ==> IsChunk(q.Keys, gap, g, ranges[k])
  {
    forall k | 0 <= k < |ranges|
      ensures IsChunk(q.Keys, gap, g, ranges[k])
    {
      var gs: nat, ge: nat :| Group(runCols[run], gs, ge) && ChunkOf(ranges[k], run, gs, ge);
      GroupIsRunGroup(gap, g, q, runCols, columns, run, gs, ge);
    }
  }

  lemma GroupIsRunGroup(gap: nat, g: Grid, q: Qualities, runCols: map<Run, seq<nat>>, columns: seq<seq<Run>>,
                        run: Run, gs: nat, ge: nat)
    requires Collected(q.Keys, gap, g, runCols, columns) && run in runCols && Group(runCols[run], gs, ge)
    ensures IsRunGroup(q.Keys, gap, g, run, gs, ge)
  {
    forall tx: nat | tx < g.tilesX
      ensures IsRun(q.Keys, gap, g.tilesY, tx, run) <==> tx in runCols[run]
    {
      RunsAreMaximal(q.Keys, gap, g.tilesY, tx, columns[tx], run);
    }
    assert ge in runCols[run];
  }

  lemma AllRunsMerged(gap: nat, g: Grid, q: Qualities, runCols: map<Run, seq<nat>>, columns: seq<seq<Run>>,
                      merged: seq<Tile>, ranges: seq<CellRange>)
    requires Collected(q.Keys, gap, g, runCols, columns)
    requires MergedRuns(gap, g, q, runCols, runCols.Keys, merged, ranges)
    ensures IsMerge(g, gap, q, merged, ranges)
  {
    forall tx: nat, ty: nat | tx < g.tilesX && ty < g.tilesY
      ensures Covers(ranges, tx, ty) <==> Filled(q.Keys, gap, g.tilesY, tx, ty)
    {
      RunsAreFilledCells(q.Keys, gap, g.tilesY, tx, columns[tx], ty);
      if InRuns(columns[tx], ty) {
        var k :| 0 <= k < |columns[tx]| && columns[tx][k].Has(ty);
        assert columns[tx][k] in columns[tx];
      }
      if Covers(ranges, tx, ty) {
        var run :| run in runCols && tx in runCols[run] && run.Has(ty);
        var k :| 0 <= k < |columns[tx]| && columns[tx][k] == run;
      }
    }
  }

  // ---------- consequences ----------

  /** No two tiles of a merge share their representative index, and every tile reads
      its own range back. */
  lemma RepresentativesDistinct(g: Grid, gap: nat, q: Qualities, tiles: seq<Tile>, ranges: seq<CellRange>)
    requires IsMerge(g, gap, q, tiles, ranges)
    ensures forall k :: 0 <= k < |tiles| ==>
              tiles[k].width > 0 && tiles[k].height > 0 && tiles[k].GridBounds(g) == ranges[k]
    ensures forall i, j :: 0 <= i < j < |tiles| ==>
              tiles[i].RepresentativeIndex(g) != tiles[j].RepresentativeIndex(g)
  {
    forall k | 0 <= k < |tiles|
      ensures tiles[k].width > 0 && tiles[k].height > 0 && tiles[k].GridBounds(g) == ranges[k]
      ensures tiles[k].RepresentativeIndex(g) == g.IndexOf(ranges[k].x0, ranges[k].y0)
    {
      BoundsInvertSpans(g, ranges[k], Average(q, ranges[k]));
    }
    forall i, j | 0 <= i < j < |tiles|
      ensures tiles[i].RepresentativeIndex(g) != tiles[j].RepresentativeIndex(g)
    {
      IndexJoin(g, ranges[i].x0, ranges[i].y0);
      IndexJoin(g, ranges[j].x0, ranges[j].y0);
      if tiles[i].RepresentativeIndex(g) == tiles[j].RepresentativeIndex(g) {
        assert ranges[i].Has(ranges[i].x0, ranges[i].y0) && ranges[j].Has(ranges[i].x0, ranges[i].y0);
        assert Overlap(ranges[i], ranges[j]);
      }
    }
  }

  // ---------- where a merge cuts ----------

  /** The two cells lie in one rectangle. */
  predicate Together(ranges: seq<CellRange>, tx: nat, ty: nat, ux: nat, uy: nat) {
    exists k :: 0 <= k < |ranges| && ranges[k].Has(tx, ty) && ranges[k].Has(ux, uy)
  }

  lemma ChunkHolding(g: Grid, gap: nat, q: Qualities, tiles: seq<Tile>, ranges: seq<CellRange>, run: Run, tx: nat, ty: nat)
    returns (k: nat, gs: nat, ge: nat)
    requires IsMerge(g, gap, q, tiles, ranges) && tx < g.tilesX
    requires IsRun(q.Keys, gap, g.tilesY, tx, run) && run.Has(ty)
    ensures k < |ranges| && ranges[k].Has(tx, ty) && gs <= tx <= ge
    ensures IsRunGroup(q.Keys, gap, g, run, gs, ge) && ChunkOf(ranges[k], run, gs, ge)
  {
    assert Covers(ranges, tx, ty);
    k :| 0 <= k < |ranges| && ranges[k].Has(tx, ty);
    assert IsChunk(q.Keys, gap, g, ranges[k]);
    var other: Run;
    other, gs, ge :| IsRunGroup(q.Keys, gap, g, other, gs, ge) && ChunkOf(ranges[k], other, gs, ge);
    SameMaximalRun(q.Keys, gap, g.tilesY, tx, run, other, ty);
  }

  lemma OnlyRange(ranges: seq<CellRange>, k: nat, tx: nat, ty: nat, ux: nat, uy: nat)
    requires PairwiseDisjoint(ranges) && k < |ranges| && ranges[k].Has(tx, ty)
    ensures Together(ranges, tx, ty, ux, uy) <==> ranges[k].Has(ux, uy)
  {
    if Together(ranges, tx, ty, ux, uy) {
      var j :| 0 <= j < |ranges| && ranges[j].Has(tx, ty) && ranges[j].Has(ux, uy);
      assert j != k ==> Overlap(ranges[j], ranges[k]) && Overlap(ranges[k], ranges[j]);
    }
  }

  lemma FourthOrNot(from: nat, at: nat, y: nat)
    requires from <= at <= y <= at + 3 && (at - from) % 4 == 0
    ensures y + 1 <= at + 3 <==> (y + 1 - from) % 4 != 0
  {
    assert y + 1 - from == (at - from) + (y + 1 - at);
  }

  /** A maximal stretch of filled rows is cut after every fourth row from its top, and nowhere
      else. */
  lemma CutsEveryFourthRow(g: Grid, gap: nat, q: Qualities, tiles: seq<Tile>, ranges: seq<CellRange>,
                           run: Run, tx: nat, ty: nat)
    requires IsMerge(g, gap, q, tiles, ranges) && tx < g.tilesX
    requires IsRun(q.Keys, gap, g.tilesY, tx, run) && run.start <= ty < run.end
    ensures Together(ranges, tx, ty, tx, ty + 1) <==> (ty + 1 - run.start) % 4 != 0
  {
    var k, gs, ge := ChunkHolding(g, gap, q, tiles, ranges, run, tx, ty);
    OnlyRange(ranges, k, tx, ty, tx, ty + 1);
    FourthOrNot(run.start, ranges[k].y0, ty);
  }

  /** Columns that share a stretch are cut after every fourth one from the leftmost, and
      nowhere else. */
  lemma CutsEveryFourthColumn(g: Grid, gap: nat, q: Qualities, tiles: seq<Tile>, ranges: seq<CellRange>,
                              run: Run, from: nat, tx: nat, ty: nat)
    requires IsMerge(g, gap, q, tiles, ranges) && from <= tx && tx + 1 < g.tilesX && run.Has(ty)
    requires forall c: nat :: from <= c <= tx + 1 ==> IsRun(q.Keys, gap, g.tilesY, c, run)
    requires from > 0 ==> !IsRun(q.Keys, gap, g.tilesY, from - 1, run)
    ensures Together(ranges, tx, ty, tx + 1, ty) <==> (tx + 1 - from) % 4 != 0
  {
    var k, gs, ge := ChunkHolding(g, gap, q, tiles, ranges, run, tx, ty);
    SameGroup(q.Keys, gap, g, run, gs, ge, from, tx);
    OnlyRange(ranges, k, tx, ty, tx + 1, ty);
    ChunkEndsAtFourth(ranges[k], run, from, ge, tx, ty);
  }

  lemma ChunkEndsAtFourth(r: CellRange, run: Run, from: nat, ge: nat, tx: nat, ty: nat)
    requires ChunkOf(r, run, from, ge) && r.Has(tx, ty) && tx + 1 <= ge
    ensures r.Has(tx + 1, ty) <==> (tx + 1 - from) % 4 != 0
  {
    FourthOrNot(from, r.x0, tx);
  }

  lemma SameGroup(dirty: Cells, gap: nat, g: Grid, run: Run, gs: nat, ge: nat, from: nat, tx: nat)
    requires IsRunGroup(dirty, gap, g, run, gs, ge) && gs <= tx <= ge && from <= tx && tx + 1 < g.tilesX
    requires forall c: nat :: from <= c <= tx + 1 ==> IsRun(dirty, gap, g.tilesY, c, run)
    requires from > 0 ==> !IsRun(dirty, gap, g.tilesY, from - 1, run)
    ensures gs == from && tx + 1 <= ge
  {}

  /** Neighbouring columns with different stretches never share a rectangle. */
  lemma CutsBetweenStretches(g: Grid, gap: nat, q: Qualities, tiles: seq<Tile>, ranges: seq<CellRange>,
                             run: Run, tx: nat, ty: nat)
    requires IsMerge(g, gap, q, tiles, ranges) && tx + 1 < g.tilesX
    requires IsRun(q.Keys, gap, g.tilesY, tx, run) && run.Has(ty) && !IsRun(q.Keys, gap, g.tilesY, tx + 1, run)
    ensures !Together(ranges, tx, ty, tx + 1, ty)
  {
    var k, gs, ge := ChunkHolding(g, gap, q, tiles, ranges, run, tx, ty);
    OnlyRange(ranges, k, tx, ty, tx + 1, ty);
  }

  /** A chunk shorter than four rows ends on dirty cells. */
  lemma ShortChunkEndsDirty(dirty: Cells, gap: nat, g: Grid, r: CellRange, tx: nat)
    requires IsChunk(dirty, gap, g, r) && r.y1 + 1 < r.y0 + MAX_MERGE_TILES_Y && r.x0 <= tx <= r.x1
    ensures (tx, r.y1) in dirty
  {
    var run: Run, gs: nat, ge: nat :| IsRunGroup(dirty, gap, g, run, gs, ge) && ChunkOf(r, run, gs, ge);
    assert IsRun(dirty, gap, g.tilesY, tx, run) && run.Has(run.end) && run.end == r.y1;
    assert Filled(dirty, gap, g.tilesY, tx, run.end);
  }

  /** A tile of one cell is a dirty cell with its own quality, whatever the gap: gap
      cells only travel inside larger rectangles. */
  lemma SingleCellIsDirty(g: Grid, gap: nat, q: Qualities, tiles: seq<Tile>, ranges: seq<CellRange>, k: nat)
    requires IsMerge(g, gap, q, tiles, ranges) && k < |ranges| && ranges[k].Single()
    ensures (ranges[k].x0, ranges[k].y0) in q
    ensures tiles[k].quality == q[(ranges[k].x0, ranges[k].y0)]
  {
    ShortChunkEndsDirty(q.Keys, gap, g, ranges[k], ranges[k].x0);
    SingleAverage(q, ranges[k]);
  }

  lemma SingleAverage(q: Qualities, r: CellRange)
    requires r.Single() && (r.x0, r.y0) in q
    ensures Average(q, r) == q[(r.x0, r.y0)]
  {
    assert Count(q, r) == RowCount(q, r.x0, r.x0, r.y0) == 1;
    assert Sum(q, r) == RowSum(q, r.x0, r.x0, r.y0) == q[(r.x0, r.y0)];
  }

  /** With `merge_gap <= 2` every chunk has a dirty cell in each of its columns, so
      no tile is ever sent at the gap quality. */
  lemma SmallGapsLeaveNoCleanColumn(g: Grid, gap: nat, q: Qualities, tiles: seq<Tile>, ranges: seq<CellRange>,
                                    k: nat, tx: nat)
    requires IsMerge(g, gap, q, tiles, ranges) && gap <= 2
    requires k < |ranges| && ranges[k].x0 <= tx <= ranges[k].x1
    ensures exists ty: nat :: ranges[k].Has(tx, ty) && (tx, ty) in q
    ensures Count(q, ranges[k]) > 0
  {
    var r := ranges[k];
    CountZero(q, r);
    assert IsChunk(q.Keys, gap, g, r) && r.Has(tx, r.y0) && r.Has(tx, r.y1);
    if r.y1 + 1 < r.y0 + MAX_MERGE_TILES_Y {
      ShortChunkEndsDirty(q.Keys, gap, g, r, tx);
    } else if (tx, r.y1) !in q.Keys {
      assert Covers(ranges, tx, r.y0);
      assert Filled(q.Keys, gap, g.tilesY, tx, r.y0);
      if (tx, r.y0) !in q.Keys {
        var a: nat, b: nat :| a < r.y0 < b < g.tilesY && b - a <= gap + 2 && (tx, a) in q.Keys && (tx, b) in q.Keys;
        assert r.Has(tx, b);
      }
    }
  }

  /** With `merge_gap >= 3`, the most aggressive setting, a chunk without any dirty
      cell does occur: rows 0-3 and 8 dirty in a single column. */
  lemma LargeGapLeavesCleanChunk(gap: nat, quality: real, tiles: seq<Tile>, ranges: seq<CellRange>)
    requires gap >= 3
    requires IsMerge(Grid(1, 9, 1, 1, 1, 9), gap, CleanChunkExample(quality), tiles, ranges)
    ensures exists k :: 0 <= k < |tiles| && ranges[k] == CellRange(0, 4, 0, 7) && tiles[k].quality == 10.0
  {
    var g, q := Grid(1, 9, 1, 1, 1, 9), CleanChunkExample(quality);
    ExampleIsFilled(gap, quality);
    assert Covers(ranges, 0, 4);
    var k :| 0 <= k < |ranges| && ranges[k].Has(0, 4);
    FullColumnChunk(q.Keys, gap, g, ranges[k]);
    ExampleChunkIsClean(quality);
    CountZero(q, CellRange(0, 4, 0, 7));
  }

  lemma ExampleIsFilled(gap: nat, quality: real)
    requires gap >= 3
    ensures forall ty: nat :: ty < 9 ==> Filled(CleanChunkExample(quality).Keys, gap, 9, 0, ty)
  {}

  lemma ExampleChunkIsClean(quality: real)
    ensures forall tx: nat, ty: nat :: CellRange(0, 4, 0, 7).Has(tx, ty) ==> (tx, ty) !in CleanChunkExample(quality)
  {}

  lemma FullColumnChunk(dirty: Cells, gap: nat, g: Grid, r: CellRange)
    requires g.tilesX == 1 && g.tilesY == 9 && IsChunk(dirty, gap, g, r) && r.Has(0, 4)
    requires forall ty: nat :: ty < 9 ==> Filled(dirty, gap, g.tilesY, 0, ty)
    ensures r == CellRange(0, 4, 0, 7)
  {
    var run: Run, gs: nat, ge: nat :| IsRunGroup(dirty, gap, g, run, gs, ge) && ChunkOf(r, run, gs, ge);
    assert IsRun(dirty, gap, g.tilesY, 0, run);
    assert run.start == 0 && run.end == 8;
  }

  function CleanChunkExample(quality: real): Qualities {
    map[(0, 0) := quality, (0, 1) := quality, (0, 2) := quality, (0, 3) := quality, (0, 8) := quality]
  }

  // ---------- how many tiles ----------

  function RowCells(x0: nat, n: nat, ty: nat): (s: Cells)
    ensures |s| == n
    ensures forall c :: c in s <==> x0 <= c.0 < x0 + n && c.1 == ty
  {
    if n == 0 then {} else RowCells(x0, n - 1, ty) + {(x0 + n - 1, ty)}
  }

  /** The cells of `n` rows of a range, from its top. */
  function RangeCells(r: CellRange, n: nat): (s: Cells)
    requires r.x0 <= r.x1 < r.x0 + 4
    ensures |s| <= 4 * n
    ensures forall c :: c in s <==> r.x0 <= c.0 <= r.x1 && r.y0 <= c.1 < r.y0 + n
  {
    if n == 0 then {} else RangeCells(r, n - 1) + RowCells(r.x0, r.x1 + 1 - r.x0, r.y0 + n - 1)
  }

  /** Ranges of at most 4x4 cells need one range per sixteen cells they cover. */
  lemma {:induction false} SixteenCellsPerRange(ranges: seq<CellRange>, s: Cells)
    requires forall k :: 0 <= k < |ranges| ==>
               ranges[k].x0 <= ranges[k].x1 < ranges[k].x0 + 4 && ranges[k].y0 <= ranges[k].y1 < ranges[k].y0 + 4
    requires forall c <- s :: Covers(ranges, c.0, c.1)
    ensures |s| <= 16 * |ranges|
  {
    if ranges == [] {
      assert forall c <- s :: Covers(ranges, c.0, c.1);
      assert s == {};
    } else {
      var last := ranges[|ranges| - 1];
      var rest := ranges[..|ranges| - 1];
      var own := RangeCells(last, last.y1 + 1 - last.y0);
      assert |own| <= 16;
      forall c | c in s - own
        ensures Covers(rest, c.0, c.1)
      {
        assert ranges == rest + [last] && [last][0] == last;
        CoversAppend(rest, [last], c.0, c.1);
      }
      SixteenCellsPerRange(rest, s - own);
      assert s <= (s - own) + own;
      SubsetSize(s, (s - own) + own);
    }
  }

  lemma SubsetSize<T>(a: set<T>, b: set<T>)
    requires a <= b
    ensures |a| <= |b|
  {
    assert b == a + (b - a);
  }

  /** A merge emits at least one tile per sixteen dirty cells of the grid. */
  lemma MergeSizeBound(g: Grid, gap: nat, q: Qualities, tiles: seq<Tile>, ranges: seq<CellRange>)
    requires IsMerge(g, gap, q, tiles, ranges)
    requires forall c <- q.Keys :: c.0 < g.tilesX && c.1 < g.tilesY
    ensures |q.Keys| <= 16 * |tiles|
  {
    forall c | c in q.Keys
      ensures Covers(ranges, c.0, c.1)
    {
      assert Filled(q.Keys, gap, g.tilesY, c.0, c.1);
    }
    forall k | 0 <= k < |ranges|
      ensures ranges[k].x1 < ranges[k].x0 + 4 && ranges[k].y1 < ranges[k].y0 + 4
    {
      assert IsChunk(q.Keys, gap, g, ranges[k]);
    }
    SixteenCellsPerRange(ranges, q.Keys);
  }
}
