/** The refresh clock of the pipeline over whole runs (src/pipeline.rs): a quality refresh
    comes within a second, no sooner, and sends again what was last sent at low quality. */
module Refreshes {
  import opened Common
  import Grids
  import opened Frames
  import opened Detection
  import opened DetectionRuns
  import opened Pipelines
  import opened PipelineRuns
  import DiffDetectors
  import SendHistories
  import Sessions

  /** The frame begins with a refresh: the detector meets it with every encode dropped and
      the cells last sent as dynamic reset, and the clock restarts. */
  ghost predicate BeginsWithRefresh(p: PState, call: Call, p': PState) {
    call.DoProcess? && Met(p, call.frame, call.now) == InvalidateCache(p.det) && p'.lastRefresh == call.now
  }

  /** The frame leaves the detector's cells and the clock alone. */
  ghost predicate LeavesCells(p: PState, call: Call, p': PState) {
    call.DoProcess? && Met(p, call.frame, call.now) == p.det && p'.lastRefresh == p.lastRefresh
  }

  /** A frame of a new size restarts the clock; one of the same size begins with a refresh
      exactly when a second has passed on it, and leaves everything alone otherwise. */
  lemma RefreshIff(cfg: Config, hash: Hash, codec: Codec, p: PState, call: Call, p': PState)
    requires Calls(cfg, hash, codec, p, call, p') && call.DoProcess?
    ensures p'.size == Some((call.frame.width, call.frame.height))
    ensures p.size != p'.size ==> p'.lastRefresh == call.now
    ensures p.size != p'.size && p.size.Some? ==> Met(p, call.frame, call.now) == INITIAL_STATE
    ensures p.size == p'.size && call.now >= p.lastRefresh + 1000 ==> BeginsWithRefresh(p, call, p')
    ensures p.size == p'.size && call.now < p.lastRefresh + 1000 ==> LeavesCells(p, call, p')
  {}

  // ---------- over whole runs ----------

  /** The clock never steps back. */
  predicate Ticking(calls: seq<Call>) {
    forall a, b :: 0 <= a < b < |calls| && calls[a].DoProcess? && calls[b].DoProcess? ==> calls[a].now <= calls[b].now
  }

  /** Every frame of calls `j` to `k` has the size that the run had after call `j`. */
  predicate OneSize(calls: seq<Call>, j: nat, k: nat) {
    j <= k < |calls| && forall a, b :: j <= a <= b <= k && calls[a].DoProcess? && calls[b].DoProcess? ==>
      calls[a].frame.width == calls[b].frame.width && calls[a].frame.height == calls[b].frame.height
  }

  /** The clock was last restarted at the time of a frame already processed. */
  lemma {:induction false} ClockIsPast(cfg: Config, hash: Hash, codec: Codec, states: seq<PState>, calls: seq<Call>,
                                       m: nat, t: nat)
    requires PipelineRun(cfg, hash, codec, states, calls) && m <= |calls| && states[m].size.Some?
    requires forall a :: 0 <= a < m && calls[a].DoProcess? ==> calls[a].now <= t
    ensures states[m].lastRefresh <= t
  {
    assert Calls(cfg, hash, codec, states[m - 1], calls[m - 1], states[m]);
    if calls[m - 1].DoProcess? {
      RefreshIff(cfg, hash, codec, states[m - 1], calls[m - 1], states[m]);
      if states[m - 1].size == states[m].size { ClockIsPast(cfg, hash, codec, states, calls, m - 1, t); }
    } else {
      ClockIsPast(cfg, hash, codec, states, calls, m - 1, t);
    }
  }

  lemma {:induction false} SizeStays(cfg: Config, hash: Hash, codec: Codec, states: seq<PState>, calls: seq<Call>,
                                     j: nat, m: nat, k: nat)
    requires PipelineRun(cfg, hash, codec, states, calls) && OneSize(calls, j, k) && calls[j].DoProcess? && j < m <= k
    ensures states[m].size == Some((calls[j].frame.width, calls[j].frame.height))
  {
    assert Calls(cfg, hash, codec, states[m - 1], calls[m - 1], states[m]);
    if calls[m - 1].DoProcess? {
      RefreshIff(cfg, hash, codec, states[m - 1], calls[m - 1], states[m]);
    } else {
      SizeStays(cfg, hash, codec, states, calls, j, m - 1, k);
    }
  }

  /** Between frames of one size the clock moves at refreshes only. */
  lemma {:induction false} MovedByRefresh(cfg: Config, hash: Hash, codec: Codec, states: seq<PState>, calls: seq<Call>,
                                          j: nat, m: nat, k: nat) returns (r: nat)
    requires PipelineRun(cfg, hash, codec, states, calls) && OneSize(calls, j, k) && calls[j].DoProcess? && j < m <= k
    requires states[m].lastRefresh != states[j + 1].lastRefresh
    ensures j < r < m && BeginsWithRefresh(states[r], calls[r], states[r + 1])
  {
    assert Calls(cfg, hash, codec, states[m - 1], calls[m - 1], states[m]);
    SizeStays(cfg, hash, codec, states, calls, j, m - 1, k);
    r := m - 1;
    if calls[r].DoProcess? { RefreshIff(cfg, hash, codec, states[r], calls[r], states[m]); }
    if states[r].lastRefresh == states[m].lastRefresh { r := MovedByRefresh(cfg, hash, codec, states, calls, j, m - 1, k); }
  }

  /** A refresh comes within a second: of two frames at least 1000 ms apart in a run, with
      frames of their size only in between, some frame after the first and up to the second
      begins with a refresh. */
  lemma RefreshWithinASecond(cfg: Config, hash: Hash, codec: Codec, states: seq<PState>, calls: seq<Call>, j: nat, k: nat)
    returns (r: nat)
    requires PipelineRun(cfg, hash, codec, states, calls) && Ticking(calls) && j < k && OneSize(calls, j, k)
    requires calls[j].DoProcess? && calls[k].DoProcess? && calls[k].now >= calls[j].now + 1000
    ensures j < r <= k && BeginsWithRefresh(states[r], calls[r], states[r + 1])
  {
    assert Calls(cfg, hash, codec, states[j], calls[j], states[j + 1]);
    assert Calls(cfg, hash, codec, states[k], calls[k], states[k + 1]);
    RefreshIff(cfg, hash, codec, states[j], calls[j], states[j + 1]);
    RefreshIff(cfg, hash, codec, states[k], calls[k], states[k + 1]);
    ClockIsPast(cfg, hash, codec, states, calls, j + 1, calls[j].now);
    SizeStays(cfg, hash, codec, states, calls, j, k, k);
    r := k;
    if calls[k].now < states[k].lastRefresh + 1000 { r := MovedByRefresh(cfg, hash, codec, states, calls, j, k, k); }
  }

  lemma {:induction false} ClockGrows(cfg: Config, hash: Hash, codec: Codec, states: seq<PState>, calls: seq<Call>,
                                      r: nat, m: nat)
    requires PipelineRun(cfg, hash, codec, states, calls) && Ticking(calls) && r < m <= |calls|
    requires calls[r].DoProcess? && states[r + 1].lastRefresh == calls[r].now
    ensures states[m].lastRefresh >= calls[r].now
  {
    if r + 1 < m {
      ClockGrows(cfg, hash, codec, states, calls, r, m - 1);
      assert Calls(cfg, hash, codec, states[m - 1], calls[m - 1], states[m]);
      if calls[m - 1].DoProcess? { RefreshIff(cfg, hash, codec, states[m - 1], calls[m - 1], states[m]); }
    }
  }

  /** And no sooner: less than 1000 ms after a frame that restarted the clock, by a new size
      or a refresh, a frame that does not change the size leaves the cells alone. */
  lemma NoRefreshSooner(cfg: Config, hash: Hash, codec: Codec, states: seq<PState>, calls: seq<Call>, r: nat, k: nat)
    requires PipelineRun(cfg, hash, codec, states, calls) && Ticking(calls) && r < k < |calls|
    requires calls[r].DoProcess?
    requires states[r].size != states[r + 1].size || BeginsWithRefresh(states[r], calls[r], states[r + 1])
    requires calls[k].DoProcess? && calls[k].now < calls[r].now + 1000
    requires states[k].size == Some((calls[k].frame.width, calls[k].frame.height))
    ensures LeavesCells(states[k], calls[k], states[k + 1])
  {
    assert Calls(cfg, hash, codec, states[r], calls[r], states[r + 1]);
    assert Calls(cfg, hash, codec, states[k], calls[k], states[k + 1]);
    RefreshIff(cfg, hash, codec, states[r], calls[r], states[r + 1]);
    RefreshIff(cfg, hash, codec, states[k], calls[k], states[k + 1]);
    ClockGrows(cfg, hash, codec, states, calls, r, k);
  }

  // ---------- what a refresh is for ----------

  lemma RefreshedIsSent(cfg: Config, c: Cell, l: Look)
    requires cfg.Valid() && c.meta.lastSentAsDynamic && !l.first && l.half != 0 && l.full != 0
    requires l.frameCount >= cfg.targetFps / cfg.staticTileFps
    ensures Sent(cfg, Refreshed(c), l) && !Dynamic(Refreshed(c), l)
  {}

  lemma RefreshSends(cfg: Config, hash: Hash, s: State, f: Frame, i: nat)
    requires s.cells != [] && Fits(cfg, InvalidateCache(s), f) && AllHashable(cfg, hash, f)
    requires i < |s.cells| && s.cells[i].meta.lastSentAsDynamic && s.frameCount + 1 >= cfg.targetFps / cfg.staticTileFps
    ensures var s' := InvalidateCache(s);
            && i < cfg.GridOf(f).CellCount() && SentAt(cfg, hash, s', f, i)
            && !Dynamic(CellsFor(cfg, s', f)[i], LookAt(cfg, hash, s', f, i))
  {
    assert Hashable(hash, ContentAt(cfg, f, i));
    RefreshedIsSent(cfg, s.cells[i], LookAt(cfg, hash, InvalidateCache(s), f, i));
  }

  /** A frame that begins with a refresh has every cell last sent as dynamic in its batch, if
      its number has reached the static interval. */
  lemma RefreshSendsDynamic(cfg: Config, hash: Hash, codec: Codec, p: PState, call: Call, p': PState, i: nat)
    requires Calls(cfg, hash, codec, p, call, p') && BeginsWithRefresh(p, call, p')
    requires i < |p.det.cells| && p.det.cells[i].meta.lastSentAsDynamic
    requires p.det.frameCount + 1 >= cfg.targetFps / cfg.staticTileFps
    ensures call.out.Some? && i in call.out.value.ackIndices
  {
    RefreshSends(cfg, hash, p.det, call.frame, i);
    Sessions.SentIsCovered(cfg, hash, codec, InvalidateCache(p.det), call.frame, call, i);
  }

  /** And at the high quality. */
  lemma RefreshSendsAtHighQuality(cfg: Config, hash: Hash, s: State, f: Frame, scale: real, i: nat, wanted: real,
                                  tiles: seq<Grids.Tile>, indices: seq<nat>, k: nat)
    requires s.cells != [] && Fits(cfg, InvalidateCache(s), f) && AllHashable(cfg, hash, f)
    requires i < |s.cells| && s.cells[i].meta.lastSentAsDynamic && s.frameCount + 1 >= cfg.targetFps / cfg.staticTileFps
    requires DiffDetectors.SentTiles(cfg, hash, InvalidateCache(s), f, scale, tiles, indices)
    requires k < |indices| == |tiles| && indices[k] == i && wanted == cfg.qualityHigh * scale
    ensures SendHistories.Limited(wanted, tiles[k].quality)
  {
    RefreshSends(cfg, hash, s, f, i);
    assert tiles[k] == DiffDetectors.SentTile(cfg, hash, InvalidateCache(s), f, scale, i);
    SendHistories.QualityIsLimited(cfg, true, scale, wanted, tiles[k].quality);
  }

  /** The detector counts the frames of one size. */
  lemma {:induction false} FramesCount(cfg: Config, hash: Hash, codec: Codec, states: seq<PState>, calls: seq<Call>,
                                       j: nat, m: nat, k: nat)
    requires PipelineRun(cfg, hash, codec, states, calls) && OneSize(calls, j, k) && calls[j].DoProcess? && j < m <= k
    ensures states[m].det.frameCount >= states[j + 1].det.frameCount
  {
    if m > j + 1 {
      assert Calls(cfg, hash, codec, states[m - 1], calls[m - 1], states[m]);
      FramesCount(cfg, hash, codec, states, calls, j, m - 1, k);
      SizeStays(cfg, hash, codec, states, calls, j, m - 1, k);
    }
  }

  /** Together: within a second of any frame, at an unchanged size, some frame has in its
      batch every cell that had last been sent as dynamic when it came, unless the detector
      is too young. */
  lemma DynamicIsRefreshed(cfg: Config, hash: Hash, codec: Codec, states: seq<PState>, calls: seq<Call>, j: nat, k: nat)
    returns (r: nat)
    requires PipelineRun(cfg, hash, codec, states, calls) && Ticking(calls) && j < k && OneSize(calls, j, k)
    requires calls[j].DoProcess? && calls[k].DoProcess? && calls[k].now >= calls[j].now + 1000
    requires states[j + 1].det.frameCount + 1 >= cfg.targetFps / cfg.staticTileFps
    ensures j < r <= k && calls[r].DoProcess?
    ensures forall i: nat :: i < |states[r].det.cells| && states[r].det.cells[i].meta.lastSentAsDynamic ==>
              calls[r].out.Some? && i in calls[r].out.value.ackIndices
  {
    r := RefreshWithinASecond(cfg, hash, codec, states, calls, j, k);
    FramesCount(cfg, hash, codec, states, calls, j, r, k);
    assert Calls(cfg, hash, codec, states[r], calls[r], states[r + 1]);
    AllDynamicSent(cfg, hash, codec, states[r], calls[r], states[r + 1]);
  }

  lemma AllDynamicSent(cfg: Config, hash: Hash, codec: Codec, p: PState, call: Call, p': PState)
    requires Calls(cfg, hash, codec, p, call, p') && BeginsWithRefresh(p, call, p')
    requires p.det.frameCount + 1 >= cfg.targetFps / cfg.staticTileFps
    ensures forall i: nat :: i < |p.det.cells| && p.det.cells[i].meta.lastSentAsDynamic ==>
              call.out.Some? && i in call.out.value.ackIndices
  {
    forall i: nat | i < |p.det.cells| && p.det.cells[i].meta.lastSentAsDynamic
      ensures call.out.Some? && i in call.out.value.ackIndices
    {
      RefreshSendsDynamic(cfg, hash, codec, p, call, p', i);
    }
  }
}
