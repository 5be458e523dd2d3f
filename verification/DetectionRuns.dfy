/** What the detector guarantees over whole runs of frames, losses and refreshes:
    consistent baselines, immediate re-arming, and convergence of what was sent to
    the baseline. Ghost contents record which bytes each cell's hashes came from and
    which bytes were last sent. */
module DetectionRuns {
  import opened Common
  import Grids
  import opened Frames
  import opened Detection

  type Hash = seq<bv8> -> u64

  /** The bytes of one cell in one frame, and those of its sampled rows. */
  datatype Content = Content(rows: seq<bv8>, sampled: seq<bv8>)

  /** A cell with the content its hashes were taken from and the content last sent. */
  datatype Tracked = Tracked(cell: Cell, base: Option<Content>, sent: Option<Content>)

  function LookOf(hash: Hash, first: bool, outsideDamage: bool, n: nat, c: Content): Look {
    Look(first, outsideDamage, n, hash(c.sampled), hash(c.rows))
  }

  /** One frame showing the cell as `c`. */
  function Shown(cfg: Config, hash: Hash, t: Tracked, first: bool, outsideDamage: bool, n: nat, c: Content): Tracked
    requires cfg.Valid()
  {
    var l := LookOf(hash, first, outsideDamage, n, c);
    Tracked(NextCell(cfg, t.cell, l),
            if Changed(t.cell, l) then Some(c) else t.base,
            if Sent(cfg, t.cell, l) then Some(c) else t.sent)
  }

  function Lost(t: Tracked): Tracked {
    Tracked(Invalidated(t.cell), None, t.sent)
  }

  function RefreshedTracked(t: Tracked): Tracked {
    Tracked(Refreshed(t.cell), if t.cell.meta.lastSentAsDynamic then None else t.base, t.sent)
  }

  /** Zero is the reset value, so contents must not hash to it. */
  predicate Hashable(hash: Hash, c: Content) {
    hash(c.rows) != 0 && hash(c.sampled) != 0
  }

  /** A cell of a detector that has seen `n > 0` frames, whatever was throttled: its two
      hashes come from one and the same content, or all are zero with the cell armed;
      and what was last sent is its baseline, or it was sent as dynamic, or it has not
      been sent since its last reset. */
  ghost predicate CellInv(hash: Hash, t: Tracked, n: nat) {
    && (t.base.Some? ==>
          && Hashable(hash, t.base.value) && !t.cell.force
          && t.cell.prev == hash(t.base.value.rows) && t.cell.meta.prevHalfHash == hash(t.base.value.sampled)
          && (t.sent == t.base || t.cell.meta.lastSentAsDynamic || t.cell.meta.lastSentFrame == 0))
    && (t.base.None? ==>
          && t.cell.force && t.cell.prev == 0 == t.cell.prevPrev
          && t.cell.meta.prevHalfHash == 0 && t.cell.meta.lastSentFrame == 0)
    && (t.cell.meta.lastSentFrame > 0 ==> t.cell.prevPrev != t.cell.prev)
    && t.cell.meta.lastSentFrame <= n
  }

  /** No resend of the cell has been throttled away. */
  predicate Resent(t: Tracked) {
    t.base.Some? ==> t.cell.meta.lastSentFrame > 0
  }

  /** A re-armed cell is only certain to be sent once the frame number reaches the
      static interval. */
  predicate Unthrottled(cfg: Config, c: Cell, n: nat)
    requires cfg.Valid()
  {
    c.force ==> n >= cfg.StaticInterval()
  }

  lemma ShownFirst(cfg: Config, hash: Hash, outsideDamage: bool, n: nat, c: Content)
    requires cfg.Valid() && Hashable(hash, c) && n > 0
    ensures var t := Shown(cfg, hash, Tracked(FRESH_CELL, None, None), true, outsideDamage, n, c);
            CellInv(hash, t, n) && Resent(t) && t.sent == t.base == Some(c)
  {}

  /** The invariant survives every frame, throttled or not; a frame that throttles no
      armed cell throttles no resend. */
  lemma ShownKeepsInv(cfg: Config, hash: Hash, t: Tracked, outsideDamage: bool, n: nat, c: Content)
    requires cfg.Valid() && Hashable(hash, c) && CellInv(hash, t, n)
    ensures var t' := Shown(cfg, hash, t, false, outsideDamage, n + 1, c);
            CellInv(hash, t', n + 1) && (Resent(t) && Unthrottled(cfg, t.cell, n + 1) ==> Resent(t'))
  {}

  lemma LostKeepsInv(hash: Hash, t: Tracked, n: nat)
    requires CellInv(hash, t, n)
    ensures CellInv(hash, Lost(t), n) && Resent(Lost(t))
  {}

  lemma RefreshKeepsInv(hash: Hash, t: Tracked, n: nat)
    requires CellInv(hash, t, n)
    ensures CellInv(hash, RefreshedTracked(t), n) && (Resent(t) ==> Resent(RefreshedTracked(t)))
  {}

  // ---------- when a cell is dynamic ----------

  /** A changed cell is dynamic exactly when it has been sent since it was last reset:
      the previous hash only shifts on a change, so "changed on the last two frames"
      plays no part. */
  lemma SentBeforeIsDynamic(hash: Hash, t: Tracked, n: nat, l: Look)
    requires CellInv(hash, t, n) && !l.first && Changed(t.cell, l)
    ensures Dynamic(t.cell, l) <==> t.cell.meta.lastSentFrame > 0
  {}

  /** A cell that sat still for any number of frames is dynamic on its next change,
      exactly when it had been sent before. */
  lemma {:induction false} IdleCellIsDynamic(cfg: Config, hash: Hash, t: Tracked, n: nat, idle: nat, c: Content)
    requires cfg.Valid() && CellInv(hash, t, n) && t.base.Some? && Hashable(hash, c)
    requires c.rows != t.base.value.rows && hash(c.rows) != hash(t.base.value.rows)
    requires hash(c.sampled) != hash(t.base.value.sampled)
    ensures var t' := StayStill(cfg, hash, t, n, idle);
            Dynamic(t'.cell, LookOf(hash, false, false, n + idle + 1, c)) <==> t.cell.meta.lastSentFrame > 0
    decreases idle
  {
    if idle > 0 {
      var t1 := Shown(cfg, hash, t, false, false, n + 1, t.base.value);
      ShownKeepsInv(cfg, hash, t, false, n, t.base.value);
      IdleCellIsDynamic(cfg, hash, t1, n + 1, idle - 1, c);
    }
  }

  /** `idle` frames that show the cell's own baseline. */
  function StayStill(cfg: Config, hash: Hash, t: Tracked, n: nat, idle: nat): Tracked
    requires cfg.Valid() && t.base.Some?
    decreases idle
  {
    if idle == 0 then t else
      StayStill(cfg, hash, Shown(cfg, hash, t, false, false, n + 1, t.base.value), n + 1, idle - 1)
  }

  // ---------- re-arming ----------

  /** An invalidated cell is sent on the very next frame, whatever the damage, the
      content and the send history, exactly when the frame number has reached the
      static interval (and neither hash is the reset value). */
  lemma ReArmedIff(cfg: Config, hash: Hash, cell: Cell, outsideDamage: bool, n: nat, c: Content)
    requires cfg.Valid()
    ensures Sent(cfg, Invalidated(cell), LookOf(hash, false, outsideDamage, n, c))
        <==> Hashable(hash, c) && n >= cfg.StaticInterval()
  {}

  /** The same for whole frames: after any invalidation, the next frame returns a listed
      cell exactly when its number has reached the static interval. */
  lemma InvalidatedAreSent(cfg: Config, hash: Hash, s: State, indices: seq<nat>, f: Frame, i: nat)
    requires s.cells != [] && Fits(cfg, s, f) && i in indices && i < |s.cells|
    ensures Fits(cfg, InvalidateTiles(s, indices), f)
    ensures SentAt(cfg, hash, InvalidateTiles(s, indices), f, i)
        <==> Hashable(hash, ContentAt(cfg, f, i)) && s.frameCount + 1 >= cfg.StaticInterval()
  {
    var outside := f.damage != [] && !Marked(cfg.GridOf(f), f.damage, i);
    ReArmedIff(cfg, hash, s.cells[i], outside, s.frameCount + 1, ContentAt(cfg, f, i));
  }

  /** The bypass of the damage skip lasts for one frame. */
  lemma ReArmedOnce(cfg: Config, hash: Hash, cell: Cell, l: Look, l': Look)
    requires cfg.Valid() && !l'.first && l'.outsideDamage
    ensures var next := NextCell(cfg, cell, l);
            !next.force && Skipped(next, l') && !Sent(cfg, next, l')
  {}

  /** A re-armed cell that was throttled is not sent again while its content stays the
      same, however many frames follow: the forced resend is lost for good. */
  lemma {:induction false} ThrottledReArmIsLost(cfg: Config, hash: Hash, cell: Cell, n: nat, c: Content, more: nat)
    requires cfg.Valid() && Hashable(hash, c) && n < cfg.StaticInterval()
    ensures var t := Shown(cfg, hash, Lost(Tracked(cell, None, None)), false, false, n, c);
            StayStill(cfg, hash, t, n, more) == t && t.sent == None && !t.cell.force
  {
    var t := Shown(cfg, hash, Lost(Tracked(cell, None, None)), false, false, n, c);
    StillForever(cfg, hash, t, n, c, more);
  }

  lemma {:induction false} StillForever(cfg: Config, hash: Hash, t: Tracked, n: nat, c: Content, more: nat)
    requires cfg.Valid() && t.base == Some(c) && !t.cell.force
    requires t.cell.prev == hash(c.rows) && t.cell.meta.prevHalfHash == hash(c.sampled)
    ensures StayStill(cfg, hash, t, n, more) == t
    decreases more
  {
    if more > 0 {
      assert Shown(cfg, hash, t, false, false, n + 1, c) == t;
      StillForever(cfg, hash, t, n + 1, c, more - 1);
    }
  }

  // ---------- convergence ----------

  /** One refresh followed by one frame sends every cell whose last-sent content was
      not its baseline, if no resend of it was throttled away. */
  lemma RefreshedCellConverges(cfg: Config, hash: Hash, t: Tracked, outsideDamage: bool, n: nat, c: Content)
    requires cfg.Valid() && Hashable(hash, c) && CellInv(hash, t, n) && Resent(t)
    requires Unthrottled(cfg, RefreshedTracked(t).cell, n + 1)
    ensures var t' := Shown(cfg, hash, RefreshedTracked(t), false, outsideDamage, n + 1, c);
            t'.base.Some? && t'.sent == t'.base
  {}

  /** Without throttling, every change is sent at once. */
  lemma UnthrottledChangeIsSent(cfg: Config, cell: Cell, l: Look)
    requires cfg.Valid() && cfg.StaticInterval() <= 1 && cfg.DynamicInterval() <= 1
    requires cell.meta.lastSentFrame < l.frameCount && Changed(cell, l)
    ensures Sent(cfg, cell, l)
  {}

  // ---------- runs of the whole detector ----------

  datatype Detector = Detector(cells: seq<Tracked>, n: nat)

  datatype Event =
    | Show(frame: Frame)
    | Lose(indices: seq<nat>)
    | Refresh
    | Reset

  function Erase(d: Detector): (s: State)
    ensures |s.cells| == |d.cells| && s.frameCount == d.n
    ensures forall i :: 0 <= i < |d.cells| ==> s.cells[i] == d.cells[i].cell
  {
    State(seq(|d.cells|, i requires 0 <= i < |d.cells| => d.cells[i].cell), d.n)
  }

  function ContentAt(cfg: Config, f: Frame, i: nat): Content
    requires f.WellFormed() && i < cfg.GridOf(f).CellCount()
  {
    CellInFrame(cfg, f, i);
    var r := cfg.GridOf(f).CellRect(i);
    Content(f.TileBytes(r), f.SampledBytes(r))
  }

  function TrackedFor(cfg: Config, d: Detector, f: Frame): (cells: seq<Tracked>)
    requires Fits(cfg, Erase(d), f)
    ensures |cells| == cfg.GridOf(f).CellCount()
  {
    if d.cells == [] then seq(cfg.GridOf(f).CellCount(), i => Tracked(FRESH_CELL, None, None)) else d.cells
  }

  function ShowCell(cfg: Config, hash: Hash, d: Detector, f: Frame, i: nat): Tracked
    requires Fits(cfg, Erase(d), f) && i < cfg.GridOf(f).CellCount()
  {
    Shown(cfg, hash, TrackedFor(cfg, d, f)[i], d.cells == [],
          f.damage != [] && !Marked(cfg.GridOf(f), f.damage, i), d.n + 1, ContentAt(cfg, f, i))
  }

  function ShowFrame(cfg: Config, hash: Hash, d: Detector, f: Frame): (d': Detector)
    requires Fits(cfg, Erase(d), f)
    ensures |d'.cells| == cfg.GridOf(f).CellCount() && d'.n == d.n + 1
  {
    var count := cfg.GridOf(f).CellCount();
    Detector(seq(count, i requires 0 <= i < count => ShowCell(cfg, hash, d, f, i)), d.n + 1)
  }

  predicate Enabled(cfg: Config, d: Detector, e: Event) {
    e.Show? ==> Fits(cfg, Erase(d), e.frame)
  }

  function Apply(cfg: Config, hash: Hash, d: Detector, e: Event): Detector
    requires Enabled(cfg, d, e)
  {
    match e
    case Show(f) => ShowFrame(cfg, hash, d, f)
    case Lose(indices) =>
      d.(cells := seq(|d.cells|, i requires 0 <= i < |d.cells| => if i in indices then Lost(d.cells[i]) else d.cells[i]))
    case Refresh =>
      d.(cells := seq(|d.cells|, i requires 0 <= i < |d.cells| => RefreshedTracked(d.cells[i])))
    case Reset => Detector([], 0)
  }

  /** The ghost contents ride along: without them, an event does to the cells exactly
      what the detector's operation does. */
  lemma EraseApply(cfg: Config, hash: Hash, d: Detector, e: Event)
    requires Enabled(cfg, d, e)
    ensures Erase(Apply(cfg, hash, d, e)) == match e
                                             case Show(f) => Detect(cfg, hash, Erase(d), f)
                                             case Lose(indices) => InvalidateTiles(Erase(d), indices)
                                             case Refresh => InvalidateCache(Erase(d))
                                             case Reset => INITIAL_STATE
  {
    var after := Erase(Apply(cfg, hash, d, e));
    match e
    case Show(f) =>
      var spec := Detect(cfg, hash, Erase(d), f);
      forall i | 0 <= i < |after.cells|
        ensures after.cells[i] == spec.cells[i]
      {
        assert CellsFor(cfg, Erase(d), f)[i] == TrackedFor(cfg, d, f)[i].cell;
      }
      assert after.cells == spec.cells;
    case Lose(indices) => assert after.cells == InvalidateTiles(Erase(d), indices).cells;
    case Refresh => assert after.cells == InvalidateCache(Erase(d)).cells;
    case Reset =>
  }

  predicate AllHashable(cfg: Config, hash: Hash, f: Frame)
    requires f.WellFormed()
  {
    forall i: nat :: i < cfg.GridOf(f).CellCount() ==> Hashable(hash, ContentAt(cfg, f, i))
  }

  /** No cell would be re-armed in vain by the next frame. */
  predicate NoneThrottled(cfg: Config, d: Detector)
    requires cfg.Valid()
  {
    forall i :: 0 <= i < |d.cells| ==> Unthrottled(cfg, d.cells[i].cell, d.n + 1)
  }

  predicate Possible(cfg: Config, hash: Hash, d: Detector, e: Event) {
    Enabled(cfg, d, e) && (e.Show? ==> AllHashable(cfg, hash, e.frame))
  }

  /** The detector after a run. Frames may throttle armed cells. */
  function Exec(cfg: Config, hash: Hash, events: seq<Event>): Option<Detector> {
    if events == [] then Some(Detector([], 0)) else
      var before := Exec(cfg, hash, events[..|events| - 1]);
      var e := events[|events| - 1];
      if before.Some? && Possible(cfg, hash, before.value, e) then Some(Apply(cfg, hash, before.value, e)) else None
  }

  /** No frame of the run throttles an armed cell. */
  predicate Prompt(cfg: Config, hash: Hash, events: seq<Event>)
    requires cfg.Valid()
  {
    if events == [] then true else
      var before := Exec(cfg, hash, events[..|events| - 1]);
      && Prompt(cfg, hash, events[..|events| - 1])
      && (events[|events| - 1].Show? && before.Some? ==> NoneThrottled(cfg, before.value))
  }

  lemma ExecNext(cfg: Config, hash: Hash, events: seq<Event>, e: Event)
    ensures var before, after := Exec(cfg, hash, events), Exec(cfg, hash, events + [e]);
            && (after.Some? <==> before.Some? && Possible(cfg, hash, before.value, e))
            && (after.Some? ==> after == Some(Apply(cfg, hash, before.value, e)))
  {
    assert (events + [e])[..|events|] == events;
  }

  ghost predicate DetectorInv(hash: Hash, d: Detector) {
    (forall i :: 0 <= i < |d.cells| ==> CellInv(hash, d.cells[i], d.n)) && (d.cells != [] ==> d.n > 0)
  }

  ghost predicate AllResent(d: Detector) {
    forall i :: 0 <= i < |d.cells| ==> Resent(d.cells[i])
  }

  lemma ApplyKeepsInv(cfg: Config, hash: Hash, d: Detector, e: Event)
    requires DetectorInv(hash, d) && Possible(cfg, hash, d, e)
    ensures DetectorInv(hash, Apply(cfg, hash, d, e))
    ensures AllResent(d) && (e.Show? ==> NoneThrottled(cfg, d)) ==> AllResent(Apply(cfg, hash, d, e))
  {
    var d' := Apply(cfg, hash, d, e);
    forall i: nat | i < |d'.cells|
      ensures CellInv(hash, d'.cells[i], d'.n)
      ensures AllResent(d) && (e.Show? ==> NoneThrottled(cfg, d)) ==> Resent(d'.cells[i])
    {
      match e
      case Show(f) =>
        var outside := f.damage != [] && !Marked(cfg.GridOf(f), f.damage, i);
        assert Hashable(hash, ContentAt(cfg, f, i));
        if d.cells == [] {
          ShownFirst(cfg, hash, outside, d.n + 1, ContentAt(cfg, f, i));
        } else {
          ShownKeepsInv(cfg, hash, d.cells[i], outside, d.n, ContentAt(cfg, f, i));
        }
      case Lose(indices) => LostKeepsInv(hash, d.cells[i], d.n);
      case Refresh => RefreshKeepsInv(hash, d.cells[i], d.n);
      case Reset =>
    }
  }

  /** Every reachable state, whatever was throttled: each cell's two hashes come from
      one and the same content, or are both zero with the cell armed; what was last sent
      is its baseline, or was sent as dynamic, or predates its last reset. */
  lemma {:induction false} ReachableInv(cfg: Config, hash: Hash, events: seq<Event>)
    requires Exec(cfg, hash, events).Some?
    ensures DetectorInv(hash, Exec(cfg, hash, events).value)
  {
    if events != [] {
      var before := events[..|events| - 1];
      ReachableInv(cfg, hash, before);
      ApplyKeepsInv(cfg, hash, Exec(cfg, hash, before).value, events[|events| - 1]);
    }
  }

  /** In every run, a cell found changed is dynamic exactly when it has been sent since
      its last reset. */
  lemma DynamicMeansSentBefore(cfg: Config, hash: Hash, events: seq<Event>, i: nat, l: Look)
    requires Exec(cfg, hash, events).Some? && i < |Exec(cfg, hash, events).value.cells|
    requires !l.first && Changed(Exec(cfg, hash, events).value.cells[i].cell, l)
    ensures var c := Exec(cfg, hash, events).value.cells[i].cell; Dynamic(c, l) <==> c.meta.lastSentFrame > 0
  {
    ReachableInv(cfg, hash, events);
    var d := Exec(cfg, hash, events).value;
    SentBeforeIsDynamic(hash, d.cells[i], d.n, l);
  }

  /** In every run, a cell chosen at static quality after the first frame has not been
      sent since its last reset, and still lacks its baseline unless a resend was
      throttled away. */
  lemma StaticAfterFirstWasReset(cfg: Config, hash: Hash, events: seq<Event>, i: nat, l: Look)
    requires Exec(cfg, hash, events).Some? && i < |Exec(cfg, hash, events).value.cells|
    requires !l.first && Changed(Exec(cfg, hash, events).value.cells[i].cell, l)
    requires !Dynamic(Exec(cfg, hash, events).value.cells[i].cell, l)
    ensures var t := Exec(cfg, hash, events).value.cells[i];
            t.cell.meta.lastSentFrame == 0 && (t.cell.force <==> t.base.None?) && (Resent(t) <==> t.base.None?)
  {
    ReachableInv(cfg, hash, events);
    var d := Exec(cfg, hash, events).value;
    SentBeforeIsDynamic(hash, d.cells[i], d.n, l);
  }

  lemma {:induction false} PromptIsResent(cfg: Config, hash: Hash, events: seq<Event>)
    requires cfg.Valid() && Exec(cfg, hash, events).Some? && Prompt(cfg, hash, events)
    ensures AllResent(Exec(cfg, hash, events).value)
  {
    if events != [] {
      var before := events[..|events| - 1];
      PromptIsResent(cfg, hash, before);
      ReachableInv(cfg, hash, before);
      ApplyKeepsInv(cfg, hash, Exec(cfg, hash, before).value, events[|events| - 1]);
    }
  }

  /** With a static interval of at most two frames no armed cell is ever throttled. */
  lemma {:induction false} ShortIntervalIsPrompt(cfg: Config, hash: Hash, events: seq<Event>)
    requires cfg.Valid() && cfg.StaticInterval() <= 2
    ensures Prompt(cfg, hash, events)
  {
    if events != [] {
      var before := events[..|events| - 1];
      ShortIntervalIsPrompt(cfg, hash, before);
      if Exec(cfg, hash, before).Some? { ReachableInv(cfg, hash, before); }
    }
  }

  // ---------- convergence of whole runs ----------

  predicate EndsRefreshed(events: seq<Event>) {
    |events| >= 2 && events[|events| - 2].Refresh? && events[|events| - 1].Show?
  }

  /** Every cell was last sent as its baseline. */
  ghost predicate Converged(d: Detector) {
    forall i :: 0 <= i < |d.cells| ==> d.cells[i].base.Some? && d.cells[i].sent == d.cells[i].base
  }

  /** In every run in which no frame throttles an armed cell, one refresh followed by one
      frame leaves every cell's last-sent content equal to its baseline. */
  lemma RefreshConverges(cfg: Config, hash: Hash, events: seq<Event>)
    requires cfg.Valid() && Exec(cfg, hash, events).Some? && EndsRefreshed(events) && Prompt(cfg, hash, events)
    ensures Converged(Exec(cfg, hash, events).value)
  {
    var n := |events|;
    var earlier := events[..n - 2];
    var refreshed := events[..n - 1];
    assert refreshed[..n - 2] == earlier;
    var d, f := Exec(cfg, hash, earlier).value, events[n - 1].frame;
    ReachableInv(cfg, hash, earlier);
    PromptIsResent(cfg, hash, earlier);
    var d1 := Apply(cfg, hash, d, Refresh);
    var d2 := Apply(cfg, hash, d1, Show(f));
    forall i: nat | i < |d2.cells|
      ensures d2.cells[i].base.Some? && d2.cells[i].sent == d2.cells[i].base
    {
      var outside := f.damage != [] && !Marked(cfg.GridOf(f), f.damage, i);
      assert Hashable(hash, ContentAt(cfg, f, i));
      if d.cells == [] {
        ShownFirst(cfg, hash, outside, d.n + 1, ContentAt(cfg, f, i));
      } else {
        assert Unthrottled(cfg, d1.cells[i].cell, d1.n + 1);
        RefreshedCellConverges(cfg, hash, d.cells[i], outside, d.n, ContentAt(cfg, f, i));
      }
    }
  }

  // ---------- a frame of one pixel ----------

  type Pixel = p: seq<bv8> | |p| == 4 witness [0, 0, 0, 0]

  function Dot(p: Pixel): (f: Frame)
    ensures f.WellFormed() && f.width == f.height == 1 && f.damage == []
  {
    assert RowStart(1, 1) == 4;
    Frame(p, 1, 1, [])
  }

  const DOT_GRID := Grids.Grid(1, 1, 1, 1, 1, 1)

  lemma DotContent(cfg: Config, p: Pixel)
    ensures cfg.GridOf(Dot(p)) == DOT_GRID && DOT_GRID.CellCount() == 1
    ensures ContentAt(cfg, Dot(p), 0) == Content(p, p)
  {
    var f := Dot(p);
    CellInFrame(cfg, f, 0);
    assert cfg.GridOf(f).CellRect(0) == Grids.Rect(0, 0, 1, 1);
    assert f.Row(0, 0, 1) == p;
    assert f.Rows(0, 1, 0, 1, 1) == p + f.Rows(0, 1, 1, 1, 1) == p;
    assert f.Rows(0, 1, 0, 1, 2) == p + f.Rows(0, 1, 2, 1, 2) == p;
  }

  function OnlyCell(d: Detector): Tracked {
    if d.cells == [] then Tracked(FRESH_CELL, None, None) else d.cells[0]
  }

  /** The only cell of a detector that is shown single pixels. */
  lemma DotShown(cfg: Config, hash: Hash, d: Detector, p: Pixel)
    requires cfg.Valid() && |d.cells| <= 1 && hash(p) != 0
    ensures Possible(cfg, hash, d, Show(Dot(p)))
    ensures Apply(cfg, hash, d, Show(Dot(p)))
         == Detector([Shown(cfg, hash, OnlyCell(d), d.cells == [], false, d.n + 1, Content(p, p))], d.n + 1)
  {
    DotContent(cfg, p);
  }

  function StaleRun(a: Pixel, b: Pixel): seq<Event> {
    [Show(Dot(a)), Lose([0]), Show(Dot(b)), Refresh, Show(Dot(b))]
  }

  /** Pixel `a` is sent and lost, `b` shown in its place. With a static interval of three
      frames or more the forced resend is throttled, its flag dropped and `b` made the
      baseline; a refresh sees nothing to do, and `b` is never sent. */
  lemma StaleAfterRefresh(cfg: Config, hash: Hash, a: Pixel, b: Pixel)
    requires cfg.Valid() && cfg.StaticInterval() >= 3 && hash(a) != 0 && hash(b) != 0
    ensures EndsRefreshed(StaleRun(a, b)) && Exec(cfg, hash, StaleRun(a, b)).Some?
    ensures var d := Exec(cfg, hash, StaleRun(a, b)).value;
            |d.cells| == 1 && d.cells[0].base == Some(Content(b, b)) && d.cells[0].sent == Some(Content(a, a))
  {
    var d0, none: seq<Event> := Detector([], 0), [];
    var d1 := Apply(cfg, hash, d0, Show(Dot(a)));
    DotShown(cfg, hash, d0, a);
    ExecNext(cfg, hash, none, Show(Dot(a)));
    assert none + [Show(Dot(a))] == [Show(Dot(a))];
    StaleAfterLoss(cfg, hash, a, b, d1);
  }

  lemma StaleAfterLoss(cfg: Config, hash: Hash, a: Pixel, b: Pixel, d1: Detector)
    requires cfg.Valid() && cfg.StaticInterval() >= 3 && hash(a) != 0 && hash(b) != 0
    requires Exec(cfg, hash, [Show(Dot(a))]) == Some(d1)
    requires d1 == Detector([Shown(cfg, hash, Tracked(FRESH_CELL, None, None), true, false, 1, Content(a, a))], 1)
    ensures Exec(cfg, hash, StaleRun(a, b)).Some?
    ensures var d := Exec(cfg, hash, StaleRun(a, b)).value;
            |d.cells| == 1 && d.cells[0].base == Some(Content(b, b)) && d.cells[0].sent == Some(Content(a, a))
  {
    var d2 := Apply(cfg, hash, d1, Lose([0]));
    var d3 := Apply(cfg, hash, d2, Show(Dot(b)));
    var d4 := Apply(cfg, hash, d3, Refresh);
    DotShown(cfg, hash, d2, b);
    DotShown(cfg, hash, d4, b);
    var run := [Show(Dot(a))];
    ExecNext(cfg, hash, run, Lose([0]));
    ExecNext(cfg, hash, run + [Lose([0])], Show(Dot(b)));
    ExecNext(cfg, hash, run + [Lose([0])] + [Show(Dot(b))], Refresh);
    ExecNext(cfg, hash, run + [Lose([0])] + [Show(Dot(b))] + [Refresh], Show(Dot(b)));
    assert run + [Lose([0])] + [Show(Dot(b))] + [Refresh] + [Show(Dot(b))] == StaleRun(a, b);
  }

  ghost predicate AlwaysConverges(cfg: Config, hash: Hash) {
    forall events :: Exec(cfg, hash, events).Some? && EndsRefreshed(events) ==> Converged(Exec(cfg, hash, events).value)
  }

  /** The exact condition: over all runs, one refresh followed by one frame converges on
      every cell exactly when the static interval is at most two frames. All it takes of
      the hash is two pixels that do not hash to the reset value. */
  lemma AlwaysConvergesIff(cfg: Config, hash: Hash, a: Pixel, b: Pixel)
    requires cfg.Valid() && a != b && hash(a) != 0 && hash(b) != 0
    ensures AlwaysConverges(cfg, hash) <==> cfg.StaticInterval() <= 2
  {
    if cfg.StaticInterval() <= 2 {
      forall events | Exec(cfg, hash, events).Some? && EndsRefreshed(events)
        ensures Converged(Exec(cfg, hash, events).value)
      {
        ShortIntervalIsPrompt(cfg, hash, events);
        RefreshConverges(cfg, hash, events);
      }
    } else {
      StaleAfterRefresh(cfg, hash, a, b);
    }
  }
}
