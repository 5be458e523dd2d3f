/** The session, the wire, the page and the screen together: once a session has come to
    rest, what the browser shows. */
module Deliveries {
  import opened Common
  import opened Grids
  import Frames
  import opened DeltaStream
  import opened Canvases
  import opened SessionLogs
  import Clients
  import Detection
  import DetectionRuns
  import Merging
  import PipelineRuns
  import Pipelines
  import Sessions
  import Wire

  type Call = PipelineRuns.Call
  type Session = Sessions.Session
  type SessionStep = Sessions.SessionStep
  type Client = Clients.Client
  type Sending = Clients.Sending
  type Hash = DetectionRuns.Hash
  type Codec = Pipelines.Codec

  // ---------- what is sent for the log ----------

  /** The tiles on the wire are the frame's, place for place and byte for byte. */
  ghost predicate WireTiles(tiles: seq<Wire.WireTile>, out: Pipelines.EncodedFrame) {
    && |tiles| == |out.tiles| == |out.encoded|
    && (forall k :: 0 <= k < |tiles| ==>
          && tiles[k].x == out.tiles[k].x && tiles[k].y == out.tiles[k].y
          && tiles[k].width == out.tiles[k].width && tiles[k].height == out.tiles[k].height
          && tiles[k].webp == out.encoded[k])
  }

  ghost predicate SentAs(s: Sending, call: Call, n: nat)
    requires call.DoProcess? && call.out.Some?
  {
    s.Batch? && s.seqNo == (n + 1) % U32_LIMIT && WireTiles(s.tiles, call.out.value)
  }

  /** The send loop's traffic for a log: a header where the frame has one, then its batch
      under the next number. */
  ghost predicate Sends(sendings: seq<Sending>, log: seq<Call>)
    requires IsLog(log)
    decreases |log|
  {
    if log == [] then sendings == [] else
      var n, m := |log| - 1, |sendings| - 1;
      && m >= 0 && SentAs(sendings[m], log[n], n)
      && (if log[n].out.value.header.None? then Sends(sendings[..m], log[..n])
          else m >= 1 && sendings[m - 1].Header? && Sends(sendings[..m - 1], log[..n]))
  }

  ghost predicate BatchesAre(batches: seq<Sending>, log: seq<Call>)
    requires IsLog(log)
  {
    |batches| == |log| && forall k :: 0 <= k < |log| ==> SentAs(batches[k], log[k], k)
  }

  lemma {:induction false} SentBatches(sendings: seq<Sending>, log: seq<Call>)
    requires IsLog(log) && Sends(sendings, log)
    ensures BatchesAre(Clients.Batches(sendings), log)
    decreases |log|
  {
    if log != [] {
      var n, m := |log| - 1, |sendings| - 1;
      if log[n].out.value.header.None? {
        SentBatches(sendings[..m], log[..n]);
      } else {
        SentBatches(sendings[..m - 1], log[..n]);
        assert sendings[..m][..m - 1] == sendings[..m - 1];
      }
    }
  }

  /** No header follows the batches after which the log has none. */
  lemma {:induction false} SentHeaders(sendings: seq<Sending>, log: seq<Call>, e: nat)
    requires IsLog(log) && Sends(sendings, log) && Clients.AllProper(sendings)
    requires forall m: nat :: e < m < |log| ==> log[m].out.value.header.None?
    ensures HeadedBy(Clients.Channel(sendings)) <= e
    decreases |log|
  {
    if log != [] {
      if log[|log| - 1].out.value.header.None? {
        PlainLast(sendings, log);
        SentHeaders(sendings[..|sendings| - 1], log[..|log| - 1], e);
      } else {
        LastBatchHeads(sendings, log);
        LastHeaderHeads(sendings, log);
      }
    }
  }

  lemma PlainLast(sendings: seq<Sending>, log: seq<Call>)
    requires IsLog(log) && Sends(sendings, log) && Clients.AllProper(sendings)
    requires log != [] && log[|log| - 1].out.value.header.None?
    ensures sendings != [] && IsLog(log[..|log| - 1]) && Sends(sendings[..|sendings| - 1], log[..|log| - 1])
    ensures Clients.AllProper(sendings[..|sendings| - 1])
    ensures HeadedBy(Clients.Channel(sendings)) == HeadedBy(Clients.Channel(sendings[..|sendings| - 1]))
  {
    SendsBefore(sendings, log);
    ProperPrefix(sendings, |sendings| - 1);
    LastBatchHeads(sendings, log);
  }

  lemma SendsBefore(sendings: seq<Sending>, log: seq<Call>)
    requires IsLog(log) && Sends(sendings, log) && log != [] && log[|log| - 1].out.value.header.None?
    ensures sendings != [] && IsLog(log[..|log| - 1]) && Sends(sendings[..|sendings| - 1], log[..|log| - 1])
  {}

  lemma ProperPrefix(sendings: seq<Sending>, n: nat)
    requires Clients.AllProper(sendings) && n <= |sendings|
    ensures Clients.AllProper(sendings[..n])
  {
    forall k | 0 <= k < n
      ensures Clients.Proper(sendings[..n][k])
    {
      assert Clients.Proper(sendings[k]);
    }
  }

  lemma LastBatchHeads(sendings: seq<Sending>, log: seq<Call>)
    requires IsLog(log) && Sends(sendings, log) && Clients.AllProper(sendings) && log != []
    ensures sendings != [] && HeadedBy(Clients.Channel(sendings)) == HeadedBy(Clients.Channel(sendings[..|sendings| - 1]))
  {
    var m := |sendings| - 1;
    BatchHeadsNothing(Clients.Channel(sendings[..m]), sendings[m]);
  }

  lemma LastHeaderHeads(sendings: seq<Sending>, log: seq<Call>)
    requires IsLog(log) && Sends(sendings, log) && Clients.AllProper(sendings)
    requires log != [] && log[|log| - 1].out.value.header.Some?
    ensures sendings != [] && HeadedBy(Clients.Channel(sendings[..|sendings| - 1])) == |log| - 1
  {
    var m := |sendings| - 1;
    var before := sendings[..m - 1];
    assert sendings[..m][..m - 1] == before;
    HeaderHeads(Clients.Channel(before), sendings[m - 1]);
    SentBatches(before, log[..|log| - 1]);
    Clients.ChannelSays(before, 0);
  }

  lemma BatchHeadsNothing(msgs: seq<Wire.Message>, s: Sending)
    requires s.Batch? && Clients.Proper(s)
    ensures HeadedBy(msgs + Wire.DispatchAll(Clients.Packets(s))) == HeadedBy(msgs)
  {
    Clients.BatchHeard(s);
    var m := Wire.DispatchAll(s.sent);
    forall k | 0 <= k < |m|
      ensures !m[k].Resolution?
    {
      assert k > 0 ==> m[k] == m[1..][k - 1];
    }
    TilesHeadNothing(msgs, m);
  }

  lemma HeaderHeads(msgs: seq<Wire.Message>, s: Sending)
    requires s.Header? && Clients.Proper(s)
    ensures HeadedBy(msgs + Wire.DispatchAll(Clients.Packets(s))) == |Clients.Announced(msgs)|
  {
    assert Wire.DispatchAll([s.packet]) == [Wire.Dispatch(s.packet)];
    HeadedNext(msgs, Wire.Dispatch(s.packet));
  }

  // ---------- one tile of one batch ----------

  /** Frames whose size a header can carry. */
  ghost predicate Narrow(log: seq<Call>)
    requires IsLog(log)
  {
    forall k :: 0 <= k < |log| ==> log[k].frame.width < U16_LIMIT && log[k].frame.height < U16_LIMIT
  }

  ghost predicate AllPictures(cfg: Detection.Config, decode: Decoder, log: seq<Call>)
    requires IsLog(log)
  {
    forall k :: 0 <= k < |log| ==> Pictures(cfg, decode, log[k])
  }

  lemma SeenInPlace(f: Frames.Frame, t: Wire.WireTile)
    requires f.Inside(Rect(t.x, t.y, t.width, t.height)) && f.width < U16_LIMIT && f.height < U16_LIMIT
    ensures var s := Wire.Seen(t); s.x == t.x && s.y == t.y && s.width == t.width && s.height == t.height
  {}

  /** A tile as the client sees it shows the frame's own pixels, and its cells are among
      those of the batch. */
  lemma SeenTileShows(cfg: Detection.Config, decode: Decoder, call: Call, t: Wire.WireTile, j: nat, px: nat, py: nat)
    requires call.DoProcess? && call.out.Some? && Pictures(cfg, decode, call)
    requires call.frame.width < U16_LIMIT && call.frame.height < U16_LIMIT
    requires j < |call.out.value.tiles| && t.webp == call.out.value.encoded[j]
    requires Rect(t.x, t.y, t.width, t.height) == call.out.value.tiles[j].Area()
    ensures ImageOf(Wire.Seen(t), decode).rect == call.out.value.tiles[j].Area()
    ensures ImageOf(Wire.Seen(t), decode).rect.Contains(px, py) ==>
              && px < call.frame.width && py < call.frame.height
              && ImageOf(Wire.Seen(t), decode).PixelAt(px, py) == call.frame.Pixel(px, py)
              && cfg.GridOf(call.frame).CellOf(px, py) in call.out.value.ackIndices
  {
    var f, out, g, r := call.frame, call.out.value, cfg.GridOf(call.frame), call.ranges[j];
    assert PipelineRuns.ImagesOf(out, decode)[j] == Image(g.RangeRect(r), f.TileBytes(g.RangeRect(r)));
    SeenInPlace(f, t);
    if g.RangeRect(r).Contains(px, py) {
      CutoutPixel(f, g.RangeRect(r), px, py);
      RangeHasPixel(g, r, px, py);
      assert Merging.Covers(call.ranges, g.ColumnOf(px), g.RowOf(py));
      CoveredIsPainted(g, call.ranges, out.ackIndices, px, py);
    }
  }

  /** A batch that covers the pixel's cell has a tile over the pixel. */
  lemma SomeTileOver(cfg: Detection.Config, decode: Decoder, call: Call, px: nat, py: nat) returns (j: nat)
    requires call.DoProcess? && call.out.Some? && Pictures(cfg, decode, call)
    requires px < call.frame.width && py < call.frame.height
    requires cfg.GridOf(call.frame).CellOf(px, py) in call.out.value.ackIndices
    ensures j < |call.out.value.tiles| && call.out.value.tiles[j].Area().Contains(px, py)
  {
    var f, out, g := call.frame, call.out.value, cfg.GridOf(call.frame);
    CoveredIsPainted(g, call.ranges, out.ackIndices, px, py);
    var k: nat :| k < |call.ranges| && call.ranges[k].Has(g.ColumnOf(px), g.RowOf(py));
    RangeHasPixel(g, call.ranges[k], px, py);
    var r := g.RangeRect(call.ranges[k]);
    assert PipelineRuns.ImagesOf(out, decode)[k] == Image(r, f.TileBytes(r));
    j := k;
  }

  // ---------- the client of a session ----------

  /** The client has received a first part of what was sent for the log, in order; its
      decodes have finished in some order. */
  ghost predicate Receives(csteps: seq<Clients.ClientStep>, sendings: seq<Sending>, log: seq<Call>)
    requires IsLog(log)
  {
    && Clients.ClientAfter(csteps).Some? && Clients.AllProper(sendings) && Sends(sendings, log)
    && Clients.MessagesOf(csteps) <= Clients.Channel(sendings)
  }

  lemma ClientHas(csteps: seq<Clients.ClientStep>, sendings: seq<Sending>, log: seq<Call>, e: nat)
    requires IsLog(log) && Receives(csteps, sendings, log) && e < |Clients.ClientAfter(csteps).value.entries|
    ensures var c, sent := Clients.ClientAfter(csteps).value, Clients.Batches(sendings);
            && e < |log| && e < |sent| && SentAs(sent[e], log[e], e) && c.entries[e].seqNo == (e + 1) % U32_LIMIT
            && Clients.TilesOfEntry(c.decodes, e) <= Wire.SeenAll(sent[e].tiles)
            && Clients.AcksOf(c.acks, e) <= 1
            && (Clients.AcksOf(c.acks, e) == 1 <==> Clients.DecodedOf(c.decodes, e) == |sent[e].tiles|)
  {
    Clients.AckedOnceIffDecoded(csteps, sendings, e);
    SentBatches(sendings, log);
  }

  /** A tile handed to the decoder for a batch shows that batch's frame. */
  lemma StartedShows(cfg: Detection.Config, decode: Decoder, csteps: seq<Clients.ClientStep>, sendings: seq<Sending>,
                     log: seq<Call>, k: nat, px: nat, py: nat)
    requires IsLog(log) && Receives(csteps, sendings, log) && AllPictures(cfg, decode, log) && Narrow(log)
    requires var c := Clients.ClientAfter(csteps).value;
             k < |c.decodes| && c.decodes[k].entry.Some? && CoversPixel(c.decodes[k], px, py)
    ensures var d := Clients.ClientAfter(csteps).value.decodes[k];
            var m := d.entry.value;
            && m < |log| && px < log[m].frame.width && py < log[m].frame.height && log[m].frame.WellFormed()
            && ImageOf(d.tile, decode).PixelAt(px, py) == log[m].frame.Pixel(px, py)
            && cfg.GridOf(log[m].frame).CellOf(px, py) in log[m].out.value.ackIndices
  {
    var c, sent := Clients.ClientAfter(csteps).value, Clients.Batches(sendings);
    var m := c.decodes[k].entry.value;
    Clients.AcksAreCounted(csteps);
    ClientHas(csteps, sendings, log, m);
    var j := TileOfStarted(c.decodes, m, k);
    assert c.decodes[k].tile == Wire.SeenAll(sent[m].tiles)[j] == Wire.Seen(sent[m].tiles[j]);
    SeenTileShows(cfg, decode, log[m], sent[m].tiles[j], j, px, py);
  }

  lemma PaintedWasDecoded(csteps: seq<Clients.ClientStep>, j: nat) returns (k: nat)
    requires Clients.ClientAfter(csteps).Some? && j < |CanvasAfter(csteps).drawn|
    ensures var d := Clients.ClientAfter(csteps).value.decodes;
            k < |d| && SameTile(d[k], CanvasAfter(csteps).drawn[j]) && d[k].progress == Clients.Decoded
  {
    var c, v := Clients.ClientAfter(csteps).value, CanvasAfter(csteps);
    RunCanvas(csteps);
    assert v.All()[j] == v.drawn[j] && WasDecoded(c, v.All()[j]);
    k :| 0 <= k < |c.decodes| && SameTile(c.decodes[k], v.drawn[j]) && c.decodes[k].progress == Clients.Decoded;
  }

  lemma AllHaveEntries(csteps: seq<Clients.ClientStep>, sendings: seq<Sending>, log: seq<Call>)
    requires IsLog(log) && Receives(csteps, sendings, log)
    ensures var d := Clients.ClientAfter(csteps).value.decodes; forall k :: 0 <= k < |d| ==> d[k].entry.Some?
  {
    Clients.ChannelIsAttributed(sendings);
    Clients.AttributedBefore(Clients.MessagesOf(csteps), Clients.Channel(sendings));
    Clients.DecodesHaveEntries(csteps);
  }

  /** Whatever the order in which decodes finish, a pixel shows the frame of the batch
      whose tile over it was completed last. */
  lemma LastCompletedShows(cfg: Detection.Config, decode: Decoder, csteps: seq<Clients.ClientStep>, sendings: seq<Sending>,
                           log: seq<Call>, px: nat, py: nat, last: nat)
    requires IsLog(log) && Receives(csteps, sendings, log) && AllPictures(cfg, decode, log) && Narrow(log)
    requires LastOver(CanvasAfter(csteps).drawn, px, py, last)
    ensures CanvasAfter(csteps).drawn[last].entry.Some?
    ensures var v := CanvasAfter(csteps);
            var m := v.drawn[last].entry.value;
            && m < |log| && px < log[m].frame.width && py < log[m].frame.height && log[m].frame.WellFormed()
            && ScreenOf(v, decode)(px, py) == log[m].frame.Pixel(px, py)
            && cfg.GridOf(log[m].frame).CellOf(px, py) in log[m].out.value.ackIndices
  {
    var c, v := Clients.ClientAfter(csteps).value, CanvasAfter(csteps);
    var k := PaintedWasDecoded(csteps, last);
    LastOverShows(v.drawn, decode, px, py, last);
    AllHaveEntries(csteps, sendings, log);
    StartedShows(cfg, decode, csteps, sendings, log, k, px, py);
  }

  /** Once the page has painted what it decoded, a batch the client acknowledged, and after
      which no header was sent, has a tile drawn over every pixel of its cells. */
  lemma AcknowledgedIsDrawn(cfg: Detection.Config, decode: Decoder, csteps: seq<Clients.ClientStep>, sendings: seq<Sending>,
                            log: seq<Call>, e: nat, px: nat, py: nat) returns (j: nat)
    requires IsLog(log) && Receives(csteps, sendings, log) && AllPictures(cfg, decode, log) && Narrow(log)
    requires CanvasAfter(csteps).pending == []
    requires e < |log| && Clients.AcksOf(Clients.ClientAfter(csteps).value.acks, e) >= 1
    requires forall m: nat :: e < m < |log| ==> log[m].out.value.header.None?
    requires px < log[e].frame.width && py < log[e].frame.height
    requires log[e].frame.WellFormed() && cfg.GridOf(log[e].frame).CellOf(px, py) in log[e].out.value.ackIndices
    ensures var v := CanvasAfter(csteps);
            j < |v.drawn| && CoversPixel(v.drawn[j], px, py) && v.drawn[j].entry == Some(e)
  {
    var c, v, sent := Clients.ClientAfter(csteps).value, CanvasAfter(csteps), Clients.Batches(sendings);
    Clients.AcksAreCounted(csteps);
    ClientHas(csteps, sendings, log, e);
    HeaderIsEarlier(csteps, sendings, log, e);
    var t := SomeTileOver(cfg, decode, log[e], px, py);
    var k := DecodedTile(csteps, sendings, log, e, t);
    SeenTileShows(cfg, decode, log[e], sent[e].tiles[t], t, px, py);
    RunCanvas(csteps);
    assert v.All() == v.drawn && Has(v.All(), c.decodes[k]);
    j :| 0 <= j < |v.drawn| && SameTile(v.drawn[j], c.decodes[k]);
  }

  lemma HeaderIsEarlier(csteps: seq<Clients.ClientStep>, sendings: seq<Sending>, log: seq<Call>, e: nat)
    requires IsLog(log) && Receives(csteps, sendings, log)
    requires forall m: nat :: e < m < |log| ==> log[m].out.value.header.None?
    ensures CanvasAfter(csteps).headed <= e
  {
    CanvasHeaded(csteps);
    PrefixHeads(Clients.MessagesOf(csteps), Clients.Channel(sendings));
    SentHeaders(sendings, log, e);
  }

  /** Every tile of an acknowledged batch has been decoded. */
  lemma DecodedTile(csteps: seq<Clients.ClientStep>, sendings: seq<Sending>, log: seq<Call>, e: nat, t: nat) returns (k: nat)
    requires IsLog(log) && Receives(csteps, sendings, log)
    requires var c := Clients.ClientAfter(csteps).value; e < |c.entries| && Clients.AcksOf(c.acks, e) >= 1
    requires e < |log| && t < |log[e].out.value.tiles|
    ensures e < |Clients.Batches(sendings)| && t < |Clients.Batches(sendings)[e].tiles|
    ensures var d := Clients.ClientAfter(csteps).value.decodes;
            && k < |d| && d[k].entry == Some(e) && d[k].progress == Clients.Decoded
            && d[k].tile == Wire.Seen(Clients.Batches(sendings)[e].tiles[t])
  {
    var c, sent := Clients.ClientAfter(csteps).value, Clients.Batches(sendings);
    ClientHas(csteps, sendings, log, e);
    Clients.DecodedAtMostStarted(c.decodes, e);
    assert Clients.TilesOfEntry(c.decodes, e) == Wire.SeenAll(sent[e].tiles);
    k := StartedTile(c.decodes, e, t);
    AllDecoded(c.decodes, e, k);
  }

  // ---------- a session at rest ----------

  /** The acknowledgements the session has taken are ones the client sent. */
  ghost predicate Genuine(s: Session, c: Client) {
    forall e :: e in s.acked ==> Clients.AcksOf(c.acks, e) >= 1
  }

  /** At rest some tile of the latest batch has been painted over the pixel, so one was
      painted last. */
  lemma RestingPixel(cfg: Detection.Config, decode: Decoder, s: Session, log: seq<Call>, csteps: seq<Clients.ClientStep>,
                     sendings: seq<Sending>, i: nat, px: nat, py: nat)
    returns (j: nat, last: nat)
    requires IsLog(log) && Logged(s, log) && AllPictures(cfg, decode, log) && Narrow(log)
    requires Receives(csteps, sendings, log) && Genuine(s, Clients.ClientAfter(csteps).value)
    requires i in s.latest && s.latest[i] in s.acked && CanvasAfter(csteps).pending == []
    requires s.p.size.Some? && px < s.p.size.value.0 && py < s.p.size.value.1
    requires i == Grids.New(cfg.tilesX, s.p.size.value.0, s.p.size.value.1).CellOf(px, py)
    ensures var drawn := CanvasAfter(csteps).drawn;
            && j <= last && LastOver(drawn, px, py, last)
            && CoversPixel(drawn[j], px, py) && drawn[j].entry == Some(s.latest[i])
  {
    LatestFacts(cfg, decode, s, log, i);
    j := AcknowledgedIsDrawn(cfg, decode, csteps, sendings, log, s.latest[i], px, py);
    last := SomeLastOver(CanvasAfter(csteps).drawn, px, py, j);
  }

  /** Tiles painted in the order of their batches end with the latest. */
  lemma OrderedEndsWithLatest(cfg: Detection.Config, decode: Decoder, s: Session, log: seq<Call>,
                              csteps: seq<Clients.ClientStep>, sendings: seq<Sending>, i: nat, px: nat, py: nat,
                              j: nat, last: nat)
    requires IsLog(log) && Logged(s, log) && AllPictures(cfg, decode, log) && Narrow(log)
    requires Receives(csteps, sendings, log) && i in s.latest
    requires s.p.size.Some? && i == Grids.New(cfg.tilesX, s.p.size.value.0, s.p.size.value.1).CellOf(px, py)
    requires InBatchOrder(CanvasAfter(csteps).drawn, px, py) && LastOver(CanvasAfter(csteps).drawn, px, py, last)
    requires j <= last && CoversPixel(CanvasAfter(csteps).drawn[j], px, py)
    requires CanvasAfter(csteps).drawn[j].entry == Some(s.latest[i])
    ensures EndsWith(CanvasAfter(csteps).drawn, px, py, s.latest[i])
  {
    var drawn := CanvasAfter(csteps).drawn;
    LaterBatch(drawn, px, py, j, last, s.latest[i]);
    LastCompletedShows(cfg, decode, csteps, sendings, log, px, py, last);
    SameBatch(cfg, s, log, i, drawn[last].entry.value, px, py);
    OneLastOver(drawn, px, py, last, s.latest[i]);
  }

  lemma LaterBatch(drawn: seq<Clients.Decoding>, px: nat, py: nat, j: nat, last: nat, e: nat)
    requires InBatchOrder(drawn, px, py) && LastOver(drawn, px, py, last)
    requires j <= last && CoversPixel(drawn[j], px, py) && drawn[j].entry == Some(e)
    ensures drawn[last].entry.Some? && drawn[last].entry.value >= e
  {
    assert Rank(drawn[j].entry) <= Rank(drawn[last].entry);
  }

  lemma LatestFacts(cfg: Detection.Config, decode: Decoder, s: Session, log: seq<Call>, i: nat)
    requires IsLog(log) && Logged(s, log) && AllPictures(cfg, decode, log) && i in s.latest && s.p.size.Some?
    ensures var e := s.latest[i];
            && e < |log| && i in log[e].out.value.ackIndices && log[e].frame.WellFormed()
            && s.p.size == Some((log[e].frame.width, log[e].frame.height))
            && cfg.GridOf(log[e].frame) == New(cfg.tilesX, s.p.size.value.0, s.p.size.value.1)
            && (forall m: nat :: e < m < |log| ==> log[m].out.value.header.None?)
  {
    assert LastToCover(s, log, i, s.latest[i]);
    assert Pictures(cfg, decode, log[s.latest[i]]);
  }

  /** No batch after the latest one covers the cell. */
  lemma SameBatch(cfg: Detection.Config, s: Session, log: seq<Call>, i: nat, m: nat, px: nat, py: nat)
    requires IsLog(log) && Logged(s, log) && i in s.latest && s.p.size.Some? && s.latest[i] <= m < |log|
    requires i == New(cfg.tilesX, s.p.size.value.0, s.p.size.value.1).CellOf(px, py)
    requires cfg.GridOf(log[m].frame).CellOf(px, py) in log[m].out.value.ackIndices
    ensures m == s.latest[i]
  {
    assert LastToCover(s, log, i, s.latest[i]);
  }

  /** Every other batch's frame that has the pixel shows it differently than batch `e`'s. */
  ghost predicate Distinct(log: seq<Call>, e: nat, px: nat, py: nat)
    requires IsLog(log)
  {
    forall k: nat :: k < |log| && k != e && e < |log| && HasPixel(log[k].frame, px, py) && HasPixel(log[e].frame, px, py) ==>
      log[k].frame.Pixel(px, py) != log[e].frame.Pixel(px, py)
  }

  predicate HasPixel(f: Frames.Frame, px: nat, py: nat) { f.WellFormed() && px < f.width && py < f.height }

  lemma PixelTells(s: Session, log: seq<Call>, i: nat, px: nat, py: nat, m: nat, pixel: seq<bv8>)
    requires IsLog(log) && i in s.latest && s.latest[i] < |log| && m < |log|
    requires HasPixel(log[s.latest[i]].frame, px, py) && HasPixel(log[m].frame, px, py)
    requires pixel == log[m].frame.Pixel(px, py)
    ensures m == s.latest[i] ==> LatestPixel(s, log, i, px, py, pixel)
    ensures Distinct(log, s.latest[i], px, py) && LatestPixel(s, log, i, px, py, pixel) ==> m == s.latest[i]
  {}

  /** Whenever something has been painted over a pixel: if the tile painted last is of the
      latest batch, the pixel shows that batch's frame, and if no other frame shows the
      pixel alike, only then. */
  lemma ShowsLatestIff(cfg: Detection.Config, decode: Decoder, s: Session, log: seq<Call>,
                       csteps: seq<Clients.ClientStep>, sendings: seq<Sending>, i: nat, px: nat, py: nat, last: nat)
    requires IsLog(log) && Logged(s, log) && AllPictures(cfg, decode, log) && Narrow(log)
    requires Receives(csteps, sendings, log) && i in s.latest
    requires s.p.size.Some? && px < s.p.size.value.0 && py < s.p.size.value.1
    requires LastOver(CanvasAfter(csteps).drawn, px, py, last)
    ensures s.latest[i] < |log|
    ensures EndsWith(CanvasAfter(csteps).drawn, px, py, s.latest[i]) ==>
              LatestPixel(s, log, i, px, py, ScreenOf(CanvasAfter(csteps), decode)(px, py))
    ensures Distinct(log, s.latest[i], px, py) ==>
              (LatestPixel(s, log, i, px, py, ScreenOf(CanvasAfter(csteps), decode)(px, py))
               <==> EndsWith(CanvasAfter(csteps).drawn, px, py, s.latest[i]))
  {
    var v := CanvasAfter(csteps);
    LatestFacts(cfg, decode, s, log, i);
    LastCompletedShows(cfg, decode, csteps, sendings, log, px, py, last);
    OneLastOver(v.drawn, px, py, last, s.latest[i]);
    PixelTells(s, log, i, px, py, v.drawn[last].entry.value, ScreenOf(v, decode)(px, py));
  }

  /** Everything has come to rest: a run in which no frame throttled an armed cell has left
      nothing queued, in flight, on its way back or armed; a client that received the traffic
      in order has painted what it decoded; and the acknowledgements are its own. */
  ghost predicate Resting(cfg: Detection.Config, hash: Hash, codec: Codec, decode: Decoder, states: seq<Session>,
                          steps: seq<SessionStep>, csteps: seq<Clients.ClientStep>, sendings: seq<Sending>)
  {
    && Sessions.SessionRun(cfg, hash, codec, states, steps) && Sessions.AllOnTime(cfg, states, steps)
    && Sessions.Quiet(states[|steps|]) && AllPictures(cfg, decode, LogOf(steps)) && Narrow(LogOf(steps))
    && Receives(csteps, sendings, LogOf(steps)) && CanvasAfter(csteps).pending == []
    && Genuine(states[|steps|], Clients.ClientAfter(csteps).value)
  }

  /** The order of completion, exactly. In every run that has come to rest, a pixel shows the
      frame of the last batch that covered its cell if the tile painted last over the pixel
      is of that batch, whatever the contents; and where no other frame shows the pixel
      alike, if and only if it is. */
  lemma QuietShowsLatestIff(cfg: Detection.Config, hash: Hash, codec: Codec, decode: Decoder,
                            states: seq<Session>, steps: seq<SessionStep>, csteps: seq<Clients.ClientStep>,
                            sendings: seq<Sending>, i: nat, px: nat, py: nat)
    requires Resting(cfg, hash, codec, decode, states, steps, csteps, sendings)
    requires i < |states[|steps|].p.det.cells| && AtCell(cfg, states[|steps|], i, px, py)
    ensures var s := states[|steps|]; i in s.latest && s.latest[i] in s.acked && s.latest[i] < |LogOf(steps)|
    ensures var s, v := states[|steps|], CanvasAfter(csteps);
            EndsWith(v.drawn, px, py, s.latest[i]) ==>
              LatestPixel(s, LogOf(steps), i, px, py, ScreenOf(v, decode)(px, py))
    ensures var s, v := states[|steps|], CanvasAfter(csteps);
            Distinct(LogOf(steps), s.latest[i], px, py) ==>
              (LatestPixel(s, LogOf(steps), i, px, py, ScreenOf(v, decode)(px, py))
               <==> EndsWith(v.drawn, px, py, s.latest[i]))
    ensures InBatchOrder(CanvasAfter(csteps).drawn, px, py) ==>
              EndsWith(CanvasAfter(csteps).drawn, px, py, states[|steps|].latest[i])
  {
    var s, log := states[|steps|], LogOf(steps);
    Sessions.QuietMeansAcknowledged(cfg, hash, codec, states, steps, i);
    RunLogged(cfg, hash, codec, states, steps);
    var j, last := RestingPixel(cfg, decode, s, log, csteps, sendings, i, px, py);
    ShowsLatestIff(cfg, decode, s, log, csteps, sendings, i, px, py, last);
    if InBatchOrder(CanvasAfter(csteps).drawn, px, py) {
      OrderedEndsWithLatest(cfg, decode, s, log, csteps, sendings, i, px, py, j, last);
    }
  }

  /** The pixel lies in cell `i` of the session's grid. */
  predicate AtCell(cfg: Detection.Config, s: Session, i: nat, px: nat, py: nat) {
    && s.p.size.Some? && px < s.p.size.value.0 && py < s.p.size.value.1
    && i == Grids.New(cfg.tilesX, s.p.size.value.0, s.p.size.value.1).CellOf(px, py)
  }

  /** In particular it shows the latest batch at every pixel whose tiles were painted in the
      order of their batches. */
  lemma QuietShowsLatest(cfg: Detection.Config, hash: Hash, codec: Codec, decode: Decoder,
                         states: seq<Session>, steps: seq<SessionStep>, csteps: seq<Clients.ClientStep>,
                         sendings: seq<Sending>, i: nat, px: nat, py: nat)
    requires Resting(cfg, hash, codec, decode, states, steps, csteps, sendings)
    requires i < |states[|steps|].p.det.cells| && AtCell(cfg, states[|steps|], i, px, py)
    requires InBatchOrder(CanvasAfter(csteps).drawn, px, py)
    ensures var s := states[|steps|];
            && i in s.latest && s.latest[i] in s.acked && s.latest[i] < |LogOf(steps)|
            && LatestPixel(s, LogOf(steps), i, px, py, ScreenOf(CanvasAfter(csteps), decode)(px, py))
  {
    QuietShowsLatestIff(cfg, hash, codec, decode, states, steps, csteps, sendings, i, px, py);
  }

  /** Acknowledgements are genuine if each one taken carries a number the client has sent,
      as long as numbers have not been used twice. */
  ghost predicate Heard(steps: seq<SessionStep>, c: Client) {
    forall k :: 0 <= k < |steps| && steps[k].Acknowledge? ==>
      exists e :: 0 <= e < |c.entries| && c.entries[e].seqNo == steps[k].seqNo && Clients.AcksOf(c.acks, e) >= 1
  }

  lemma {:induction false} HeardIsGenuine(cfg: Detection.Config, hash: Hash, codec: Codec, states: seq<Session>,
                                          steps: seq<SessionStep>, c: Client)
    requires Sessions.SessionRun(cfg, hash, codec, states, steps) && Heard(steps, c)
    requires forall e :: 0 <= e < |c.entries| ==> c.entries[e].seqNo == (e + 1) % U32_LIMIT
    requires states[|steps|].made < U32_LIMIT && |c.entries| < U32_LIMIT
    ensures Genuine(states[|steps|], c)
  {
    if steps != [] {
      var n := |steps| - 1;
      Sessions.PrefixSession(cfg, hash, codec, states, steps, n);
      assert Heard(steps[..n], c) by {
        forall k | 0 <= k < n && steps[..n][k].Acknowledge?
          ensures exists e ::
                    0 <= e < |c.entries| && c.entries[e].seqNo == steps[..n][k].seqNo && Clients.AcksOf(c.acks, e) >= 1
        {
          assert steps[k].Acknowledge?;
        }
      }
      MadeGrows(cfg, hash, codec, states[n], steps[n]);
      HeardIsGenuine(cfg, hash, codec, states[..n + 1], steps[..n], c);
      RunNumbered(cfg, hash, codec, states[..n + 1], steps[..n]);
      GenuineStep(cfg, hash, codec, states[n], steps[n], c);
    }
  }

  lemma MadeGrows(cfg: Detection.Config, hash: Hash, codec: Codec, s: Session, step: SessionStep)
    requires Sessions.CanStep(cfg, hash, codec, s, step)
    ensures s.made <= Sessions.After(cfg, hash, codec, s, step).made
    ensures var acked := Sessions.After(cfg, hash, codec, s, step).acked;
            acked == s.acked + if step.Acknowledge? && step.seqNo in s.inFlight then {s.inFlight[step.seqNo].batch.id} else {}
  {}

  lemma GenuineStep(cfg: Detection.Config, hash: Hash, codec: Codec, s: Session, step: SessionStep, c: Client)
    requires Sessions.CanStep(cfg, hash, codec, s, step) && Genuine(s, c) && Numbered(s) && s.made < U32_LIMIT
    requires step.Acknowledge? ==>
               exists e :: 0 <= e < |c.entries| && c.entries[e].seqNo == step.seqNo && Clients.AcksOf(c.acks, e) >= 1
    requires |c.entries| < U32_LIMIT && forall e :: 0 <= e < |c.entries| ==> c.entries[e].seqNo == (e + 1) % U32_LIMIT
    ensures Genuine(Sessions.After(cfg, hash, codec, s, step), c)
  {
    MadeGrows(cfg, hash, codec, s, step);
    if step.Acknowledge? && step.seqNo in s.inFlight {
      var e :| 0 <= e < |c.entries| && c.entries[e].seqNo == step.seqNo && Clients.AcksOf(c.acks, e) >= 1;
      SameNumber(e, s.inFlight[step.seqNo].batch.id);
    }
  }

  lemma SameNumber(a: nat, b: nat)
    requires a < U32_LIMIT && b < U32_LIMIT && (a + 1) % U32_LIMIT == (b + 1) % U32_LIMIT
    ensures a == b
  {}

  /** End to end: once a session has come to rest and the page has painted what it decoded,
      the browser shows the last frame of the desktop at a pixel of a sampled row if the
      tile painted last over the pixel is of the latest batch of its cell, and if the
      client is owed nothing for that cell (always so without throttling) or that frame
      began with a refresh. Losses, resends, resizes, cached encodes, packing and the order
      in which decodes finish otherwise make no difference. */
  lemma QuietShowsDesktop(cfg: Detection.Config, hash: Hash, codec: Codec, decode: Decoder, screen: Screen,
                          states: seq<Session>, steps: seq<SessionStep>, stream: seq<Step>,
                          csteps: seq<Clients.ClientStep>, sendings: seq<Sending>, f: Frames.Frame, px: nat, py: nat)
    requires Resting(cfg, hash, codec, decode, states, steps, csteps, sendings) && PipelineRuns.Lossless(codec, decode)
    requires Streamed(cfg, hash, decode, screen, states, steps, stream)
    requires Play(cfg, hash, screen, stream).Some? && Play(cfg, hash, screen, stream).value.frame == Some(f)
    requires f.WellFormed() && px < f.width && py < f.height
    requires EndsWithRefresh(stream) || OwedNothing(cfg, Play(cfg, hash, screen, stream).value, cfg.GridOf(f).CellOf(px, py))
    requires var latest, i := states[|steps|].latest, cfg.GridOf(f).CellOf(px, py);
             i in latest ==> EndsWith(CanvasAfter(csteps).drawn, px, py, latest[i])
    ensures ShowsSampled(cfg, f, ScreenOf(CanvasAfter(csteps), decode), px, py)
  {
    var s, st, i := states[|steps|], Play(cfg, hash, screen, stream).value, cfg.GridOf(f).CellOf(px, py);
    RunIsIdeal(cfg, hash, codec, decode, screen, states, steps, stream);
    StreamMirrors(cfg, hash, screen, stream);
    CellsPartitionFrame(cfg.GridOf(f), px, py);
    QuietShowsLatestIff(cfg, hash, codec, decode, states, steps, csteps, sendings, i, px, py);
    assert IdealAt(cfg, s, LogOf(steps), st.screen, px, py);
    if EndsWithRefresh(stream) {
      RunIsPrompt(cfg, hash, codec, decode, screen, states, steps, stream);
      RefreshMirrors(cfg, hash, screen, stream);
    } else {
      assert ShowsKept(cfg, st.d, f, st.screen, px, py);
    }
    assert ShowsSampled(cfg, f, st.screen, px, py);
  }

  /** The client is owed nothing for cell `i`. */
  predicate OwedNothing(cfg: Detection.Config, st: Stream, i: nat)
    requires cfg.Valid()
  {
    i < |st.d.cells| ==> Kept(cfg, st.d.cells[i])
  }
}
