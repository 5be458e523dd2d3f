/** The browser's canvas: decoded tiles wait for an animation frame and are painted in the
    order in which their decodes finished; a resolution header starts a new canvas
    (docs/client-examples/client.html). */
module Canvases {
  import opened Common
  import opened Clients
  import opened DeltaStream
  import Grids
  import PipelineRuns
  import Wire

  type Decoder = PipelineRuns.Decoder

  function ImageOf(t: Wire.ClientTile, decode: Decoder): Image {
    Image(Grids.Rect(t.x, t.y, t.width, t.height), decode(t.webp))
  }

  /** The tiles painted since the last header, in order; the decoded ones that wait for the
      next animation frame; how many batches had been announced before the last header; and
      whether there has been a header, without which there is nothing to paint on. */
  datatype Canvas = Canvas(drawn: seq<Decoding>, pending: seq<Decoding>, headed: nat, open: bool) {
    function All(): seq<Decoding> { drawn + pending }
  }

  const NEW_CANVAS := Canvas([], [], 0, false)

  /** `initFrame`: a new canvas, on which the waiting tiles will still be painted. */
  function Renewed(v: Canvas, announced: nat): Canvas { v.(drawn := [], headed := announced, open := true) }

  /** `renderFrame`. */
  function Painted(v: Canvas): Canvas {
    if v.open then v.(drawn := v.drawn + v.pending, pending := []) else v
  }

  function CanvasStep(c: Client, v: Canvas, step: ClientStep): Canvas
    requires step.Finished? ==> CanFinish(c, step.k)
  {
    match step
    case Arrive(m) => if m.Resolution? then Renewed(v, |c.entries|) else v
    case Finished(k, ok) => if ok then v.(pending := v.pending + [c.decodes[k]]) else v
    case Repaint => Painted(v)
  }

  function CanvasAfter(steps: seq<ClientStep>): Canvas
    requires ClientAfter(steps).Some?
  {
    if steps == [] then NEW_CANVAS else
      var before := steps[..|steps| - 1];
      CanvasStep(ClientAfter(before).value, CanvasAfter(before), steps[|steps| - 1])
  }

  const BLANK: Screen := (px, py) => []

  function ImagesDrawn(drawn: seq<Decoding>, decode: Decoder): seq<Image> {
    seq(|drawn|, k requires 0 <= k < |drawn| => ImageOf(drawn[k].tile, decode))
  }

  function ScreenOf(v: Canvas, decode: Decoder): Screen { DrawAll(BLANK, ImagesDrawn(v.drawn, decode)) }

  /** The page's canvas: `offscreen` is what has been painted, `pending` what waits. */
  class Display {
    const decode: Decoder
    var offscreen: Option<Screen>
    var pending: seq<Decoding>
    ghost var drawn: seq<Decoding>
    ghost var headed: nat

    ghost predicate Valid()
      reads this
    {
      offscreen == if Abstract().open then Some(ScreenOf(Abstract(), decode)) else None
    }

    ghost function Abstract(): Canvas
      reads this
    {
      Canvas(drawn, pending, headed, offscreen.Some?)
    }

    constructor (decode: Decoder)
      ensures Valid() && Abstract() == NEW_CANVAS && this.decode == decode
    {
      this.decode, offscreen, pending, drawn, headed := decode, None, [], [], 0;
    }

    method InitFrame(ghost announced: nat)
      requires Valid()
      modifies this
      ensures Valid() && Abstract() == Renewed(old(Abstract()), announced)
    {
      offscreen, drawn, headed := Some(BLANK), [], announced;
    }

    /** A decode has finished well. */
    method Collect(d: Decoding)
      requires Valid()
      modifies this`pending
      ensures Valid() && Abstract() == old(Abstract()).(pending := old(pending) + [d])
    {
      pending := pending + [d];
    }

    /** Paints the waiting tiles in the order in which their decodes finished. */
    method RenderFrame()
      requires Valid()
      modifies this
      ensures Valid() && Abstract() == Painted(old(Abstract()))
    {
      if offscreen.None? {
        return;
      }
      for k: nat := 0 to |pending|
        invariant pending == old(pending) && headed == old(headed) && drawn == old(drawn) + pending[..k]
        invariant offscreen == Some(DrawAll(BLANK, ImagesDrawn(drawn, decode)))
      {
        DrawNext(drawn, pending[k], decode);
        offscreen := Some(Draw(offscreen.value, ImageOf(pending[k].tile, decode)));
        drawn := drawn + [pending[k]];
      }
      pending := [];
    }
  }

  lemma DrawNext(drawn: seq<Decoding>, d: Decoding, decode: Decoder)
    ensures DrawAll(BLANK, ImagesDrawn(drawn + [d], decode))
         == Draw(DrawAll(BLANK, ImagesDrawn(drawn, decode)), ImageOf(d.tile, decode))
  {
    var images := ImagesDrawn(drawn + [d], decode);
    assert images[..|images| - 1] == ImagesDrawn(drawn, decode);
  }

  // ---------- the order of completion ----------

  /** The tiles decoded, in the order in which their decodes finished. */
  function Completed(steps: seq<ClientStep>): seq<Decoding>
    requires ClientAfter(steps).Some?
  {
    if steps == [] then [] else
      var before, last := steps[..|steps| - 1], steps[|steps| - 1];
      Completed(before) + if last.Finished? && last.ok then [ClientAfter(before).value.decodes[last.k]] else []
  }

  /** How many of them had been painted on canvases that headers since replaced. */
  function Replaced(steps: seq<ClientStep>): (n: nat)
    requires ClientAfter(steps).Some?
  {
    if steps == [] then 0 else
      var before, last := steps[..|steps| - 1], steps[|steps| - 1];
      Replaced(before) + if last.Arrive? && last.message.Resolution? then |CanvasAfter(before).drawn| else 0
  }

  /** In every run the canvas and the waiting tiles hold, in the order of completion, each
      tile decoded so far once, except those painted on a canvas that was replaced. */
  lemma {:induction false} PaintedInOrder(steps: seq<ClientStep>)
    requires ClientAfter(steps).Some?
    ensures Replaced(steps) <= |Completed(steps)|
    ensures CanvasAfter(steps).All() == Completed(steps)[Replaced(steps)..]
  {
    if steps != [] {
      var before := steps[..|steps| - 1];
      PaintedInOrder(before);
      PaintedNext(CanvasAfter(before), CanvasAfter(steps), Completed(before), Completed(steps),
                  Replaced(before), Replaced(steps));
    }
  }

  lemma PaintedNext(v: Canvas, v': Canvas, done: seq<Decoding>, done': seq<Decoding>, n: nat, n': nat)
    requires n <= |done| && v.All() == done[n..]
    requires || (v'.All() == v.All() && done' == done && n' == n)
             || (v'.All() == v.pending && done' == done && n' == n + |v.drawn|)
             || (n' == n && exists d :: v'.All() == v.All() + [d] && done' == done + [d])
    ensures n' <= |done'| && v'.All() == done'[n'..]
  {}

  // ---------- what is drawn ----------

  /** The same tile of the same batch, whatever became of its decode. */
  predicate SameTile(a: Decoding, b: Decoding) { a.tile == b.tile && a.entry == b.entry }

  ghost predicate Has(drawn: seq<Decoding>, d: Decoding) {
    exists j :: 0 <= j < |drawn| && SameTile(drawn[j], d)
  }

  ghost predicate WasDecoded(c: Client, d: Decoding) {
    exists k :: 0 <= k < |c.decodes| && SameTile(c.decodes[k], d) && c.decodes[k].progress == Decoded
  }

  /** Every decoded tile of a batch announced since the last header is on the canvas or
      waits for the next frame, and only decoded tiles are or do. */
  ghost predicate CanvasOk(c: Client, v: Canvas) {
    && v.headed <= |c.entries|
    && (forall k :: 0 <= k < |c.decodes| && c.decodes[k].progress == Decoded && c.decodes[k].entry.Some? ==>
          (c.decodes[k].entry.value >= v.headed ==> Has(v.All(), c.decodes[k])))
    && (forall j :: 0 <= j < |v.All()| ==> WasDecoded(c, v.All()[j]))
  }

  lemma ReceiveCanvas(c: Client, v: Canvas, m: Wire.Message)
    requires Inv(c) && CanvasOk(c, v)
    ensures CanvasOk(Receive(c, m), CanvasStep(c, v, Arrive(m)))
  {
    var c', v' := Receive(c, m), CanvasStep(c, v, Arrive(m));
    forall d | WasDecoded(c, d)
      ensures WasDecoded(c', d)
    {
      var k :| 0 <= k < |c.decodes| && SameTile(c.decodes[k], d) && c.decodes[k].progress == Decoded;
      assert c'.decodes[k] == c.decodes[k];
    }
    forall j | 0 <= j < |v'.All()|
      ensures WasDecoded(c', v'.All()[j])
    {
      assert v'.All()[j] == v.All()[if m.Resolution? then |v.drawn| + j else j];
    }
  }

  lemma FinishCanvas(c: Client, v: Canvas, k: nat, ok: bool)
    requires Inv(c) && CanvasOk(c, v) && CanFinish(c, k)
    ensures CanvasOk(Finish(c, k, ok), CanvasStep(c, v, Finished(k, ok)))
  {
    var c', v' := Finish(c, k, ok), CanvasStep(c, v, Finished(k, ok));
    assert forall i :: 0 <= i < |c.decodes| ==> SameTile(c'.decodes[i], c.decodes[i]);
    assert v'.All() == if ok then v.All() + [c.decodes[k]] else v.All();
    forall d | Has(v.All(), d)
      ensures Has(v'.All(), d)
    {
      var j :| 0 <= j < |v.All()| && SameTile(v.All()[j], d);
      assert v'.All()[j] == v.All()[j];
    }
    if ok { assert v'.All()[|v.All()|] == c.decodes[k]; }
    forall j | 0 <= j < |v'.All()|
      ensures WasDecoded(c', v'.All()[j])
    {
      if j < |v.All()| {
        assert v'.All()[j] == v.All()[j] && WasDecoded(c, v.All()[j]);
        var i :| 0 <= i < |c.decodes| && SameTile(c.decodes[i], v.All()[j]) && c.decodes[i].progress == Decoded;
        assert SameTile(c'.decodes[i], v'.All()[j]) && c'.decodes[i].progress == Decoded;
      } else {
        assert SameTile(c'.decodes[k], v'.All()[j]) && c'.decodes[k].progress == Decoded;
      }
    }
  }

  lemma {:induction false} RunCanvas(steps: seq<ClientStep>)
    requires ClientAfter(steps).Some?
    ensures CanvasOk(ClientAfter(steps).value, CanvasAfter(steps))
  {
    if steps != [] {
      var before := steps[..|steps| - 1];
      RunCanvas(before);
      AcksAreCounted(before);
      match steps[|steps| - 1]
      case Arrive(m) => ReceiveCanvas(ClientAfter(before).value, CanvasAfter(before), m);
      case Finished(k, ok) => FinishCanvas(ClientAfter(before).value, CanvasAfter(before), k, ok);
      case Repaint => assert CanvasAfter(steps).All() == CanvasAfter(before).All();
    }
  }

  // ---------- headers among the messages ----------

  /** How many batches were announced before the last header. */
  function HeadedBy(msgs: seq<Wire.Message>): nat {
    if msgs == [] then 0 else
      var n := |msgs| - 1;
      if msgs[n].Resolution? then |Announced(msgs[..n])| else HeadedBy(msgs[..n])
  }

  lemma HeadedNext(msgs: seq<Wire.Message>, m: Wire.Message)
    ensures HeadedBy(msgs + [m]) == if m.Resolution? then |Announced(msgs)| else HeadedBy(msgs)
  {
    assert (msgs + [m])[..|msgs|] == msgs;
  }

  lemma {:induction false} HeadedIsAnnounced(msgs: seq<Wire.Message>)
    ensures HeadedBy(msgs) <= |Announced(msgs)|
  {
    if msgs != [] { HeadedIsAnnounced(msgs[..|msgs| - 1]); }
  }

  lemma {:induction false} HeadedGrows(msgs: seq<Wire.Message>, more: seq<Wire.Message>)
    ensures HeadedBy(msgs) <= HeadedBy(msgs + more)
    decreases |more|
  {
    if more == [] {
      assert msgs + more == msgs;
    } else {
      var n := |more| - 1;
      assert msgs + more == (msgs + more[..n]) + [more[n]];
      HeadedGrows(msgs, more[..n]);
      HeadedNext(msgs + more[..n], more[n]);
      HeadedIsAnnounced(msgs + more[..n]);
    }
  }

  lemma PrefixHeads(msgs: seq<Wire.Message>, all: seq<Wire.Message>)
    requires msgs <= all
    ensures HeadedBy(msgs) <= HeadedBy(all)
  {
    assert all == msgs + all[|msgs|..];
    HeadedGrows(msgs, all[|msgs|..]);
  }

  lemma {:induction false} TilesHeadNothing(msgs: seq<Wire.Message>, more: seq<Wire.Message>)
    requires forall k :: 0 <= k < |more| ==> !more[k].Resolution?
    ensures HeadedBy(msgs + more) == HeadedBy(msgs)
    decreases |more|
  {
    if more == [] {
      assert msgs + more == msgs;
    } else {
      var n := |more| - 1;
      assert msgs + more == (msgs + more[..n]) + [more[n]];
      TilesHeadNothing(msgs, more[..n]);
      HeadedNext(msgs + more[..n], more[n]);
    }
  }

  lemma {:induction false} CanvasHeaded(steps: seq<ClientStep>)
    requires ClientAfter(steps).Some?
    ensures CanvasAfter(steps).headed == HeadedBy(MessagesOf(steps))
  {
    if steps != [] {
      var before := steps[..|steps| - 1];
      CanvasHeaded(before);
      ClientFollows(before);
      match steps[|steps| - 1]
      case Arrive(m) => HeadedNext(MessagesOf(before), m);
      case _ => assert MessagesOf(steps) == MessagesOf(before);
    }
  }

  // ---------- what shows at a pixel ----------

  predicate CoversPixel(d: Decoding, px: nat, py: nat) {
    Grids.Rect(d.tile.x, d.tile.y, d.tile.width, d.tile.height).Contains(px, py)
  }

  /** Tile `j` is the last one drawn over the pixel. */
  ghost predicate LastOver(drawn: seq<Decoding>, px: nat, py: nat, j: nat) {
    && j < |drawn| && CoversPixel(drawn[j], px, py)
    && (forall k :: j < k < |drawn| ==> !CoversPixel(drawn[k], px, py))
  }

  lemma {:induction false} LastOverShows(drawn: seq<Decoding>, decode: Decoder, px: nat, py: nat, j: nat)
    requires LastOver(drawn, px, py, j)
    ensures DrawAll(BLANK, ImagesDrawn(drawn, decode))(px, py) == ImageOf(drawn[j].tile, decode).PixelAt(px, py)
    decreases |drawn|
  {
    var n := |drawn| - 1;
    var images := ImagesDrawn(drawn, decode);
    assert images[..n] == ImagesDrawn(drawn[..n], decode);
    if j < n {
      LastOverShows(drawn[..n], decode, px, py, j);
      assert !CoversPixel(drawn[n], px, py);
    }
  }

  lemma {:induction false} SomeLastOver(drawn: seq<Decoding>, px: nat, py: nat, j: nat) returns (last: nat)
    requires j < |drawn| && CoversPixel(drawn[j], px, py)
    ensures LastOver(drawn, px, py, last) && j <= last
    decreases |drawn|
  {
    var n := |drawn| - 1;
    if CoversPixel(drawn[n], px, py) {
      last := n;
    } else {
      last := SomeLastOver(drawn[..n], px, py, j);
    }
  }

  /** The tile painted last over the pixel, if any, is of batch `e`. */
  ghost predicate EndsWith(drawn: seq<Decoding>, px: nat, py: nat, e: nat) {
    forall last: nat :: LastOver(drawn, px, py, last) ==> drawn[last].entry == Some(e)
  }

  lemma OneLastOver(drawn: seq<Decoding>, px: nat, py: nat, last: nat, e: nat)
    requires LastOver(drawn, px, py, last)
    ensures EndsWith(drawn, px, py, e) <==> drawn[last].entry == Some(e)
  {}

  function Rank(entry: Option<nat>): nat { if entry.None? then 0 else entry.value + 1 }

  /** Tiles over the pixel are drawn in the order of their batches. */
  ghost predicate InBatchOrder(drawn: seq<Decoding>, px: nat, py: nat) {
    forall a, b :: 0 <= a < b < |drawn| && CoversPixel(drawn[a], px, py) && CoversPixel(drawn[b], px, py) ==>
      Rank(drawn[a].entry) <= Rank(drawn[b].entry)
  }

  // ---------- the tiles of a batch ----------

  lemma {:induction false} StartedTile(decodes: seq<Decoding>, e: nat, j: nat) returns (k: nat)
    requires j < |TilesOfEntry(decodes, e)|
    ensures k < |decodes| && decodes[k].entry == Some(e) && decodes[k].tile == TilesOfEntry(decodes, e)[j]
  {
    var n := |decodes| - 1;
    if j < |TilesOfEntry(decodes[..n], e)| {
      k := StartedTile(decodes[..n], e, j);
    } else {
      k := n;
    }
  }

  lemma {:induction false} TileOfStarted(decodes: seq<Decoding>, e: nat, k: nat) returns (j: nat)
    requires k < |decodes| && decodes[k].entry == Some(e)
    ensures j < |TilesOfEntry(decodes, e)| && TilesOfEntry(decodes, e)[j] == decodes[k].tile
  {
    var n := |decodes| - 1;
    if k < n {
      j := TileOfStarted(decodes[..n], e, k);
    } else {
      j := |TilesOfEntry(decodes[..n], e)|;
    }
  }

  /** If as many tiles were decoded as started, all of them were. */
  lemma {:induction false} AllDecoded(decodes: seq<Decoding>, e: nat, k: nat)
    requires DecodedOf(decodes, e) == |TilesOfEntry(decodes, e)| && k < |decodes| && decodes[k].entry == Some(e)
    ensures decodes[k].progress == Decoded
  {
    var n := |decodes| - 1;
    DecodedAtMostStarted(decodes[..n], e);
    if k < n { AllDecoded(decodes[..n], e, k); }
  }
}
