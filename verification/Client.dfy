/** The browser client's side of the screen channel: the message handler and its
    acknowledgement bookkeeping (docs/client-examples/client.html). Tile decodes finish
    in any order, at any time. The channel stays open. */
module Clients {
  import opened Common
  import opened LittleEndian
  import opened Wire

  /** An announced batch with the number of tiles still to decode. */
  datatype Entry = Entry(seqNo: u32, tileCount: nat, remaining: int)

  datatype Progress = Running | Decoded | Failed

  /** A tile handed to the decoder, with the entry that was current at that moment.
      Entries are numbered in the order they were made. */
  datatype Decoding = Decoding(tile: ClientTile, entry: Option<nat>, progress: Progress)

  /** `acks` lists the entries acknowledged, `current` is the page's `ackPending`. */
  datatype Client = Client(entries: seq<Entry>, current: Option<nat>, decodes: seq<Decoding>, acks: seq<nat>)

  const NEW_CLIENT := Client([], None, [], [])

  function StartAll(tiles: seq<ClientTile>, entry: Option<nat>): (r: seq<Decoding>)
    ensures |r| == |tiles|
  {
    seq(|tiles|, k requires 0 <= k < |tiles| => Decoding(tiles[k], entry, Running))
  }

  /** A message arrives. */
  function Receive(c: Client, m: Message): Client {
    match m
    case Sequence(seqNo, n) => c.(entries := c.entries + [Entry(seqNo, n, n)], current := Some(|c.entries|))
    case TileData(tiles) => c.(decodes := c.decodes + StartAll(tiles, c.current))
    case _ => c
  }

  /** `maybeAck`. */
  function MaybeAck(c: Client, entry: Option<nat>): Client
    requires entry.Some? ==> entry.value < |c.entries|
  {
    if entry.None? then c else
      var e := entry.value;
      var left := c.entries[e].remaining - 1;
      c.(entries := c.entries[e := c.entries[e].(remaining := left)],
         acks := if left <= 0 then c.acks + [e] else c.acks)
  }

  predicate CanFinish(c: Client, k: nat) {
    && k < |c.decodes| && c.decodes[k].progress == Running
    && (c.decodes[k].entry.Some? ==> c.decodes[k].entry.value < |c.entries|)
  }

  /** Decode `k` finishes; a failed one is deliberately not counted. */
  function Finish(c: Client, k: nat, ok: bool): Client
    requires CanFinish(c, k)
  {
    var d := c.decodes[k];
    var c' := c.(decodes := c.decodes[k := d.(progress := if ok then Decoded else Failed)]);
    if ok then MaybeAck(c', d.entry) else c'
  }

  /** The page. */
  class Page {
    var entries: seq<Entry>
    var current: Option<nat>
    var decodes: seq<Decoding>
    var sent: seq<seq<byte>>
    ghost var acks: seq<nat>

    ghost predicate Valid()
      reads this
    {
      && |sent| == |acks|
      && (forall k :: 0 <= k < |acks| ==> acks[k] < |entries| && sent[k] == AckMessage(entries[acks[k]].seqNo))
    }

    ghost function Abstract(): Client
      reads this
    {
      Client(entries, current, decodes, acks)
    }

    constructor ()
      ensures Valid() && Abstract() == NEW_CLIENT
    {
      entries, current, decodes, sent, acks := [], None, [], [], [];
    }

    /** `dataChannel.onmessage`. A read past the end of the data ends the handler. */
    method OnMessage(data: seq<byte>)
      requires Valid()
      modifies this
      ensures Valid() && Abstract() == Receive(old(Abstract()), Dispatch(data))
    {
      if |data| < 2 {
        return;
      }
      var marker := At16(data, 0);
      if marker == MARKER_HEADER {
        return;
      }
      if marker == MARKER_SEQ {
        if |data| >= 10 {
          var count := At32(data, 6);
          entries, current := entries + [Entry(At32(data, 2), count, count)], Some(|entries|);
        }
        return;
      }
      StartTiles(data);
    }

    /** The loop over a tile packet: every tile starts to decode under the current entry. */
    method StartTiles(data: seq<byte>)
      requires Valid()
      modifies this`decodes
      ensures decodes == old(decodes) + StartAll(ParseFrom(data, 0), current)
    {
      var offset: nat := 0;
      ghost var whole := ParseFrom(data, 0);
      ghost var started: seq<ClientTile>, rest := [], whole;
      while offset < |data|
        invariant decodes == old(decodes) + StartAll(started, current)
        invariant whole == started + rest && rest == ParseFrom(data, offset)
        decreases |data| - offset
      {
        if offset + 4 > |data| {
          break;
        }
        var tileLen := At32(data, offset);
        var tile := data[offset + 4..Min(offset + 4 + tileLen, |data|)];
        ParseNext(data, offset);
        if |tile| < TILE_PREFIX {
          break;
        }
        StartMore(started, ReadTile(tile), current);
        decodes := decodes + [Decoding(ReadTile(tile), current, Running)];
        MoveFirst(started, rest);
        started, rest := started + [rest[0]], rest[1..];
        offset := offset + 4 + tileLen;
      }
      if offset + 4 > |data| { ParsePastEnd(data, offset); }
    }

    method OnDecoded(k: nat, ok: bool)
      requires Valid() && CanFinish(Abstract(), k)
      modifies this
      ensures Valid() && Abstract() == Finish(old(Abstract()), k, ok)
    {
      var d := decodes[k];
      decodes := decodes[k := d.(progress := if ok then Decoded else Failed)];
      if ok && d.entry.Some? {
        var e := d.entry.value;
        entries := entries[e := entries[e].(remaining := entries[e].remaining - 1)];
        if entries[e].remaining <= 0 {
          sent := sent + [AckMessage(entries[e].seqNo)];
          acks := acks + [e];
        }
      }
    }
  }

  lemma ParseNext(data: seq<byte>, offset: nat)
    requires offset + 4 <= |data|
    ensures var tileLen := At32(data, offset);
            var tile := data[offset + 4..Min(offset + 4 + tileLen, |data|)];
            var tiles := ParseFrom(data, offset);
            if |tile| < TILE_PREFIX then tiles == []
            else tiles != [] && tiles[0] == ReadTile(tile) && tiles[1..] == ParseFrom(data, offset + 4 + tileLen)
  {}

  lemma MoveFirst<T>(a: seq<T>, b: seq<T>)
    requires b != []
    ensures a + b == (a + [b[0]]) + b[1..]
  {}

  lemma ParsePastEnd(data: seq<byte>, offset: nat)
    requires offset + 4 > |data|
    ensures ParseFrom(data, offset) == []
  {}

  lemma StartMore(tiles: seq<ClientTile>, t: ClientTile, entry: Option<nat>)
    ensures StartAll(tiles + [t], entry) == StartAll(tiles, entry) + [Decoding(t, entry, Running)]
  {}

  // ---------- counting ----------

  /** The tiles whose decode was started for an entry. */
  function TilesOfEntry(decodes: seq<Decoding>, e: nat): seq<ClientTile> {
    if decodes == [] then [] else
      var d := decodes[|decodes| - 1];
      TilesOfEntry(decodes[..|decodes| - 1], e) + (if d.entry == Some(e) then [d.tile] else [])
  }

  /** How many of them have been decoded. */
  function DecodedOf(decodes: seq<Decoding>, e: nat): nat {
    if decodes == [] then 0 else
      var d := decodes[|decodes| - 1];
      DecodedOf(decodes[..|decodes| - 1], e) + (if d.entry == Some(e) && d.progress == Decoded then 1 else 0)
  }

  function AcksOf(acks: seq<nat>, e: nat): nat {
    if acks == [] then 0 else AcksOf(acks[..|acks| - 1], e) + (if acks[|acks| - 1] == e then 1 else 0)
  }

  lemma {:induction false} DecodedAtMostStarted(decodes: seq<Decoding>, e: nat)
    ensures DecodedOf(decodes, e) <= |TilesOfEntry(decodes, e)|
  {
    if decodes != [] { DecodedAtMostStarted(decodes[..|decodes| - 1], e); }
  }

  lemma {:induction false} StartCounts(decodes: seq<Decoding>, tiles: seq<ClientTile>, entry: Option<nat>, e: nat)
    ensures DecodedOf(decodes + StartAll(tiles, entry), e) == DecodedOf(decodes, e)
    ensures TilesOfEntry(decodes + StartAll(tiles, entry), e)
         == TilesOfEntry(decodes, e) + if entry == Some(e) then tiles else []
    decreases |tiles|
  {
    var n := |tiles| - 1;
    var all := decodes + StartAll(tiles, entry);
    if tiles == [] {
      assert all == decodes;
    } else {
      StartMore(tiles[..n], tiles[n], entry);
      assert tiles == tiles[..n] + [tiles[n]];
      assert all[..|all| - 1] == decodes + StartAll(tiles[..n], entry);
      StartCounts(decodes, tiles[..n], entry, e);
    }
  }

  lemma {:induction false} FinishCounts(decodes: seq<Decoding>, k: nat, ok: bool, e: nat)
    requires k < |decodes| && decodes[k].progress == Running
    ensures var after := decodes[k := decodes[k].(progress := if ok then Decoded else Failed)];
            && TilesOfEntry(after, e) == TilesOfEntry(decodes, e)
            && DecodedOf(after, e) == DecodedOf(decodes, e) + (if ok && decodes[k].entry == Some(e) then 1 else 0)
    decreases |decodes|
  {
    var after := decodes[k := decodes[k].(progress := if ok then Decoded else Failed)];
    var n := |decodes| - 1;
    if k < n {
      assert after[..n] == decodes[..n][k := decodes[k].(progress := if ok then Decoded else Failed)];
      FinishCounts(decodes[..n], k, ok, e);
    } else {
      assert after[..n] == decodes[..n];
    }
  }

  // ---------- every reachable client ----------

  /** Acknowledgements an entry of `count` tiles has caused once `done` are decoded. */
  function AcksDue(count: nat, done: nat): nat { Max(0, done - Max(count - 1, 0)) }

  ghost predicate EntryOk(c: Client, e: nat)
    requires e < |c.entries|
  {
    && c.entries[e].remaining == c.entries[e].tileCount - DecodedOf(c.decodes, e)
    && AcksOf(c.acks, e) == AcksDue(c.entries[e].tileCount, DecodedOf(c.decodes, e))
  }

  ghost predicate Inv(c: Client) {
    && (forall k :: 0 <= k < |c.decodes| && c.decodes[k].entry.Some? ==> c.decodes[k].entry.value < |c.entries|)
    && (c.current == if c.entries == [] then None else Some(|c.entries| - 1))
    && (forall e: nat :: e >= |c.entries| ==> DecodedOf(c.decodes, e) == 0 && AcksOf(c.acks, e) == 0)
    && (forall e: nat :: e < |c.entries| ==> EntryOk(c, e))
  }

  lemma ReceiveKeepsInv(c: Client, m: Message)
    requires Inv(c)
    ensures Inv(Receive(c, m))
  {
    var c' := Receive(c, m);
    forall e: nat
      ensures DecodedOf(c'.decodes, e) == DecodedOf(c.decodes, e)
    {
      if m.TileData? { StartCounts(c.decodes, m.tiles, c.current, e); }
    }
    forall e: nat | e < |c'.entries|
      ensures EntryOk(c', e)
    {
      assert e < |c.entries| ==> EntryOk(c, e);
    }
  }

  lemma FinishKeepsInv(c: Client, k: nat, ok: bool)
    requires Inv(c) && CanFinish(c, k)
    ensures Inv(Finish(c, k, ok))
  {
    var c' := Finish(c, k, ok);
    forall e: nat
      ensures DecodedOf(c'.decodes, e) == DecodedOf(c.decodes, e) + (if ok && c.decodes[k].entry == Some(e) then 1 else 0)
    {
      FinishCounts(c.decodes, k, ok, e);
    }
    if c'.acks != c.acks { assert c'.acks[..|c'.acks| - 1] == c.acks; }
    forall e: nat | e < |c'.entries| ensures EntryOk(c', e) { assert EntryOk(c, e); }
  }

  /** A message arrives, a decode finishes, or the browser grants an animation frame, which
      concerns the canvas only. */
  datatype ClientStep = Arrive(message: Message) | Finished(k: nat, ok: bool) | Repaint

  /** The client after some messages, finished decodes and frames, in any interleaving. */
  function ClientAfter(steps: seq<ClientStep>): Option<Client> {
    if steps == [] then Some(NEW_CLIENT) else
      var before := ClientAfter(steps[..|steps| - 1]);
      if before.None? then None else
        match steps[|steps| - 1]
        case Arrive(m) => Some(Receive(before.value, m))
        case Finished(k, ok) => if CanFinish(before.value, k) then Some(Finish(before.value, k, ok)) else None
        case Repaint => before
  }

  /** How often a batch is acknowledged depends on how many of its tiles have been
      decoded and on nothing else: not the order of decodes, not the failures, not
      other batches. This holds whatever the messages are. */
  lemma {:induction false} AcksAreCounted(steps: seq<ClientStep>)
    requires ClientAfter(steps).Some?
    ensures Inv(ClientAfter(steps).value)
  {
    if steps != [] {
      var before := steps[..|steps| - 1];
      AcksAreCounted(before);
      match steps[|steps| - 1]
      case Arrive(m) => ReceiveKeepsInv(ClientAfter(before).value, m);
      case Finished(k, ok) => FinishKeepsInv(ClientAfter(before).value, k, ok);
      case Repaint =>
    }
  }

  // ---------- what the messages say ----------

  function MessagesOf(steps: seq<ClientStep>): seq<Message> {
    if steps == [] then [] else
      var last := steps[|steps| - 1];
      MessagesOf(steps[..|steps| - 1]) + (if last.Arrive? then [last.message] else [])
  }

  function Announced(msgs: seq<Message>): seq<(u32, nat)> {
    if msgs == [] then [] else
      var m := msgs[|msgs| - 1];
      Announced(msgs[..|msgs| - 1]) + (if m.Sequence? then [(m.seqNo, m.tileCount)] else [])
  }

  /** The tiles that follow announcement `e`, up to the next one. */
  function TilesFor(msgs: seq<Message>, e: nat): seq<ClientTile> {
    if msgs == [] then [] else
      var n := |msgs| - 1;
      TilesFor(msgs[..n], e) + (if |Announced(msgs[..n])| == e + 1 then TilesOf(msgs[n]) else [])
  }

  lemma OneMessage(msgs: seq<Message>, m: Message, e: nat)
    ensures Announced(msgs + [m]) == Announced(msgs) + (if m.Sequence? then [(m.seqNo, m.tileCount)] else [])
    ensures TilesFor(msgs + [m], e) == TilesFor(msgs, e) + (if |Announced(msgs)| == e + 1 then TilesOf(m) else [])
  {}

  ghost predicate Follows(c: Client, msgs: seq<Message>) {
    && |c.entries| == |Announced(msgs)|
    && (forall e :: 0 <= e < |c.entries| ==>
          c.entries[e].seqNo == Announced(msgs)[e].0 && c.entries[e].tileCount == Announced(msgs)[e].1)
    && (forall e: nat :: TilesOfEntry(c.decodes, e) == TilesFor(msgs, e))
  }

  lemma ReceiveFollows(c: Client, msgs: seq<Message>, m: Message)
    requires Inv(c) && Follows(c, msgs)
    ensures Follows(Receive(c, m), msgs + [m])
  {
    forall e: nat
      ensures TilesOfEntry(Receive(c, m).decodes, e) == TilesFor(msgs + [m], e)
    {
      OneMessage(msgs, m, e);
      if m.TileData? { StartCounts(c.decodes, m.tiles, c.current, e); }
    }
    OneMessage(msgs, m, 0);
  }

  lemma FinishFollows(c: Client, msgs: seq<Message>, k: nat, ok: bool)
    requires Inv(c) && Follows(c, msgs) && CanFinish(c, k)
    ensures Follows(Finish(c, k, ok), msgs)
  {
    forall e: nat
      ensures TilesOfEntry(Finish(c, k, ok).decodes, e) == TilesOfEntry(c.decodes, e)
    {
      FinishCounts(c.decodes, k, ok, e);
    }
  }

  /** Batches and their tiles are as the messages say, whatever has been decoded. */
  lemma {:induction false} ClientFollows(steps: seq<ClientStep>)
    requires ClientAfter(steps).Some?
    ensures Follows(ClientAfter(steps).value, MessagesOf(steps))
  {
    if steps != [] {
      var before := steps[..|steps| - 1];
      var c := ClientAfter(before).value;
      ClientFollows(before);
      AcksAreCounted(before);
      match steps[|steps| - 1]
      case Arrive(m) => ReceiveFollows(c, MessagesOf(before), m);
      case Finished(k, ok) =>
        assert MessagesOf(steps) == MessagesOf(before);
        FinishFollows(c, MessagesOf(before), k, ok);
      case Repaint => assert MessagesOf(steps) == MessagesOf(before);
    }
  }

  lemma {:induction false} MoreMessages(msgs: seq<Message>, more: seq<Message>, e: nat)
    ensures Announced(msgs) <= Announced(msgs + more) && TilesFor(msgs, e) <= TilesFor(msgs + more, e)
    decreases |more|
  {
    if more == [] {
      assert msgs + more == msgs;
    } else {
      var all := msgs + more;
      assert all[..|all| - 1] == msgs + more[..|more| - 1];
      MoreMessages(msgs, more[..|more| - 1], e);
    }
  }

  lemma PrefixSays(msgs: seq<Message>, all: seq<Message>, e: nat)
    requires msgs <= all
    ensures Announced(msgs) <= Announced(all) && TilesFor(msgs, e) <= TilesFor(all, e)
  {
    assert all == msgs + all[|msgs|..];
    MoreMessages(msgs, all[|msgs|..], e);
  }

  // ---------- what the server sends ----------

  /** What the send loop puts on the channel: a resolution header, or a batch with the
      grouping of its tiles into packets. */
  datatype Sending =
    | Header(packet: seq<byte>)
    | Batch(seqNo: u32, tiles: seq<WireTile>, sent: seq<seq<byte>>, groups: seq<seq<WireTile>>)

  /** Frames without tiles are not sent as batches; `Readable` is the condition of
      `BatchRoundTrip`. */
  ghost predicate Proper(s: Sending) {
    match s
    case Header(packet) => Dispatch(packet).Resolution?
    case Batch(seqNo, tiles, sent, groups) =>
      IsBatch(seqNo, tiles, sent, groups) && tiles != [] && |tiles| < U32_LIMIT && Short(tiles) && Readable(groups)
  }

  ghost predicate AllProper(sendings: seq<Sending>) {
    forall k :: 0 <= k < |sendings| ==> Proper(sendings[k])
  }

  function Packets(s: Sending): seq<seq<byte>> { if s.Header? then [s.packet] else s.sent }

  /** The messages of a channel that keeps their order. */
  function Channel(sendings: seq<Sending>): seq<Message> {
    if sendings == [] then [] else
      Channel(sendings[..|sendings| - 1]) + DispatchAll(Packets(sendings[|sendings| - 1]))
  }

  function Batches(sendings: seq<Sending>): (r: seq<Sending>)
    ensures forall k :: 0 <= k < |r| ==> r[k].Batch?
  {
    if sendings == [] then [] else
      var s := sendings[|sendings| - 1];
      Batches(sendings[..|sendings| - 1]) + (if s.Batch? then [s] else [])
  }

  lemma {:induction false} NothingAnnounced(msgs: seq<Message>, more: seq<Message>)
    requires AllTileData(more)
    ensures Announced(msgs + more) == Announced(msgs)
    decreases |more|
  {
    if more == [] {
      assert msgs + more == msgs;
    } else {
      OneTileMessage(msgs, more[0], 0);
      assert msgs + more == (msgs + [more[0]]) + more[1..];
      NothingAnnounced(msgs + [more[0]], more[1..]);
    }
  }

  lemma {:induction false} TilesAfter(msgs: seq<Message>, more: seq<Message>, e: nat)
    requires AllTileData(more)
    ensures TilesFor(msgs + more, e) == TilesFor(msgs, e) + if |Announced(msgs)| == e + 1 then Received(more) else []
    decreases |more|
  {
    if more == [] {
      assert msgs + more == msgs;
    } else {
      OneTileMessage(msgs, more[0], e);
      assert msgs + more == (msgs + [more[0]]) + more[1..];
      TilesAfter(msgs + [more[0]], more[1..], e);
      Associate(TilesFor(msgs, e), TilesOf(more[0]), Received(more[1..]));
    }
  }

  lemma OneTileMessage(msgs: seq<Message>, m: Message, e: nat)
    requires m.TileData?
    ensures Announced(msgs + [m]) == Announced(msgs)
    ensures TilesFor(msgs + [m], e) == TilesFor(msgs, e) + (if |Announced(msgs)| == e + 1 then TilesOf(m) else [])
  {}

  lemma BatchHeard(b: Sending)
    requires b.Batch? && Proper(b)
    ensures var m := DispatchAll(b.sent);
            && m != [] && m[0] == Sequence(b.seqNo, |b.tiles|)
            && AllTileData(m[1..]) && Received(m[1..]) == SeenAll(b.tiles)
  {
    BatchRoundTrip(b.seqNo, b.tiles, b.sent, b.groups);
  }

  lemma BatchArrives(msgs: seq<Message>, m: seq<Message>, e: nat)
    requires m != [] && m[0].Sequence? && AllTileData(m[1..])
    ensures Announced(msgs + m) == Announced(msgs) + [(m[0].seqNo, m[0].tileCount)]
    ensures TilesFor(msgs + m, e) == TilesFor(msgs, e) + if |Announced(msgs)| == e then Received(m[1..]) else []
  {
    assert msgs + m == (msgs + [m[0]]) + m[1..];
    OneMessage(msgs, m[0], e);
    NothingAnnounced(msgs + [m[0]], m[1..]);
    TilesAfter(msgs + [m[0]], m[1..], e);
  }

  /** The messages announce the given batches, and the tiles after announcement `e` are
      those of batch `e`. */
  ghost predicate Says(msgs: seq<Message>, sent: seq<Sending>, e: nat)
    requires forall k :: 0 <= k < |sent| ==> sent[k].Batch?
  {
    && |Announced(msgs)| == |sent|
    && (forall k :: 0 <= k < |sent| ==> Announced(msgs)[k] == (sent[k].seqNo, |sent[k].tiles|))
    && TilesFor(msgs, e) == (if e < |sent| then SeenAll(sent[e].tiles) else [])
  }

  lemma BatchSays(msgs: seq<Message>, sent: seq<Sending>, s: Sending, e: nat)
    requires (forall k :: 0 <= k < |sent| ==> sent[k].Batch?) && s.Batch?
    requires Says(msgs, sent, e) && Proper(s)
    ensures Says(msgs + DispatchAll(s.sent), sent + [s], e)
  {
    BatchHeard(s);
    BatchArrives(msgs, DispatchAll(s.sent), e);
  }

  lemma HeaderSays(msgs: seq<Message>, sent: seq<Sending>, s: Sending, e: nat)
    requires (forall k :: 0 <= k < |sent| ==> sent[k].Batch?) && s.Header?
    requires Says(msgs, sent, e) && Proper(s)
    ensures Says(msgs + DispatchAll(Packets(s)), sent, e)
  {}

  /** The messages on the channel say exactly which batches were sent. */
  lemma {:induction false} ChannelSays(sendings: seq<Sending>, e: nat)
    requires AllProper(sendings)
    ensures Says(Channel(sendings), Batches(sendings), e)
  {
    if sendings != [] {
      var before, s := sendings[..|sendings| - 1], sendings[|sendings| - 1];
      ChannelSays(before, e);
      if s.Batch? {
        BatchSays(Channel(before), Batches(before), s, e);
      } else {
        HeaderSays(Channel(before), Batches(before), s, e);
        assert Batches(sendings) == Batches(before);
      }
    }
  }

  /** Tiles only follow an announcement. */
  ghost predicate Attributed(msgs: seq<Message>) {
    forall k :: 0 <= k < |msgs| && msgs[k].TileData? ==> Announced(msgs[..k]) != []
  }

  lemma {:induction false} ChannelIsAttributed(sendings: seq<Sending>)
    requires AllProper(sendings)
    ensures Attributed(Channel(sendings))
  {
    if sendings != [] {
      var before, s := sendings[..|sendings| - 1], sendings[|sendings| - 1];
      ChannelIsAttributed(before);
      if s.Batch? {
        BatchHeard(s);
        BatchIsAttributed(Channel(before), DispatchAll(s.sent));
      } else {
        HeaderIsAttributed(Channel(before), Dispatch(s.packet));
        assert DispatchAll(Packets(s)) == [Dispatch(s.packet)];
      }
    }
  }

  lemma HeaderIsAttributed(msgs: seq<Message>, m: Message)
    requires Attributed(msgs) && m.Resolution?
    ensures Attributed(msgs + [m])
  {
    forall k | 0 <= k < |msgs| ensures (msgs + [m])[..k] == msgs[..k] {}
  }

  lemma BatchIsAttributed(msgs: seq<Message>, m: seq<Message>)
    requires Attributed(msgs) && m != [] && m[0].Sequence? && AllTileData(m[1..])
    ensures Attributed(msgs + m)
  {
    var all := msgs + m;
    forall k | 0 <= k < |all| && all[k].TileData?
      ensures Announced(all[..k]) != []
    {
      if k < |msgs| {
        assert all[..k] == msgs[..k];
      } else {
        var heard := m[..k - |msgs|];
        assert all[..k] == msgs + heard;
        assert AllTileData(heard[1..]) by {
          forall j | 0 <= j < |heard[1..]| ensures heard[1..][j].TileData? { assert heard[1..][j] == m[1..][j]; }
        }
        BatchArrives(msgs, heard, 0);
      }
    }
  }

  /** Every tile handed to the decoder then has an entry. */
  lemma {:induction false} DecodesHaveEntries(steps: seq<ClientStep>)
    requires ClientAfter(steps).Some? && Attributed(MessagesOf(steps))
    ensures forall k :: 0 <= k < |ClientAfter(steps).value.decodes| ==> ClientAfter(steps).value.decodes[k].entry.Some?
  {
    if steps != [] {
      var before, last := steps[..|steps| - 1], steps[|steps| - 1];
      AttributedBefore(MessagesOf(before), MessagesOf(steps));
      DecodesHaveEntries(before);
      AcksAreCounted(before);
      ClientFollows(before);
      if last.Arrive? && last.message.TileData? {
        assert MessagesOf(steps)[..|MessagesOf(before)|] == MessagesOf(before);
      }
    }
  }

  lemma AttributedBefore(msgs: seq<Message>, all: seq<Message>)
    requires Attributed(all) && msgs <= all
    ensures Attributed(msgs)
  {
    forall k | 0 <= k < |msgs| && msgs[k].TileData?
      ensures Announced(msgs[..k]) != []
    {
      assert msgs[..k] == all[..k] && msgs[k] == all[k];
    }
  }

  /** A batch is acknowledged at most once, and exactly when all of its tiles have been
      decoded, in every run in which the messages so far are the first of those the
      server sent, in order: whatever the order of decodes, whatever fails, however
      decodes and later batches interleave. */
  lemma AckedOnceIffDecoded(steps: seq<ClientStep>, sendings: seq<Sending>, e: nat)
    requires ClientAfter(steps).Some? && AllProper(sendings) && MessagesOf(steps) <= Channel(sendings)
    requires e < |ClientAfter(steps).value.entries|
    ensures var c, sent := ClientAfter(steps).value, Batches(sendings);
            && e < |sent| && c.entries[e].seqNo == sent[e].seqNo
            && TilesOfEntry(c.decodes, e) <= SeenAll(sent[e].tiles)
            && AcksOf(c.acks, e) <= 1
            && (AcksOf(c.acks, e) == 1 <==> DecodedOf(c.decodes, e) == |sent[e].tiles|)
  {
    var c, msgs, all := ClientAfter(steps).value, MessagesOf(steps), Channel(sendings);
    AcksAreCounted(steps);
    ClientFollows(steps);
    PrefixSays(msgs, all, e);
    ChannelSays(sendings, e);
    DecodedAtMostStarted(c.decodes, e);
    assert EntryOk(c, e);
    SentIsNonempty(sendings, e);
  }

  lemma {:induction false} SentIsNonempty(sendings: seq<Sending>, e: nat)
    requires AllProper(sendings) && e < |Batches(sendings)|
    ensures Batches(sendings)[e].tiles != []
  {
    var n := |sendings| - 1;
    if e < |Batches(sendings[..n])| {
      SentIsNonempty(sendings[..n], e);
    } else {
      assert Proper(sendings[n]);
    }
  }
}
