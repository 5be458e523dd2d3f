/** The screen channel's wire format (src/protocol.rs): encoders, the greedy packer, and
    the client's reading of a message (docs/client-examples/client.html). */
module Wire {
  import opened Common
  import opened LittleEndian

  const MARKER_HEADER: nat := 0xFFFF
  const MARKER_SEQ: nat := 0xFFFE
  const MAX_PACKET_SIZE: nat := 8000
  const TILE_PREFIX: nat := 8

  // ---------- control packets ----------

  function HeaderPacket(width: nat, height: nat): (p: seq<byte>)
    ensures |p| == 6
  {
    Le16(MARKER_HEADER) + Le16(width) + Le16(height)
  }

  lemma HeaderRoundTrip(width: nat, height: nat)
    requires width < U16_LIMIT && height < U16_LIMIT
    ensures Dispatch(HeaderPacket(width, height)) == Resolution(width, height)
  {
    var p := HeaderPacket(width, height);
    assert p[0..2] == Le16(MARKER_HEADER) && p[2..4] == Le16(width) && p[4..6] == Le16(height);
    Read16(p, 0, MARKER_HEADER);
    Read16(p, 2, width);
    Read16(p, 4, height);
  }

  /** A dimension that does not fit the protocol's 16 bits has no header. */
  method EncodeHeader(width: u32, height: u32) returns (header: Option<seq<byte>>)
    ensures header.Some? <==> width < U16_LIMIT && height < U16_LIMIT
    ensures header.Some? ==> header.value == HeaderPacket(width, height)
    ensures header.Some? ==> Dispatch(header.value) == Resolution(width, height) && |header.value| == 6
  {
    if width >= U16_LIMIT || height >= U16_LIMIT {
      return None;
    }
    var buf := new byte[6](_ => 0);
    Put(buf, 0, Le16(MARKER_HEADER));
    Put(buf, 2, Le16(width));
    Put(buf, 4, Le16(height));
    var packet := buf[..];
    assert packet == packet[0..2] + packet[2..4] + packet[4..6];
    HeaderRoundTrip(width, height);
    header := Some(packet);
  }

  function SeqPacket(seqNo: u32, tileCount: nat): (p: seq<byte>)
    ensures |p| == 10
  {
    Le16(MARKER_SEQ) + Le32(seqNo) + Le32(tileCount)
  }

  method EncodeSeq(seqNo: u32, tileCount: u32) returns (packet: seq<byte>)
    ensures packet == SeqPacket(seqNo, tileCount)
  {
    var buf := new byte[10](_ => 0);
    Put(buf, 0, Le16(MARKER_SEQ));
    Put(buf, 2, Le32(seqNo));
    Put(buf, 6, Le32(tileCount));
    packet := buf[..];
    assert packet == packet[0..2] + packet[2..6] + packet[6..10];
  }

  /** `copy_from_slice` into part of a buffer. */
  method Put(buf: array<byte>, at: nat, bytes: seq<byte>)
    requires at + |bytes| <= buf.Length
    modifies buf
    ensures buf[at..at + |bytes|] == bytes
    ensures buf[..at] == old(buf[..at]) && buf[at + |bytes|..] == old(buf[at + |bytes|..])
    ensures forall i :: 0 <= i < at || at + |bytes| <= i < buf.Length ==> buf[i] == old(buf[i])
  {
    for k: nat := 0 to |bytes|
      invariant forall i :: 0 <= i < at || at + k <= i < buf.Length ==> buf[i] == old(buf[i])
      invariant forall i :: 0 <= i < k ==> buf[at + i] == bytes[i]
    {
      buf[at + k] := bytes[k];
    }
  }

  lemma ThreeFields<T>(p: seq<T>, a: seq<T>, b: seq<T>, c: seq<T>)
    requires p == a + b + c && |a| == 2 && |b| == 4 && |c| == 4
    ensures p[0..2] == a && p[2..6] == b && p[6..10] == c
  {}

  /** A sequence packet is always read back, with the tile count cut to 32 bits. */
  lemma SeqRoundTrip(seqNo: u32, tileCount: nat)
    ensures Dispatch(SeqPacket(seqNo, tileCount)) == Sequence(seqNo, tileCount % U32_LIMIT)
  {
    var p := SeqPacket(seqNo, tileCount);
    var a, b, c := Le16(MARKER_SEQ), Le32(seqNo), Le32(tileCount);
    ThreeFields(p, a, b, c);
    Read16(p, 0, MARKER_SEQ);
    Read32(p, 2, seqNo);
    Read32(p, 6, tileCount);
  }

  /** The client's acknowledgement of a batch. */
  function AckMessage(seqNo: u32): seq<byte> { Le32(seqNo) }

  function DecodeAck(msg: seq<byte>): Option<u32> {
    if |msg| == 4 then Some(At32(msg, 0)) else None
  }

  lemma AckIsRead(seqNo: u32)
    ensures DecodeAck(AckMessage(seqNo)) == Some(seqNo)
  {
    var a := AckMessage(seqNo);
    Pow256Values();
    WriteRead(seqNo, 4);
    assert a[0..4] == a;
  }

  lemma AckIsWritten(msg: seq<byte>)
    requires |msg| == 4
    ensures msg == AckMessage(At32(msg, 0))
  {
    assert msg[0..4] == msg;
    ReadWrite(msg);
  }

  /** Acknowledgements are exactly the four-byte messages, one for each batch number. */
  lemma AckRoundTrip(seqNo: u32, msg: seq<byte>)
    ensures DecodeAck(msg) == Some(seqNo) <==> msg == AckMessage(seqNo)
  {
    AckIsRead(seqNo);
    if |msg| == 4 { AckIsWritten(msg); }
  }

  // ---------- tiles ----------

  /** A tile's place in pixels and its encoded image. */
  datatype WireTile = WireTile(x: u32, y: u32, width: u32, height: u32, webp: seq<byte>) {
    function Len(): nat { TILE_PREFIX + |webp| }

    /** Lengths and coordinates are written with 32 and 16 bits. */
    predicate Fits() {
      Len() < U32_LIMIT && x < U16_LIMIT && y < U16_LIMIT && width < U16_LIMIT && height < U16_LIMIT
    }

    /** The first two bytes of the packet the tile opens would be a marker. */
    predicate LooksLikeMarker() {
      Len() % U16_LIMIT == MARKER_HEADER || Len() % U16_LIMIT == MARKER_SEQ
    }
  }

  function EncodeTile(t: WireTile): (b: seq<byte>)
    ensures |b| == 4 + t.Len()
  {
    Le32(t.Len()) + (EncodeWords([t.x, t.y, t.width, t.height]) + t.webp)
  }

  function EncodeWords(words: seq<u32>): (b: seq<byte>)
    ensures |b| == 2 * |words|
  {
    if words == [] then [] else Le16(words[0]) + EncodeWords(words[1..])
  }

  lemma {:induction false} WordAt(words: seq<u32>, k: nat)
    requires k < |words|
    ensures EncodeWords(words)[2 * k..2 * k + 2] == Le16(words[k])
  {
    if k > 0 {
      WordAt(words[1..], k - 1);
    }
  }

  /** Bytes on the wire. */
  function Size(tiles: seq<WireTile>): nat {
    if tiles == [] then 0 else 4 + tiles[0].Len() + Size(tiles[1..])
  }

  function EncodeAll(tiles: seq<WireTile>): (b: seq<byte>)
    ensures |b| == Size(tiles)
  {
    if tiles == [] then [] else EncodeTile(tiles[0]) + EncodeAll(tiles[1..])
  }

  lemma {:induction false} EncodeConcat(a: seq<WireTile>, b: seq<WireTile>)
    ensures EncodeAll(a + b) == EncodeAll(a) + EncodeAll(b)
  {
    if a == [] {
      assert a + b == b;
    } else {
      assert (a + b)[1..] == a[1..] + b;
      EncodeConcat(a[1..], b);
    }
  }

  lemma {:induction false} SizeConcat(a: seq<WireTile>, b: seq<WireTile>)
    ensures Size(a + b) == Size(a) + Size(b)
  {
    if a == [] {
      assert a + b == b;
    } else {
      assert (a + b)[1..] == a[1..] + b;
      SizeConcat(a[1..], b);
    }
  }

  lemma EncodeAppend(a: seq<WireTile>, t: WireTile)
    ensures EncodeAll(a + [t]) == EncodeAll(a) + EncodeTile(t)
  {
    EncodeConcat(a, [t]);
    assert EncodeAll([t]) == EncodeTile(t);
  }

  // ---------- packing ----------

  function Flatten<T>(groups: seq<seq<T>>): seq<T> {
    if groups == [] then [] else groups[0] + Flatten(groups[1..])
  }

  lemma {:induction false} FlattenAppend<T>(groups: seq<seq<T>>, g: seq<T>)
    ensures Flatten(groups + [g]) == Flatten(groups) + g
  {
    if groups == [] {
      assert [g][1..] == [];
    } else {
      assert (groups + [g])[1..] == groups[1..] + [g];
      FlattenAppend(groups[1..], g);
    }
  }

  /** Tiles in order, none split, in nonempty packets; only a tile that is too large on
      its own exceeds the limit. */
  ghost predicate Packs(tiles: seq<WireTile>, groups: seq<seq<WireTile>>) {
    && Flatten(groups) == tiles
    && (forall k :: 0 <= k < |groups| ==> GoodGroup(groups[k]))
  }

  predicate GoodGroup(g: seq<WireTile>) {
    g != [] && (Size(g) <= MAX_PACKET_SIZE || |g| == 1)
  }

  /** No packet has room for the next packet's first tile. */
  ghost predicate Greedy(groups: seq<seq<WireTile>>) {
    forall k {:trigger Tight(groups, k)} :: 0 < k < |groups| ==> Tight(groups, k)
  }

  predicate Tight(groups: seq<seq<WireTile>>, k: nat)
    requires 0 < k < |groups|
  {
    groups[k] != [] ==> Full(groups[k - 1], groups[k][0])
  }

  predicate Full(g: seq<WireTile>, next: WireTile) {
    Size(g) + 4 + next.Len() > MAX_PACKET_SIZE
  }

  ghost predicate EncodesGroups(packets: seq<seq<byte>>, groups: seq<seq<WireTile>>) {
    |packets| == |groups| && forall k :: 0 <= k < |packets| ==> packets[k] == EncodeAll(groups[k])
  }

  /** The packets shipped so far, with the tiles `groups` of each, and the tiles `open` of
      the packet being filled. */
  ghost predicate Packing(tiles: seq<WireTile>, packets: seq<seq<byte>>, current: seq<byte>,
                          groups: seq<seq<WireTile>>, open: seq<WireTile>)
  {
    && Partly(tiles, packets, current, groups, open) && |current| <= MAX_PACKET_SIZE
    && (open == [] && groups != [] ==> Size(groups[|groups| - 1]) > MAX_PACKET_SIZE)
  }

  ghost predicate Partly(tiles: seq<WireTile>, packets: seq<seq<byte>>, current: seq<byte>,
                         groups: seq<seq<WireTile>>, open: seq<WireTile>)
  {
    && tiles == Flatten(groups) + open && EncodesGroups(packets, groups) && current == EncodeAll(open)
    && (forall k :: 0 <= k < |groups| ==> GoodGroup(groups[k])) && Greedy(groups)
    && (open != [] && groups != [] ==> Full(groups[|groups| - 1], open[0]))
  }

  /** The packet being filled has room for the next tile, or is empty and no earlier
      packet has room for it. */
  ghost predicate Ready(tiles: seq<WireTile>, packets: seq<seq<byte>>, current: seq<byte>,
                        groups: seq<seq<WireTile>>, open: seq<WireTile>, next: WireTile)
  {
    && Partly(tiles, packets, current, groups, open)
    && (open == [] && groups != [] ==> Full(groups[|groups| - 1], next))
    && (open != [] ==> |current| + 4 + next.Len() <= MAX_PACKET_SIZE)
  }

  lemma GreedyTail(groups: seq<seq<WireTile>>)
    requires Greedy(groups) && groups != []
    ensures Greedy(groups[1..])
  {
    forall k {:trigger Tight(groups[1..], k)} | 0 < k < |groups| - 1
      ensures Tight(groups[1..], k)
    {
      assert Tight(groups, k + 1);
    }
  }

  lemma GreedyAppend(groups: seq<seq<WireTile>>, g: seq<WireTile>)
    requires Greedy(groups) && g != [] && (groups != [] ==> Full(groups[|groups| - 1], g[0]))
    ensures Greedy(groups + [g])
  {
    forall k {:trigger Tight(groups + [g], k)} | 0 < k < |groups + [g]|
      ensures Tight(groups + [g], k)
    {
      assert k < |groups| ==> Tight(groups, k);
    }
  }

  lemma Ship(tiles: seq<WireTile>, packets: seq<seq<byte>>, current: seq<byte>,
             groups: seq<seq<WireTile>>, open: seq<WireTile>)
    requires Partly(tiles, packets, current, groups, open) && open != [] && GoodGroup(open)
    ensures Partly(tiles, packets + [current], [], groups + [open], [])
  {
    FlattenAppend(groups, open);
    GreedyAppend(groups, open);
  }

  lemma AddTile(tiles: seq<WireTile>, packets: seq<seq<byte>>, current: seq<byte>,
                groups: seq<seq<WireTile>>, open: seq<WireTile>, next: WireTile)
    requires Ready(tiles, packets, current, groups, open, next)
    ensures Partly(tiles + [next], packets, current + EncodeTile(next), groups, open + [next])
    ensures open != [] ==> |current + EncodeTile(next)| <= MAX_PACKET_SIZE
  {
    EncodeAppend(open, next);
  }

  lemma EmptyEncoding(tiles: seq<WireTile>)
    ensures EncodeAll(tiles) == [] <==> tiles == []
  {}

  /** Shipping the packet being filled, where the next tile does not fit, makes room for it. */
  lemma MakeRoom(tiles: seq<WireTile>, packets: seq<seq<byte>>, current: seq<byte>,
                 groups: seq<seq<WireTile>>, open: seq<WireTile>, next: WireTile)
    requires Packing(tiles, packets, current, groups, open)
    ensures if current != [] && |current| + 4 + next.Len() > MAX_PACKET_SIZE
            then Ready(tiles, packets + [current], [], groups + [open], [], next)
            else Ready(tiles, packets, current, groups, open, next)
  {
    EmptyEncoding(open);
    if current != [] { Ship(tiles, packets, current, groups, open); }
  }

  /** After a tile is added, an oversized packet is shipped at once. */
  lemma Settle(tiles: seq<WireTile>, packets: seq<seq<byte>>, current: seq<byte>,
               groups: seq<seq<WireTile>>, open: seq<WireTile>, next: WireTile)
    requires Ready(tiles, packets, current, groups, open, next)
    ensures var more := current + EncodeTile(next);
            if |more| > MAX_PACKET_SIZE then Packing(tiles + [next], packets + [more], [], groups + [open + [next]], [])
            else Packing(tiles + [next], packets, more, groups, open + [next])
  {
    AddTile(tiles, packets, current, groups, open, next);
    var more := current + EncodeTile(next);
    if |more| > MAX_PACKET_SIZE { Ship(tiles + [next], packets, more, groups, open + [next]); }
  }

  lemma Complete(tiles: seq<WireTile>, packets: seq<seq<byte>>, current: seq<byte>,
                 groups: seq<seq<WireTile>>, open: seq<WireTile>)
    requires Packing(tiles, packets, current, groups, open)
    ensures var all, sent := if current != [] then groups + [open] else groups,
                             if current != [] then packets + [current] else packets;
            Packs(tiles, all) && Greedy(all) && EncodesGroups(sent, all)
  {
    EmptyEncoding(open);
    if current != [] { Ship(tiles, packets, current, groups, open); }
  }

  /** One pass of the packer's loop. */
  method PackTile(tile: WireTile, before: seq<seq<byte>>, filled: seq<byte>, ghost done: seq<WireTile>,
                  ghost earlier: seq<seq<WireTile>>, ghost begun: seq<WireTile>)
    returns (packets: seq<seq<byte>>, current: seq<byte>, ghost groups: seq<seq<WireTile>>, ghost open: seq<WireTile>)
    requires Packing(done, before, filled, earlier, begun)
    ensures Packing(done + [tile], packets, current, groups, open)
  {
    packets, current, groups, open := before, filled, earlier, begun;
    var encodedLen := 4 + tile.Len();
    MakeRoom(done, packets, current, groups, open, tile);
    if current != [] && |current| + encodedLen > MAX_PACKET_SIZE {
      packets, groups := packets + [current], groups + [open];
      current, open := [], [];
    }
    Settle(done, packets, current, groups, open, tile);
    current, open := current + EncodeTile(tile), open + [tile];
    if |current| > MAX_PACKET_SIZE {
      packets, groups := packets + [current], groups + [open];
      current, open := [], [];
    }
  }

  /** `pack_tiles`. */
  method PackTiles(tiles: seq<WireTile>) returns (packets: seq<seq<byte>>, ghost groups: seq<seq<WireTile>>)
    ensures Packs(tiles, groups) && Greedy(groups) && EncodesGroups(packets, groups)
    ensures Flatten(packets) == EncodeAll(tiles) && forall k :: 0 <= k < |packets| ==> packets[k] != []
    ensures forall k :: 0 <= k < |packets| ==> |packets[k]| <= 8000 || |groups[k]| == 1
    ensures forall k :: 0 < k < |packets| ==> groups[k] != [] && |packets[k - 1]| + 12 + |groups[k][0].webp| > 8000
  {
    packets, groups := [], [];
    var current: seq<byte> := [];
    ghost var open: seq<WireTile> := [];
    for i: nat := 0 to |tiles|
      invariant Packing(tiles[..i], packets, current, groups, open)
    {
      assert tiles[..i + 1] == tiles[..i] + [tiles[i]];
      packets, current, groups, open := PackTile(tiles[i], packets, current, tiles[..i], groups, open);
    }
    assert tiles[..|tiles|] == tiles;
    Complete(tiles, packets, current, groups, open);
    if current != [] {
      packets, groups := packets + [current], groups + [open];
    }
    PacketsConcatenate(packets, groups);
    PacketSizes(packets, groups);
  }

  /** No packet of two tiles or more exceeds 8000 bytes, and none has 8000 bytes' room for
      the next packet's first tile. */
  lemma PacketSizes(packets: seq<seq<byte>>, groups: seq<seq<WireTile>>)
    requires EncodesGroups(packets, groups) && Greedy(groups) && forall k :: 0 <= k < |groups| ==> GoodGroup(groups[k])
    ensures forall k :: 0 <= k < |packets| ==> |packets[k]| <= 8000 || |groups[k]| == 1
    ensures forall k :: 0 < k < |packets| ==> groups[k] != [] && |packets[k - 1]| + 12 + |groups[k][0].webp| > 8000
  {
    forall k | 0 < k < |packets|
      ensures groups[k] != [] && |packets[k - 1]| + 12 + |groups[k][0].webp| > 8000
    {
      assert GoodGroup(groups[k]) && Tight(groups, k) && packets[k - 1] == EncodeAll(groups[k - 1]);
    }
  }

  /** Packets only cut the encoded tiles apart. */
  lemma {:induction false} PacketsConcatenate(packets: seq<seq<byte>>, groups: seq<seq<WireTile>>)
    requires EncodesGroups(packets, groups) && forall k :: 0 <= k < |groups| ==> GoodGroup(groups[k])
    ensures Flatten(packets) == EncodeAll(Flatten(groups)) && forall k :: 0 <= k < |packets| ==> packets[k] != []
    decreases |groups|
  {
    forall k | 0 <= k < |packets| ensures packets[k] != [] { EmptyEncoding(groups[k]); }
    if groups != [] {
      PacketsConcatenate(packets[1..], groups[1..]);
      EncodeConcat(groups[0], Flatten(groups[1..]));
    }
  }

  /** A group that reaches past a full group and its successor's first tile is too large. */
  lemma TooLarge(o: seq<WireTile>, from: nat, g: seq<WireTile>, next: WireTile)
    requires from + |g| < |o| && o[from..from + |g|] == g && o[from + |g|] == next && g != [] && Full(g, next)
    ensures !GoodGroup(o)
  {
    var head, tail := o[..from], o[from + |g| + 1..];
    assert o == head + ((g + [next]) + tail);
    SizeConcat(head, (g + [next]) + tail);
    SizeConcat(g + [next], tail);
    SizeConcat(g, [next]);
  }

  /** Greedy packing is optimal: no way of cutting the tiles, in order, into acceptable
      packets needs fewer of them. */
  lemma GreedyIsMinimal(tiles: seq<WireTile>, groups: seq<seq<WireTile>>, other: seq<seq<WireTile>>)
    requires Packs(tiles, groups) && Greedy(groups) && Packs(tiles, other)
    ensures |groups| <= |other|
  {
    assert tiles == [] + tiles;
    StaysAhead(groups, other, []);
  }

  lemma {:induction false} StaysAhead(groups: seq<seq<WireTile>>, other: seq<seq<WireTile>>, ahead: seq<WireTile>)
    requires Packs(Flatten(groups), groups) && Greedy(groups) && Packs(Flatten(other), other)
    requires Flatten(other) == ahead + Flatten(groups)
    ensures |groups| <= |other|
    decreases |groups|
  {
    if groups != [] {
      NotLonger(groups, other, ahead);
      var ahead' := (ahead + groups[0])[|other[0]|..];
      DropFirst(groups[0], Flatten(groups[1..]), other[0], Flatten(other[1..]), ahead);
      GreedyTail(groups);
      StaysAhead(groups[1..], other[1..], ahead');
    }
  }

  lemma DropFirst<T>(g: seq<T>, rest: seq<T>, o: seq<T>, restOther: seq<T>, ahead: seq<T>)
    requires o + restOther == ahead + (g + rest) && |o| <= |ahead| + |g|
    ensures restOther == (ahead + g)[|o|..] + rest
  {
    assert restOther == (o + restOther)[|o|..];
    assert ahead + (g + rest) == (ahead + g) + rest;
  }

  /** The other packing's first packet does not reach past the greedy one's. */
  lemma NotLonger(groups: seq<seq<WireTile>>, other: seq<seq<WireTile>>, ahead: seq<WireTile>)
    requires groups != [] && Flatten(other) == ahead + Flatten(groups)
    requires Packs(Flatten(groups), groups) && Greedy(groups) && Packs(Flatten(other), other)
    ensures other != [] && |other[0]| <= |ahead| + |groups[0]|
  {
    var g, o, rest := groups[0], other[0], Flatten(groups[1..]);
    if |o| > |ahead| + |g| {
      Beginning(o, Flatten(other[1..]), ahead, g, rest);
      assert |groups| > 1 && rest[0] == groups[1][0] && Tight(groups, 1);
      TooLarge(o, |ahead|, g, groups[1][0]);
      assert false;
    }
  }

  lemma Beginning<T>(o: seq<T>, restOther: seq<T>, ahead: seq<T>, g: seq<T>, rest: seq<T>)
    requires o + restOther == ahead + (g + rest) && |o| > |ahead| + |g|
    ensures rest != [] && o[|ahead|..|ahead| + |g|] == g && o[|ahead| + |g|] == rest[0]
  {
    var whole := o + restOther;
    assert o[|ahead|..|ahead| + |g|] == whole[|ahead|..|ahead| + |g|] == g;
    assert |rest| == 0 ==> |whole| == |ahead| + |g|;
    assert o[|ahead| + |g|] == whole[|ahead| + |g|];
  }

  /** Greedy packing is the only one, so the packets are determined by the tiles. */
  lemma {:induction false} GreedyIsUnique(groups: seq<seq<WireTile>>, other: seq<seq<WireTile>>)
    requires Packs(Flatten(groups), groups) && Greedy(groups) && Packs(Flatten(other), other) && Greedy(other)
    requires Flatten(groups) == Flatten(other)
    ensures groups == other
    decreases |groups|
  {
    if groups != [] {
      NotLonger(groups, other, []);
      NotLonger(other, groups, []);
      var g, o, rest, restOther := groups[0], other[0], Flatten(groups[1..]), Flatten(other[1..]);
      assert g + rest == o + restOther;
      assert g == (g + rest)[..|g|] == (o + restOther)[..|o|] == o;
      assert rest == (g + rest)[|g|..] == restOther;
      GreedyTail(groups);
      GreedyTail(other);
      GreedyIsUnique(groups[1..], other[1..]);
      assert groups == [g] + groups[1..] && other == [o] + other[1..];
    }
  }

  // ---------- the client's reading ----------

  datatype ClientTile = ClientTile(x: nat, y: nat, width: nat, height: nat, webp: seq<byte>)

  /** The tiles of a tile packet from `offset` on. A read past the end throws, which
      ends the handler: the tiles before it have been handed to the decoder. */
  function ParseFrom(data: seq<byte>, offset: nat): seq<ClientTile>
    decreases |data| - offset
  {
    if offset + 4 > |data| then [] else
      var tileLen := At32(data, offset);
      var tile := data[offset + 4..Min(offset + 4 + tileLen, |data|)];
      if |tile| < TILE_PREFIX then [] else [ReadTile(tile)] + ParseFrom(data, offset + 4 + tileLen)
  }

  function ReadTile(tile: seq<byte>): ClientTile
    requires |tile| >= TILE_PREFIX
  {
    ClientTile(At16(tile, 0), At16(tile, 2), At16(tile, 4), At16(tile, 6), tile[TILE_PREFIX..])
  }

  datatype Message =
    | Ignored
    | Resolution(width: nat, height: nat)
    | Sequence(seqNo: u32, tileCount: nat)
    | TileData(tiles: seq<ClientTile>)

  /** What the client takes a message for; `Ignored` when a read of it throws. */
  function Dispatch(data: seq<byte>): Message {
    if |data| < 2 then Ignored
    else if At16(data, 0) == MARKER_HEADER then
      if |data| < 6 then Ignored else Resolution(At16(data, 2), At16(data, 4))
    else if At16(data, 0) == MARKER_SEQ then
      if |data| < 10 then Ignored else Sequence(At32(data, 2), At32(data, 6))
    else TileData(ParseFrom(data, 0))
  }

  /** A tile as the client sees it: coordinates cut to 16 bits. */
  function Seen(t: WireTile): ClientTile {
    ClientTile(t.x % U16_LIMIT, t.y % U16_LIMIT, t.width % U16_LIMIT, t.height % U16_LIMIT, t.webp)
  }

  function SeenAll(tiles: seq<WireTile>): (r: seq<ClientTile>)
    ensures |r| == |tiles|
  {
    seq(|tiles|, k requires 0 <= k < |tiles| => Seen(tiles[k]))
  }

  lemma SeenConcat(a: seq<WireTile>, b: seq<WireTile>)
    ensures SeenAll(a + b) == SeenAll(a) + SeenAll(b)
  {}

  lemma TileRoundTrip(t: WireTile)
    ensures ReadTile(EncodeTile(t)[4..]) == Seen(t)
  {
    var words := [t.x, t.y, t.width, t.height];
    var w := EncodeWords(words);
    var b := EncodeTile(t)[4..];
    assert b == w + t.webp;
    forall k: nat | k < 4
      ensures At16(b, 2 * k) == words[k] % U16_LIMIT
    {
      WordAt(words, k);
      assert b[2 * k..2 * k + 2] == w[2 * k..2 * k + 2];
      Read16(b, 2 * k, words[k]);
    }
    assert At16(b, 2 * 0) == t.x % U16_LIMIT && At16(b, 2 * 1) == t.y % U16_LIMIT;
    assert At16(b, 2 * 2) == t.width % U16_LIMIT && At16(b, 2 * 3) == t.height % U16_LIMIT;
  }

  lemma ParseStep(data: seq<byte>, offset: nat, tileLen: nat)
    requires offset + 4 + tileLen <= |data| && tileLen >= TILE_PREFIX && At32(data, offset) == tileLen
    ensures ParseFrom(data, offset)
         == [ReadTile(data[offset + 4..offset + 4 + tileLen])] + ParseFrom(data, offset + 4 + tileLen)
  {}

  lemma HeadAndBody<T>(data: seq<T>, offset: nat, end: nat, b: seq<T>)
    requires offset + 4 <= end <= |data| && data[offset..end] == b
    ensures data[offset..offset + 4] == b[..4] && data[offset + 4..end] == b[4..]
  {}

  lemma ParseTile(data: seq<byte>, offset: nat, t: WireTile)
    requires t.Len() < U32_LIMIT && offset + 4 + t.Len() <= |data|
    requires data[offset..offset + 4 + t.Len()] == EncodeTile(t)
    ensures ParseFrom(data, offset) == [Seen(t)] + ParseFrom(data, offset + 4 + t.Len())
  {
    var b := EncodeTile(t);
    HeadAndBody(data, offset, offset + 4 + t.Len(), b);
    assert b[..4] == Le32(t.Len());
    Read32(data, offset, t.Len());
    TileRoundTrip(t);
    ParseStep(data, offset, t.Len());
  }

  lemma ParseEnd(data: seq<byte>)
    ensures ParseFrom(data, |data|) == []
  {}

  lemma FirstEncoded(data: seq<byte>, offset: nat, next: nat, tiles: seq<WireTile>)
    requires offset <= |data| && data[offset..] == EncodeAll(tiles) && tiles != []
    requires next == offset + 4 + tiles[0].Len()
    ensures next <= |data| && data[offset..next] == EncodeTile(tiles[0]) && data[next..] == EncodeAll(tiles[1..])
  {
    SliceSplit(data, offset, next, EncodeTile(tiles[0]), EncodeAll(tiles[1..]));
  }

  lemma SliceSplit<T>(data: seq<T>, offset: nat, next: nat, a: seq<T>, b: seq<T>)
    requires offset <= |data| && data[offset..] == a + b && next == offset + |a|
    ensures next <= |data| && data[offset..next] == a && data[next..] == b
  {}

  lemma SeenCons(tiles: seq<WireTile>)
    requires tiles != []
    ensures SeenAll(tiles) == [Seen(tiles[0])] + SeenAll(tiles[1..])
  {}

  /** The tiles lie in the packet from `offset` to its end. */
  ghost predicate Laid(data: seq<byte>, offset: nat, tiles: seq<WireTile>)
    decreases |tiles|
  {
    if tiles == [] then offset == |data| else
      && offset + 4 + tiles[0].Len() <= |data| && tiles[0].Len() < U32_LIMIT
      && data[offset..offset + 4 + tiles[0].Len()] == EncodeTile(tiles[0])
      && Laid(data, offset + 4 + tiles[0].Len(), tiles[1..])
  }

  lemma {:induction false} EncodedIsLaid(data: seq<byte>, offset: nat, tiles: seq<WireTile>)
    requires offset <= |data| && data[offset..] == EncodeAll(tiles) && Short(tiles)
    ensures Laid(data, offset, tiles)
    decreases |tiles|
  {
    if tiles != [] {
      var next := offset + 4 + tiles[0].Len();
      FirstEncoded(data, offset, next, tiles);
      EncodedIsLaid(data, next, tiles[1..]);
    }
  }

  lemma FirstLaid(data: seq<byte>, offset: nat, tiles: seq<WireTile>)
    requires Laid(data, offset, tiles) && tiles != []
    ensures var next := offset + 4 + tiles[0].Len();
            Laid(data, next, tiles[1..]) && ParseFrom(data, offset) == [Seen(tiles[0])] + ParseFrom(data, next)
  {
    ParseTile(data, offset, tiles[0]);
  }

  lemma {:induction false} ParseLaid(data: seq<byte>, offset: nat, tiles: seq<WireTile>)
    requires Laid(data, offset, tiles)
    ensures ParseFrom(data, offset) == SeenAll(tiles)
    decreases |tiles|
  {
    if tiles == [] {
      ParseEnd(data);
    } else {
      FirstLaid(data, offset, tiles);
      ParseLaid(data, offset + 4 + tiles[0].Len(), tiles[1..]);
      SeenCons(tiles);
    }
  }

  /** Reading what was packed gives back the same tiles in the same order. */
  lemma ParseRoundTrip(tiles: seq<WireTile>)
    requires Short(tiles)
    ensures ParseFrom(EncodeAll(tiles), 0) == SeenAll(tiles)
  {
    assert EncodeAll(tiles)[0..] == EncodeAll(tiles);
    EncodedIsLaid(EncodeAll(tiles), 0, tiles);
    ParseLaid(EncodeAll(tiles), 0, tiles);
  }

  lemma FirstBytes(tiles: seq<WireTile>)
    requires tiles != [] && tiles[0].Len() < U32_LIMIT
    ensures |EncodeAll(tiles)| >= 12 && At16(EncodeAll(tiles), 0) == tiles[0].Len() % U16_LIMIT
  {
    var data, b := EncodeAll(tiles), EncodeTile(tiles[0]);
    assert data[0..4] == b[..4] == Le32(tiles[0].Len());
    Read32(data, 0, tiles[0].Len());
  }

  lemma DispatchByMarker(data: seq<byte>)
    requires |data| >= 10
    ensures Dispatch(data).TileData? <==> At16(data, 0) != MARKER_HEADER && At16(data, 0) != MARKER_SEQ
    ensures Dispatch(data).TileData? ==> Dispatch(data) == TileData(ParseFrom(data, 0))
  {}

  /** The client reads a packet of tiles as those tiles exactly when the length of its
      first tile does not look like a marker. */
  lemma DispatchIff(tiles: seq<WireTile>)
    requires tiles != [] && Short(tiles)
    ensures Dispatch(EncodeAll(tiles)).TileData? <==> !tiles[0].LooksLikeMarker()
    ensures Dispatch(EncodeAll(tiles)) == TileData(SeenAll(tiles)) <==> !tiles[0].LooksLikeMarker()
  {
    FirstBytes(tiles);
    DispatchByMarker(EncodeAll(tiles));
    ParseRoundTrip(tiles);
  }

  // ---------- a whole batch ----------

  /** What `send_tiles` puts on the channel: the sequence packet, then the tiles. */
  method SendTiles(seqNo: u32, tiles: seq<WireTile>) returns (sent: seq<seq<byte>>, ghost groups: seq<seq<WireTile>>)
    ensures IsBatch(seqNo, tiles, sent, groups)
  {
    var packet := EncodeSeq(seqNo, |tiles| % U32_LIMIT);
    assert Le32(|tiles| % U32_LIMIT) == Le32(|tiles|) by { CutTo32(|tiles|); }
    var packets: seq<seq<byte>>;
    packets, groups := PackTiles(tiles);
    sent := [packet] + packets;
    assert sent[1..] == packets;
  }

  lemma CutTo32(v: nat)
    ensures Le32(v % U32_LIMIT) == Le32(v)
  {
    Pow256Values();
    WriteRead(v, 4);
    ReadWrite(Le32(v));
  }

  ghost predicate IsBatch(seqNo: u32, tiles: seq<WireTile>, sent: seq<seq<byte>>, groups: seq<seq<WireTile>>) {
    && sent != [] && sent[0] == SeqPacket(seqNo, |tiles|)
    && Packs(tiles, groups) && Greedy(groups) && EncodesGroups(sent[1..], groups)
  }

  /** The tiles the client starts to decode for a message. */
  function TilesOf(m: Message): seq<ClientTile> { if m.TileData? then m.tiles else [] }

  function Received(messages: seq<Message>): seq<ClientTile> {
    if messages == [] then [] else TilesOf(messages[0]) + Received(messages[1..])
  }

  /** What the client takes a series of packets for. */
  function DispatchAll(packets: seq<seq<byte>>): (r: seq<Message>)
    ensures |r| == |packets|
  {
    if packets == [] then [] else [Dispatch(packets[0])] + DispatchAll(packets[1..])
  }

  /** No packet of the batch opens with a tile whose length looks like a marker. */
  ghost predicate Readable(groups: seq<seq<WireTile>>) {
    forall k :: 0 <= k < |groups| ==> groups[k] != [] && !groups[k][0].LooksLikeMarker()
  }

  /** A whole batch arrives as one announcement followed by the same tiles in the same
      order, exactly when no packet opens with a tile length that looks like a marker. */
  lemma BatchRoundTrip(seqNo: u32, tiles: seq<WireTile>, sent: seq<seq<byte>>, groups: seq<seq<WireTile>>)
    requires IsBatch(seqNo, tiles, sent, groups)
    requires Short(tiles)
    ensures Dispatch(sent[0]) == Sequence(seqNo, |tiles| % U32_LIMIT)
    ensures Received(DispatchAll(sent[1..])) == SeenAll(tiles) <==> Readable(groups)
    ensures Readable(groups) ==> AllTileData(DispatchAll(sent[1..]))
  {
    SeqRoundTrip(seqNo, |tiles|);
    ReceivedIff(sent[1..], groups);
  }

  predicate Short(tiles: seq<WireTile>) {
    forall k :: 0 <= k < |tiles| ==> tiles[k].Len() < U32_LIMIT
  }

  lemma PacketReceived(packet: seq<byte>, g: seq<WireTile>)
    requires packet == EncodeAll(g) && g != [] && Short(g)
    ensures TilesOf(Dispatch(packet)) == if g[0].LooksLikeMarker() then [] else SeenAll(g)
    ensures !g[0].LooksLikeMarker() ==> Dispatch(packet).TileData?
  {
    DispatchIff(g);
  }

  lemma ReadableSplit(groups: seq<seq<WireTile>>)
    requires groups != [] && groups[0] != []
    ensures Readable(groups) <==> !groups[0][0].LooksLikeMarker() && Readable(groups[1..])
  {}

  predicate AllTileData(messages: seq<Message>) {
    forall k :: 0 <= k < |messages| ==> messages[k].TileData?
  }

  /** Tiles are only ever lost whole packets at a time, so the count tells. */
  lemma {:induction false} ReceivedIff(packets: seq<seq<byte>>, groups: seq<seq<WireTile>>)
    requires EncodesGroups(packets, groups) && forall k :: 0 <= k < |groups| ==> GoodGroup(groups[k])
    requires Short(Flatten(groups))
    ensures var r := Received(DispatchAll(packets));
            && |r| <= |Flatten(groups)| && (|r| == |Flatten(groups)| ==> Readable(groups))
            && (Readable(groups) ==> r == SeenAll(Flatten(groups)))
    ensures Readable(groups) ==> AllTileData(DispatchAll(packets))
    decreases |groups|
  {
    if groups != [] {
      var g, all, rest := groups[0], Flatten(groups), Flatten(groups[1..]);
      forall k | 0 <= k < |g| ensures g[k].Len() < U32_LIMIT { assert all[k] == g[k]; }
      forall k | 0 <= k < |rest| ensures rest[k].Len() < U32_LIMIT { assert all[|g| + k] == rest[k]; }
      PacketReceived(packets[0], g);
      ReceivedIff(packets[1..], groups[1..]);
      ReadableSplit(groups);
      SeenConcat(g, rest);
    }
  }

  // ---------- the layout of every message ----------

  /** An acknowledgement is the number; a sequence packet a marker, the number and the count;
      a header a marker, the width and the height: all little-endian. */
  lemma ControlLayout(seqNo: u32, tileCount: u32, width: nat, height: nat)
    requires width < U16_LIMIT && height < U16_LIMIT
    ensures |AckMessage(seqNo)| == 4 && At32(AckMessage(seqNo), 0) == seqNo
    ensures var p := SeqPacket(seqNo, tileCount);
            |p| == 10 && At16(p, 0) == 0xFFFE && At32(p, 2) == seqNo && At32(p, 6) == tileCount
    ensures var p := HeaderPacket(width, height);
            |p| == 6 && At16(p, 0) == 0xFFFF && At16(p, 2) == width && At16(p, 4) == height
  {
    var a, p, h := AckMessage(seqNo), SeqPacket(seqNo, tileCount), HeaderPacket(width, height);
    assert a[0..4] == Le32(seqNo);
    Read32(a, 0, seqNo);
    ThreeFields(p, Le16(0xFFFE), Le32(seqNo), Le32(tileCount));
    Read16(p, 0, 0xFFFE);
    Read32(p, 2, seqNo);
    Read32(p, 6, tileCount);
    assert h[0..2] == Le16(0xFFFF) && h[2..4] == Le16(width) && h[4..6] == Le16(height);
    Read16(h, 0, 0xFFFF);
    Read16(h, 2, width);
    Read16(h, 4, height);
  }

  /** A tile is the length of what follows, x, y, width, height and the image. */
  lemma TileLayout(t: WireTile)
    requires t.Fits()
    ensures var b := EncodeTile(t);
            && |b| == 12 + |t.webp| && At32(b, 0) == 8 + |t.webp| && b[12..] == t.webp
            && At16(b, 4) == t.x && At16(b, 6) == t.y && At16(b, 8) == t.width && At16(b, 10) == t.height
  {
    var b, words := EncodeTile(t), [t.x, t.y, t.width, t.height];
    var w := EncodeWords(words);
    assert b == Le32(t.Len()) + (w + t.webp);
    ThreeParts(b, Le32(t.Len()), w, t.webp);
    Read32(b, 0, t.Len());
    FieldAt(b, words, 0);
    FieldAt(b, words, 1);
    FieldAt(b, words, 2);
    FieldAt(b, words, 3);
  }

  lemma ThreeParts<T>(b: seq<T>, size: seq<T>, w: seq<T>, rest: seq<T>)
    requires b == size + (w + rest) && |size| == 4 && |w| == 8
    ensures |b| == 12 + |rest| && b[0..4] == size && b[4..12] == w && b[12..] == rest
  {}

  lemma Within<T>(b: seq<T>, w: seq<T>, k: nat)
    requires |b| >= 12 && b[4..12] == w && k < 4
    ensures b[4 + 2 * k..4 + 2 * k + 2] == w[2 * k..2 * k + 2]
  {}

  lemma FieldAt(b: seq<byte>, words: seq<u32>, k: nat)
    requires |b| >= 12 && |words| == 4 && b[4..12] == EncodeWords(words) && k < 4 && words[k] < U16_LIMIT
    ensures At16(b, 4 + 2 * k) == words[k]
  {
    WordAt(words, k);
    Within(b, EncodeWords(words), k);
    Read16(b, 4 + 2 * k, words[k]);
  }

  // ---------- batches of one tile ----------

  /** A lone tile has one packing. */
  lemma LonePacking(t: WireTile, groups: seq<seq<WireTile>>)
    ensures Packs([t], groups) <==> groups == [[t]]
  {
    assert Flatten([[t]]) == [t] + Flatten([[t]][1..]) == [t];
    if Packs([t], groups) {
      var rest := groups[1..];
      assert GoodGroup(groups[0]);
      assert groups[0] + Flatten(rest) == [t];
      OneInAll(t, groups[0], Flatten(rest));
      NothingFlat(rest);
      assert groups == [groups[0]] + rest;
    }
  }

  lemma NothingFlat(groups: seq<seq<WireTile>>)
    requires Flatten(groups) == [] && forall k :: 0 <= k < |groups| ==> GoodGroup(groups[k])
    ensures groups == []
  {}

  lemma OneInAll<T>(t: T, a: seq<T>, b: seq<T>)
    requires a + b == [t] && a != []
    ensures a == [t] && b == []
  {
    assert |a + b| == 1 && (a + b)[0] == a[0];
  }

  lemma LoneBatch(seqNo: u32, t: WireTile)
    ensures IsBatch(seqNo, [t], [SeqPacket(seqNo, 1), EncodeAll([t])], [[t]])
  {
    LonePacking(t, [[t]]);
  }

  /** Lengths do look like markers: a tile of 65526 image bytes, sent on its own, is taken
      for the announcement of another batch, and one of 65527 for a resolution header. The
      tile never arrives, however often it is sent. */
  lemma LongTileIsLost(seqNo: u32, t: WireTile, sent: seq<seq<byte>>, groups: seq<seq<WireTile>>)
    requires |t.webp| == 65526 || |t.webp| == 65527
    requires IsBatch(seqNo, [t], sent, groups)
    ensures |sent| == 2 && TilesOf(Dispatch(sent[0])) == TilesOf(Dispatch(sent[1])) == []
    ensures if |t.webp| == 65526 then Dispatch(sent[1]).Sequence? else Dispatch(sent[1]).Resolution?
  {
    LonePacking(t, groups);
    SeqRoundTrip(seqNo, 1);
    assert sent[1] == sent[1..][0] == EncodeAll([t]);
    FirstBytes([t]);
    DispatchMarked(sent[1]);
  }

  lemma DispatchMarked(data: seq<byte>)
    requires |data| >= 10
    ensures At16(data, 0) == MARKER_HEADER ==> Dispatch(data).Resolution?
    ensures At16(data, 0) == MARKER_SEQ ==> Dispatch(data).Sequence?
  {}

  /** Coordinates survive exactly when they fit 16 bits. */
  lemma SeenIsExactIff(t: WireTile)
    requires t.Len() < U32_LIMIT
    ensures Seen(t) == ClientTile(t.x, t.y, t.width, t.height, t.webp) <==> t.Fits()
  {}
}
