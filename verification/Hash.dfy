/** The vector tile hash of src/tile.rs (`hash_avx2`, `hash_sse2`, `fold_lanes`):
    lane-wise 64-bit arithmetic, a rotate-XOR reduction and MurmurHash3's fmix64.
    The theorem is that a change confined to one aligned 8-byte word always
    changes the hash. */
module Hashing {
  import opened Common
  import opened LittleEndian

  const SEED_LANE_0: bv64 := 0x9e3779b97f4a7c15
  const SEED_LANE_1: bv64 := 0xff51afd7ed558ccd
  const SEED_LANE_2: bv64 := 0xc4ceb9fe1a85ec53
  const SEED_LANE_3: bv64 := 0xbf58476d1ce4e5b9

  // ---------- fmix64 is a bijection ----------

  function XorShift33(x: bv64): bv64 { x ^ (x >> 33) }

  lemma XorShiftLiteral(x: bv64)
    ensures (x ^ (x >> 33)) ^ ((x ^ (x >> 33)) >> 33) == x
  {}

  lemma XorShiftOnce(x: bv64)
    ensures XorShift33(x ^ (x >> 33)) == x
  {
    XorShiftLiteral(x);
  }

  lemma XorShiftTwice(x: bv64)
    ensures XorShift33(XorShift33(x)) == x
  {
    XorShiftOnce(x);
  }

  function Mul1(x: bv64): bv64 { x * 0xff51afd7ed558ccd }

  function Mul2(x: bv64): bv64 { x * 0xc4ceb9fe1a85ec53 }

  /** Multiplication by the inverses modulo 2^64. */
  function Unmul1(x: bv64): bv64 { x * 0x4f74430c22a54005 }

  function Unmul2(x: bv64): bv64 { x * 0x9cb4b2f8129337db }

  lemma Unmul1Literal(x: bv64)
    ensures Unmul1(x * 0xff51afd7ed558ccd) == x
  {}

  lemma Unmul2Literal(x: bv64)
    ensures Unmul2(x * 0xc4ceb9fe1a85ec53) == x
  {}

  lemma Mul1Inverse(x: bv64)
    ensures Unmul1(Mul1(x)) == x
  {
    Unmul1Literal(x);
  }

  lemma Mul2Inverse(x: bv64)
    ensures Unmul2(Mul2(x)) == x
  {
    Unmul2Literal(x);
  }

  function Fmix64(h: bv64): bv64 {
    XorShift33(Mul2(XorShift33(Mul1(XorShift33(h)))))
  }

  lemma XorShiftUndo(x: bv64, y: bv64)
    requires y == XorShift33(x)
    ensures x == XorShift33(y)
  {
    XorShiftTwice(x);
  }

  lemma Mul1Undo(x: bv64, y: bv64)
    requires y == Mul1(x)
    ensures x == Unmul1(y)
  {
    Mul1Inverse(x);
  }

  lemma Mul2Undo(x: bv64, y: bv64)
    requires y == Mul2(x)
    ensures x == Unmul2(y)
  {
    Mul2Inverse(x);
  }

  function Unmix64(h: bv64): bv64 {
    XorShift33(Unmul1(XorShift33(Unmul2(XorShift33(h)))))
  }

  /** The finalizer loses nothing: it has an inverse. */
  lemma UnmixFmix(h: bv64)
    ensures Unmix64(Fmix64(h)) == h
  {
    var a := XorShift33(h);
    var b := Mul1(a);
    var c := XorShift33(b);
    var d := Mul2(c);
    var e := XorShift33(d);
    XorShiftUndo(d, e);
    Mul2Undo(c, d);
    XorShiftUndo(b, c);
    Mul1Undo(a, b);
    XorShiftUndo(h, a);
  }

  lemma FmixInjective(x: bv64, y: bv64)
    requires Fmix64(x) == Fmix64(y)
    ensures x == y
  {
    UnmixFmix(x);
    UnmixFmix(y);
  }

  // ---------- lanes ----------

  // Rotations by 16 * i + 1 for the lane numbers i in use.
  function Rotate0(lane: bv64): bv64 { lane.RotateLeft(1) }

  function Rotate1(lane: bv64): bv64 { lane.RotateLeft(17) }

  function Rotate2(lane: bv64): bv64 { lane.RotateLeft(33) }

  function Rotate3(lane: bv64): bv64 { lane.RotateLeft(49) }

  lemma Rotate0Injective(a: bv64, b: bv64)
    requires Rotate0(a) == Rotate0(b)
    ensures a == b
  {}

  lemma Rotate1Injective(a: bv64, b: bv64)
    requires Rotate1(a) == Rotate1(b)
    ensures a == b
  {}

  lemma Rotate2Injective(a: bv64, b: bv64)
    requires Rotate2(a) == Rotate2(b)
    ensures a == b
  {}

  lemma Rotate3Injective(a: bv64, b: bv64)
    requires Rotate3(a) == Rotate3(b)
    ensures a == b
  {}

  /** `lane.rotate_left(16 * i + 1)`. */
  function Rotated(lane: bv64, i: nat): bv64
    requires i < 4
  {
    if i == 0 then Rotate0(lane) else if i == 1 then Rotate1(lane) else if i == 2 then Rotate2(lane) else Rotate3(lane)
  }

  lemma RotatedInjective(a: bv64, b: bv64, i: nat)
    requires i < 4 && Rotated(a, i) == Rotated(b, i)
    ensures a == b
  {
    if i == 0 { Rotate0Injective(a, b); }
    else if i == 1 { Rotate1Injective(a, b); }
    else if i == 2 { Rotate2Injective(a, b); }
    else { Rotate3Injective(a, b); }
  }

  function Xor(a: bv64, b: bv64): bv64 { a ^ b }

  function Plus(a: bv64, b: bv64): bv64 { a + b }

  function Minus(a: bv64, b: bv64): bv64 { a - b }

  lemma XorLiteral(a: bv64, b: bv64)
    ensures Xor(a ^ b, b) == a && Xor(a ^ b, a) == b
  {}

  lemma XorUndo(a: bv64, b: bv64, x: bv64)
    requires x == Xor(a, b)
    ensures a == Xor(x, b) && b == Xor(x, a)
  {
    XorLiteral(a, b);
  }

  lemma XorSeesLeft(a: bv64, b: bv64, c: bv64)
    requires a != b
    ensures Xor(a, c) != Xor(b, c)
  {
    XorUndo(a, c, Xor(a, c));
    XorUndo(b, c, Xor(b, c));
  }

  lemma XorSeesRight(c: bv64, a: bv64, b: bv64)
    requires a != b
    ensures Xor(c, a) != Xor(c, b)
  {
    XorUndo(c, a, Xor(c, a));
    XorUndo(c, b, Xor(c, b));
  }

  lemma PlusLiteral(a: bv64, b: bv64)
    ensures Minus(a + b, b) == a
  {}

  lemma PlusUndo(a: bv64, b: bv64, sum: bv64)
    requires sum == Plus(a, b)
    ensures a == Minus(sum, b)
  {
    PlusLiteral(a, b);
  }

  lemma PlusInjective(a: bv64, b: bv64, c: bv64)
    requires Plus(a, c) == Plus(b, c)
    ensures a == b
  {
    PlusUndo(a, c, Plus(a, c));
    PlusUndo(b, c, Plus(b, c));
  }

  function Join8(a: bv8, b: bv8, c: bv8, d: bv8, e: bv8, f: bv8, g: bv8, h: bv8): bv64 {
    (a as bv64) | ((b as bv64) << 8) | ((c as bv64) << 16) | ((d as bv64) << 24) |
    ((e as bv64) << 32) | ((f as bv64) << 40) | ((g as bv64) << 48) | ((h as bv64) << 56)
  }

  /** Little-endian load of eight bytes. */
  function Word(b: seq<bv8>): bv64
    requires |b| == 8
  {
    Join8(b[0], b[1], b[2], b[3], b[4], b[5], b[6], b[7])
  }

  lemma Join8Injective(a: bv8, b: bv8, c: bv8, d: bv8, e: bv8, f: bv8, g: bv8, h: bv8,
                       a': bv8, b': bv8, c': bv8, d': bv8, e': bv8, f': bv8, g': bv8, h': bv8)
    requires Join8(a, b, c, d, e, f, g, h) == Join8(a', b', c', d', e', f', g', h')
    ensures a == a' && b == b' && c == c' && d == d' && e == e' && f == f' && g == g' && h == h'
  {}

  lemma WordInjective(a: seq<bv8>, b: seq<bv8>)
    requires |a| == |b| == 8 && Word(a) == Word(b)
    ensures a == b
  {
    Join8Injective(a[0], a[1], a[2], a[3], a[4], a[5], a[6], a[7], b[0], b[1], b[2], b[3], b[4], b[5], b[6], b[7]);
  }

  // ---------- accumulation ----------

  function SeedLane(i: nat): bv64 {
    if i == 0 then SEED_LANE_0 else if i == 1 then SEED_LANE_1 else if i == 2 then SEED_LANE_2 else SEED_LANE_3
  }

  /** A lane's accumulator after one more word. */
  function Mix(acc: bv64, word: bv64, seed: bv64): bv64 { Xor(acc, Plus(word, seed)) }

  lemma MixKeepsDifference(acc: bv64, acc': bv64, word: bv64, seed: bv64)
    requires acc != acc'
    ensures Mix(acc, word, seed) != Mix(acc', word, seed)
  {
    XorSeesLeft(acc, acc', Plus(word, seed));
  }

  lemma MixSeesWord(acc: bv64, word: bv64, word': bv64, seed: bv64)
    requires word != word'
    ensures Mix(acc, word, seed) != Mix(acc, word', seed)
  {
    if Plus(word, seed) == Plus(word', seed) { PlusInjective(word, word', seed); }
    XorSeesRight(acc, Plus(word, seed), Plus(word', seed));
  }

  /** One vector step: every lane takes its eight bytes of the block. */
  function Absorb(acc: seq<bv64>, block: seq<bv8>, seeds: seq<bv64>): (r: seq<bv64>)
    requires |seeds| == |acc| && |block| == 8 * |acc|
    ensures |r| == |acc|
  {
    seq(|acc|, i requires 0 <= i < |acc| => Mix(acc[i], Word(block[8 * i..8 * i + 8]), seeds[i]))
  }

  function NextSeeds(seeds: seq<bv64>): (r: seq<bv64>)
    ensures |r| == |seeds|
  {
    seq(|seeds|, i requires 0 <= i < |seeds| => Plus(seeds[i], SeedLane(i)))
  }

  function InitialSeeds(lanes: nat): (r: seq<bv64>)
    ensures |r| == lanes
  {
    seq(lanes, i requires 0 <= i < lanes => SeedLane(i))
  }

  function Zeros(n: nat): (r: seq<bv8>)
    ensures |r| == n
  {
    seq(n, i => 0)
  }

  /** The rest of a block, zero-padded. */
  function Padded(rest: seq<bv8>, lanes: nat): (block: seq<bv8>)
    requires |rest| <= 8 * lanes
    ensures |block| == 8 * lanes
    ensures forall k :: 0 <= k < |block| ==> block[k] == if k < |rest| then rest[k] else 0
  {
    rest + Zeros(8 * lanes - |rest|)
  }

  /** Accumulators after all of the data: full blocks, each with fresh seeds, then a
      padded remainder with the seeds of the last block. */
  function Accumulate(acc: seq<bv64>, data: seq<bv8>, seeds: seq<bv64>): (r: seq<bv64>)
    requires |acc| == |seeds| > 0
    ensures |r| == |acc|
    decreases |data|
  {
    var n := 8 * |acc|;
    if |data| >= n then
      Accumulate(Absorb(acc, data[..n], NextSeeds(seeds)), data[n..], NextSeeds(seeds))
    else if data != [] then
      Absorb(acc, Padded(data, |acc|), seeds)
    else
      acc
  }

  function FoldXor(lanes: seq<bv64>, h: bv64): bv64
    requires |lanes| <= 4
  {
    if lanes == [] then h else
      Xor(FoldXor(lanes[..|lanes| - 1], h), Rotated(lanes[|lanes| - 1], |lanes| - 1))
  }

  function LengthWord(n: nat): bv64 { (n % U64_LIMIT) as bv64 }

  /** `fold_lanes` over the final accumulators. `lanes` is 4 for AVX2, 2 for SSE2. */
  function HashBytes(lanes: nat, data: seq<bv8>): bv64
    requires 0 < lanes <= 4
  {
    Fmix64(FoldXor(Accumulate(seq(lanes, i => 0), data, InitialSeeds(lanes)), LengthWord(|data|)))
  }

  /** The vector loop of `hash_avx2` and `hash_sse2`: all full blocks. */
  method AccumulateBlocks(lanes: nat, data: seq<bv8>)
    returns (acc: seq<bv64>, seeds: seq<bv64>, remainder: seq<bv8>)
    requires 0 < lanes <= 4
    ensures |acc| == |seeds| == lanes && |remainder| < 8 * lanes
    ensures Accumulate(acc, remainder, seeds) == Accumulate(seq(lanes, i => 0), data, InitialSeeds(lanes))
  {
    acc, seeds, remainder := seq(lanes, i => 0), InitialSeeds(lanes), data;
    ghost var all := Accumulate(acc, data, seeds);
    while |remainder| >= 8 * lanes
      invariant |acc| == |seeds| == lanes && all == Accumulate(acc, remainder, seeds)
    {
      seeds := NextSeeds(seeds);
      acc := Absorb(acc, remainder[..8 * lanes], seeds);
      remainder := remainder[8 * lanes..];
    }
  }

  /** `hash_avx2` and `hash_sse2`. */
  method HashVector(lanes: nat, data: seq<bv8>) returns (h: bv64)
    requires 0 < lanes <= 4
    ensures h == HashBytes(lanes, data)
  {
    var acc, seeds, remainder := AccumulateBlocks(lanes, data);
    if remainder != [] {
      acc := Absorb(acc, Padded(remainder, lanes), seeds);
    }
    h := FoldLanes(acc, LengthWord(|data|));
  }

  method FoldLanes(lanes: seq<bv64>, len: bv64) returns (h: bv64)
    requires |lanes| <= 4
    ensures h == Fmix64(FoldXor(lanes, len))
  {
    h := len;
    for i: nat := 0 to |lanes|
      invariant h == FoldXor(lanes[..i], len)
    {
      assert lanes[..i + 1][..i] == lanes[..i];
      h := Xor(h, Rotated(lanes[i], i));
    }
    assert lanes[..|lanes|] == lanes;
    h := Fmix64(h);
  }

  // ---------- what the hash is, word by word ----------

  /** `n` copies of a word added up, modulo 2^64. */
  function Times(n: nat, x: bv64): bv64 { if n == 0 then 0 else Plus(Times(n - 1, x), x) }

  /** The seeds after `k` blocks. */
  function SeedsAfter(lanes: nat, k: nat): (r: seq<bv64>)
    ensures |r| == lanes
  {
    if k == 0 then InitialSeeds(lanes) else NextSeeds(SeedsAfter(lanes, k - 1))
  }

  /** Block `k`, which is absorbed with the seeds after `k + 1` steps, meets `k + 2` times the
      constant of each lane. */
  lemma {:induction false} SeedOfBlock(lanes: nat, k: nat, i: nat)
    requires i < lanes
    ensures SeedsAfter(lanes, k)[i] == Times(k + 1, SeedLane(i))
  {
    if k > 0 { SeedOfBlock(lanes, k - 1, i); } else { ZeroPlus(SeedLane(i)); }
  }

  /** The seeds of a first block, in numbers. */
  lemma FirstSeeds()
    ensures Times(2, SeedLane(0)) == 0x3c6ef372fe94f82a && Times(2, SeedLane(1)) == 0xfea35fafdaab199a
    ensures Times(2, SeedLane(2)) == 0x899d73fc350bd8a6 && Times(2, SeedLane(3)) == 0x7eb08eda39c9cb72
  {
    Twice(SeedLane(0));
    Twice(SeedLane(1));
    Twice(SeedLane(2));
    Twice(SeedLane(3));
  }

  lemma Twice(x: bv64)
    ensures Times(2, x) == x + x
  {
    ZeroPlus(x);
  }

  lemma ZeroPlus(x: bv64)
    ensures Plus(0, x) == x && Xor(0, x) == x && Times(1, x) == x
  {}

  /** Where block `k` starts. */
  function BlockStart(lanes: nat, k: nat): nat { if k == 0 then 0 else BlockStart(lanes, k - 1) + 8 * lanes }

  /** Lane `i` of the first `k` blocks: the words the lane takes, each plus its own multiple of
      the lane's constant, combined by exclusive or. */
  function LaneXor(lanes: nat, data: seq<bv8>, i: nat, k: nat): bv64
    requires i < lanes && BlockStart(lanes, k) <= |data|
  {
    if k == 0 then 0 else
      var at := BlockStart(lanes, k - 1) + 8 * i;
      Xor(LaneXor(lanes, data, i, k - 1), Plus(Word(data[at..at + 8]), Times(k + 1, SeedLane(i))))
  }

  /** The same with the zero-padded rest of the data, which meets the constants of the last
      full block again. */
  function LaneOf(lanes: nat, data: seq<bv8>, i: nat, k: nat): bv64
    requires i < lanes && BlockStart(lanes, k) <= |data| < BlockStart(lanes, k) + 8 * lanes
  {
    var rest := data[BlockStart(lanes, k)..];
    var sum := LaneXor(lanes, data, i, k);
    if rest == [] then sum else
      Xor(sum, Plus(Word(Padded(rest, lanes)[8 * i..8 * i + 8]), Times(k + 1, SeedLane(i))))
  }

  function Lanes(lanes: nat, data: seq<bv8>, k: nat): (r: seq<bv64>)
    requires BlockStart(lanes, k) <= |data|
    ensures |r| == lanes
  {
    seq(lanes, i requires 0 <= i < lanes => LaneXor(lanes, data, i, k))
  }

  lemma {:induction false} AfterBlocks(lanes: nat, data: seq<bv8>, k: nat, result: seq<bv64>)
    requires lanes > 0 && BlockStart(lanes, k) <= |data|
    requires result == Accumulate(Lanes(lanes, data, k), data[BlockStart(lanes, k)..], SeedsAfter(lanes, k))
    ensures result == Accumulate(seq(lanes, i => 0), data, InitialSeeds(lanes))
  {
    if k == 0 {
      NoBlocks(lanes, data);
    } else {
      BlockBefore(lanes, data, k - 1, result);
      AfterBlocks(lanes, data, k - 1, result);
    }
  }

  lemma BlockBefore(lanes: nat, data: seq<bv8>, k: nat, result: seq<bv64>)
    requires lanes > 0 && BlockStart(lanes, k + 1) <= |data|
    requires result == Accumulate(Lanes(lanes, data, k + 1), data[BlockStart(lanes, k + 1)..], SeedsAfter(lanes, k + 1))
    ensures BlockStart(lanes, k) <= |data|
    ensures result == Accumulate(Lanes(lanes, data, k), data[BlockStart(lanes, k)..], SeedsAfter(lanes, k))
  {
    OneBlock(lanes, data, k);
  }

  lemma NoBlocks(lanes: nat, data: seq<bv8>)
    ensures Lanes(lanes, data, 0) == seq(lanes, i => 0) && data[BlockStart(lanes, 0)..] == data
  {}

  lemma OneBlock(lanes: nat, data: seq<bv8>, k: nat)
    requires lanes > 0 && BlockStart(lanes, k + 1) <= |data|
    ensures Accumulate(Lanes(lanes, data, k), data[BlockStart(lanes, k)..], SeedsAfter(lanes, k))
         == Accumulate(Lanes(lanes, data, k + 1), data[BlockStart(lanes, k + 1)..], SeedsAfter(lanes, k + 1))
  {
    var at, n := BlockStart(lanes, k), 8 * lanes;
    HeadOfRest(data, at, n);
    BlockAbsorbed(lanes, data, k);
    AccumulateStep(Lanes(lanes, data, k), data[at..], SeedsAfter(lanes, k), data[at..at + n], data[at + n..],
                   Lanes(lanes, data, k + 1), SeedsAfter(lanes, k + 1));
  }

  lemma HeadOfRest<T>(data: seq<T>, at: nat, n: nat)
    requires at + n <= |data|
    ensures data[at..][..n] == data[at..at + n] && data[at..][n..] == data[at + n..]
  {}

  lemma AccumulateStep(acc: seq<bv64>, data: seq<bv8>, seeds: seq<bv64>, block: seq<bv8>, rest: seq<bv8>,
                       acc': seq<bv64>, seeds': seq<bv64>)
    requires |acc| == |seeds| > 0 && |data| >= 8 * |acc| && block == data[..8 * |acc|] && rest == data[8 * |acc|..]
    requires seeds' == NextSeeds(seeds) && acc' == Absorb(acc, block, seeds')
    ensures Accumulate(acc, data, seeds) == Accumulate(acc', rest, seeds')
  {}

  lemma SliceOfSlice<T>(data: seq<T>, at: nat, n: nat, from: nat, m: nat)
    requires at + n <= |data| && from + m <= n
    ensures data[at..at + n][from..from + m] == data[at + from..at + from + m]
  {
    var part := data[at..at + n];
    assert forall j :: from <= j < from + m ==> part[j] == data[at + j];
  }

  lemma BlockAbsorbed(lanes: nat, data: seq<bv8>, k: nat)
    requires lanes > 0 && BlockStart(lanes, k + 1) <= |data|
    ensures Absorb(Lanes(lanes, data, k), data[BlockStart(lanes, k)..BlockStart(lanes, k) + 8 * lanes],
                   SeedsAfter(lanes, k + 1)) == Lanes(lanes, data, k + 1)
  {
    var after := Absorb(Lanes(lanes, data, k), data[BlockStart(lanes, k)..BlockStart(lanes, k) + 8 * lanes],
                        SeedsAfter(lanes, k + 1));
    forall i | 0 <= i < lanes ensures after[i] == Lanes(lanes, data, k + 1)[i] { LaneAbsorbed(lanes, data, k, i); }
  }

  lemma LaneAbsorbed(lanes: nat, data: seq<bv8>, k: nat, i: nat)
    requires i < lanes && BlockStart(lanes, k + 1) <= |data|
    ensures Absorb(Lanes(lanes, data, k), data[BlockStart(lanes, k)..BlockStart(lanes, k) + 8 * lanes],
                   SeedsAfter(lanes, k + 1))[i] == LaneXor(lanes, data, i, k + 1)
  {
    SeedOfBlock(lanes, k + 1, i);
    SliceOfSlice(data, BlockStart(lanes, k), 8 * lanes, 8 * i, 8);
  }

  /** The accumulators of any data of `k` full blocks and a rest, from its words alone. */
  lemma AccumulatesLanes(lanes: nat, data: seq<bv8>, k: nat, i: nat)
    requires i < lanes && BlockStart(lanes, k) <= |data| < BlockStart(lanes, k) + 8 * lanes
    ensures Accumulate(seq(lanes, j => 0), data, InitialSeeds(lanes))[i] == LaneOf(lanes, data, i, k)
  {
    AfterBlocks(lanes, data, k, Accumulate(Lanes(lanes, data, k), data[BlockStart(lanes, k)..], SeedsAfter(lanes, k)));
    SeedOfBlock(lanes, k, i);
  }

  /** Lane `i` is rotated by `16 * i + 1`. */
  lemma RotatedBy(lane: bv64, i: nat)
    requires i < 4
    ensures i == 0 ==> Rotated(lane, i) == lane.RotateLeft(1)
    ensures i == 1 ==> Rotated(lane, i) == lane.RotateLeft(17)
    ensures i == 2 ==> Rotated(lane, i) == lane.RotateLeft(33)
    ensures i == 3 ==> Rotated(lane, i) == lane.RotateLeft(49)
  {}

  lemma FoldOne(a: seq<bv64>, h: bv64, n: nat)
    requires n < |a| <= 4
    ensures FoldXor(a[..n + 1], h) == Xor(FoldXor(a[..n], h), Rotated(a[n], n)) && FoldXor(a[..0], h) == h
  {
    assert a[..n + 1][..n] == a[..n];
  }

  lemma FoldTwo(a: seq<bv64>, h: bv64)
    requires 2 <= |a| <= 4
    ensures FoldXor(a[..2], h) == Xor(Xor(h, Rotated(a[0], 0)), Rotated(a[1], 1))
  {
    FoldOne(a, h, 0);
    FoldOne(a, h, 1);
  }

  lemma FoldFour(a: seq<bv64>, h: bv64)
    requires |a| == 4
    ensures FoldXor(a[..4], h)
         == Xor(Xor(Xor(Xor(h, Rotated(a[0], 0)), Rotated(a[1], 1)), Rotated(a[2], 2)), Rotated(a[3], 3))
  {
    FoldTwo(a, h);
    FoldOne(a, h, 2);
    FoldOne(a, h, 3);
  }

  /** The AVX2 hash, in full: four lanes, rotated apart, over the length, and mixed. */
  lemma HashOfFourLanes(data: seq<bv8>, k: nat)
    requires BlockStart(4, k) <= |data| < BlockStart(4, k) + 32
    ensures HashBytes(4, data)
         == Fmix64(Xor(Xor(Xor(Xor((|data| % U64_LIMIT) as bv64, Rotated(LaneOf(4, data, 0, k), 0)),
                               Rotated(LaneOf(4, data, 1, k), 1)),
                           Rotated(LaneOf(4, data, 2, k), 2)),
                       Rotated(LaneOf(4, data, 3, k), 3)))
  {
    var acc := Accumulate(seq(4, i => 0), data, InitialSeeds(4));
    AllLanes(4, data, k, acc);
    FoldFour(acc, LengthWord(|data|));
    assert acc[..4] == acc;
  }

  lemma AllLanes(lanes: nat, data: seq<bv8>, k: nat, acc: seq<bv64>)
    requires BlockStart(lanes, k) <= |data| < BlockStart(lanes, k) + 8 * lanes
    requires acc == Accumulate(seq(lanes, i => 0), data, InitialSeeds(lanes))
    ensures forall i :: 0 <= i < lanes ==> acc[i] == LaneOf(lanes, data, i, k)
  {
    forall i | 0 <= i < lanes ensures acc[i] == LaneOf(lanes, data, i, k) { AccumulatesLanes(lanes, data, k, i); }
  }

  /** The SSE2 hash, in full. */
  lemma HashOfTwoLanes(data: seq<bv8>, k: nat)
    requires BlockStart(2, k) <= |data| < BlockStart(2, k) + 16
    ensures HashBytes(2, data)
         == Fmix64(Xor(Xor((|data| % U64_LIMIT) as bv64, Rotated(LaneOf(2, data, 0, k), 0)), Rotated(LaneOf(2, data, 1, k), 1)))
  {
    var acc := Accumulate(seq(2, i => 0), data, InitialSeeds(2));
    AllLanes(2, data, k, acc);
    FoldTwo(acc, LengthWord(|data|));
    assert acc[..2] == acc;
  }

  /** The finalizer is MurmurHash3's: the words its definition gives for 1 and for all ones. */
  lemma FmixOfKnownWords()
    ensures Fmix64(1) == 0xb456bcfc34c2cb2c && Fmix64(0xffff_ffff_ffff_ffff) == 0x64b5720b4b825f21
  {}

  // ---------- equal blocks do not cancel ----------

  lemma SeedIsNotZero(i: nat)
    ensures SeedLane(i) != 0
  {}

  lemma MinusLiteral(a: bv64, b: bv64)
    ensures Minus(a + b, a) == b
  {}

  lemma PlusRight(a: bv64, b: bv64, sum: bv64)
    requires sum == Plus(a, b)
    ensures b == Minus(sum, a)
  {
    MinusLiteral(a, b);
  }

  lemma MinusSelf(a: bv64)
    ensures Minus(a, a) == 0
  {}

  lemma PlusDiffers(word: bv64, seed: bv64, step: bv64)
    requires step != 0
    ensures Plus(word, seed) != Plus(word, Plus(seed, step))
  {
    PlusRight(word, seed, Plus(word, seed));
    PlusRight(word, Plus(seed, step), Plus(word, Plus(seed, step)));
    PlusRight(seed, step, Plus(seed, step));
    MinusSelf(seed);
  }

  lemma XorTwice(acc: bv64, a: bv64, b: bv64)
    requires a != b
    ensures Xor(Xor(acc, a), b) != acc
  {}

  lemma MixTwice(acc: bv64, word: bv64, seed: bv64, step: bv64)
    requires step != 0
    ensures Mix(Mix(acc, word, seed), word, Plus(seed, step)) != acc
  {
    PlusDiffers(word, seed, step);
    XorTwice(acc, Plus(word, seed), Plus(word, Plus(seed, step)));
  }

  lemma TwoBlocks(acc: seq<bv64>, block: seq<bv8>, seeds: seq<bv64>)
    requires |acc| == |seeds| > 0 && |block| == 8 * |acc|
    ensures Accumulate(acc, block + block, seeds)
         == Absorb(Absorb(acc, block, NextSeeds(seeds)), block, NextSeeds(NextSeeds(seeds)))
  {
    var s1 := NextSeeds(seeds);
    assert (block + block)[..|block|] == block && (block + block)[|block|..] == block;
    assert block[..|block|] == block && block[|block|..] == [];
    AccumulateStep(acc, block + block, seeds, block, block, Absorb(acc, block, s1), s1);
    var one, s2 := Absorb(acc, block, s1), NextSeeds(s1);
    AccumulateStep(one, block, s1, block, [], Absorb(one, block, s2), s2);
  }

  lemma AbsorbedTwice(acc: seq<bv64>, block: seq<bv8>, s1: seq<bv64>, s2: seq<bv64>, i: nat) returns (word: bv64)
    requires |acc| == |s1| == |s2| && i < |acc| && |block| == 8 * |acc|
    ensures Absorb(Absorb(acc, block, s1), block, s2)[i] == Mix(Mix(acc[i], word, s1[i]), word, s2[i])
  {
    word := Word(block[8 * i..8 * i + 8]);
  }

  lemma SeedsAdvance(seeds: seq<bv64>, i: nat) returns (step: bv64)
    requires i < |seeds|
    ensures step != 0 && NextSeeds(NextSeeds(seeds))[i] == Plus(NextSeeds(seeds)[i], step)
  {
    step := SeedLane(i);
    SeedIsNotZero(i);
  }

  /** The point of advancing the seeds: two equal blocks in a row never cancel, whatever came
      before them. Every lane changes. */
  lemma EqualBlocksNeverCancel(acc: seq<bv64>, block: seq<bv8>, seeds: seq<bv64>, i: nat)
    requires |acc| == |seeds| && i < |acc| && |block| == 8 * |acc|
    ensures Accumulate(acc, block + block, seeds)[i] != acc[i]
  {
    TwoBlocks(acc, block, seeds);
    var s1, s2 := NextSeeds(seeds), NextSeeds(NextSeeds(seeds));
    var word := AbsorbedTwice(acc, block, s1, s2, i);
    var step := SeedsAdvance(seeds, i);
    MixTwice(acc[i], word, s1[i], step);
  }

  // ---------- one changed word always shows ----------

  /** Equal except in lane `p`. */
  predicate DifferAt<T(==)>(a: seq<T>, b: seq<T>, p: nat) {
    && |a| == |b| && p < |a| && a[p] != b[p]
    && (forall i :: 0 <= i < |a| && i != p ==> a[i] == b[i])
  }

  /** Equal length, different, but the same outside bytes `8p..8p+8`. */
  predicate DifferInWord(a: seq<bv8>, b: seq<bv8>, p: nat) {
    && |a| == |b| && a != b
    && (forall k :: 0 <= k < |a| && !(8 * p <= k < 8 * p + 8) ==> a[k] == b[k])
  }

  lemma AbsorbKeepsDifference(acc: seq<bv64>, acc': seq<bv64>, block: seq<bv8>, seeds: seq<bv64>, p: nat)
    requires DifferAt(acc, acc', p) && |seeds| == |acc| && |block| == 8 * |acc|
    ensures DifferAt(Absorb(acc, block, seeds), Absorb(acc', block, seeds), p)
  {
    var word := Word(block[8 * p..8 * p + 8]);
    MixKeepsDifference(acc[p], acc'[p], word, seeds[p]);
  }

  lemma {:induction false} AccumulateKeepsDifference(acc: seq<bv64>, acc': seq<bv64>, data: seq<bv8>,
                                                     seeds: seq<bv64>, p: nat)
    requires DifferAt(acc, acc', p) && |seeds| == |acc|
    ensures DifferAt(Accumulate(acc, data, seeds), Accumulate(acc', data, seeds), p)
    decreases |data|
  {
    var n := 8 * |acc|;
    if |data| >= n {
      AbsorbKeepsDifference(acc, acc', data[..n], NextSeeds(seeds), p);
      AccumulateKeepsDifference(Absorb(acc, data[..n], NextSeeds(seeds)), Absorb(acc', data[..n], NextSeeds(seeds)),
                                data[n..], NextSeeds(seeds), p);
    } else if data != [] {
      AbsorbKeepsDifference(acc, acc', Padded(data, |acc|), seeds, p);
    }
  }

  lemma AbsorbSeesWord(acc: seq<bv64>, a: seq<bv8>, b: seq<bv8>, seeds: seq<bv64>, p: nat)
    requires |seeds| == |acc| && |a| == 8 * |acc| && DifferInWord(a, b, p) && p < |acc|
    ensures DifferAt(Absorb(acc, a, seeds), Absorb(acc, b, seeds), p)
  {
    forall i | 0 <= i < |acc| && i != p
      ensures a[8 * i..8 * i + 8] == b[8 * i..8 * i + 8]
    {
    }
    var wa, wb := a[8 * p..8 * p + 8], b[8 * p..8 * p + 8];
    if Word(wa) == Word(wb) {
      WordInjective(wa, wb);
      forall k | 0 <= k < |a|
        ensures a[k] == b[k]
      {
        if 8 * p <= k < 8 * p + 8 { assert a[k] == wa[k - 8 * p] == wb[k - 8 * p]; }
      }
    }
    MixSeesWord(acc[p], Word(wa), Word(wb), seeds[p]);
  }

  /** The final accumulators of two such buffers differ in exactly one lane. */
  lemma {:induction false} OneLaneDiffers(acc: seq<bv64>, a: seq<bv8>, b: seq<bv8>, seeds: seq<bv64>, p: nat)
    returns (lane: nat)
    requires |acc| == |seeds| > 0 && DifferInWord(a, b, p)
    ensures DifferAt(Accumulate(acc, a, seeds), Accumulate(acc, b, seeds), lane)
    decreases |a|
  {
    var n := 8 * |acc|;
    var k :| 0 <= k < |a| && a[k] != b[k];
    if |a| >= n {
      var next := NextSeeds(seeds);
      if p < |acc| {
        lane := p;
        assert DifferInWord(a[..n], b[..n], p) by { assert a[..n][k] != b[..n][k]; }
        assert a[n..] == b[n..];
        AbsorbSeesWord(acc, a[..n], b[..n], next, p);
        AccumulateKeepsDifference(Absorb(acc, a[..n], next), Absorb(acc, b[..n], next), a[n..], next, p);
      } else {
        assert a[..n] == b[..n];
        assert DifferInWord(a[n..], b[n..], p - |acc|) by { assert a[n..][k - n] != b[n..][k - n]; }
        lane := OneLaneDiffers(Absorb(acc, a[..n], next), a[n..], b[n..], next, p - |acc|);
      }
    } else {
      lane := p;
      var pa, pb := Padded(a, |acc|), Padded(b, |acc|);
      assert DifferInWord(pa, pb, p) by { assert pa[k] != pb[k]; }
      AbsorbSeesWord(acc, pa, pb, seeds, p);
    }
  }

  lemma {:induction false} FoldSeesLane(a: seq<bv64>, b: seq<bv64>, h: bv64, p: nat)
    requires |a| <= 4 && DifferAt(a, b, p)
    ensures FoldXor(a, h) != FoldXor(b, h)
  {
    var last := |a| - 1;
    if p == last {
      assert a[..last] == b[..last];
      if Rotated(a[last], last) == Rotated(b[last], last) { RotatedInjective(a[last], b[last], last); }
      XorSeesRight(FoldXor(a[..last], h), Rotated(a[last], last), Rotated(b[last], last));
    } else {
      FoldSeesLane(a[..last], b[..last], h, p);
      XorSeesLeft(FoldXor(a[..last], h), FoldXor(b[..last], h), Rotated(a[last], last));
    }
  }

  /** Two buffers of equal length that differ only inside one aligned 8-byte word
      never collide, in the AVX2 form (four lanes) or the SSE2 form (two). */
  lemma SmallChangeNeverCollides(lanes: nat, a: seq<bv8>, b: seq<bv8>, p: nat)
    requires 0 < lanes <= 4 && DifferInWord(a, b, p)
    ensures HashBytes(lanes, a) != HashBytes(lanes, b)
  {
    var acc: seq<bv64> := seq(lanes, i => 0);
    var lane := OneLaneDiffers(acc, a, b, InitialSeeds(lanes), p);
    var fa := FoldXor(Accumulate(acc, a, InitialSeeds(lanes)), LengthWord(|a|));
    var fb := FoldXor(Accumulate(acc, b, InitialSeeds(lanes)), LengthWord(|b|));
    FoldSeesLane(Accumulate(acc, a, InitialSeeds(lanes)), Accumulate(acc, b, InitialSeeds(lanes)),
                 LengthWord(|a|), lane);
    if Fmix64(fa) == Fmix64(fb) { FmixInjective(fa, fb); }
  }

  // ---------- a hash as a number ----------

  function Part(h: bv64, k: nat): bv8
    requires k < 8
  {
    var shifted := if k == 0 then h else if k == 1 then h >> 8 else if k == 2 then h >> 16 else if k == 3 then h >> 24
                   else if k == 4 then h >> 32 else if k == 5 then h >> 40 else if k == 6 then h >> 48 else h >> 56;
    (shifted & 0xff) as bv8
  }

  function Bytes(h: bv64): (b: seq<byte>)
    ensures |b| == 8
  {
    seq(8, k requires 0 <= k < 8 => Part(h, k) as int)
  }

  /** A 64-bit word as a number. */
  function WordValue(h: bv64): u64 {
    Pow256Values();
    ReadWrite(Bytes(h));
    LeValue(Bytes(h))
  }

  /** A load puts byte `k` in bits `8k` to `8k + 7`. */
  lemma WordIsLittleEndian(b: seq<bv8>)
    requires |b| == 8
    ensures forall k: nat :: k < 8 ==> Part(Word(b), k) == b[k]
  {
    PartsOfJoin(b[0], b[1], b[2], b[3], b[4], b[5], b[6], b[7]);
  }

  lemma PartsOfJoin(a: bv8, b: bv8, c: bv8, d: bv8, e: bv8, f: bv8, g: bv8, h: bv8)
    ensures var w := Join8(a, b, c, d, e, f, g, h);
            && Part(w, 0) == a && Part(w, 1) == b && Part(w, 2) == c && Part(w, 3) == d
            && Part(w, 4) == e && Part(w, 5) == f && Part(w, 6) == g && Part(w, 7) == h
  {}

  lemma PartsMakeWord(a: bv64, b: bv64)
    requires forall k: nat :: k < 8 ==> Part(a, k) == Part(b, k)
    ensures a == b
  {
    assert Part(a, 0) == Part(b, 0) && Part(a, 1) == Part(b, 1) && Part(a, 2) == Part(b, 2) && Part(a, 3) == Part(b, 3);
    assert Part(a, 4) == Part(b, 4) && Part(a, 5) == Part(b, 5) && Part(a, 6) == Part(b, 6) && Part(a, 7) == Part(b, 7);
  }

  lemma BytesAsNumbers(a: bv8, b: bv8)
    requires a as int == b as int
    ensures a == b
  {}

  lemma WordValueInjective(a: bv64, b: bv64)
    requires a != b
    ensures WordValue(a) != WordValue(b)
  {
    if WordValue(a) == WordValue(b) {
      ReadWrite(Bytes(a));
      ReadWrite(Bytes(b));
      forall k: nat | k < 8
        ensures Part(a, k) == Part(b, k)
      {
        assert Bytes(a)[k] == Bytes(b)[k];
        BytesAsNumbers(Part(a, k), Part(b, k));
      }
      PartsMakeWord(a, b);
    }
  }
}
