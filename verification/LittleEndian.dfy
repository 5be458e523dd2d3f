/** Little-endian integers as bytes. */
module LittleEndian {
  import opened Common

  /** The low `n` bytes of a number. */
  function LeBytes(v: nat, n: nat): (b: seq<byte>)
    ensures |b| == n
  {
    if n == 0 then [] else [v % 256] + LeBytes(v / 256, n - 1)
  }

  function LeValue(b: seq<byte>): nat {
    if b == [] then 0 else b[0] + 256 * (LeValue(b[1..]) as int)
  }

  function Pow256(n: nat): (p: nat)
    ensures p > 0
  {
    if n == 0 then 1 else 256 * Pow256(n - 1)
  }

  lemma {:induction false} WriteRead(v: nat, n: nat)
    ensures LeValue(LeBytes(v, n)) == v % Pow256(n)
  {
    if n > 0 {
      WriteRead(v / 256, n - 1);
      SplitMod(v, Pow256(n - 1));
    }
  }

  lemma SplitMod(v: nat, p: nat)
    requires p > 0
    ensures v % (256 * p) == v % 256 + 256 * (v / 256 % p)
  {
    var q := v / 256;
    var k, m := q / p, q % p;
    MulMonotone(m + 1, p, 256);
    Rescale(k, p);
    DivModUnique(v, 256 * p, k, v % 256 + 256 * m);
  }

  lemma Rescale(k: nat, p: nat)
    ensures k * (256 * p) == 256 * (k * p)
  {}

  lemma {:induction false} ReadWrite(b: seq<byte>)
    ensures LeBytes(LeValue(b), |b|) == b && LeValue(b) < Pow256(|b|)
  {
    if b != [] {
      ReadWrite(b[1..]);
      DivModUnique(LeValue(b), 256, LeValue(b[1..]), b[0]);
    }
  }

  lemma {:induction false} LePrefix(v: nat, n: nat, m: nat)
    requires m <= n
    ensures LeBytes(v, n)[..m] == LeBytes(v, m)
  {
    if m > 0 {
      LePrefix(v / 256, n - 1, m - 1);
      assert LeBytes(v, n)[..m] == [v % 256] + LeBytes(v / 256, n - 1)[..m - 1];
    }
  }

  lemma Pow256Values()
    ensures Pow256(2) == U16_LIMIT && Pow256(4) == U32_LIMIT && Pow256(8) == U64_LIMIT
  {
    assert Pow256(1) == 256 && Pow256(2) == 256 * 256;
    assert Pow256(3) == 256 * 256 * 256;
    assert Pow256(5) == 256 * Pow256(4) && Pow256(6) == 256 * Pow256(5) && Pow256(7) == 256 * Pow256(6);
  }

  function Le16(v: nat): seq<byte> { LeBytes(v, 2) }

  function Le32(v: nat): seq<byte> { LeBytes(v, 4) }

  /** The least significant byte comes first. */
  lemma LowByteFirst(v: nat)
    requires v < U32_LIMIT
    ensures Le16(v) == [v % 256, v / 256 % 256]
    ensures Le32(v) == [v % 256, v / 256 % 256, v / 256 / 256 % 256, v / 256 / 256 / 256]
  {
    var a, b, c := v / 256, v / 256 / 256, v / 256 / 256 / 256;
    assert LeBytes(c, 1) == [c % 256] + LeBytes(c / 256, 0) && c < 256;
    assert LeBytes(b, 2) == [b % 256] + LeBytes(c, 1);
    assert LeBytes(a, 3) == [a % 256] + LeBytes(b, 2);
    assert LeBytes(a, 1) == [a % 256] + LeBytes(b, 0);
  }

  function At16(data: seq<byte>, i: nat): (v: nat)
    requires i + 2 <= |data|
    ensures v < U16_LIMIT
  {
    Pow256Values();
    ReadWrite(data[i..i + 2]);
    LeValue(data[i..i + 2])
  }

  function At32(data: seq<byte>, i: nat): (v: nat)
    requires i + 4 <= |data|
    ensures v < U32_LIMIT
  {
    Pow256Values();
    ReadWrite(data[i..i + 4]);
    LeValue(data[i..i + 4])
  }

  lemma Read16(data: seq<byte>, i: nat, v: nat)
    requires i + 2 <= |data| && data[i..i + 2] == Le16(v)
    ensures At16(data, i) == v % U16_LIMIT
  {
    Pow256Values();
    WriteRead(v, 2);
  }

  lemma Read32(data: seq<byte>, i: nat, v: nat)
    requires i + 4 <= |data| && data[i..i + 4] == Le32(v)
    ensures At32(data, i) == v % U32_LIMIT && At16(data, i) == v % U16_LIMIT
  {
    Pow256Values();
    WriteRead(v, 4);
    LePrefix(v, 4, 2);
    assert data[i..i + 2] == data[i..i + 4][..2];
    Read16(data, i, v);
  }
}
