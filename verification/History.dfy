/** The 64-bit change history of a tile (`CircularBuffer` in src/tile.rs). The word is an
    integer below 2^64: shifting left doubles it modulo 2^64, and a mask of `n` ones
    keeps the remainder modulo 2^n. */
module History {
  import opened Common

  function Pow2(n: nat): (p: nat)
    ensures p > 0
  {
    if n == 0 then 1 else 2 * Pow2(n - 1)
  }

  lemma Pow2Of64()
    ensures Pow2(64) == U64_LIMIT
  {
    assert Pow2(8) == 0x100;
    Pow2Sum(8, 8);
    Pow2Sum(16, 16);
    Pow2Sum(32, 32);
  }

  lemma {:induction false} Pow2Sum(a: nat, b: nat)
    ensures Pow2(a + b) == Pow2(a) * Pow2(b)
  {
    if a > 0 { Pow2Sum(a - 1, b); }
  }

  lemma {:induction false} Pow2Monotone(a: nat, b: nat)
    requires a <= b
    ensures Pow2(a) <= Pow2(b)
  {
    if a < b { Pow2Monotone(a, b - 1); }
  }

  function BitOf(value: bool): nat { if value then 1 else 0 }

  /** `count_ones`. */
  function Ones(x: nat): nat { if x == 0 then 0 else x % 2 + Ones(x / 2) }

  /** A buffer of 64 bits with its size and capacity. */
  datatype Buffer = Buffer(data: u64, size: nat, capacity: nat)

  function NewBuffer(capacity: nat): Buffer { Buffer(0, 0, Min(capacity, 64)) }

  function Shifted(data: u64, value: bool): u64 { data * 2 % U64_LIMIT + BitOf(value) }

  function Masked(data: u64, n: nat): u64 {
    ModBelow(data, Pow2(n));
    data % Pow2(n)
  }

  lemma ModBelow(a: nat, b: nat)
    requires b > 0
    ensures 0 <= a % b <= a
  {
    var q, r := a / b, a % b;
    assert a == q * b + r;
    MulMonotone(0, q, b);
  }

  function Pushed(b: Buffer, value: bool): Buffer {
    Buffer(if b.capacity < 64 then Masked(Shifted(b.data, value), b.capacity) else Shifted(b.data, value),
           if b.size < b.capacity then b.size + 1 else b.size, b.capacity)
  }

  /** A mask of 64 ones changes nothing. */
  lemma FullMask(data: u64)
    ensures Masked(data, 64) == data
  {
    Pow2Of64();
  }

  class CircularBuffer {
    var data: u64
    var size: nat
    const capacity: nat

    function Abstract(): Buffer
      reads this
    {
      Buffer(data, size, capacity)
    }

    constructor (capacity: nat)
      ensures Abstract() == NewBuffer(capacity)
    {
      data, size := 0, 0;
      this.capacity := Min(capacity, 64);
    }

    method Push(value: bool)
      modifies this
      ensures Abstract() == Pushed(old(Abstract()), value)
    {
      if size < capacity {
        size := size + 1;
      }
      data := Shifted(data, value);
      if capacity < 64 {
        data := Masked(data, capacity);
      }
    }

    method CountOnes() returns (n: nat)
      requires size <= 64
      ensures n == if size == 0 then 0 else Ones(Masked(data, size))
    {
      if size == 0 {
        return 0;
      }
      FullMask(data);
      n := Ones(if size == 64 then data else Masked(data, size));
    }
  }

  // ---------- a bounded list ----------

  /** The word whose bits, from the highest, are the given values. */
  function Packed(values: seq<bool>): nat {
    if values == [] then 0 else 2 * Packed(values[..|values| - 1]) + BitOf(values[|values| - 1])
  }

  function Trues(values: seq<bool>): nat {
    if values == [] then 0 else Trues(values[..|values| - 1]) + BitOf(values[|values| - 1])
  }

  /** The last `n` values. */
  function Last(values: seq<bool>, n: nat): seq<bool>
    requires n <= |values|
  {
    values[|values| - n..]
  }

  lemma PackedAppend(values: seq<bool>, v: bool)
    ensures Packed(values + [v]) == 2 * Packed(values) + BitOf(v)
    ensures Trues(values + [v]) == Trues(values) + BitOf(v)
  {}

  lemma {:induction false} PackedBound(values: seq<bool>)
    ensures Packed(values) < Pow2(|values|)
  {
    if values != [] { PackedBound(values[..|values| - 1]); }
  }

  /** The oldest value is the highest bit. */
  lemma {:induction false} PackedFirst(values: seq<bool>)
    requires values != []
    ensures Packed(values) == BitOf(values[0]) * Pow2(|values| - 1) + Packed(values[1..])
  {
    var n := |values| - 1;
    if n > 0 {
      PackedFirst(values[..n]);
      assert values[1..][..n - 1] == values[..n][1..];
    }
  }

  lemma {:induction false} OnesOfPacked(values: seq<bool>)
    ensures Ones(Packed(values)) == Trues(values)
  {
    if values != [] {
      var n := |values| - 1;
      OnesOfPacked(values[..n]);
      DivModUnique(Packed(values), 2, Packed(values[..n]), BitOf(values[n]));
    }
  }

  /** Dropping the highest bit of a word that outgrew its window. */
  lemma DropOldest(values: seq<bool>)
    requires values != []
    ensures Packed(values) % Pow2(|values| - 1) == Packed(values[1..])
  {
    PackedFirst(values);
    PackedBound(values[1..]);
    DivModUnique(Packed(values), Pow2(|values| - 1), BitOf(values[0]), Packed(values[1..]));
  }

  lemma ModOfSmall(x: nat, p: nat)
    requires x < p
    ensures x % p == x
  {}

  /** One push keeps the word equal to its window, including the widest one of 64 bits,
      where no mask is applied and the shift itself drops the oldest bit. */
  lemma PushKeepsWindow(b: Buffer, window: seq<bool>, value: bool)
    requires b.capacity <= 64 && |window| == b.size <= b.capacity && b.data == Packed(window)
    ensures var more := window + [value];
            Pushed(b, value).data == Packed(if b.size < b.capacity then more else more[1..])
  {
    var more := window + [value];
    Pow2Of64();
    PackedAppend(window, value);
    PackedBound(more);
    if b.size < 64 {
      Pow2Monotone(b.size + 1, 64);
      ModOfSmall(b.data * 2, U64_LIMIT);
      assert Shifted(b.data, value) == Packed(more);
      if b.size < b.capacity {
        Pow2Monotone(b.size + 1, b.capacity);
        ModOfSmall(Packed(more), Pow2(b.capacity));
      } else {
        DropOldest(more);
      }
    } else {
      WidestDrops(more, value);
    }
  }

  /** With 65 bits the shift itself drops the oldest. */
  lemma WidestDrops(more: seq<bool>, value: bool)
    requires |more| == 65 && Packed(more) % 2 == BitOf(value)
    ensures (Packed(more) - BitOf(value)) % U64_LIMIT + BitOf(value) == Packed(more[1..])
  {
    Pow2Of64();
    DropOldest(more);
    EvenMod(Packed(more), BitOf(value));
  }

  lemma EvenMod(x: nat, bit: nat)
    requires x % 2 == bit
    ensures x % U64_LIMIT == (x - bit) % U64_LIMIT + bit
  {
    var q, r := x / U64_LIMIT, x % U64_LIMIT;
    assert r % 2 == bit;
    DivModUnique(x - bit, U64_LIMIT, q, r - bit);
  }

  function AfterPushes(capacity: nat, pushes: seq<bool>): Buffer {
    if pushes == [] then NewBuffer(capacity)
    else Pushed(AfterPushes(capacity, pushes[..|pushes| - 1]), pushes[|pushes| - 1])
  }

  /** The buffer holds the last values pushed, as many as fit. */
  ghost predicate Holds(b: Buffer, pushes: seq<bool>) {
    && b.capacity <= 64 && b.size == Min(|pushes|, b.capacity) && b.data == Packed(Last(pushes, b.size))
  }

  lemma PushHolds(b: Buffer, pushes: seq<bool>, value: bool)
    requires Holds(b, pushes)
    ensures Holds(Pushed(b, value), pushes + [value])
  {
    var window := Last(pushes, b.size);
    PushKeepsWindow(b, window, value);
    var more := window + [value];
    assert Last(pushes + [value], Pushed(b, value).size) == if b.size < b.capacity then more else more[1..];
  }

  lemma {:induction false} HoldsAfterPushes(capacity: nat, pushes: seq<bool>)
    ensures var b := AfterPushes(capacity, pushes); Holds(b, pushes) && b.capacity == Min(capacity, 64)
  {
    if pushes != [] {
      var n := |pushes| - 1;
      HoldsAfterPushes(capacity, pushes[..n]);
      PushHolds(AfterPushes(capacity, pushes[..n]), pushes[..n], pushes[n]);
      assert pushes == pushes[..n] + [pushes[n]];
    }
  }

  /** For every capacity and every run of pushes, the buffer is the list of the last
      `capacity` values (at most 64), and its count is that of the trues among them. */
  lemma RefinesBoundedList(capacity: nat, pushes: seq<bool>)
    ensures var b, n := AfterPushes(capacity, pushes), Min(|pushes|, Min(capacity, 64));
            && b.size == n && b.data == Packed(Last(pushes, n))
            && Ones(Masked(b.data, b.size)) == Trues(Last(pushes, n))
  {
    var b := AfterPushes(capacity, pushes);
    HoldsAfterPushes(capacity, pushes);
    PackedBound(Last(pushes, b.size));
    ModOfSmall(b.data, Pow2(b.size));
    OnesOfPacked(Last(pushes, b.size));
  }
}
