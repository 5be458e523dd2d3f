/** Vocabulary shared by every module: machine integer ranges, optional values
    and a few facts about sequences and division. */
module Common {

  datatype Option<+T> = None | Some(value: T)

  const U16_LIMIT: nat := 0x1_0000
  const U32_LIMIT: nat := 0x1_0000_0000
  const U64_LIMIT: nat := 0x1_0000_0000_0000_0000

  type byte = x: int | 0 <= x < 256
  type u32 = x: int | 0 <= x < U32_LIMIT
  type u64 = x: int | 0 <= x < U64_LIMIT

  function Min(a: int, b: int): int { if a < b then a else b }

  function Max(a: int, b: int): int { if a < b then b else a }

  /** Rust's `u32::saturating_add`. */
  function SatAdd(a: nat, b: nat): nat { Min(a + b, U32_LIMIT - 1) }

  /** Rust's `div_ceil`. */
  function CeilDiv(a: nat, b: nat): (r: nat)
    requires b > 0
    ensures a <= r * b < a + b
  {
    if a % b == 0 then a / b else a / b + 1
  }

  lemma CeilDivBounds(a: nat, b: nat)
    requires a > 0 && b > 0
    ensures CeilDiv(a, b) > 0 && (CeilDiv(a, b) - 1) * b < a <= CeilDiv(a, b) * b
  {
    var r := CeilDiv(a, b);
    assert (r - 1) * b == r * b - b;
  }

  ghost predicate NoDuplicates<T(!new)>(s: seq<T>) {
    forall i, j :: 0 <= i < j < |s| ==> s[i] != s[j]
  }

  /** Some order of `0..n`. */
  ghost predicate Permutation(order: seq<nat>, n: nat) {
    && |order| == n && NoDuplicates(order)
    && (forall k: nat :: k in order <==> k < n)
  }

  lemma Associate<T>(a: seq<T>, b: seq<T>, c: seq<T>)
    ensures a + (b + c) == (a + b) + c
  {}

  /** `q` and `r` are the quotient and remainder as soon as they look like them. */
  lemma DivModUnique(a: nat, b: nat, q: nat, r: nat)
    requires b > 0 && r < b && a == q * b + r
    ensures a / b == q && a % b == r
  {
    var q', r' := a / b, a % b;
    assert a == q' * b + r';
    if q' < q { assert (q - q') * b >= b by { MulMonotone(1, q - q', b); } }
    if q < q' { assert (q' - q) * b >= b by { MulMonotone(1, q' - q, b); } }
  }

  lemma MulMonotone(a: int, b: int, c: nat)
    requires a <= b
    ensures a * c <= b * c
  {}

  lemma MulStrict(a: int, b: int, c: nat)
    requires a < b
    ensures a * c + c <= b * c
  {
    MulMonotone(a + 1, b, c);
  }
}
