/** Fixed-width integers and small helpers shared by every module. */
module Types {

  const U16_SIZE := 0x1_0000
  const U32_SIZE := 0x1_0000_0000
  const U64_SIZE := 0x1_0000_0000_0000_0000

  type byte = x: int | 0 <= x < 0x100
  type u16 = x: int | 0 <= x < U16_SIZE
  type u32 = x: int | 0 <= x < U32_SIZE
  type u64 = x: int | 0 <= x < U64_SIZE

  /** Addresses are bytes, and the bit field of all of them is the smallest payload size in use. */
  const MAX_ADDRESSES := 256
  const ADDRESSES_PER_BYTE := 8
  const MIN_PAYLOAD_SIZE := MAX_ADDRESSES / ADDRESSES_PER_BYTE

  datatype Option<+T> = None | Some(value: T)

  function Min(a: int, b: int): int {
    if a <= b then a else b
  }

  function Max(a: int, b: int): int {
    if a <= b then b else a
  }

  lemma QuotientIs(x: int, d: int, q: int, r: int)
    requires x == q * d + r && 0 <= r < d
    ensures x / d == q && x % d == r
  {
    MultipleWithin(d, x / d - q, r - x % d);
  }

  lemma MultipleWithin(d: int, k: int, gap: int)
    requires k * d == gap && -d < gap < d
    ensures k == 0
  {
    assert k >= 1 ==> (k - 1) * d >= 0;
    assert k <= -1 ==> (k + 1) * d <= 0;
  }

  lemma Recombined(a: int, b: int, q: int, r: int, s: int)
    requires 0 <= r < b && 0 <= s < a
    ensures a * (q * b + r) + s == q * (a * b) + (a * r + s) && 0 <= a * r + s < a * b
  {
    assert a * (r + 1) <= a * b;
  }

  lemma DividedTwice(x: nat, a: nat, b: nat)
    requires a >= 1 && b >= 1
    ensures a * b >= 1 && x / a / b == x / (a * b)
  {
    var y := x / a;
    Recombined(a, b, y / b, y % b, x % a);
    QuotientIs(x, a * b, y / b, a * (y % b) + x % a);
  }
}
