/** Division facts and the machine-integer conversions the source relies on. */
module Arithmetic {

  const TWO31: int := 0x8000_0000
  const TWO32: int := 0x1_0000_0000
  const TWO64: int := 0x1_0000_0000_0000_0000

  /** A C `int`. */
  type Int32 = x: int | -TWO31 <= x < TWO31

  /** The value of a `uint32_t` that x is stored in. */
  function Low32(x: int): (r: nat)
    ensures r < 0x1_0000_0000
  {
    x % 0x1_0000_0000
  }

  /** Narrowing to a signed 32-bit `int`. */
  function ToInt32(x: int): (r: int)
    ensures -TWO31 <= r < TWO31
  {
    var m := x % TWO32;
    if m < TWO31 then m else m - TWO32
  }

  /** A `uint64_t` plus an `int`: a negative sum wraps around to the top. */
  function AddWrapping(x: nat, offset: int): nat
  {
    if x + offset < 0 then (x + offset) % TWO64 else x + offset
  }

  /** Difference of two `uint64_t`. */
  function SubWrapping(x: nat, y: nat): nat
  {
    (x - y) % TWO64
  }

  function Max(a: int, b: int): int
  {
    if a < b then b else a
  }

  function Min(a: int, b: int): int
  {
    if b < a then b else a
  }

  lemma MulMonotone(a: int, b: int, c: int)
    requires a <= b && c >= 0
    ensures a * c <= b * c
  {
    var d := b - a;
    assert b * c == a * c + d * c;
  }

  lemma {:induction false} NonzeroMultiple(d: int, n: int)
    requires n > 0 && d != 0
    ensures d * n >= n || d * n <= -n
    decreases if d > 0 then d else -d
  {
    if d > 1 {
      NonzeroMultiple(d - 1, n);
    } else if d < -1 {
      NonzeroMultiple(d + 1, n);
    }
  }

  /** Quotient and remainder are determined by the division identity. */
  lemma DivModUnique(x: int, n: int, q: int, r: int)
    requires n > 0 && 0 <= r < n && x == q * n + r
    ensures x / n == q && x % n == r
  {
    var d := x / n - q;
    assert d * n == r - x % n by {
      assert x == (x / n) * n + x % n;
    }
    if d != 0 {
      NonzeroMultiple(d, n);
    }
  }

  /** Adding whole multiples shifts the quotient and keeps the remainder. */
  lemma DivModShift(x: int, n: int, k: int)
    requires n > 0
    ensures (x + k * n) / n == x / n + k && (x + k * n) % n == x % n
  {
    assert x + k * n == (x / n + k) * n + x % n;
    DivModUnique(x + k * n, n, x / n + k, x % n);
  }
}
