/** The int of the C sources, which keeps 32 bits of a number. */
module Ints {

  /** What is kept of a number in an int. */
  function Int32(n: int): int
  {
    (n + 0x8000_0000) % 0x1_0000_0000 - 0x8000_0000
  }

  lemma Int32Small(n: int)
    requires -0x8000_0000 <= n < 0x8000_0000
    ensures Int32(n) == n
  {}

  lemma Int32Linear(a: int, n: int, b: int)
    ensures Int32(a * Int32(n) + b) == Int32(a * n + b)
  {
    var q := (n + 0x8000_0000) / 0x1_0000_0000;
    assert Int32(n) == n - 0x1_0000_0000 * q;
    assert a * Int32(n) + b == (a * n + b) - 0x1_0000_0000 * (a * q) by { Scaled(a, n, q); }
    Int32Laps(a * n + b, a * q);
  }

  lemma Scaled(a: int, n: int, q: int)
    ensures a * (n - 0x1_0000_0000 * q) == a * n - 0x1_0000_0000 * (a * q)
  {}

  lemma Int32Laps(n: int, k: int)
    ensures Int32(n - 0x1_0000_0000 * k) == Int32(n)
  {}

  lemma Int32Sum(m: int, n: int, b: int)
    ensures Int32(Int32(m) + Int32(n) + b) == Int32(m + n + b)
  {
    hide Int32;
    Int32Linear(1, m, Int32(n) + b);
    Int32Linear(1, n, m + b);
  }
}
