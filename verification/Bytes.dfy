/** Bytes, little-endian words and powers of two: the vocabulary shared by the other modules. */
module Bytes {

  type byte = b: int | 0 <= b < 256

  datatype Option<+T> = None | Some(value: T)

  function Min(a: int, b: int): int {
    if a < b then a else b
  }

  function Pow2(n: nat): (p: nat)
    ensures p >= 1
  {
    if n == 0 then 1 else 2 * Pow2(n - 1)
  }

  /** The little-endian 16-bit word that starts at index `at`. */
  function Le16(s: seq<byte>, at: nat): (w: nat)
    requires at + 1 < |s|
    ensures w < 65536
  {
    (s[at] as int) + 256 * (s[at + 1] as int)
  }

  function Zeros(n: nat): (z: seq<byte>)
    ensures |z| == n
    ensures forall i :: 0 <= i < n ==> z[i] == 0
  {
    seq(n, _ => 0)
  }

  lemma {:induction false} Pow2Monotone(a: nat, b: nat)
    requires a <= b
    ensures Pow2(a) <= Pow2(b)
    decreases b
  {
    if a < b {
      Pow2Monotone(a, b - 1);
    }
  }

  lemma {:induction false} Pow2Sum(a: nat, b: nat)
    ensures Pow2(a + b) == Pow2(a) * Pow2(b)
    decreases a
  {
    if a > 0 {
      Pow2Sum(a - 1, b);
      assert Pow2(a + b) == 2 * Pow2(a - 1 + b);
    }
  }

  lemma Multiples(d: int, m: nat)
    ensures d >= 1 ==> d * m >= m
    ensures d <= -1 ==> d * m + m <= 0
  {
    assert d * m == (d - 1) * m + m;
    assert d * m == (d + 1) * m - m;
  }

  /** Two fields packed as high * m + low come apart again. */
  lemma Unpack(high: nat, low: nat, m: nat)
    requires low < m
    ensures (high * m + low) / m == high
    ensures (high * m + low) % m == low
  {
    var x := high * m + low;
    var q, r := x / m, x % m;
    Multiples(q - high, m);
    assert (q - high) * m == low - r;
  }

  /** Quotient and remainder. */
  lemma Divide(x: nat, m: nat) returns (q: nat, z: nat)
    requires m > 0
    ensures x == q * m + z && z < m && z <= x
    ensures q == x / m && z == x % m
  {
    q, z := x / m, x % m;
    Multiples(q, m);
  }
}
