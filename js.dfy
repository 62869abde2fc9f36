/**
 * The JavaScript number operations the packing engine relies on, written out
 * over Dafny's unbounded integers and reals. Dafny's `/` and `%` on `int` are
 * Euclidean; JavaScript's `%` truncates toward zero and `>> 0` truncates a
 * quotient toward zero, so both are spelled out here.
 */
module Js {

  /** `(a / b) >> 0` for integers: the quotient truncated toward zero. */
  function Quot(a: int, b: int): (q: int)
    requires b >= 1
    ensures a >= 0 ==> q == a / b
    ensures a < 0 ==> q == -((-a) / b)
  {
    if a >= 0 then a / b else -((-a) / b)
  }

  /** JavaScript's `a % b`: the remainder takes the sign of the dividend. */
  function Rem(a: int, b: int): (m: int)
    requires b >= 1
    ensures a == Quot(a, b) * b + m
    ensures a >= 0 ==> 0 <= m < b
    ensures a < 0 ==> -b < m <= 0
  {
    a - Quot(a, b) * b
  }

  /**
   * The count a shift operator actually uses: JavaScript takes the shift
   * count modulo 32, whatever its sign.
   */
  function ShiftCount(n: int): (s: int)
    ensures 0 <= s < 32
    ensures (n - s) % 32 == 0
  {
    n % 32
  }

  /**
   * A negative remainder fed to a shift behaves as the Euclidean remainder:
   * the shift by `pixelsX % 32` is a shift by `pixelsX mod 32`, and the
   * shift by `32 - pixelsX % 32` one by `(32 - pixelsX mod 32) mod 32`.
   */
  lemma RemShift(p: int)
    ensures Rem(p, 32) % 32 == p % 32
    ensures Rem(p, 32) == 0 <==> p % 32 == 0
    ensures (32 - Rem(p, 32)) % 32 == (32 - p % 32) % 32
  {
    var m := Rem(p, 32);
    if p >= 0 {
      assert m == p % 32;
    } else {
      var q := (-p) / 32;
      assert m == p + q * 32;
      assert m == -((-p) % 32);
    }
  }

  /** `Math.ceil(a / b)` for a non-negative integer a and positive integer b. */
  function CeilDiv(a: int, b: int): (c: int)
    requires a >= 0 && b >= 1
    ensures c >= 0
    ensures (c - 1) * b < a <= c * b
  {
    var q := a / b;
    assert a == q * b + a % b;
    if a % b == 0 then q else q + 1
  }

  /** `Math.round(v)`: the nearest integer, halves rounded up. */
  function Round(v: real): (n: int)
    ensures n as real <= v + 0.5 < n as real + 1.0
  {
    (v + 0.5).Floor
  }

  /** `v >> 0` for a value in the 32-bit range: truncation toward zero. */
  function Trunc(v: real): (n: int)
    ensures v >= 0.0 ==> n as real <= v < n as real + 1.0
    ensures v < 0.0 ==> n as real - 1.0 < v <= n as real
  {
    if v >= 0.0 then v.Floor else -((-v).Floor)
  }

  function Max(a: int, b: int): int
  {
    if a >= b then a else b
  }
}
