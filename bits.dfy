/**
 * 32-bit words of the packed occupancy rows. A JavaScript number produced by
 * `|`, `&`, `<<`, `>>>` is a 32-bit pattern; here it is that pattern as a
 * sequence of 32 booleans, most significant bit first, so that bit k of word
 * w stands for cell column 32 * w + k.
 */
module Bits {

  type Word = w: seq<bool> | |w| == 32 witness seq(32, _ => false)

  /** JavaScript's `0`: no bit set. */
  function Zero(): Word
  {
    seq(32, _ => false)
  }

  /** JavaScript's `-1`: every bit set. */
  function Ones(): Word
  {
    seq(32, _ => true)
  }

  /** `a | b` */
  function Or(a: Word, b: Word): (w: Word)
    ensures forall k {:trigger w[k]} :: 0 <= k < 32 ==> (w[k] <==> a[k] || b[k])
  {
    seq(32, k requires 0 <= k < 32 => a[k] || b[k])
  }

  /** `a & b` */
  function And(a: Word, b: Word): (w: Word)
    ensures forall k {:trigger w[k]} :: 0 <= k < 32 ==> (w[k] <==> a[k] && b[k])
  {
    seq(32, k requires 0 <= k < 32 => a[k] && b[k])
  }

  /** `~a` */
  function Not(a: Word): (w: Word)
    ensures forall k {:trigger w[k]} :: 0 <= k < 32 ==> (w[k] <==> !a[k])
  {
    seq(32, k requires 0 <= k < 32 => !a[k])
  }

  /** `a << s` for a shift count s already reduced to 0..31: bit k + s moves to bit k. */
  function Shl(a: Word, s: int): (w: Word)
    requires 0 <= s < 32
    ensures forall k {:trigger w[k]} :: 0 <= k < 32 ==> (w[k] <==> k + s < 32 && a[k + s])
  {
    seq(32, k requires 0 <= k < 32 => k + s < 32 && a[k + s])
  }

  /** `a >>> s` for a shift count s already reduced to 0..31: bit k - s moves to bit k. */
  function Shr(a: Word, s: int): (w: Word)
    requires 0 <= s < 32
    ensures forall k {:trigger w[k]} :: 0 <= k < 32 ==> (w[k] <==> k >= s && a[k - s])
  {
    seq(32, k requires 0 <= k < 32 => k >= s && a[k - s])
  }

  /** JavaScript's `1`: only the least significant bit set. */
  function One(): (w: Word)
    ensures forall k :: 0 <= k < 32 ==> (w[k] <==> k == 31)
  {
    seq(32, k => k == 31)
  }

  /** A word is `0` exactly when none of its bits is set. */
  lemma ZeroIff(w: Word)
    ensures w == Zero() <==> forall k :: 0 <= k < 32 ==> !w[k]
  {
    if forall k :: 0 <= k < 32 ==> !w[k] {
      assert w == Zero();
    }
  }

  /** `(a & b) !== 0` exactly when the two words share a set bit. */
  lemma OverlapIff(a: Word, b: Word)
    ensures And(a, b) != Zero() <==> exists k :: 0 <= k < 32 && a[k] && b[k]
  {
    ZeroIff(And(a, b));
    if k :| 0 <= k < 32 && a[k] && b[k] {
      assert And(a, b)[k];
    }
  }
}
