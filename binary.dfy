/**
 * `binaryStrIfy`, the debug rendering of one packed word as 32 binary
 * digits, and its agreement with the bits of the word.
 */
module Binary {
  import opened Bits

  function Pow2(k: nat): (p: nat)
    ensures p >= 1
  {
    if k == 0 then 1 else 2 * Pow2(k - 1)
  }

  /** `Math.pow(2, 32)` and half of it. */
  const TwoTo32: nat := 0x1_0000_0000
  const TwoTo31: nat := 0x8000_0000

  lemma {:induction false} Pow2Word(b: seq<bool>)
    requires |b| == 32
    ensures Pow2(|b|) == TwoTo32 && Pow2(|b| - 1) == TwoTo31
  {
    assert Pow2(2) == 4;
    Pow2Add(2, 2);
    Pow2Add(4, 4);
    Pow2Add(8, 8);
    Pow2Add(16, 16);
    Pow2Add(31, 1);
  }

  lemma {:induction false} Pow2Add(a: nat, b: nat)
    ensures Pow2(a + b) == Pow2(a) * Pow2(b)
  {
    if a > 0 {
      Pow2Add(a - 1, b);
    }
  }

  function Digit(b: bool): char
  {
    if b then '1' else '0'
  }

  /** `n.toString(2)` for n >= 0: no leading zero, and "0" for zero. */
  function ToBinary(n: nat): (s: string)
    ensures |s| >= 1
    decreases n
  {
    if n < 2 then [Digit(n == 1)] else ToBinary(n / 2) + [Digit(n % 2 == 1)]
  }

  /** `v.toString(2)` for any integer v: a minus sign before the digits of a negative number. */
  function JsBinary(v: int): string
  {
    if v < 0 then "-" + ToBinary(-v) else ToBinary(v)
  }

  /** `ZERO_STR`: thirty-two zeros. */
  function ZeroStr(): (z: string)
    ensures |z| == 32
  {
    seq(32, _ => '0')
  }

  /** `s.slice(0, end)` for a string of length n: a negative end counts from the back. */
  function SliceEnd(n: nat, end: int): (e: nat)
    ensures e <= n
  {
    if end < 0 then (if n + end < 0 then 0 else n + end) else if end > n then n else end
  }

  /** `binaryStrIfy(num)` */
  function BinaryStrIfy(num: int): string
  {
    if num >= 0 then
      var numStr := ToBinary(num);
      ZeroStr()[..SliceEnd(32, 32 - |numStr|)] + numStr
    else JsBinary(TwoTo32 + num)
  }

  /** The last `len` binary digits of n, most significant first. */
  function Digits(n: nat, len: nat): (s: string)
    ensures |s| == len
  {
    if len == 0 then [] else Digits(n / 2, len - 1) + [Digit(n % 2 == 1)]
  }

  lemma {:induction false} DigitsOfZero(len: nat)
    ensures Digits(0, len) == seq(len, _ => '0')
  {
    if len > 0 {
      DigitsOfZero(len - 1);
    }
  }

  /** Below `2^len`, the `len` digits are the plain binary digits padded with zeros. */
  lemma {:induction false} DigitsPadded(n: nat, len: nat)
    requires 1 <= len && n < Pow2(len)
    ensures |ToBinary(n)| <= len
    ensures Digits(n, len) == seq(len - |ToBinary(n)|, _ => '0') + ToBinary(n)
  {
    if n < 2 {
      DigitsOfZero(len - 1);
    } else {
      DigitsPadded(n / 2, len - 1);
    }
  }

  /** The unsigned value of a bit sequence, most significant bit first. */
  function Unsigned(b: seq<bool>): nat
  {
    if b == [] then 0 else 2 * Unsigned(b[..|b| - 1]) + (if b[|b| - 1] then 1 else 0)
  }

  /** The digits of a bit sequence's value are its bits, and the leading bit decides the top half. */
  lemma {:induction false} UnsignedDigits(b: seq<bool>)
    ensures Unsigned(b) < Pow2(|b|)
    ensures Digits(Unsigned(b), |b|) == seq(|b|, k requires 0 <= k < |b| => Digit(b[k]))
    ensures |b| >= 1 ==> (b[0] <==> Unsigned(b) >= Pow2(|b| - 1))
  {
    if b != [] {
      var init := b[..|b| - 1];
      UnsignedDigits(init);
      if |b| >= 2 {
        assert init[0] == b[0];
      }
    }
  }

  /** The signed 32-bit value of a word: what the word holds as a JavaScript number. */
  function Int32Of(w: Word): (v: int)
    ensures -(TwoTo31 as int) <= v < TwoTo31
  {
    UnsignedDigits(w);
    Pow2Word(w);
    if w[0] then Unsigned(w) - TwoTo32 else Unsigned(w)
  }

  /** A word with its top bit set is negative, and prints as the digits of `2^32` plus it. */
  lemma NegativePrint(w: Word)
    requires w[0]
    ensures BinaryStrIfy(Int32Of(w)) == Digits(Unsigned(w), 32)
  {
    UnsignedDigits(w);
    Pow2Word(w);
    var u := Unsigned(w);
    DigitsPadded(u, |w|);
    assert Digits(u, 32)[0] == Digit(w[0]) == '1';
    assert Int32Of(w) == u - TwoTo32 < 0;
    assert BinaryStrIfy(Int32Of(w)) == ToBinary(u);
  }

  /** A word with its top bit clear prints as its digits padded with zeros. */
  lemma NonNegativePrint(w: Word)
    requires !w[0]
    ensures BinaryStrIfy(Int32Of(w)) == Digits(Unsigned(w), 32)
  {
    UnsignedDigits(w);
    Pow2Word(w);
    var u := Unsigned(w);
    DigitsPadded(u, |w|);
    var t := ToBinary(u);
    assert Int32Of(w) == u;
    assert ZeroStr()[..32 - |t|] == seq(32 - |t|, _ => '0');
  }

  /**
   * For any word, `binaryStrIfy` prints exactly 32 digits, digit k being 1
   * when bit k of the word is set; a negative word prints as its two's
   * complement.
   */
  lemma BinaryStrIfyBits(w: Word)
    ensures var s := BinaryStrIfy(Int32Of(w));
      |s| == 32 && forall k :: 0 <= k < 32 ==> (s[k] == '1' <==> w[k]) && (s[k] == '0' <==> !w[k])
  {
    UnsignedDigits(w);
    if w[0] {
      NegativePrint(w);
    } else {
      NonNegativePrint(w);
    }
    var s := BinaryStrIfy(Int32Of(w));
    assert forall k :: 0 <= k < 32 ==> s[k] == Digit(w[k]);
  }
}
