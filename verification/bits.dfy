/**
 * Base-2 digit strings: the value a string of '0'/'1' digits denotes, and
 * Python's `format(n, 'b')` and `format(n, '08b')` for non-negative `n`.
 */
module Bits {
  import opened PyStr

  const ZERO: CodePoint := 0x30  // '0'
  const ONE: CodePoint := 0x31   // '1'

  /** Pad width of the `'08b'` format specification. */
  const WIDTH: nat := 8

  predicate IsBit(c: int) {
    c == ZERO || c == ONE
  }

  predicate AllBits(s: Text) {
    forall i :: 0 <= i < |s| ==> IsBit(s[i])
  }

  function Pow2(n: nat): (p: nat)
    ensures p >= 1
  {
    if n == 0 then 1 else 2 * Pow2(n - 1)
  }

  lemma Pow2Monotone(a: nat, b: nat)
    requires a <= b
    ensures Pow2(a) <= Pow2(b)
  {
    if a < b {
      Pow2Monotone(a, b - 1);
    }
  }

  function Digit(bit: nat): (c: CodePoint)
    requires bit < 2
    ensures IsBit(c)
  {
    if bit == 1 then ONE else ZERO
  }

  /** The number a digit string denotes in base 2, most significant digit first. */
  function ValueOf(s: Text): nat
    requires AllBits(s)
  {
    if |s| == 0 then 0
    else 2 * ValueOf(s[..|s| - 1]) + (if s[|s| - 1] == ONE then 1 else 0)
  }

  /** Appending a digit doubles the value and adds the digit. */
  lemma ValueOfSnoc(s: Text, c: CodePoint)
    requires AllBits(s) && IsBit(c)
    ensures AllBits(s + [c])
    ensures ValueOf(s + [c]) == 2 * ValueOf(s) + (if c == ONE then 1 else 0)
  {
    assert (s + [c])[..|s|] == s;
  }

  /** The value of an n-digit string is below 2^n. */
  lemma {:induction false} ValueOfBound(s: Text)
    requires AllBits(s)
    ensures ValueOf(s) < Pow2(|s|)
  {
    if |s| > 0 {
      ValueOfBound(s[..|s| - 1]);
    }
  }

  function Zeros(n: nat): (z: Text)
    ensures |z| == n && AllBits(z)
    ensures forall i :: 0 <= i < n ==> z[i] == ZERO
  {
    if n == 0 then [] else Zeros(n - 1) + [ZERO]
  }

  /** Leading zeros do not change the value of a digit string. */
  lemma {:induction false} ValueOfPadded(n: nat, s: Text)
    requires AllBits(s)
    ensures AllBits(Zeros(n) + s)
    ensures ValueOf(Zeros(n) + s) == ValueOf(s)
    decreases |s|
  {
    var z := Zeros(n);
    if |s| == 0 {
      assert z + s == z;
      ValueOfZeros(n);
    } else {
      var init := s[..|s| - 1];
      assert (z + s)[..|z + s| - 1] == z + init;
      ValueOfPadded(n, init);
    }
  }

  lemma {:induction false} ValueOfZeros(n: nat)
    ensures ValueOf(Zeros(n)) == 0
  {
    if n > 0 {
      assert Zeros(n)[..n - 1] == Zeros(n - 1);
      ValueOfZeros(n - 1);
    }
  }

  /**
   * `format(n, 'b')`: the shortest base-2 numeral of `n` — its value is
   * `n`, it fits in its width, and it has no leading zero unless it is "0".
   */
  function ToBinary(n: nat): (r: Text)
    ensures |r| >= 1 && AllBits(r)
    ensures ValueOf(r) == n
    ensures n < Pow2(|r|)
    ensures |r| > 1 ==> Pow2(|r| - 1) <= n
  {
    if n < 2 then [Digit(n)]
    else
      var init := ToBinary(n / 2);
      var r := init + [Digit(n % 2)];
      assert r[..|r| - 1] == init;
      r
  }

  /** A numeral fits in eight digits exactly when its value fits in a byte. */
  lemma ToBinaryFitsByte(n: nat)
    ensures n <= 255 <==> |ToBinary(n)| <= WIDTH
  {
    var b := ToBinary(n);
    Pow2Width();
    if |b| <= WIDTH {
      Pow2Monotone(|b|, WIDTH);
      assert n < 256;
    } else {
      Pow2Monotone(WIDTH, |b| - 1);
      assert 256 <= n;
    }
  }

  lemma Pow2Width()
    ensures Pow2(WIDTH) == 256
  {
  }

  /**
   * `format(n, '08b')`: the base-2 numeral of `n`, left-padded with '0' to
   * eight digits. It denotes `n` exactly: a code point up to 255 gives
   * exactly eight digits; a larger one gives its full bit length, which is
   * more than eight, and is never truncated.
   */
  function Format08b(n: nat): (r: Text)
    ensures AllBits(r)
    ensures ValueOf(r) == n
    ensures n <= 255 ==> |r| == WIDTH
    ensures n > 255 ==> |r| > WIDTH && Pow2(|r| - 1) <= n < Pow2(|r|)
  {
    var b := ToBinary(n);
    ToBinaryFitsByte(n);
    if |b| < WIDTH then
      ValueOfPadded(WIDTH - |b|, b);
      Zeros(WIDTH - |b|) + b
    else b
  }

  /** Two digit strings of the same width denote the same number only if they are equal. */
  lemma {:induction false} ValueOfInjective(a: Text, b: Text)
    requires AllBits(a) && AllBits(b) && |a| == |b|
    requires ValueOf(a) == ValueOf(b)
    ensures a == b
  {
    if |a| > 0 {
      var n := |a| - 1;
      assert a[n] == b[n];
      ValueOfInjective(a[..n], b[..n]);
      assert a == a[..n] + [a[n]];
      assert b == b[..n] + [b[n]];
    }
  }

  /** `format(n, '08b')` is the one eight-digit numeral of a byte value. */
  lemma Format08bOfByte(n: nat, tok: Text)
    requires n <= 255 && |tok| == WIDTH && AllBits(tok) && ValueOf(tok) == n
    ensures Format08b(n) == tok
  {
    ValueOfInjective(Format08b(n), tok);
  }
}
