/** Exclusive or, powers of two and little-endian bytes on natural numbers. */
module Bits {
  import opened Bytes

  function Pow2(n: nat): (r: nat)
    ensures r > 0
  {
    if n == 0 then 1 else 2 * Pow2(n - 1)
  }

  lemma {:induction false} PowGrows(m: nat, n: nat)
    requires m <= n
    ensures Pow2(m) <= Pow2(n)
    decreases n
  {
    if m < n {
      PowGrows(m, n - 1);
    }
  }

  function Bit(odd: bool): nat {
    if odd then 1 else 0
  }

  predicate Odd(n: nat) {
    n % 2 == 1
  }

  /** Bitwise exclusive or. */
  function Xor(a: nat, b: nat): nat
    decreases a + b
  {
    if a == 0 then b else if b == 0 then a
    else 2 * Xor(a / 2, b / 2) + Bit(Odd(a) != Odd(b))
  }

  /** The defining equation, without the shortcuts for 0. */
  lemma XorBits(a: nat, b: nat)
    ensures (Odd(Xor(a, b)) <==> Odd(a) != Odd(b)) && Xor(a, b) / 2 == Xor(a / 2, b / 2)
  {
    if a > 0 && b > 0 {
      Halves(Xor(a / 2, b / 2), Odd(a) != Odd(b));
    }
  }

  lemma Halves(half: nat, odd: bool)
    ensures (2 * half + Bit(odd)) / 2 == half && Odd(2 * half + Bit(odd)) == odd
  {
  }

  lemma SameHalves(x: nat, y: nat)
    requires x / 2 == y / 2 && Odd(x) == Odd(y)
    ensures x == y
  {
  }

  lemma {:induction false} XorSymmetric(a: nat, b: nat)
    ensures Xor(a, b) == Xor(b, a)
    decreases a + b
  {
    if a > 0 && b > 0 {
      XorSymmetric(a / 2, b / 2);
    }
  }

  lemma {:induction false} XorAssociative(a: nat, b: nat, c: nat)
    ensures Xor(Xor(a, b), c) == Xor(a, Xor(b, c))
    decreases a + b + c
  {
    if a > 0 && b > 0 && c > 0 {
      var ab, bc := Xor(a, b), Xor(b, c);
      XorAssociative(a / 2, b / 2, c / 2);
      XorBits(a, b);
      XorBits(b, c);
      XorBits(ab, c);
      XorBits(a, bc);
      SameHalves(Xor(ab, c), Xor(a, bc));
    }
  }

  lemma {:induction false} XorSame(a: nat, b: nat)
    ensures Xor(a, b) == 0 <==> a == b
    decreases a + b
  {
    if a > 0 && b > 0 {
      XorSame(a / 2, b / 2);
    }
  }

  /** Exclusive or of n-bit numbers has n bits. */
  lemma {:induction false} XorBound(a: nat, b: nat, n: nat)
    requires a < Pow2(n) && b < Pow2(n)
    ensures Xor(a, b) < Pow2(n)
    decreases n
  {
    if n > 0 {
      XorBits(a, b);
      XorBound(a / 2, b / 2, n - 1);
    }
  }

  /** Bit i of x. */
  predicate BitOf(x: nat, i: nat) {
    if i == 0 then Odd(x) else BitOf(x / 2, i - 1)
  }

  /** Exclusive or, bit by bit. */
  lemma {:induction false} XorBitwise(a: nat, b: nat, i: nat)
    ensures BitOf(Xor(a, b), i) == (BitOf(a, i) != BitOf(b, i))
    decreases i
  {
    XorBits(a, b);
    if i > 0 {
      XorBitwise(a / 2, b / 2, i - 1);
    }
  }

  /** The number with the n lowest bits set. */
  lemma {:induction false} AllOnes(n: nat, i: nat)
    ensures BitOf(Pow2(n) - 1, i) <==> i < n
    decreases n, i
  {
    if n == 0 {
      if i > 0 {
        AllOnes(0, i - 1);
      }
    } else if i > 0 {
      assert (Pow2(n) - 1) / 2 == Pow2(n - 1) - 1;
      AllOnes(n - 1, i - 1);
    }
  }

  // --- memory --------------------------------------------------------------------------------------------

  /** The n lowest bytes of x, low byte first. */
  function LittleEndian(x: nat, n: nat): (r: seq<byte>)
    ensures |r| == n
  {
    if n == 0 then [] else [(x % 256) as byte] + LittleEndian(x / 256, n - 1)
  }
}
