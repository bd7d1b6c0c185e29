/**
 * Unsigned machine words as natural numbers: the shift, AND, OR and XOR
 * operations `sortBinarySequence` uses, `bits.OnesCount`, and the
 * correspondence between an n-bit word and the 0/1 sequence of its bits
 * (bit i of the word is the value on wire i).
 */
module Bits {

  function Pow2(k: nat): (p: nat)
    ensures p >= 1
  {
    if k == 0 then 1 else 2 * Pow2(k - 1)
  }

  lemma Pow2Grows(i: nat, n: nat)
    requires i < n
    ensures Pow2(i) < Pow2(n)
  {
    if i < n - 1 {
      Pow2Grows(i, n - 1);
    }
  }

  /** `(x >> i) & 1`. */
  function Bit(x: nat, i: nat): (b: nat)
    ensures b < 2
  {
    if i == 0 then x % 2 else Bit(x / 2, i - 1)
  }

  /** `a ^ b`. */
  function Xor(a: nat, b: nat): nat
    decreases a + b
  {
    if a == 0 && b == 0 then 0 else (a % 2 + b % 2) % 2 + 2 * Xor(a / 2, b / 2)
  }

  /** `a | b`. */
  function Or(a: nat, b: nat): nat
    decreases a + b
  {
    if a == 0 && b == 0 then 0
    else (if a % 2 == 1 || b % 2 == 1 then 1 else 0) + 2 * Or(a / 2, b / 2)
  }

  /** `bits.OnesCount`: the number of one bits. */
  function OnesCount(x: nat): nat
  {
    if x == 0 then 0 else x % 2 + OnesCount(x / 2)
  }

  lemma {:induction false} BitXor(a: nat, b: nat, i: nat)
    ensures Bit(Xor(a, b), i) == (Bit(a, i) + Bit(b, i)) % 2
    decreases i
  {
    if i > 0 && !(a == 0 && b == 0) {
      BitXor(a / 2, b / 2, i - 1);
    } else if i > 0 {
      BitOfZero(i);
    }
  }

  lemma {:induction false} BitOr(a: nat, b: nat, i: nat)
    ensures Bit(Or(a, b), i) == if Bit(a, i) == 1 || Bit(b, i) == 1 then 1 else 0
    decreases i
  {
    if i > 0 && !(a == 0 && b == 0) {
      BitOr(a / 2, b / 2, i - 1);
    } else if i > 0 {
      BitOfZero(i);
    }
  }

  lemma {:induction false} BitOfZero(i: nat)
    ensures Bit(0, i) == 0
  {
    if i > 0 {
      BitOfZero(i - 1);
    }
  }

  /** `1 << k` has exactly bit k set. */
  lemma {:induction false} BitPow2(k: nat, i: nat)
    ensures Bit(Pow2(k), i) == if i == k then 1 else 0
  {
    if k == 0 {
      if i > 0 {
        BitOfZero(i - 1);
      }
    } else if i > 0 {
      BitPow2(k - 1, i - 1);
    }
  }

  lemma {:induction false} XorBound(a: nat, b: nat, n: nat)
    requires a < Pow2(n) && b < Pow2(n)
    ensures Xor(a, b) < Pow2(n)
  {
    if n > 0 && !(a == 0 && b == 0) {
      XorBound(a / 2, b / 2, n - 1);
    }
  }

  lemma {:induction false} OrBound(a: nat, b: nat, n: nat)
    requires a < Pow2(n) && b < Pow2(n)
    ensures Or(a, b) < Pow2(n)
  {
    if n > 0 && !(a == 0 && b == 0) {
      OrBound(a / 2, b / 2, n - 1);
    }
  }

  // ---------------------------------------------------------------- words as bit sequences

  predicate IsBinary(s: seq<int>) {
    forall i | 0 <= i < |s| :: s[i] == 0 || s[i] == 1
  }

  /** The low n bits of x, bit 0 first. */
  function Decode(x: nat, n: nat): (s: seq<int>)
    ensures |s| == n && IsBinary(s)
    ensures forall i | 0 <= i < n :: s[i] == Bit(x, i)
  {
    if n == 0 then [] else [x % 2] + Decode(x / 2, n - 1)
  }

  /** The word whose bit i is s[i]. */
  function Encode(s: seq<int>): (x: nat)
    requires IsBinary(s)
    ensures x < Pow2(|s|)
  {
    if s == [] then 0 else s[0] + 2 * Encode(s[1..])
  }

  lemma {:induction false} EncodeDecode(x: nat, n: nat)
    requires x < Pow2(n)
    ensures Encode(Decode(x, n)) == x
  {
    if n > 0 {
      EncodeDecode(x / 2, n - 1);
      assert Decode(x, n)[1..] == Decode(x / 2, n - 1);
    }
  }

  lemma {:induction false} DecodeEncode(s: seq<int>)
    requires IsBinary(s)
    ensures Decode(Encode(s), |s|) == s
  {
    if s != [] {
      DecodeEncode(s[1..]);
      assert Encode(s) / 2 == Encode(s[1..]);
      assert s == [s[0]] + s[1..];
    }
  }

  /** Two n-bit words with the same bits are the same word. */
  lemma DecodeInjective(x: nat, y: nat, n: nat)
    requires x < Pow2(n) && y < Pow2(n)
    requires Decode(x, n) == Decode(y, n)
    ensures x == y
  {
    EncodeDecode(x, n);
    EncodeDecode(y, n);
  }

  /** The popcount of an n-bit word is the number of ones among its n bits. */
  lemma {:induction false} OnesCountDecode(x: nat, n: nat)
    requires x < Pow2(n)
    ensures OnesCount(x) == multiset(Decode(x, n))[1]
    ensures OnesCount(x) <= n
  {
    if n > 0 {
      OnesCountDecode(x / 2, n - 1);
      assert Decode(x, n) == [x % 2] + Decode(x / 2, n - 1);
      assert multiset(Decode(x, n)) == multiset{x % 2} + multiset(Decode(x / 2, n - 1));
    }
  }
}
