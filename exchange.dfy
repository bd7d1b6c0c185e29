/**
 * What a comparison network computes. A comparator (i1, i2) compares the
 * values on wires i1 and i2 and swaps them when the value on i1 is the
 * larger. Run on a sequence of integers this is `sortSequence`; run on the
 * bits of a word it is `sortBinarySequence`. The module proves that the two
 * agree on 0/1 inputs and the zero-one principle that `IsSortingNetwork`
 * relies on: a network sorts every sequence of n integers iff it turns every
 * n-bit word into the word with all its one bits at the top.
 */
module Exchange {
  import opened Bits
  import opened Comparators

  /** Every wire a comparator names is in 0 .. n-1. */
  predicate WiresBelow(cs: seq<Comparator>, n: int) {
    forall k | 0 <= k < |cs| :: 0 <= cs[k].i1 < n && 0 <= cs[k].i2 < n
  }

  predicate Sorted(s: seq<int>) {
    forall i, j | 0 <= i < j < |s| :: s[i] <= s[j]
  }

  // ---------------------------------------------------------------- on value sequences

  /** One compare-and-swap on a sequence of values. */
  function CompareSwap(a: seq<int>, c: Comparator): (r: seq<int>)
    requires 0 <= c.i1 < |a| && 0 <= c.i2 < |a|
    ensures |r| == |a| && multiset(r) == multiset(a)
    ensures r[c.i1] <= r[c.i2]
    ensures forall k | 0 <= k < |a| && k != c.i1 && k != c.i2 :: r[k] == a[k]
  {
    if a[c.i1] > a[c.i2] then a[c.i1 := a[c.i2]][c.i2 := a[c.i1]] else a
  }

  /**
   * The comparators applied in network order. The result is a rearrangement
   * of the input, and the pair the last comparator names is in order.
   */
  function Apply(cs: seq<Comparator>, a: seq<int>): (r: seq<int>)
    requires WiresBelow(cs, |a|)
    ensures |r| == |a| && multiset(r) == multiset(a)
    ensures |cs| > 0 ==> r[cs[|cs| - 1].i1] <= r[cs[|cs| - 1].i2]
  {
    if |cs| == 0 then a else CompareSwap(Apply(cs[..|cs| - 1], a), cs[|cs| - 1])
  }

  /** Running a network in two parts is running it whole. */
  lemma {:induction false} ApplyConcat(cs: seq<Comparator>, ds: seq<Comparator>, a: seq<int>)
    requires WiresBelow(cs + ds, |a|)
    ensures WiresBelow(cs, |a|) && WiresBelow(ds, |a|)
    ensures Apply(cs + ds, a) == Apply(ds, Apply(cs, a))
  {
    assert forall k | 0 <= k < |cs| :: cs[k] == (cs + ds)[k];
    assert forall k | 0 <= k < |ds| :: ds[k] == (cs + ds)[|cs| + k];
    if |ds| > 0 {
      var last := ds[|ds| - 1];
      assert (cs + ds)[..|cs + ds| - 1] == cs + ds[..|ds| - 1];
      ApplyConcat(cs, ds[..|ds| - 1], a);
    } else {
      assert cs + ds == cs;
    }
  }

  /**
   * A comparator whose smaller wire comes first leaves a sorted sequence as
   * it is, so a network of such comparators does too.
   */
  lemma {:induction false} ApplySorted(cs: seq<Comparator>, a: seq<int>)
    requires WiresBelow(cs, |a|) && Sorted(a)
    requires forall k | 0 <= k < |cs| :: cs[k].i1 <= cs[k].i2
    ensures Apply(cs, a) == a
  {
    if |cs| > 0 {
      ApplySorted(cs[..|cs| - 1], a);
    }
  }

  /** `1` where the value is at least t, `0` elsewhere. */
  function Threshold(a: seq<int>, t: int): (b: seq<int>)
    ensures |b| == |a| && IsBinary(b)
    ensures forall i | 0 <= i < |a| :: b[i] == if a[i] >= t then 1 else 0
  {
    seq(|a|, i requires 0 <= i < |a| => if a[i] >= t then 1 else 0)
  }

  /** One compare-and-swap commutes with Threshold, because Threshold is monotone. */
  lemma CompareSwapThreshold(b: seq<int>, c: Comparator, t: int)
    requires 0 <= c.i1 < |b| && 0 <= c.i2 < |b|
    ensures CompareSwap(Threshold(b, t), c) == Threshold(CompareSwap(b, c), t)
  {
    var l := CompareSwap(Threshold(b, t), c);
    var r := Threshold(CompareSwap(b, c), t);
    forall k | 0 <= k < |b| ensures l[k] == r[k] {
      if k == c.i1 || k == c.i2 {
        if b[c.i1] > b[c.i2] {
          assert CompareSwap(b, c)[c.i1] == b[c.i2];
          assert CompareSwap(b, c)[c.i2] == b[c.i1];
        } else {
          assert CompareSwap(b, c) == b;
        }
      }
    }
  }

  /** A network commutes with Threshold. */
  lemma {:induction false} ApplyThreshold(cs: seq<Comparator>, a: seq<int>, t: int)
    requires WiresBelow(cs, |a|)
    ensures Apply(cs, Threshold(a, t)) == Threshold(Apply(cs, a), t)
  {
    if |cs| > 0 {
      ApplyThreshold(cs[..|cs| - 1], a, t);
      CompareSwapThreshold(Apply(cs[..|cs| - 1], a), cs[|cs| - 1], t);
    }
  }

  // ---------------------------------------------------------------- on binary words

  /**
   * The body of sortBinarySequence's loop: when bit i1 is 1 and bit i2 is 0,
   * both bits are flipped by an XOR with `(1 << i1) | (1 << i2)`.
   */
  function CompareSwapBits(x: nat, c: Comparator): nat
    requires c.i1 >= 0 && c.i2 >= 0
  {
    if Bit(x, c.i1) > Bit(x, c.i2) then Xor(x, Or(Pow2(c.i1), Pow2(c.i2))) else x
  }

  /** sortBinarySequence: the comparators applied in order to the bits of x. */
  function SortBinary(cs: seq<Comparator>, x: nat): nat
    requires forall k | 0 <= k < |cs| :: cs[k].i1 >= 0 && cs[k].i2 >= 0
  {
    if |cs| == 0 then x else CompareSwapBits(SortBinary(cs[..|cs| - 1], x), cs[|cs| - 1])
  }

  /** On an n-bit word, the XOR swap is the compare-and-swap of its bits. */
  lemma CompareSwapBitsDecode(x: nat, c: Comparator, n: nat)
    requires x < Pow2(n) && 0 <= c.i1 < n && 0 <= c.i2 < n
    ensures CompareSwapBits(x, c) < Pow2(n)
    ensures Decode(CompareSwapBits(x, c), n) == CompareSwap(Decode(x, n), c)
  {
    if Bit(x, c.i1) > Bit(x, c.i2) {
      var mask := Or(Pow2(c.i1), Pow2(c.i2));
      Pow2Grows(c.i1, n);
      Pow2Grows(c.i2, n);
      OrBound(Pow2(c.i1), Pow2(c.i2), n);
      XorBound(x, mask, n);
      var l := Decode(Xor(x, mask), n);
      var r := CompareSwap(Decode(x, n), c);
      forall k | 0 <= k < n ensures l[k] == r[k] {
        BitXor(x, mask, k);
        BitOr(Pow2(c.i1), Pow2(c.i2), k);
        BitPow2(c.i1, k);
        BitPow2(c.i2, k);
      }
    }
  }

  /** On an n-bit word, sortBinarySequence is sortSequence run on the word's bits. */
  lemma {:induction false} SortBinaryDecode(cs: seq<Comparator>, x: nat, n: nat)
    requires x < Pow2(n) && WiresBelow(cs, n)
    ensures SortBinary(cs, x) < Pow2(n)
    ensures Decode(SortBinary(cs, x), n) == Apply(cs, Decode(x, n))
  {
    if |cs| > 0 {
      SortBinaryDecode(cs[..|cs| - 1], x, n);
      CompareSwapBitsDecode(SortBinary(cs[..|cs| - 1], x), cs[|cs| - 1], n);
    }
  }

  /** sortBinarySequence only moves bits: the popcount is unchanged. */
  lemma SortBinaryOnesCount(cs: seq<Comparator>, x: nat, n: nat)
    requires x < Pow2(n) && WiresBelow(cs, n)
    ensures OnesCount(SortBinary(cs, x)) == OnesCount(x)
  {
    SortBinaryDecode(cs, x, n);
    OnesCountDecode(x, n);
    OnesCountDecode(SortBinary(cs, x), n);
  }

  // ---------------------------------------------------------------- the expected sorted word

  /**
   * The word IsSortingNetwork expects for a word with `ones` one bits among
   * n: `(1 << ones - 1) << (n - ones)`, written as 0 when there are none.
   */
  function Expected(n: nat, ones: nat): nat
    requires ones <= n
  {
    if ones > 0 then OnesShifted(ones, n - ones) else 0
  }

  /** `(1 << ones - 1) << zeros`: a run of `ones` one bits above `zeros` zero bits. */
  function OnesShifted(ones: nat, zeros: nat): nat {
    if zeros == 0 then Pow2(ones) - 1 else 2 * OnesShifted(ones, zeros - 1)
  }

  /** Shifting left by `zeros` multiplies by 2^zeros. */
  lemma {:induction false} OnesShiftedProduct(ones: nat, zeros: nat)
    ensures OnesShifted(ones, zeros) == (Pow2(ones) - 1) * Pow2(zeros)
  {
    if zeros > 0 {
      OnesShiftedProduct(ones, zeros - 1);
      assert (Pow2(ones) - 1) * Pow2(zeros) == 2 * ((Pow2(ones) - 1) * Pow2(zeros - 1));
    }
  }

  /** Expected, its special case for no ones included, is (2^ones - 1) * 2^(n - ones). */
  lemma ExpectedClosedForm(n: nat, ones: nat)
    requires ones <= n
    ensures Expected(n, ones) == (Pow2(ones) - 1) * Pow2(n - ones)
  {
    OnesShiftedProduct(ones, n - ones);
  }

  function Zeros(m: nat): (s: seq<int>)
    ensures |s| == m && forall i | 0 <= i < m :: s[i] == 0
  {
    seq(m, i => 0)
  }

  function Ones(m: nat): (s: seq<int>)
    ensures |s| == m && forall i | 0 <= i < m :: s[i] == 1
  {
    seq(m, i => 1)
  }

  lemma {:induction false} EncodeOnes(k: nat)
    ensures Encode(Ones(k)) == Pow2(k) - 1
  {
    if k > 0 {
      assert Ones(k)[1..] == Ones(k - 1);
      EncodeOnes(k - 1);
    }
  }

  lemma {:induction false} EncodeZerosOnes(m: nat, k: nat)
    ensures Encode(Zeros(m) + Ones(k)) == (Pow2(k) - 1) * Pow2(m)
  {
    if m == 0 {
      assert Zeros(m) + Ones(k) == Ones(k);
      EncodeOnes(k);
    } else {
      assert (Zeros(m) + Ones(k))[1..] == Zeros(m - 1) + Ones(k);
      EncodeZerosOnes(m - 1, k);
      var p := Pow2(k) - 1;
      assert p * Pow2(m) == 2 * (p * Pow2(m - 1));
    }
  }

  /** Bit for bit, the expected word is n - ones zeros followed by ones ones. */
  lemma ExpectedDecode(n: nat, ones: nat)
    requires ones <= n
    ensures Expected(n, ones) < Pow2(n)
    ensures Decode(Expected(n, ones), n) == Zeros(n - ones) + Ones(ones)
  {
    var s := Zeros(n - ones) + Ones(ones);
    assert |s| == n;
    EncodeZerosOnes(n - ones, ones);
    ExpectedClosedForm(n, ones);
    assert Encode(s) == Expected(n, ones);
    DecodeEncode(s);
  }

  lemma {:induction false} CountZerosOnes(m: nat, k: nat)
    ensures multiset(Zeros(m) + Ones(k))[1] == k
  {
    if k > 0 {
      CountZerosOnes(m, k - 1);
      assert Zeros(m) + Ones(k) == (Zeros(m) + Ones(k - 1)) + [1];
    } else {
      assert Zeros(m) + Ones(k) == Zeros(m);
      assert 1 !in multiset(Zeros(m));
    }
  }

  lemma {:induction false} CountBound(s: seq<int>, v: int)
    ensures multiset(s)[v] <= |s|
  {
    if s != [] {
      CountBound(s[..|s| - 1], v);
      assert s == s[..|s| - 1] + [s[|s| - 1]];
    }
  }

  /** The position of the first one, or |s| when there is none. */
  function FirstOne(s: seq<int>): (z: nat)
    ensures z <= |s|
    ensures forall i | 0 <= i < z :: s[i] != 1
    ensures z < |s| ==> s[z] == 1
  {
    if s == [] || s[0] == 1 then 0 else 1 + FirstOne(s[1..])
  }

  lemma ZerosOnesSorted(m: nat, k: nat)
    ensures Sorted(Zeros(m) + Ones(k))
  {
    var s := Zeros(m) + Ones(k);
    forall i, j | 0 <= i < j < |s| ensures s[i] <= s[j] {
      assert s[i] == if i < m then 0 else 1;
      assert s[j] == if j < m then 0 else 1;
    }
  }

  /** A 0/1 sequence is sorted iff all its zeros come before all its ones. */
  lemma SortedBinary(s: seq<int>, k: nat)
    requires IsBinary(s) && k == multiset(s)[1]
    ensures k <= |s|
    ensures Sorted(s) <==> s == Zeros(|s| - k) + Ones(k)
  {
    CountBound(s, 1);
    if Sorted(s) {
      var z := FirstOne(s);
      var t := Zeros(z) + Ones(|s| - z);
      forall i | 0 <= i < |s| ensures s[i] == t[i] {
        if i >= z {
          assert s[z] <= s[i];
        }
      }
      assert s == t;
      CountZerosOnes(z, |s| - z);
    }
    ZerosOnesSorted(|s| - k, k);
  }

  /** Rearranging a 0/1 sequence gives a 0/1 sequence. */
  lemma BinaryPermutation(a: seq<int>, b: seq<int>)
    requires IsBinary(a) && multiset(a) == multiset(b)
    ensures IsBinary(b)
  {
    forall i | 0 <= i < |b| ensures b[i] == 0 || b[i] == 1 {
      assert b[i] in multiset(b);
      assert b[i] in a;
    }
  }

  /**
   * IsSortingNetwork's check of one word: the network's output on x equals
   * the expected word iff the network sorts the bits of x.
   */
  lemma SortBinaryCheck(cs: seq<Comparator>, x: nat, n: nat)
    requires x < Pow2(n) && WiresBelow(cs, n)
    ensures OnesCount(x) <= n
    ensures SortBinary(cs, x) == Expected(n, OnesCount(x)) <==> Sorted(Apply(cs, Decode(x, n)))
  {
    OnesCountDecode(x, n);
    SortBinaryDecode(cs, x, n);
    var k := OnesCount(x);
    var y := Apply(cs, Decode(x, n));
    BinaryPermutation(Decode(x, n), y);
    SortedBinary(y, k);
    ExpectedDecode(n, k);
    if Sorted(y) {
      DecodeInjective(SortBinary(cs, x), Expected(n, k), n);
    }
  }

  /**
   * A word that is already sorted (all its ones at the top) comes out of a
   * network of canonical comparators unchanged.
   */
  lemma SortBinaryKeepsSorted(cs: seq<Comparator>, n: nat, ones: nat)
    requires WiresBelow(cs, n) && ones <= n
    requires forall k | 0 <= k < |cs| :: cs[k].i1 <= cs[k].i2
    ensures SortBinary(cs, Expected(n, ones)) == Expected(n, ones)
  {
    var x := Expected(n, ones);
    ExpectedDecode(n, ones);
    ZerosOnesSorted(n - ones, ones);
    ApplySorted(cs, Decode(x, n));
    SortBinaryDecode(cs, x, n);
    DecodeInjective(SortBinary(cs, x), x, n);
  }

  // ---------------------------------------------------------------- the zero-one principle

  /** IsSortingNetwork's check of one word x < 2^n. */
  predicate SortsWord(cs: seq<Comparator>, n: nat, x: nat)
    requires WiresBelow(cs, n) && x < Pow2(n)
  {
    OnesCountDecode(x, n);
    SortBinary(cs, x) == Expected(n, OnesCount(x))
  }

  /** The check IsSortingNetwork makes of every n-bit word. */
  ghost predicate SortsEveryWord(cs: seq<Comparator>, n: nat)
    requires WiresBelow(cs, n)
  {
    forall x: nat | x < Pow2(n) :: SortsWord(cs, n, x)
  }

  /** The network sorts every sequence of n integers. */
  ghost predicate SortsEverySequence(cs: seq<Comparator>, n: nat)
    requires WiresBelow(cs, n)
  {
    forall a: seq<int> | |a| == n :: Sorted(Apply(cs, a))
  }

  /**
   * The zero-one principle: checking the 2^n binary words decides whether
   * the network sorts every sequence of n integers.
   */
  lemma ZeroOnePrinciple(cs: seq<Comparator>, n: nat)
    requires WiresBelow(cs, n)
    ensures SortsEveryWord(cs, n) <==> SortsEverySequence(cs, n)
  {
    if SortsEveryWord(cs, n) {
      forall a: seq<int> | |a| == n ensures Sorted(Apply(cs, a)) {
        SortsWhenWordsSort(cs, n, a);
      }
    }
    if SortsEverySequence(cs, n) {
      forall x: nat | x < Pow2(n) ensures SortsWord(cs, n, x) {
        SortBinaryCheck(cs, x, n);
        assert Sorted(Apply(cs, Decode(x, n)));
      }
    }
  }

  /** The harder half: an unsorted output would show up on a thresholded 0/1 input. */
  lemma SortsWhenWordsSort(cs: seq<Comparator>, n: nat, a: seq<int>)
    requires WiresBelow(cs, n) && |a| == n
    requires SortsEveryWord(cs, n)
    ensures Sorted(Apply(cs, a))
  {
    var y := Apply(cs, a);
    if !Sorted(y) {
      var i, j :| 0 <= i < j < |y| && y[i] > y[j];
      ThresholdUnsorted(y, i, j);
      var b := Threshold(a, y[i]);
      ApplyThreshold(cs, a, y[i]);
      DecodeEncode(b);
      assert SortsWord(cs, n, Encode(b));
      SortBinaryCheck(cs, Encode(b), n);
      assert false;
    }
  }

  /** Two values out of order stay out of order after Threshold at the larger one. */
  lemma ThresholdUnsorted(y: seq<int>, i: int, j: int)
    requires 0 <= i < j < |y| && y[i] > y[j]
    ensures !Sorted(Threshold(y, y[i]))
  {
    assert Threshold(y, y[i])[i] == 1 && Threshold(y, y[i])[j] == 0;
  }
}
