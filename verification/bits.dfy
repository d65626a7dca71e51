/**
 * Bit strings, most significant bit first, and the natural numbers they
 * denote. The codec's behaviour is stated in these terms; nothing here knows
 * about Kotlin's integer types.
 */
module Bits {

  /** 2 to the power n. */
  function Pow2(n: nat): (r: nat)
    ensures r >= 1
  {
    if n == 0 then 1 else 2 * Pow2(n - 1)
  }

  /** n zero bits. */
  function Zeros(n: nat): (r: seq<bool>)
    ensures |r| == n
  {
    seq(n, i => false)
  }

  /** n one bits. */
  function Ones(n: nat): (r: seq<bool>)
    ensures |r| == n
  {
    seq(n, i => true)
  }

  /** n copies of bit b. */
  function Fill(n: nat, b: bool): (r: seq<bool>)
    ensures |r| == n && forall i :: 0 <= i < n ==> r[i] == b
  {
    if b then Ones(n) else Zeros(n)
  }

  /** The natural number a big-endian bit string denotes. */
  function Value(bits: seq<bool>): (r: nat)
    ensures r < Pow2(|bits|)
  {
    if |bits| == 0 then 0
    else 2 * Value(bits[..|bits| - 1]) + (if bits[|bits| - 1] then 1 else 0)
  }

  /** The n-bit big-endian representation of v; bits above the n-th are dropped. */
  function NatBits(v: nat, n: nat): (r: seq<bool>)
    ensures |r| == n
  {
    if n == 0 then [] else NatBits(v / 2, n - 1) + [v % 2 == 1]
  }

  /** A number below 2^n is recovered from its n-bit representation. */
  lemma {:induction false} ValueOfNatBits(v: nat, n: nat)
    requires v < Pow2(n)
    ensures Value(NatBits(v, n)) == v
  {
    if n > 0 {
      ValueOfNatBits(v / 2, n - 1);
      var r := NatBits(v, n);
      assert r[..n - 1] == NatBits(v / 2, n - 1);
    }
  }

  /** A bit string is the representation, at its own width, of the number it denotes. */
  lemma {:induction false} NatBitsOfValue(bits: seq<bool>)
    ensures NatBits(Value(bits), |bits|) == bits
  {
    if |bits| > 0 {
      var p := bits[..|bits| - 1];
      NatBitsOfValue(p);
      assert bits == p + [bits[|bits| - 1]];
    }
  }

  /** A bit string denotes zero exactly when every bit of it is clear. */
  lemma {:induction false} ValueZero(bits: seq<bool>)
    ensures Value(bits) == 0 <==> bits == Zeros(|bits|)
  {
    if |bits| > 0 {
      var p := bits[..|bits| - 1];
      ValueZero(p);
      assert bits == p + [bits[|bits| - 1]];
      if bits == Zeros(|bits|) {
        assert p == Zeros(|p|);
      }
    }
  }

  /** Leading zero bits do not change the number a bit string denotes. */
  lemma {:induction false} ValueLeadingZeros(m: nat, s: seq<bool>)
    ensures Value(Zeros(m) + s) == Value(s)
  {
    if |s| == 0 {
      assert Zeros(m) + s == Zeros(m);
      ValueZero(Zeros(m));
    } else {
      var t := Zeros(m) + s;
      ValueLeadingZeros(m, s[..|s| - 1]);
      assert t[..|t| - 1] == Zeros(m) + s[..|s| - 1];
    }
  }

  /** The representation of a * 2^k + b, for b below 2^k, is that of a followed by that of b. */
  lemma {:induction false} NatBitsSplit(a: nat, b: nat, m: nat, k: nat)
    requires b < Pow2(k)
    ensures NatBits(a * Pow2(k) + b, m + k) == NatBits(a, m) + NatBits(b, k)
    decreases k
  {
    if k > 0 {
      var x := a * Pow2(k) + b;
      assert a * Pow2(k) == 2 * (a * Pow2(k - 1));
      assert x / 2 == a * Pow2(k - 1) + b / 2;
      assert x % 2 == b % 2;
      NatBitsSplit(a, b / 2, m, k - 1);
    }
  }

  /** The representation of zero is all zeros. */
  lemma {:induction false} NatBitsOfZero(m: nat)
    ensures NatBits(0, m) == Zeros(m)
  {
    if m > 0 {
      NatBitsOfZero(m - 1);
    }
  }

  /** A number below 2^k, written in m + k bits, is m zeros followed by its k-bit representation. */
  lemma NatBitsHigh(v: nat, m: nat, k: nat)
    requires v < Pow2(k)
    ensures NatBits(v, m + k) == Zeros(m) + NatBits(v, k)
  {
    NatBitsSplit(0, v, m, k);
    NatBitsOfZero(m);
  }

  /** 2^m - 1 is written as m ones. */
  lemma {:induction false} NatBitsAllOnes(m: nat)
    ensures NatBits(Pow2(m) - 1, m) == Ones(m)
  {
    if m > 0 {
      NatBitsAllOnes(m - 1);
      assert (Pow2(m) - 1) / 2 == Pow2(m - 1) - 1;
    }
  }

  /** 2^(a+b) is 2^a times 2^b. */
  lemma {:induction false} Pow2Add(a: nat, b: nat)
    ensures Pow2(a + b) == Pow2(a) * Pow2(b)
  {
    if a > 0 {
      Pow2Add(a - 1, b);
    }
  }

  /** m ones above the k-bit representation of w: the number (2^m - 1) * 2^k + w. */
  lemma NatBitsOnesAbove(w: nat, m: nat, k: nat)
    requires w < Pow2(k)
    ensures NatBits((Pow2(m) - 1) * Pow2(k) + w, m + k) == Ones(m) + NatBits(w, k)
  {
    NatBitsSplit(Pow2(m) - 1, w, m, k);
    NatBitsAllOnes(m);
  }

  /** m one bits denote 2^m - 1. */
  lemma {:induction false} ValueOnes(m: nat)
    ensures Value(Ones(m)) == Pow2(m) - 1
  {
    if m > 0 {
      ValueOnes(m - 1);
      assert Ones(m)[..m - 1] == Ones(m - 1);
    }
  }

  /** A one followed by k zeros denotes 2^k. */
  lemma {:induction false} ValueOneThenZeros(k: nat)
    ensures Value([true] + Zeros(k)) == Pow2(k)
  {
    if k > 0 {
      ValueOneThenZeros(k - 1);
      var s := [true] + Zeros(k);
      assert s[..|s| - 1] == [true] + Zeros(k - 1);
    }
  }
}
