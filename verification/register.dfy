/**
 * The `Int` both codec loops keep their pending bits in. `Window(a, n)` reads
 * the n low-order bits of the register, the ones a loop has not yet consumed,
 * as a bit string. Each lemma here says what one shift, mask or `or` of the
 * loops does to those bits.
 */
module Register {
  import opened Bits
  import opened Kotlin

  /** The n low-order bits of a register, most significant first. */
  function Window(a: Int32, n: nat): (r: seq<bool>)
    requires n <= 32
    ensures |r| == n
  {
    a[32 - n..]
  }

  /** Dropping the top j of k pending bits leaves the low k - j. */
  lemma WindowDrop(a: Int32, k: nat, j: nat)
    requires j <= k <= 32
    ensures Window(a, k - j) == Window(a, k)[j..]
  {
  }

  /**
   * `(a shl 8) or x.toInt()` with n pending bits: a non-negative byte appends
   * its eight bits, while a negative one also turns the n pending bits into
   * ones, because `toInt()` copies its sign bit into every bit above the low eight.
   */
  lemma ShiftInByte(a: Int32, n: nat, x: Byte)
    requires n <= 24
    ensures Window(Or(Shl(a, 8), FromInt(x as int)), n + 8)
         == (if x < 0 then Ones(n) else Window(a, n)) + ByteBits(x)
  {
    var e := FromInt(x as int);
    SignExtension(x);
    var s := Shl(a, 8);
    var W := Window(Or(s, e), n + 8);
    var R := (if x < 0 then Ones(n) else Window(a, n)) + ByteBits(x);
    forall j | 0 <= j < n + 8
      ensures W[j] == R[j]
    {
      var i := 24 - n + j;
      if j < n {
        assert s[i] == a[i + 8];
        assert e[i] == (x < 0);
      } else {
        assert s[i] == false;
        assert e[i] == ByteBits(x)[j - n];
      }
    }
  }

  /** `x.toInt() and 0xff` keeps the byte's own eight bits and clears the 24 copies of its sign above them. */
  lemma MaskByte(x: Byte)
    ensures And(FromInt(x as int), FromInt(255)) == Zeros(24) + ByteBits(x)
  {
    SignExtension(x);
    FromInt255();
    var m := And(FromInt(x as int), FromInt(255));
    forall i | 0 <= i < 32
      ensures m[i] == (Zeros(24) + ByteBits(x))[i]
    {
    }
  }

  /** `(a shl 8) or (x.toInt() and 0xff)` appends the byte's eight bits to the n pending bits, whatever its sign. */
  lemma ShiftInMaskedByte(a: Int32, n: nat, x: Byte)
    requires n <= 24
    ensures Window(Or(Shl(a, 8), And(FromInt(x as int), FromInt(255))), n + 8) == Window(a, n) + ByteBits(x)
  {
    var e := And(FromInt(x as int), FromInt(255));
    MaskByte(x);
    var s := Shl(a, 8);
    var W := Window(Or(s, e), n + 8);
    var R := Window(a, n) + ByteBits(x);
    forall j | 0 <= j < n + 8
      ensures W[j] == R[j]
    {
      var i := 24 - n + j;
      if j < n {
        assert s[i] == a[i + 8];
        assert e[i] == false;
      } else {
        assert s[i] == false;
        assert e[i] == ByteBits(x)[j - n];
      }
    }
  }

  /** `(a shl 5) or v`, for a symbol value v, appends v's five bits to the n pending bits. */
  lemma ShiftInSymbol(a: Int32, n: nat, v: int)
    requires n <= 27 && 0 <= v < 32
    ensures Window(Or(Shl(a, 5), FromInt(v)), n + 5) == Window(a, n) + NatBits(v, 5)
  {
    Pow2Small();
    FromIntSmall(v, 5);
    var e := FromInt(v);
    var s := Shl(a, 5);
    var W := Window(Or(s, e), n + 5);
    var R := Window(a, n) + NatBits(v, 5);
    forall j | 0 <= j < n + 5
      ensures W[j] == R[j]
    {
      var i := 27 - n + j;
      if j < n {
        assert s[i] == a[i + 5];
        assert e[i] == false;
      } else {
        assert s[i] == false;
        assert e[i] == NatBits(v, 5)[j - n];
      }
    }
  }

  /**
   * `(a ushr (k - 5)) and 31` with k pending bits is the number the top five
   * of them denote: the index of the next symbol the encoder emits.
   */
  lemma TakeSymbol(a: Int32, k: nat)
    requires 5 <= k <= 32
    ensures ToInt(And(Ushr(a, k - 5), FromInt(31))) == Value(Window(a, k)[..5])
    ensures 0 <= ToInt(And(Ushr(a, k - 5), FromInt(31))) < 32
  {
    var top := Window(a, k)[..5];
    SymbolMask(a, k);
    ValueLeadingZeros(27, top);
    Pow2Small();
  }

  /** `(a ushr (k - 5)) and 31` clears all but the top five of the k pending bits, moved to the bottom. */
  lemma SymbolMask(a: Int32, k: nat)
    requires 5 <= k <= 32
    ensures And(Ushr(a, k - 5), FromInt(31)) == Zeros(27) + Window(a, k)[..5]
  {
    FromInt31();
    var u := Ushr(a, k - 5);
    var t := And(u, FromInt(31));
    var top := Window(a, k)[..5];
    forall i | 0 <= i < 32
      ensures t[i] == (Zeros(27) + top)[i]
    {
      if i >= 27 {
        assert u[i] == a[i - (k - 5)];
      }
    }
  }

  /**
   * `(a shr (k - 8)) and 0xff`, read back with `toByte()`, is the byte the top
   * eight of the k pending bits form.
   */
  lemma TakeByte(a: Int32, k: nat)
    requires 8 <= k <= 32
    ensures ToByte(And(Shr(a, k - 8), FromInt(255))) == ByteOfBits(Window(a, k)[..8])
  {
    FromInt255();
    var u := Shr(a, k - 8);
    var t := And(u, FromInt(255));
    var top := Window(a, k)[..8];
    forall j | 0 <= j < 8
      ensures t[24..][j] == top[j]
    {
      assert u[24 + j] == a[24 + j - (k - 8)];
    }
    assert t[24..] == top;
  }

  /** `a shl (5 - k)` pads k pending bits with zeros to a whole five-bit group. */
  lemma PadSymbol(a: Int32, k: nat)
    requires k <= 5
    ensures Window(Shl(a, 5 - k), 5) == Window(a, k) + Zeros(5 - k)
  {
    var s := Shl(a, 5 - k);
    var W := Window(s, 5);
    var R := Window(a, k) + Zeros(5 - k);
    forall j | 0 <= j < 5
      ensures W[j] == R[j]
    {
      if j < k {
        assert s[27 + j] == a[32 - k + j];
      }
    }
  }

  /**
   * `(a shl (8 - k)) and 0xff` is the zero `Int` exactly when the k pending
   * bits are all clear: the decoder's test of the bits left over at the end.
   */
  lemma PadByte(a: Int32, k: nat)
    requires 1 <= k <= 7
    ensures And(Shl(a, 8 - k), FromInt(255)) == FromInt(0) <==> Window(a, k) == Zeros(k)
  {
    FromInt255();
    FromIntZero();
    var s := Shl(a, 8 - k);
    var t := And(s, FromInt(255));
    var P := Window(a, k);
    forall j | 0 <= j < k
      ensures t[24 + j] == P[j]
    {
      assert s[24 + j] == a[32 - k + j];
    }
    forall i | 0 <= i < 32 && !(24 <= i < 24 + k)
      ensures !t[i]
    {
    }
    if P == Zeros(k) {
      assert forall i :: 0 <= i < 32 ==> t[i] == Zeros(32)[i];
      assert t == Zeros(32);
    }
    if t == Zeros(32) {
      assert forall j :: 0 <= j < k ==> P[j] == Zeros(k)[j];
      assert P == Zeros(k);
    }
  }
}
