/** crc32_combine_: the CRC of a concatenation from the CRCs of its parts, by squaring the matrix
    of the operator for one zero bit. */
module Crc32Combine {
  import opened Lz77
  import opened Crc32

  const GF2_DIM := 32

  /** v times x^-k, that is, shifted up k times. */
  function Up(k: nat, v: bv32): bv32
  {
    if k == 0 then v else Up(k - 1, Double(v))
  }

  function Double(v: bv32): bv32
  {
    v << 1
  }

  function Odd(v: bv32): bool
  {
    v & 1 == 1
  }

  /** mat is the operator of n zero bits: column i is the image of bit i. */
  ghost predicate Operator(mat: seq<bv32>, n: nat)
  {
    |mat| == GF2_DIM && forall i :: 0 <= i < GF2_DIM ==> mat[i] == Bits(n, Up(i, 1))
  }

  lemma DoubleLinear(a: bv32, b: bv32)
    ensures Double(Xor(a, b)) == Xor(Double(a), Double(b))
  {
  }

  lemma {:induction false} UpLinear(k: nat, a: bv32, b: bv32)
    ensures Up(k, Xor(a, b)) == Xor(Up(k, a), Up(k, b))
  {
    hide Xor, Double;
    if k > 0 {
      DoubleLinear(a, b);
      UpLinear(k - 1, Double(a), Double(b));
    }
  }

  lemma {:induction false} UpZero(k: nat)
    ensures Up(k, 0) == 0
  {
    if k > 0 {
      assert Double(0) == 0;
      UpZero(k - 1);
    }
  }

  lemma {:induction false} BitsZero(n: nat)
    ensures Bits(n, 0) == 0
  {
    if n > 0 {
      assert Bit(0) == 0;
      BitsZero(n - 1);
    }
  }

  lemma OddAndHalf(v: bv32)
    ensures v == if Odd(v) then Xor(1, Double(Half(v))) else Double(Half(v))
  {
  }

  /** Taking the lowest bit of v off, at height k. */
  lemma TakeBit(n: nat, k: nat, v: bv32)
    ensures Bits(n, Up(k, v)) ==
      if Odd(v) then Xor(Bits(n, Up(k, 1)), Bits(n, Up(k + 1, Half(v)))) else Bits(n, Up(k + 1, Half(v)))
  {
    hide Xor, Double, Half, Odd, Bit;
    OddAndHalf(v);
    if Odd(v) {
      UpLinear(k, 1, Double(Half(v)));
      BitsLinear(n, Up(k, 1), Up(k, Double(Half(v))));
    }
  }

  /** A 32-bit value is exhausted after 32 halvings. */
  lemma AllFit(v: bv32)
    ensures Fits(32, v)
  {
    hide Shr8;
    FitsByte(0, Shr8(Shr8(Shr8(v))));
    FitsByte(8, Shr8(Shr8(v)));
    FitsByte(16, Shr8(v));
    FitsByte(24, v);
    ShiftedOut(v);
  }

  lemma FitsByte(n: nat, v: bv32)
    ensures Fits(n + 8, v) == Fits(n, Shr8(v))
  {
    assert Fits(n + 8, v) == Fits(n + 7, v >> 1) == Fits(n + 6, v >> 2) == Fits(n + 5, v >> 3) == Fits(n + 4, v >> 4);
    assert Fits(n + 4, v >> 4) == Fits(n + 3, v >> 5) == Fits(n + 2, v >> 6) == Fits(n + 1, v >> 7) == Fits(n, v >> 8);
  }

  /** gf2_matrix_times: the sum of the columns that vec selects is the image of vec. */
  method Times(mat: array<bv32>, vec0: bv32, ghost n: nat) returns (sum: bv32)
    requires Operator(mat[..], n)
    ensures sum == Bits(n, vec0)
  {
    hide Xor, Double, Odd, Bits, Up;
    var vec, k := vec0, 0;
    sum := 0;
    AllFit(vec0);
    StartSum(n, vec0);
    while vec != 0
      invariant 0 <= k <= GF2_DIM && Fits(GF2_DIM - k, vec)
      invariant Xor(sum, Bits(n, Up(k, vec))) == Bits(n, vec0)
      decreases GF2_DIM - k
    {
      TakeBit(n, k, vec);
      if Odd(vec) {
        XorAssoc(sum, mat[k], Bits(n, Up(k + 1, Half(vec))));
        assert mat[k] == mat[..][k] == Bits(n, Up(k, 1));
        sum := Xor(sum, mat[k]);
      }
      vec := Half(vec);
      k := k + 1;
    }
    EndSum(n, k, sum);
  }

  lemma StartSum(n: nat, v: bv32)
    ensures Xor(0, Bits(n, Up(0, v))) == Bits(n, v)
  {
  }

  lemma EndSum(n: nat, k: nat, sum: bv32)
    ensures Xor(sum, Bits(n, Up(k, 0))) == sum
  {
    UpZero(k);
    BitsZero(n);
  }

  /** gf2_matrix_square: twice the operator. */
  method Square(square: array<bv32>, mat: array<bv32>, ghost n: nat)
    requires square.Length == GF2_DIM && square != mat && Operator(mat[..], n)
    modifies square
    ensures Operator(square[..], 2 * n)
  {
    hide Bits, Up;
    for i := 0 to GF2_DIM
      invariant forall j :: 0 <= j < i ==> square[j] == Bits(2 * n, Up(j, 1))
    {
      square[i] := Times(mat, mat[i], n);
      BitsAdd(n, n, Up(i, 1));
    }
  }

  /** One binary digit of the length: len strides are len % 2 strides and len / 2 double ones. */
  lemma TakeDigit(stride: nat, len: nat, c: bv32)
    ensures Bits(stride * len, c) == Bits(2 * stride * (len / 2), if len % 2 == 1 then Bits(stride, c) else c)
  {
    var half := len / 2;
    if len % 2 == 1 {
      assert stride * len == stride + 2 * stride * half by {
        assert len == 1 + 2 * half;
      }
      BitsAdd(stride, 2 * stride * half, c);
    } else {
      assert stride * len == 2 * stride * half by {
        assert len == 2 * half;
      }
    }
  }

  /** The operator for one zero bit. */
  method OneZeroBit(odd: array<bv32>)
    requires odd.Length == GF2_DIM
    modifies odd
    ensures Operator(odd[..], 1)
  {
    odd[0] := 0xedb88320;
    var row := 1;
    ShiftBit(0);
    for n := 1 to GF2_DIM
      invariant row == Up(n - 1, 1)
      invariant forall j :: 0 <= j < n ==> odd[j] == Bits(1, Up(j, 1))
    {
      hide Bits, Up, Double;
      ShiftBit(n);
      odd[n] := row;
      row := Double(row);
    }
  }

  /** Bit n > 0 moves down one place; bit 0 becomes the polynomial. */
  lemma ShiftBit(n: nat)
    ensures n == 0 ==> Bits(1, Up(0, 1)) == 0xedb88320
    ensures 0 < n < GF2_DIM ==> Bits(1, Up(n, 1)) == Up(n - 1, 1) && Up(n, 1) == Double(Up(n - 1, 1))
  {
    if n == 0 {
      assert Bits(1, 1) == Bits(0, Bit(1));
    } else if n < GF2_DIM {
      hide Bit, Double, Up;
      UpTop(n - 1, 1);
      PowersFit(n - 1);
      FitsMore(n, 31, Up(n - 1, 1));
      DoubleFits(Up(n - 1, 1));
      BitOfEven(Double(Up(n - 1, 1)));
      HalfIsShift(Double(Up(n - 1, 1)));
      assert Bits(1, Up(n, 1)) == Bits(0, Bit(Up(n, 1)));
    }
  }

  lemma HalfIsShift(v: bv32)
    ensures Half(v) == v >> 1
  {
  }

  lemma {:induction false} UpTop(k: nat, v: bv32)
    ensures Up(k + 1, v) == Double(Up(k, v))
  {
    hide Double;
    if k > 0 {
      UpTop(k - 1, Double(v));
    }
  }

  lemma {:induction false} FitsMore(n: nat, m: nat, v: bv32)
    requires n <= m && Fits(n, v)
    ensures Fits(m, v)
    decreases m
  {
    if n > 0 {
      FitsMore(n - 1, m - 1, Half(v));
    } else if m > 0 {
      assert Half(v) == 0;
      FitsMore(0, m - 1, Half(v));
    }
  }

  /** What fits in 31 bits can be doubled without loss. */
  lemma DoubleFits(v: bv32)
    requires Fits(31, v)
    ensures Double(v) & 1 == 0 && Half(Double(v)) == v
  {
    hide Half, Double;
    FitsByte(23, v);
    FitsByte(15, Shr8(v));
    FitsByte(7, Shr8(Shr8(v)));
    FitsSeven(Shr8(Shr8(Shr8(v))));
    TopClear(v);
    DoubleBack(v);
  }

  lemma FitsSeven(v: bv32)
    ensures Fits(7, v) ==> v >> 7 == 0
  {
    assert Fits(7, v) == Fits(6, v >> 1) == Fits(5, v >> 2) == Fits(4, v >> 3) == Fits(3, v >> 4);
    assert Fits(3, v >> 4) == Fits(2, v >> 5) == Fits(1, v >> 6) == Fits(0, v >> 7);
  }

  lemma TopClear(v: bv32)
    requires Shr8(Shr8(Shr8(v))) >> 7 == 0
    ensures v >> 31 == 0
  {
  }

  lemma DoubleBack(v: bv32)
    requires v >> 31 == 0
    ensures Double(v) & 1 == 0 && Half(Double(v)) == v
  {
  }

  lemma {:induction false} PowersFit(k: nat)
    ensures k <= 30 ==> Fits(k + 1, Up(k, 1))
  {
    if k == 0 {
      assert Fits(1, 1) == Fits(0, 1 >> 1);
    } else if k <= 30 {
      hide Double, Half;
      PowersFit(k - 1);
      UpTop(k - 1, 1);
      FitsMore(k, 31, Up(k - 1, 1));
      DoubleFits(Up(k - 1, 1));
    }
  }

  /** crc32_combine_: len2 zero bytes behind crc1, plus crc2. From the checksums of two strings, and the
      length of the second, it makes the checksum of the strings put together. */
  method Combine(crc1: bv32, crc2: bv32, len2: int) returns (r: bv32)
    ensures len2 <= 0 ==> r == crc1
    ensures len2 > 0 ==> r == Xor(Bits(8 * len2, crc1), crc2)
    ensures forall a, b :: |b| == len2 && crc1 == Crc(0, a) && crc2 == Crc(0, b) ==> r == Crc(0, a + b)
  {
    hide Bits, Xor, Operator, Crc;
    forall a: seq<byte>, b: seq<byte> | |b| == len2 && crc1 == Crc(0, a) && crc2 == Crc(0, b)
      ensures Crc(0, a + b) == if len2 <= 0 then crc1 else Xor(Bits(8 * len2, crc1), crc2)
    {
      CombineIsConcatenation(a, b);
      if len2 == 0 { assert a + b == a; }
    }
    if len2 <= 0 { return crc1; }
    var even, odd := new bv32[GF2_DIM], new bv32[GF2_DIM];
    OneZeroBit(odd);
    Square(even, odd, 1);
    Square(odd, even, 2);
    var c, len := crc1, len2;
    ghost var q := 4;
    while true
      invariant len > 0 && q > 0 && Operator(odd[..], q)
      invariant Bits(2 * q * len, c) == Bits(8 * len2, crc1)
      decreases len
    {
      Square(even, odd, q);
      TakeDigit(2 * q, len, c);
      if len % 2 == 1 { c := Times(even, c, 2 * q); }
      len := len / 2;
      if len == 0 { break; }
      Square(odd, even, 2 * q);
      TakeDigit(4 * q, len, c);
      if len % 2 == 1 { c := Times(odd, c, 4 * q); }
      len := len / 2;
      q := 4 * q;
      if len == 0 { break; }
    }
    NoStrides(q, c);
    r := Xor(c, crc2);
  }

  lemma NoStrides(q: nat, c: bv32)
    ensures Bits(q * 0, c) == c
  {
  }

  /** The register is linear: what is added before a string comes out shifted by its length. */
  lemma {:induction false} RegisterLinear(c: bv32, d: bv32, s: seq<byte>)
    ensures Register(Xor(c, d), s) == Xor(Register(c, s), Bits(8 * |s|, d))
  {
    hide Bit, Xor, Serial;
    if s == [] {
    } else {
      var s', b := s[..|s| - 1], s[|s| - 1];
      var x, r, e := b as bv32, Register(c, s'), Bits(8 * |s'|, d);
      RegisterLinear(c, d, s');
      SerialByte(Xor(r, e), b);
      SerialByte(r, b);
      XorAssoc(r, e, x);
      XorComm(e, x);
      XorAssoc(r, x, e);
      BitsLinear(8, Xor(r, x), e);
      BitsAdd(8 * |s'|, 8, d);
    }
  }

  /** crc32_combine is concatenation: for all strings a and b, of any length. */
  lemma CombineIsConcatenation(a: seq<byte>, b: seq<byte>)
    ensures Xor(Bits(8 * |b|, Crc(0, a)), Crc(0, b)) == Crc(0, a + b)
  {
    hide Bits, Register, Xor;
    var f := Not(0);
    RegisterAdd(f, a, b);
    NotIsSum(Register(f, a));
    RegisterLinear(f, Crc(0, a), b);
    NotOfSum(Register(f, b), Bits(8 * |b|, Crc(0, a)));
  }

  lemma NotIsSum(r: bv32)
    ensures r == Xor(Not(0), Not(r))
  {
  }

  lemma NotOfSum(x: bv32, y: bv32)
    ensures Not(Xor(x, y)) == Xor(y, Not(x))
  {
  }
}
