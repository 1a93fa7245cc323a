/** SafeInt's multiplication: one wide multiplication where the operands are narrow enough, halves of
    32 bits where they are not; and the conversion of a text, which multiplies and adds. */
module SafeIntMultiply {
  import opened SafeInt
  import opened SafeIntSubtract

  const HALF := 0x1_0000_0000                      // 2^32
  const FULL := 0x1_0000_0000_0000_0000            // 2^64

  // ---------- products ----------

  lemma ProductBound(x: int, y: int, a: int, b: int)
    requires -a <= x <= a && -b <= y <= b
    ensures -(a * b) <= x * y <= a * b
  {
    ProductMonotone(if x < 0 then -x else x, if y < 0 then -y else y, a, b);
    if x < 0 && y < 0 { assert x * y == (-x) * (-y); }
    else if x < 0 { assert x * y == -((-x) * y); }
    else if y < 0 { assert x * y == -(x * (-y)); }
  }

  lemma ProductMonotone(x: nat, y: nat, a: nat, b: nat)
    requires x <= a && y <= b
    ensures x * y <= a * b
  {
    assert x * y <= a * y;
    assert a * y <= a * b;
  }

  // ---------- LargeIntRegMultiply ----------

  /** The 64-bit product from 32-bit halves: at most one of the high halves may be nonzero, its
      product with the other low half must fit in 32 bits, and the last addition must not wrap. */
  method Uint64Uint64(a: int, b: int) returns (ok: bool, r: int)
    requires U64.Fits(a) && U64.Fits(b)
    ensures ok <==> U64.Fits(a * b)
    ensures ok ==> r == a * b
  {
    var aHigh, aLow, bHigh, bLow := a / HALF, a % HALF, b / HALF, b % HALF;
    r := 0;
    if aHigh == 0 {
      if bHigh != 0 { r := aLow * bHigh; }
    } else if bHigh == 0 {
      r := aHigh * bLow;
    } else {
      BothHigh(a, b);
      return false, 0;
    }
    Halves(a, b);
    if r != 0 {
      ok, r := ShiftAndAdd(r, aLow * bLow);
      return;
    }
    return true, aLow * bLow;
  }

  /** The end of both: the cross product shifted up, and the low product added to it. */
  method ShiftAndAdd(cross: nat, low: nat) returns (ok: bool, r: int)
    requires cross < FULL && low < FULL
    ensures ok <==> cross * HALF + low < FULL
    ensures ok ==> r == cross * HALF + low
  {
    if cross / HALF != 0 { return false, cross; }
    r := cross * HALF;
    r := (r + low) % FULL;
    return r >= low, r;
  }

  /** Two factors of at least 2^32. */
  lemma BothHigh(a: nat, b: nat)
    requires a >= HALF && b >= HALF
    ensures a * b >= FULL
  {
    ProductMonotone(HALF, HALF, a, b);
  }

  /** With one high half zero, the product is the cross product times 2^32 plus the low product. */
  lemma Halves(a: nat, b: nat)
    requires a < FULL && b < FULL && (a < HALF || b < HALF)
    ensures a * b == (if a < HALF then a % HALF * (b / HALF) else a / HALF * (b % HALF)) * HALF + a % HALF * (b % HALF)
    ensures 0 <= a % HALF * (b % HALF) < FULL
    ensures 0 <= (if a < HALF then a % HALF * (b / HALF) else a / HALF * (b % HALF)) < FULL
  {
    ProductMonotone(a % HALF, b % HALF, HALF, HALF);
    ProductMonotone(a % HALF, b / HALF, HALF, HALF);
    ProductMonotone(a / HALF, b % HALF, HALF, HALF);
  }

  method Uint64Uint32(a: int, b: int) returns (ok: bool, r: int)
    requires U64.Fits(a) && U32.Fits(b)
    ensures ok <==> U64.Fits(a * b)
    ensures ok ==> r == a * b
  {
    var aHigh, aLow := a / HALF, a % HALF;
    Halves(a, b);
    if aHigh != 0 {
      ok, r := ShiftAndAdd(aHigh * b, aLow * b);
      return;
    }
    return true, aLow * b;
  }

  /** An unsigned times a signed number. */
  method Uint64Signed(a: int, b: int, wide: bool) returns (ok: bool, r: int)
    requires U64.Fits(a) && (if wide then I64.Fits(b) else I32.Fits(b))
    ensures ok <==> U64.Fits(a * b)
    ensures ok ==> r == a * b
  {
    if b < 0 && a != 0 {
      ProductSign(a, b);
      return false, 0;
    }
    if b < 0 { assert a * b == 0 == a * U64.Convert(b) == a * U32.Convert(b); }
    if wide {
      ok, r := Uint64Uint64(a, U64.Convert(b));
    } else {
      ok, r := Uint64Uint32(a, U32.Convert(b));
    }
    ProductSign(a, b);
  }

  lemma ProductSign(a: nat, b: int)
    ensures a > 0 && b < 0 ==> a * b < 0
    ensures b >= 0 ==> a * b >= 0
  {
  }

  method Uint32Uint64(a: int, b: int) returns (ok: bool, r: int)
    requires U32.Fits(a) && U64.Fits(b)
    ensures ok <==> U32.Fits(a * b)
    ensures ok ==> r == a * b
  {
    if b / HALF != 0 && a != 0 {
      ProductMonotone(1, HALF, a, b);
      return false, 0;
    }
    if a != 0 { ProductMonotone(a, b, HALF - 1, HALF - 1); }
    var tmp := b * a % FULL;
    assert tmp == a * b;
    return tmp / HALF == 0, tmp % HALF;
  }

  method Uint32Int64(a: int, b: int) returns (ok: bool, r: int)
    requires U32.Fits(a) && I64.Fits(b)
    ensures ok <==> U32.Fits(a * b)
    ensures ok ==> r == a * b
  {
    ProductSign(a, b);
    if b < 0 && a != 0 { return false, 0; }
    ok, r := Uint32Uint64(a, U64.Convert(b));
  }

  function Magnitude(x: int): nat
  {
    if x < 0 then -x else x
  }

  /** A signed product from the product of the magnitudes. */
  lemma SignedProduct(a: int, b: int)
    ensures a * b == if (a < 0) == (b < 0) then Magnitude(a) * Magnitude(b) else -(Magnitude(a) * Magnitude(b))
  {
    if a < 0 && b < 0 { assert (-a) * (-b) == a * b; }
    else if a < 0 { assert (-a) * b == -(a * b); }
    else if b < 0 { assert a * (-b) == -(a * b); }
  }

  /** The magnitude of a number in the unsigned type of its width, through the cast the code makes. */
  lemma MagnitudeConverts(a: int)
    ensures I64.Fits(a) ==> U64.Convert(if a < 0 then I64.Convert(Abs(I64, a)) else a) == Magnitude(a)
    ensures I32.Fits(a) ==> U32.Convert(if a < 0 then I32.Convert(Abs(I32, a)) else a) == Magnitude(a)
    ensures I32.Fits(a) ==> I64.Fits(a) && U32.Fits(Magnitude(a))
    ensures U32.Fits(a) || U64.Fits(a) ==> a >= 0
    ensures U32.Fits(a) ==> U64.Fits(a)
  {
  }

  /** The end of every signed multiplication of the given width: a sign and a magnitude. */
  method Signed(t: IntType, negative: bool, tmp: int) returns (ok: bool, r: int)
    requires t in {I32, I64} && U64.Fits(tmp)
    ensures ok <==> t.Fits(if negative then -tmp else tmp)
    ensures ok ==> r == if negative then -tmp else tmp
  {
    if negative {
      return tmp <= t.Half(), t.Convert(U64.Convert(U64.Max() - tmp + 1));
    } else {
      return tmp <= t.Max(), t.Convert(tmp);
    }
  }

  /** A number whose magnitude does not fit the unsigned type does not fit the signed one. */
  lemma OutOfRange(t: IntType, x: int, m: int)
    requires m == Magnitude(x)
    ensures t == I64 && !U64.Fits(m) ==> !t.Fits(x)
    ensures t == I32 && !U32.Fits(m) ==> !t.Fits(x)
  {
  }

  /** The first operand and the result have 64 bits, the second is signed or unsigned with 32 or 64. */
  method Int64Times(u: IntType, a: int, b: int) returns (ok: bool, r: int)
    requires I64.Fits(a) && u in {I32, U32, I64, U64} && u.Fits(b)
    ensures ok <==> I64.Fits(a * b)
    ensures ok ==> r == a * b
  {
    hide IntType.Convert, IntType.Fits;
    SignedProduct(a, b);
    MagnitudeConverts(a);
    MagnitudeConverts(b);
    var a1 := U64.Convert(if a < 0 then I64.Convert(Abs(I64, a)) else a);
    var tmp;
    if u == U64 {
      ok, tmp := Uint64Uint64(a1, b);
    } else if u == U32 {
      ok, tmp := Uint64Uint32(a1, b);
    } else {
      var b1 := U64.Convert(if b < 0 then I64.Convert(Abs(I64, b)) else b);
      if u == I64 {
        ok, tmp := Uint64Uint64(a1, b1);
      } else {
        ok, tmp := Uint64Uint32(a1, b1);
      }
    }
    assert ok <==> U64.Fits(Magnitude(a) * Magnitude(b));
    OutOfRange(I64, a * b, Magnitude(a) * Magnitude(b));
    if ok {
      ok, r := Signed(I64, (a < 0) != (b < 0), tmp);
    } else {
      r := 0;
    }
  }

  /** The first operand and the result have 32 bits, the second has 64. */
  method Int32Int64(a: int, b: int) returns (ok: bool, r: int)
    requires I32.Fits(a) && I64.Fits(b)
    ensures ok <==> I32.Fits(a * b)
    ensures ok ==> r == a * b
  {
    hide IntType.Convert, IntType.Fits;
    SignedProduct(a, b);
    MagnitudeConverts(a);
    MagnitudeConverts(b);
    var a1 := U32.Convert(if a < 0 then I32.Convert(Abs(I32, a)) else a);
    var b1 := U64.Convert(if b < 0 then I64.Convert(Abs(I64, b)) else b);
    var tmp;
    ok, tmp := Uint32Uint64(a1, b1);
    MagnitudeConverts(tmp);
    OutOfRange(I32, a * b, Magnitude(a) * Magnitude(b));
    if ok {
      ok, r := Signed(I32, (a < 0) != (b < 0), tmp);
    } else {
      r := 0;
    }
  }

  method Int32Uint64(a: int, b: int) returns (ok: bool, r: int)
    requires I32.Fits(a) && U64.Fits(b)
    ensures ok <==> I32.Fits(a * b)
    ensures ok ==> r == a * b
  {
    hide IntType.Convert;
    SignedProduct(a, b);
    var bHigh, bLow := b / HALF, b % HALF;
    if bHigh != 0 && a != 0 {
      ProductMonotone(1, HALF, Magnitude(a), b);
      return false, 0;
    }
    MagnitudeConverts(a);
    var a1 := U32.Convert(if a < 0 then I32.Convert(Abs(I32, a)) else a);
    ProductMonotone(a1, bLow, HALF - 1, HALF - 1);
    ZeroTimes(a1, b);
    hide IntType.Min, IntType.Max, IntType.Modulus;
    ok, r := Signed(I32, a < 0, a1 * bLow);
  }

  lemma ZeroTimes(a: nat, b: nat)
    ensures a == 0 || b < HALF ==> a * (b % HALF) == a * b
  {
  }

  // ---------- SafeMultiply ----------

  /** For every pair of types and all values, it succeeds exactly when the product fits the first
      type, and then gives the product. */
  method Multiply(t: IntType, u: IntType, x: int, y: int) returns (ok: bool, r: int)
    requires t.Fits(x) && u.Fits(y)
    ensures ok <==> t.Fits(x * y)
    ensures ok ==> r == x * y
  {
    hide IntType.Convert, IntType.Fits, IntType.Modulus, IntType.Min, IntType.Max;
    Widen(t, x);
    Widen(u, y);
    Widen(t, x * y);
    match ZoneOf(t, u) {
      case UintLT32UintLT32 => ok, r := Narrow(t, u, U32, x, y);
      case Uint32UintLT64 => ok, r := Narrow(t, u, U64, x, y);
      case UintLT32Uint32 => ok, r := Narrow(t, u, U64, x, y);
      case Uint64Uint => if u == U64 { ok, r := Uint64Uint64(x, y); } else { ok, r := Uint64Uint32(x, y); }
      case UintLT64Uint64 => ok, r := Uint32Uint64(x, y); ok, r := CastIf(ok, t, U32, r);
      case UintLT32IntLT32 => ok, r := Narrow(t, u, I32, x, y);
      case Uint32IntLT64 => ok, r := Narrow(t, u, I64, x, y);
      case UintLT32Int32 => ok, r := Narrow(t, u, I64, x, y);
      case Uint64Int => ok, r := Uint64Signed(x, y, false);
      case Uint64Int64 => ok, r := Uint64Signed(x, y, true);
      case UintLT64Int64 => ok, r := Uint32Int64(x, y); ok, r := CastIf(ok, t, U32, r);
      case IntLT32IntLT32 => ok, r := Narrow(t, u, I32, x, y);
      case Int32IntLT64 => ok, r := Narrow(t, u, I64, x, y);
      case IntLT32Int32 => ok, r := Narrow(t, u, I64, x, y);
      case Int64Int => ok, r := Int64Times(I32, x, y);
      case Int64Int64 => ok, r := Int64Times(I64, x, y);
      case IntLT64Int64 => ok, r := Int32Int64(x, y); ok, r := CastIf(ok, t, I32, r);
      case IntLT32UintLT32 => ok, r := Narrow(t, u, I32, x, y);
      case Int32UintLT32 => ok, r := Narrow(t, u, I64, x, y);
      case IntLT64Uint32 => ok, r := Narrow(t, u, I64, x, y);
      case Int64UintLT64 => ok, r := Int64Times(U32, x, y);
      case IntUint64 => ok, r := Int32Uint64(x, y); ok, r := CastIf(ok, t, I32, r);
      case Int64Uint64 => ok, r := Int64Times(U64, x, y);
    }
  }

  /** A value of a narrow type is a value of the wide one with the same sign. */
  lemma Widen(t: IntType, x: int)
    ensures t in {U8, U16, U32} && t.Fits(x) ==> U32.Fits(x)
    ensures t in {I8, I16, I32} && t.Fits(x) ==> I32.Fits(x)
  {
  }

  method CastIf(done: bool, t: IntType, u: IntType, x: int) returns (ok: bool, r: int)
    requires done ==> u.Fits(x)
    ensures ok <==> done && t.Fits(x)
    ensures ok ==> r == x
  {
    ok, r := false, 0;
    if done { ok, r := Cast(t, u, x); }
  }

  /** One multiplication in a type wide enough for every product of the operands' types. */
  method Narrow(t: IntType, u: IntType, wide: IntType, x: int, y: int) returns (ok: bool, r: int)
    requires t.Fits(x) && u.Fits(y)
    requires wide == U32 ==> t in {U8, U16} && u in {U8, U16}
    requires wide == U64 ==> t in {U8, U16, U32} && u in {U8, U16, U32}
    requires wide == I32 ==> t.LT32() && u.LT32() && (t.Signed() || u.Signed())
    requires wide == I64 ==> t.LT64() && u.LT64() && (t.Signed() || u.Signed())
    requires wide in {U32, U64, I32, I64}
    ensures ok <==> t.Fits(x * y)
    ensures ok ==> r == x * y
  {
    hide IntType.Convert;
    NarrowProduct(t, u, wide, x, y);
    var tmp := wide.Convert(x * y);
    return tmp <= t.Max() && tmp >= t.Min(), t.Convert(tmp);
  }

  lemma NarrowProduct(t: IntType, u: IntType, wide: IntType, x: int, y: int)
    requires t.Fits(x) && u.Fits(y)
    requires wide == U32 ==> t in {U8, U16} && u in {U8, U16}
    requires wide == U64 ==> t in {U8, U16, U32} && u in {U8, U16, U32}
    requires wide == I32 ==> t.LT32() && u.LT32() && (t.Signed() || u.Signed())
    requires wide == I64 ==> t.LT64() && u.LT64() && (t.Signed() || u.Signed())
    requires wide in {U32, U64, I32, I64}
    ensures wide.Fits(x * y)
  {
    var bound := if wide in {U32, I32} then 0xffff else 0xffff_ffff;
    var signed := if wide in {U32, I32} then 0x8000 else 0x8000_0000;
    ProductBound(x, y, if t.Signed() then signed else bound, if u.Signed() then signed else bound);
    if x >= 0 && y >= 0 { assert x * y >= 0; }
  }

  // ---------- text to integer ----------

  predicate IsDigit(c: int)
  {
    48 <= c <= 57
  }

  /** The end of the run of digits that starts at i. */
  function DigitsEnd(s: seq<int>, i: nat): (r: nat)
    requires i <= |s|
    ensures i <= r <= |s| && (forall j :: i <= j < r ==> IsDigit(s[j])) && (r < |s| ==> !IsDigit(s[r]))
    decreases |s| - i
  {
    if i < |s| && IsDigit(s[i]) then DigitsEnd(s, i + 1) else i
  }

  /** The decimal value of the digits from i to j. */
  function Decimal(s: seq<int>, i: nat, j: nat): nat
    requires i <= j <= |s| && forall k :: i <= k < j ==> IsDigit(s[k])
    decreases j
  {
    if i == j then 0 else Decimal(s, i, j - 1) * 10 + DigitAt(s, j - 1)
  }

  function DigitAt(s: seq<int>, j: nat): nat
    requires j < |s| && IsDigit(s[j])
  {
    s[j] - 48
  }

  lemma {:induction false} DecimalGrows(s: seq<int>, i: nat, j: nat, k: nat)
    requires i <= j <= k <= |s| && forall m :: i <= m < k ==> IsDigit(s[m])
    ensures Decimal(s, i, j) <= Decimal(s, i, k)
    ensures j < k ==> Decimal(s, i, j) * 10 <= Decimal(s, i, k)
    decreases k
  {
    if j < k { DecimalGrows(s, i, j, k - 1); }
  }

  /** Where the digits start, after an optional sign. */
  function Start(s: seq<int>): nat
  {
    if s != [] && (s[0] == 43 || s[0] == 45) then 1 else 0
  }

  /** The number a text begins with; zero when no digit does. */
  function ValueOf(s: seq<int>): int
  {
    WithSign(s != [] && s[0] == 45, Decimal(s, Start(s), DigitsEnd(s, Start(s))))
  }

  function WithSign(negative: bool, n: nat): int
  {
    if negative then 0 - n else n
  }

  /** SafeTtoI on the text before the NUL: an empty text is an error, and any other is accepted
      exactly when the signed number it begins with fits the type, the least number included. */
  method SafeTtoI(t: IntType, input: seq<int>) returns (ok: bool, s: int)
    ensures ok <==> input != [] && t.Fits(ValueOf(input))
    ensures ok ==> s == ValueOf(input)
  {
    hide IntType.Convert, IntType.Min, IntType.Max, IntType.Modulus, Decimal, DigitsEnd;
    s := 0;
    if input == [] { return false, s; }
    var i, negative := 0, false;
    if input[i] == 45 {
      i := i + 1;
      negative := true;
    } else if input[i] == 43 {
      i := i + 1;
    }
    ghost var start, end := i, DigitsEnd(input, i);
    SmallFits(t, 0);
    NoDigits(input, start);
    while i < |input|
      invariant start <= i <= end && t.Fits(s)
      invariant s == WithSign(negative, Decimal(input, start, i))
      decreases |input| - i
    {
      if !IsDigit(input[i]) { break; }
      DecimalGrows(input, start, i + 1, end);
      OneDigit(input, start, i);
      ok, s := NextDigit(t, negative, s, input[i] - 48);
      if !ok {
        Between(t, WithSign(negative, Decimal(input, start, i + 1)), ValueOf(input));
        return;
      }
      i := i + 1;
    }
    return true, s;
  }

  /** One turn: the multiplication only if there is something to multiply, then the digit away from
      zero. */
  method NextDigit(t: IntType, negative: bool, s0: int, digit: int) returns (ok: bool, s: int)
    requires t.Fits(s0) && 0 <= digit <= 9 && (if negative then s0 <= 0 else s0 >= 0)
    ensures ok <==> t.Fits(if negative then s0 * 10 - digit else s0 * 10 + digit)
    ensures ok ==> s == if negative then s0 * 10 - digit else s0 * 10 + digit
  {
    hide IntType.Convert, IntType.Min, IntType.Max, IntType.Modulus;
    s := s0;
    SmallFits(t, 10);
    SmallFits(t, digit);
    Between(t, s0 * 10, if negative then s0 * 10 - digit else s0 * 10 + digit);
    if s != 0 {
      ok, s := Multiply(t, t, s, 10);
      if !ok { return; }
    }
    if !negative {
      ok, s := Add(t, t, s, digit);
    } else {
      ok, s := Subtract(t, t, s, digit);
    }
  }

  lemma NoDigits(s: seq<int>, i: nat)
    requires i <= |s|
    ensures Decimal(s, i, i) == 0
  {
  }

  lemma OneDigit(s: seq<int>, i: nat, j: nat)
    requires i <= j < |s| && forall k :: i <= k <= j ==> IsDigit(s[k])
    ensures Decimal(s, i, j + 1) == Decimal(s, i, j) * 10 + (s[j] - 48)
  {
  }

  lemma SmallFits(t: IntType, x: int)
    requires 0 <= x <= 10
    ensures t.Fits(x)
  {
  }

  /** Whatever lies between zero and a number that fits, fits. */
  lemma Between(t: IntType, x: int, y: int)
    ensures t.Fits(y) && (0 <= x <= y || y <= x <= 0) ==> t.Fits(x)
  {
  }
}
