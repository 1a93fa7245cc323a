/** SafeInt's zone-dispatched addition and subtraction. Values are mathematical integers; every
    conversion that can wrap is written out. Signed overflow, where the code lets it happen, wraps. */
module SafeInt {

  /** The eight integer types. */
  datatype IntType = I8 | I16 | I32 | I64 | U8 | U16 | U32 | U64
  {
    predicate Signed() { I8? || I16? || I32? || I64? }

    function Bits(): nat
    {
      match this case I8 => 8 case U8 => 8 case I16 => 16 case U16 => 16
        case I32 => 32 case U32 => 32 case I64 => 64 case U64 => 64
    }

    /** 2 to the number of bits. */
    function Modulus(): nat
    {
      match this
      case I8 => 0x100
      case U8 => 0x100
      case I16 => 0x1_0000
      case U16 => 0x1_0000
      case I32 => 0x1_0000_0000
      case U32 => 0x1_0000_0000
      case I64 => 0x1_0000_0000_0000_0000
      case U64 => 0x1_0000_0000_0000_0000
    }

    function Half(): int
    {
      Modulus() / 2
    }

    function Min(): int
    {
      if Signed() then -Half() else 0
    }

    function Max(): int
    {
      if Signed() then Half() - 1 else Modulus() - 1
    }

    predicate Fits(x: int)
    {
      Min() <= x <= Max()
    }

    /** Conversion to this type: the value in range that is equal modulo 2^Bits(). */
    function Convert(x: int): (r: int)
      ensures Fits(r)
      ensures Fits(x) ==> r == x
      ensures Max() < x <= Max() + Modulus() ==> r == x - Modulus()
      ensures Min() - Modulus() <= x < Min() ==> r == x + Modulus()
    {
      ModNear(x - Min(), Modulus());
      (x - Min()) % Modulus() + Min()
    }

    predicate LT32() { Bits() < 32 }

    predicate LT64() { Bits() < 64 }
  }

  lemma ModNear(y: int, m: int)
    requires m > 0
    ensures 0 <= y % m < m
    ensures -m <= y < 0 ==> y % m == y + m
    ensures 0 <= y < m ==> y % m == y
    ensures m <= y < 2 * m ==> y % m == y - m
  {
    var q: int := y / m;
    assert y == q * m + y % m;
    Multiples(q, m);
  }

  lemma Multiples(q: int, m: int)
    requires m > 0
    ensures q >= 0 ==> q * m >= 0
    ensures q <= 0 ==> q * m <= 0
    ensures q >= 2 ==> q * m >= 2 * m
    ensures q <= -2 ==> q * m <= -2 * m
  {
  }

  // ---------- zones ----------

  datatype Zone =
    | UintLT32UintLT32 | Uint32UintLT64 | UintLT32Uint32 | Uint64Uint | UintLT64Uint64
    | UintLT32IntLT32 | Uint32IntLT64 | UintLT32Int32 | Uint64Int | UintLT64Int64 | Uint64Int64
    | IntLT32IntLT32 | Int32IntLT64 | IntLT32Int32 | Int64Int64 | Int64Int | IntLT64Int64
    | IntLT32UintLT32 | Int32UintLT32 | IntLT64Uint32 | Int64UintLT64 | IntUint64 | Int64Uint64

  /** The conditions of IntRegion, one by one. */
  predicate InZone(z: Zone, t: IntType, u: IntType)
  {
    var bothUnsigned, bothSigned := !t.Signed() && !u.Signed(), t.Signed() && u.Signed();
    match z
    case UintLT32UintLT32 => bothUnsigned && t.LT32() && u.LT32()
    case Uint32UintLT64 => bothUnsigned && t.Bits() == 32 && u.LT64()
    case UintLT32Uint32 => bothUnsigned && t.LT32() && u.Bits() == 32
    case Uint64Uint => bothUnsigned && t.Bits() == 64
    case UintLT64Uint64 => bothUnsigned && t.LT64() && u.Bits() == 64
    case UintLT32IntLT32 => !t.Signed() && u.Signed() && t.LT32() && u.LT32()
    case Uint32IntLT64 => t == U32 && u.Signed() && u.LT64()
    case UintLT32Int32 => !t.Signed() && t.LT32() && u == I32
    case Uint64Int => t == U64 && u.Signed() && u.LT64()
    case UintLT64Int64 => !t.Signed() && t.LT64() && u == I64
    case Uint64Int64 => t == U64 && u == I64
    case IntLT32IntLT32 => bothSigned && t.LT32() && u.LT32()
    case Int32IntLT64 => bothSigned && t.Bits() == 32 && u.LT64()
    case IntLT32Int32 => bothSigned && t.LT32() && u.Bits() == 32
    case Int64Int64 => t == I64 && u == I64
    case Int64Int => bothSigned && t.Bits() == 64 && u.LT64()
    case IntLT64Int64 => bothSigned && t.LT64() && u.Bits() == 64
    case IntLT32UintLT32 => t.Signed() && !u.Signed() && t.LT32() && u.LT32()
    case Int32UintLT32 => t == I32 && !u.Signed() && u.LT32()
    case IntLT64Uint32 => t.Signed() && t.LT64() && u == U32
    case Int64UintLT64 => t == I64 && !u.Signed() && u.LT64()
    case IntUint64 => t.Signed() && u == U64 && t.LT64()
    case Int64Uint64 => t == I64 && u == U64
  }

  function ZoneOf(t: IntType, u: IntType): Zone
  {
    match (t.Signed(), u.Signed())
    case (false, false) =>
      if t == U64 then Uint64Uint else if u == U64 then UintLT64Uint64
      else if t == U32 then Uint32UintLT64 else if u == U32 then UintLT32Uint32 else UintLT32UintLT32
    case (false, true) =>
      if t == U64 then (if u == I64 then Uint64Int64 else Uint64Int) else if u == I64 then UintLT64Int64
      else if t == U32 then Uint32IntLT64 else if u == I32 then UintLT32Int32 else UintLT32IntLT32
    case (true, true) =>
      if t == I64 then (if u == I64 then Int64Int64 else Int64Int) else if u == I64 then IntLT64Int64
      else if t == I32 then Int32IntLT64 else if u == I32 then IntLT32Int32 else IntLT32IntLT32
    case (true, false) =>
      if u == U64 then (if t == I64 then Int64Uint64 else IntUint64) else if t == I64 then Int64UintLT64
      else if u == U32 then IntLT64Uint32 else if t == I32 then Int32UintLT32 else IntLT32UintLT32
  }

  /** Every pair of types is in exactly one zone. */
  lemma OneZone(t: IntType, u: IntType, z: Zone)
    ensures InZone(z, t, u) <==> z == ZoneOf(t, u)
  {
    if t.Signed() {
      if u.Signed() { BothSigned(t, u, z); } else { SignedUnsigned(t, u, z); }
    } else {
      if u.Signed() { UnsignedSigned(t, u, z); } else { BothUnsigned(t, u, z); }
    }
  }

  lemma BothSigned(t: IntType, u: IntType, z: Zone)
    requires t.Signed() && u.Signed()
    ensures InZone(z, t, u) <==> z == ZoneOf(t, u)
  {
  }

  lemma SignedUnsigned(t: IntType, u: IntType, z: Zone)
    requires t.Signed() && !u.Signed()
    ensures InZone(z, t, u) <==> z == ZoneOf(t, u)
  {
  }

  lemma UnsignedSigned(t: IntType, u: IntType, z: Zone)
    requires !t.Signed() && u.Signed()
    ensures InZone(z, t, u) <==> z == ZoneOf(t, u)
  {
  }

  lemma BothUnsigned(t: IntType, u: IntType, z: Zone)
    requires !t.Signed() && !u.Signed()
    ensures InZone(z, t, u) <==> z == ZoneOf(t, u)
  {
  }

  /** SafeCastHelper, for any pair of types. */
  method Cast(t: IntType, u: IntType, x: int) returns (ok: bool, r: int)
    requires u.Fits(x)
    ensures ok <==> t.Fits(x)
    ensures ok ==> r == x
  {
    var signed, from := t.Signed(), u.Signed();
    r := t.Convert(x);
    if (signed == from && t.Bits() >= u.Bits()) || (signed && t.Bits() > u.Bits()) {
      ok := true;
    } else if (signed && !from && u.Bits() >= t.Bits()) || (!signed && !from && u.Bits() > t.Bits()) {
      ok := !(x > u.Convert(t.Max()));
    } else if !signed && from && t.Bits() >= u.Bits() {
      ok := !(x < 0);
    } else if !signed {
      ok := !(x > t.Max() || x < 0);
    } else {
      ok := !(x > t.Max() || x < t.Min());
    }
  }

  /** The magnitude of a negative number, as an unsigned number. */
  function Abs(t: IntType, x: int): (r: nat)
    requires t.Signed() && t.Fits(x) && x < 0
    ensures r == -x
  {
    if t == I64 then U64.Convert(U64.Max() - U64.Convert(x) + 1) else U32.Convert(U32.Max() - U32.Convert(x) + 1)
  }

  // ---------- addition ----------

  /** SafeAdd: for every pair of types and all values, it succeeds exactly when the sum fits the
      first type, and then gives the sum. */
  method Add(t: IntType, u: IntType, x: int, y: int) returns (ok: bool, r: int)
    requires t.Fits(x) && u.Fits(y)
    ensures ok <==> t.Fits(x + y)
    ensures ok ==> r == x + y
  {
    hide IntType.Convert, IntType.Min, IntType.Max;
    match ZoneOf(t, u) {
      case UintLT32UintLT32 => ok, r := AddByInt32(t, u, x, y, false);
      case Uint32UintLT64 => ok, r := AddByUint32(t, u, x, y, false);
      case UintLT32Uint32 => ok, r := AddByUint32(t, u, x, y, true);
      case Uint64Uint => ok, r := AddByUint64(t, u, x, y, false);
      case UintLT64Uint64 => ok, r := AddByUint64(t, u, x, y, true);
      case UintLT32IntLT32 => ok, r := AddByInt32(t, u, x, y, true);
      case Uint32IntLT64 => ok, r := AddByInt64(t, u, x, y, true);
      case UintLT32Int32 => ok, r := AddByInt64(t, u, x, y, true);
      case Uint64Int => ok, r := AddToUint64(u, x, y);
      case Uint64Int64 => ok, r := AddToUint64(u, x, y);
      case UintLT64Int64 => ok, r := AddInt64ToUint(t, x, y);
      case IntLT32IntLT32 => ok, r := AddByInt32(t, u, x, y, true);
      case Int32IntLT64 => ok, r := AddByInt64(t, u, x, y, true);
      case IntLT32Int32 => ok, r := AddByInt64(t, u, x, y, true);
      case Int64Int => ok, r := AddToInt64(u, x, y);
      case Int64Int64 => ok, r := AddToInt64(u, x, y);
      case IntLT64Int64 => ok, r := AddInt64ToInt(t, x, y);
      case IntLT32UintLT32 => ok, r := AddByInt32(t, u, x, y, false);
      case Int32UintLT32 => ok, r := AddByInt64(t, u, x, y, false);
      case IntLT64Uint32 => ok, r := AddByInt64(t, u, x, y, false);
      case Int64UintLT64 => ok, r := AddUnsignedToInt64(u, x, y);
      case Int64Uint64 => ok, r := AddUnsignedToInt64(u, x, y);
      case IntUint64 => ok, r := AddUint64ToInt(t, x, y);
    }
  }

  /** Both operands have at most 16 bits; the minimum is checked where the second may be negative. */
  method AddByInt32(t: IntType, u: IntType, x: int, y: int, checkMin: bool) returns (ok: bool, r: int)
    requires t.LT32() && u.LT32() && t.Fits(x) && u.Fits(y) && (!checkMin ==> !u.Signed())
    ensures ok <==> t.Fits(x + y)
    ensures ok ==> r == x + y
  {
    var tmp := I32.Convert(x + y);
    return tmp <= t.Max() && (!checkMin || tmp >= t.Min()), t.Convert(tmp);
  }

  /** Unsigned, at most 32 bits, one of them 32: the sum wrapped if it got smaller. */
  method AddByUint32(t: IntType, u: IntType, x: int, y: int, checkMax: bool) returns (ok: bool, r: int)
    requires t in {U8, U16, U32} && u in {U8, U16, U32} && t.Fits(x) && u.Fits(y) && (!checkMax ==> t == U32)
    ensures ok <==> t.Fits(x + y)
    ensures ok ==> r == x + y
  {
    var tmp := U32.Convert(x + y);
    return tmp >= x && (!checkMax || tmp <= t.Max()), t.Convert(tmp);
  }

  method AddByUint64(t: IntType, u: IntType, x: int, y: int, checkMax: bool) returns (ok: bool, r: int)
    requires !t.Signed() && !u.Signed() && t.Fits(x) && u.Fits(y) && (!checkMax ==> t == U64)
    ensures ok <==> t.Fits(x + y)
    ensures ok ==> r == x + y
  {
    var tmp := U64.Convert(x + y);
    return tmp >= x && (!checkMax || tmp <= t.Max()), t.Convert(tmp);
  }

  lemma Below2To32(t: IntType, x: int)
    requires t.LT64() && t.Fits(x)
    ensures -0x8000_0000 <= x < 0x1_0000_0000
  {
  }

  /** Both operands have at most 32 bits. */
  method AddByInt64(t: IntType, u: IntType, x: int, y: int, checkMin: bool) returns (ok: bool, r: int)
    requires t.LT64() && u.LT64() && t.Fits(x) && u.Fits(y) && (!checkMin ==> !u.Signed())
    ensures ok <==> t.Fits(x + y)
    ensures ok ==> r == x + y
  {
    hide IntType.Convert;
    Below2To32(t, x);
    Below2To32(u, y);
    var tmp := I64.Convert(x + y);
    assert tmp == x + y;
    hide IntType.Modulus;
    return tmp <= t.Max() && (!checkMin || tmp >= t.Min()), t.Convert(tmp);
  }

  /** The first operand is an unsigned 64-bit integer. */
  method AddToUint64(u: IntType, x: int, y: int) returns (ok: bool, r: int)
    requires U64.Fits(x) && u.Signed() && u.Fits(y)
    ensures ok <==> U64.Fits(x + y)
    ensures ok ==> r == x + y
  {
    if y < 0 {
      var tmp := Abs(u, y);
      return tmp <= x, U64.Convert(x - tmp);
    } else {
      var tmp := U64.Convert(x + U64.Convert(y));
      return tmp >= x, tmp;
    }
  }

  method AddInt64ToUint(t: IntType, x: int, y: int) returns (ok: bool, r: int)
    requires t in {U8, U16, U32} && t.Fits(x) && I64.Fits(y)
    ensures ok <==> t.Fits(x + y)
    ensures ok ==> r == x + y
  {
    if y < 0 {
      return x >= Abs(I64, y), t.Convert(I64.Convert(x + y));
    } else {
      var tmp := U64.Convert(x + U64.Convert(y));
      return tmp <= t.Max(), t.Convert(tmp);
    }
  }

  method AddToInt64(u: IntType, x: int, y: int) returns (ok: bool, r: int)
    requires I64.Fits(x) && u.Signed() && u.Fits(y)
    ensures ok <==> I64.Fits(x + y)
    ensures ok ==> r == x + y
  {
    var tmp := I64.Convert(U64.Convert(U64.Convert(x) + U64.Convert(y)));
    if x >= 0 {
      if y >= 0 && tmp < x { return false, 0; }
    } else {
      if y < 0 && tmp > x { return false, 0; }
    }
    return true, tmp;
  }

  method AddInt64ToInt(t: IntType, x: int, y: int) returns (ok: bool, r: int)
    requires t in {I8, I16, I32} && t.Fits(x) && I64.Fits(y)
    ensures ok <==> t.Fits(x + y)
    ensures ok ==> r == x + y
  {
    ok, r := AddToInt64(I64, x, y);
    return ok && r <= t.Max() && r >= t.Min(), t.Convert(r);
  }

  method AddUnsignedToInt64(u: IntType, x: int, y: int) returns (ok: bool, r: int)
    requires I64.Fits(x) && !u.Signed() && u.Fits(y)
    ensures ok <==> I64.Fits(x + y)
    ensures ok ==> r == x + y
  {
    var tmp := U64.Convert(U64.Convert(x) + y);
    return I64.Convert(tmp) >= x, I64.Convert(tmp);
  }

  method AddUint64ToInt(t: IntType, x: int, y: int) returns (ok: bool, r: int)
    requires t in {I8, I16, I32} && t.Fits(x) && U64.Fits(y)
    ensures ok <==> t.Fits(x + y)
    ensures ok ==> r == x + y
  {
    hide IntType.Convert;
    if y / 0x1_0000_0000 == 0 {
      var tmp := U32.Convert(U32.Convert(y) + U32.Convert(x));
      assert I32.Convert(tmp) == if x + y < 0x8000_0000 then x + y else x + y - 0x1_0000_0000;
      if I32.Convert(tmp) >= x {
        ok, r := Cast(t, I32, I32.Convert(tmp));
        return;
      }
    }
    return false, 0;
  }
}
