/** SafeInt's subtraction, with the result in the type of the first or of the second operand. */
module SafeIntSubtract {
  import opened SafeInt

  // ---------- the result in the first operand's type ----------

  /** SafeSubtract: it succeeds exactly when the difference fits the first type. */
  method Subtract(t: IntType, u: IntType, x: int, y: int) returns (ok: bool, r: int)
    requires t.Fits(x) && u.Fits(y)
    ensures ok <==> t.Fits(x - y)
    ensures ok ==> r == x - y
  {
    hide IntType.Convert, IntType.Min, IntType.Max;
    match ZoneOf(t, u) {
      case UintLT32UintLT32 => ok, r := SubtractUnsigned(t, u, x, y);
      case Uint32UintLT64 => ok, r := SubtractUnsigned(t, u, x, y);
      case UintLT32Uint32 => ok, r := SubtractUnsigned(t, u, x, y);
      case Uint64Uint => ok, r := SubtractUnsigned(t, u, x, y);
      case UintLT64Uint64 => ok, r := SubtractUnsigned(t, u, x, y);
      case UintLT32IntLT32 => ok, r := ByInt32(t, t, u, x, y);
      case Uint32IntLT64 => ok, r := ByInt64(t, t, u, x, y);
      case UintLT32Int32 => ok, r := ByInt64(t, t, u, x, y);
      case Uint64Int => ok, r := FromUint64(u, x, y);
      case Uint64Int64 => ok, r := FromUint64(u, x, y);
      case UintLT64Int64 => ok, r := Int64FromUint(t, x, y);
      case IntLT32IntLT32 => ok, r := ByInt32(t, t, u, x, y);
      case Int32IntLT64 => ok, r := ByInt64(t, t, u, x, y);
      case IntLT32Int32 => ok, r := ByInt64(t, t, u, x, y);
      case Int64Int => ok, r := FromInt64(u, x, y);
      case Int64Int64 => ok, r := FromInt64(u, x, y);
      case IntLT64Int64 => ok, r := Int64FromInt(t, x, y);
      case IntLT32UintLT32 => ok, r := CheckMin(t, u, I32, x, y);
      case Int32UintLT32 => ok, r := CheckMin(t, u, I64, x, y);
      case IntLT64Uint32 => ok, r := CheckMin(t, u, I64, x, y);
      case Int64UintLT64 => ok, r := UnsignedFromInt64(u, x, y);
      case IntUint64 => ok, r := Uint64FromInt(t, x, y);
      case Int64Uint64 => ok, r := UnsignedFromInt64(u, x, y);
    }
  }

  method SubtractUnsigned(t: IntType, u: IntType, x: int, y: int) returns (ok: bool, r: int)
    requires !t.Signed() && !u.Signed() && t.Fits(x) && u.Fits(y)
    ensures ok <==> t.Fits(x - y)
    ensures ok ==> r == x - y
  {
    return y <= x, t.Convert(x - y);
  }

  /** Both operands have at most 16 bits; the result type is that of one of them. */
  method ByInt32(result: IntType, t: IntType, u: IntType, x: int, y: int) returns (ok: bool, r: int)
    requires t.LT32() && u.LT32() && t.Fits(x) && u.Fits(y)
    ensures ok <==> result.Fits(x - y)
    ensures ok ==> r == x - y
  {
    hide IntType.Convert;
    assert I32.Fits(x - y);
    var tmp := I32.Convert(x - y);
    hide IntType.Min, IntType.Max;
    ok, r := Cast(result, I32, tmp);
  }

  /** Both operands have at most 32 bits. */
  method ByInt64(result: IntType, t: IntType, u: IntType, x: int, y: int) returns (ok: bool, r: int)
    requires t.LT64() && u.LT64() && t.Fits(x) && u.Fits(y)
    ensures ok <==> result.Fits(x - y)
    ensures ok ==> r == x - y
  {
    hide IntType.Convert;
    assert I64.Fits(x - y);
    var tmp := I64.Convert(x - y);
    hide IntType.Min, IntType.Max;
    ok, r := Cast(result, I64, tmp);
  }

  /** The second operand is unsigned, so the result can only be too small. */
  method CheckMin(t: IntType, u: IntType, wide: IntType, x: int, y: int) returns (ok: bool, r: int)
    requires (wide == I32 && t.LT32() && u.LT32()) || (wide == I64 && t.LT64() && u.LT64())
    requires t.Signed() && !u.Signed() && t.Fits(x) && u.Fits(y)
    ensures ok <==> t.Fits(x - y)
    ensures ok ==> r == x - y
  {
    var tmp := wide.Convert(x - y);
    return tmp >= t.Min(), t.Convert(tmp);
  }

  method FromUint64(u: IntType, x: int, y: int) returns (ok: bool, r: int)
    requires U64.Fits(x) && u.Signed() && u.Fits(y)
    ensures ok <==> U64.Fits(x - y)
    ensures ok ==> r == x - y
  {
    if y >= 0 {
      return U64.Convert(y) <= x, U64.Convert(x - y);
    } else {
      r := U64.Convert(x + Abs(u, y));
      return r >= x, r;
    }
  }

  method Int64FromUint(t: IntType, x: int, y: int) returns (ok: bool, r: int)
    requires t in {U8, U16, U32} && t.Fits(x) && I64.Fits(y)
    ensures ok <==> t.Fits(x - y)
    ensures ok ==> r == x - y
  {
    if y >= 0 {
      if U64.Convert(y) <= x { return true, t.Convert(x - t.Convert(y)); }
    } else {
      var tmp := U64.Convert(x + Abs(I64, y));
      if tmp <= t.Max() { return true, t.Convert(tmp); }
    }
    return false, 0;
  }

  method FromInt64(u: IntType, x: int, y: int) returns (ok: bool, r: int)
    requires I64.Fits(x) && u.Signed() && u.Fits(y)
    ensures ok <==> I64.Fits(x - y)
    ensures ok ==> r == x - y
  {
    var tmp := I64.Convert(U64.Convert(U64.Convert(x) - U64.Convert(y)));
    if (x >= 0 && y < 0 && tmp < x) || (y >= 0 && tmp > x) { return false, 0; }
    return true, tmp;
  }

  method Int64FromInt(t: IntType, x: int, y: int) returns (ok: bool, r: int)
    requires t in {I8, I16, I32} && t.Fits(x) && I64.Fits(y)
    ensures ok <==> t.Fits(x - y)
    ensures ok ==> r == x - y
  {
    hide IntType.Convert;
    var tmp := I64.Convert(U64.Convert(U64.Convert(x) - U64.Convert(y)));
    if x >= 0 {
      if y >= 0 {
        if tmp >= t.Min() { return true, t.Convert(tmp); }
      } else {
        if tmp >= x && tmp <= t.Max() { return true, t.Convert(tmp); }
      }
    } else {
      if y >= 0 {
        if tmp <= x && tmp >= t.Min() { return true, t.Convert(tmp); }
      } else {
        if tmp <= t.Max() { return true, t.Convert(tmp); }
      }
    }
    return false, 0;
  }

  method UnsignedFromInt64(u: IntType, x: int, y: int) returns (ok: bool, r: int)
    requires I64.Fits(x) && !u.Signed() && u.Fits(y)
    ensures ok <==> I64.Fits(x - y)
    ensures ok ==> r == x - y
  {
    var tmp := U64.Convert(U64.Convert(x) - y);
    return I64.Convert(tmp) <= x, I64.Convert(tmp);
  }

  /** Cutting the 64-bit result down to a narrow type gives the difference whenever it fits. */
  lemma Truncated(t: IntType, x: int)
    requires t.LT64() && t.Fits(x)
    ensures t.Convert(U64.Convert(x)) == x
  {
    assert U64.Convert(x) == if x >= 0 then x else x + 0x1_0000_0000_0000_0000;
  }

  method Uint64FromInt(t: IntType, x: int, y: int) returns (ok: bool, r: int)
    requires t in {I8, I16, I32} && t.Fits(x) && U64.Fits(y)
    ensures ok <==> t.Fits(x - y)
    ensures ok ==> r == x - y
  {
    hide IntType.Convert;
    var least := U64.Convert(t.Max()) + 1;
    if t.Fits(x - y) { Truncated(t, x - y); }
    r := t.Convert(U64.Convert(U64.Convert(x) - y));
    if x < 0 {
      ok := y <= least - Abs(t, x);
    } else {
      ok := y <= least + U64.Convert(x);
    }
  }

  // ---------- the result in the second operand's type ----------

  /** The subtraction of a SafeInt from a plain integer: it succeeds exactly when the difference fits
      the second type. */
  method SubtractFrom(t: IntType, u: IntType, x: int, y: int) returns (ok: bool, r: int)
    requires t.Fits(x) && u.Fits(y)
    ensures ok <==> u.Fits(x - y)
    ensures ok ==> r == x - y
  {
    hide IntType.Convert, IntType.Min, IntType.Max;
    match ZoneOf(t, u) {
      case UintLT32UintLT32 => ok, r := BothUnsigned2(t, u, x, y);
      case Uint32UintLT64 => ok, r := BothUnsigned2(t, u, x, y);
      case UintLT32Uint32 => ok, r := BothUnsigned2(t, u, x, y);
      case Uint64Uint => ok, r := BothUnsigned2(t, u, x, y);
      case UintLT64Uint64 => ok, r := BothUnsigned2(t, u, x, y);
      case UintLT32IntLT32 => ok, r := ByInt32(u, t, u, x, y);
      case Uint32IntLT64 => ok, r := ByInt64(u, t, u, x, y);
      case UintLT32Int32 => ok, r := ByInt64(u, t, u, x, y);
      case Uint64Int => ok, r := Uint64Int2(u, x, y);
      case Uint64Int64 => ok, r := Uint64Int2(u, x, y);
      case UintLT64Int64 => ok, r := UintInt642(t, x, y);
      case IntLT32IntLT32 => ok, r := ByInt32(u, t, u, x, y);
      case Int32IntLT64 => ok, r := ByInt64(u, t, u, x, y);
      case IntLT32Int32 => ok, r := ByInt64(u, t, u, x, y);
      case Int64Int => ok, r := Int64Int2(u, x, y);
      case Int64Int64 => ok, r := Int64Int2(u, x, y);
      case IntLT64Int64 => ok, r := IntInt642(t, x, y);
      case IntLT32UintLT32 => ok, r := ByInt32(u, t, u, x, y);
      case Int32UintLT32 => ok, r := ByInt64(u, t, u, x, y);
      case IntLT64Uint32 => ok, r := ByInt64(u, t, u, x, y);
      case Int64UintLT64 => ok, r := Int64Uint2(u, x, y);
      case IntUint64 => ok, r := Uint64Result(t, x, y);
      case Int64Uint64 => ok, r := Uint64Result(t, x, y);
    }
  }

  method BothUnsigned2(t: IntType, u: IntType, x: int, y: int) returns (ok: bool, r: int)
    requires !t.Signed() && !u.Signed() && t.Fits(x) && u.Fits(y)
    ensures ok <==> u.Fits(x - y)
    ensures ok ==> r == x - y
  {
    if y <= x {
      ok, r := Cast(u, t, t.Convert(x - y));
    } else {
      ok, r := false, 0;
    }
  }

  method Uint64Int2(u: IntType, x: int, y: int) returns (ok: bool, r: int)
    requires U64.Fits(x) && u.Signed() && u.Fits(y)
    ensures ok <==> u.Fits(x - y)
    ensures ok ==> r == x - y
  {
    hide IntType.Convert;
    if y < 0 {
      var tmp := U64.Convert(x + U64.Convert(Abs(u, y)));
      if tmp >= x && tmp <= u.Max() { return true, u.Convert(tmp); }
    } else if U64.Convert(y) > x {
      return true, u.Convert(u.Convert(x) - u.Convert(y));
    } else {
      var tmp := U64.Convert(x - U64.Convert(y));
      if tmp <= u.Max() { return true, u.Convert(tmp); }
    }
    return false, 0;
  }

  method UintInt642(t: IntType, x: int, y: int) returns (ok: bool, r: int)
    requires t in {U8, U16, U32} && t.Fits(x) && I64.Fits(y)
    ensures ok <==> I64.Fits(x - y)
    ensures ok ==> r == x - y
  {
    if y >= 0 { return true, I64.Convert(x - y); }
    var tmp := U64.Convert(x + U64.Convert(I64.Convert(-y)));
    return tmp <= I64.Max(), I64.Convert(tmp);
  }

  method Int64Int2(u: IntType, x: int, y: int) returns (ok: bool, r: int)
    requires I64.Fits(x) && u.Signed() && u.Fits(y)
    ensures ok <==> u.Fits(x - y)
    ensures ok ==> r == x - y
  {
    hide IntType.Convert;
    var tmp := I64.Convert(x - y);
    if x >= 0 {
      if (u.LT64() && tmp > u.Max()) || (y < 0 && tmp < x) { return false, 0; }
    } else {
      if (u.LT64() && tmp < u.Min()) || (y >= 0 && tmp > x) { return false, 0; }
    }
    return true, u.Convert(tmp);
  }

  method IntInt642(t: IntType, x: int, y: int) returns (ok: bool, r: int)
    requires t in {I8, I16, I32} && t.Fits(x) && I64.Fits(y)
    ensures ok <==> I64.Fits(x - y)
    ensures ok ==> r == x - y
  {
    var tmp := I64.Convert(x - y);
    if (x >= 0 && y < 0 && tmp < x) || (y > 0 && tmp > x) { return false, 0; }
    return true, tmp;
  }

  method Int64Uint2(u: IntType, x: int, y: int) returns (ok: bool, r: int)
    requires u in {U8, U16, U32} && I64.Fits(x) && u.Fits(y)
    ensures ok <==> u.Fits(x - y)
    ensures ok ==> r == x - y
  {
    hide IntType.Convert;
    var tmp := U64.Convert(U64.Convert(x) - y);
    return I64.Convert(tmp) <= u.Max() && I64.Convert(tmp) >= u.Min(), u.Convert(I64.Convert(tmp));
  }

  /** A signed number less an unsigned 64-bit one, unsigned: both the narrow and the 64-bit case. */
  method Uint64Result(t: IntType, x: int, y: int) returns (ok: bool, r: int)
    requires t.Signed() && t.Fits(x) && U64.Fits(y)
    ensures ok <==> U64.Fits(x - y)
    ensures ok ==> r == x - y
  {
    return x >= 0 && U64.Convert(x) >= y, U64.Convert(x - y);
  }
}
