/** fmt's integer output: counting digits without dividing, and writing sign, prefix, digits and
    padding in place into the space the buffer was grown by. */
module IntFormat {

  const DIGIT_CHARS := "0123456789abcdef"
  const UPPER_CHARS := "0123456789ABCDEF"

  // ---------- digits and their count ----------

  function DigitChar(d: nat, upper: bool): char
    requires d < 16
  {
    if upper then UPPER_CHARS[d] else DIGIT_CHARS[d]
  }

  /** n written in a base, most significant digit first, "0" for zero. */
  function Digits(n: nat, base: nat, upper: bool): (r: string)
    requires 2 <= base <= 16
    ensures |r| > 0
  {
    if n < base then [DigitChar(n, upper)] else Digits(n / base, base, upper) + [DigitChar(n % base, upper)]
  }

  function CharValue(c: char): int
  {
    if '0' <= c <= '9' then c as int - 48
    else if 'a' <= c <= 'f' then c as int - 87
    else if 'A' <= c <= 'F' then c as int - 55
    else -1
  }

  /** The number that digits stand for. */
  function ValueOf(t: string, base: nat): int
  {
    if t == "" then 0 else ValueOf(t[..|t| - 1], base) * base + CharValue(t[|t| - 1])
  }

  lemma DigitCharValue(d: nat, upper: bool)
    requires d < 16
    ensures CharValue(DigitChar(d, upper)) == d
  {
  }

  /** The digits read back are the number, and there is no leading zero. */
  lemma {:induction false} DigitsValue(n: nat, base: nat, upper: bool)
    requires 2 <= base <= 16
    ensures ValueOf(Digits(n, base, upper), base) == n
    ensures n > 0 ==> Digits(n, base, upper)[0] != '0'
  {
    hide DigitChar, CharValue;
    var t := Digits(n, base, upper);
    DigitCharValue(n % base, upper);
    if n < base {
      DigitCharValue(n, upper);
      assert t[..0] == "";
      NotZero(n, upper);
    } else {
      assert t[..|t| - 1] == Digits(n / base, base, upper);
      Quotient(n, base);
      DigitsValue(n / base, base, upper);
    }
  }

  lemma Quotient(n: nat, base: nat)
    requires base >= 2
    ensures n / base * base + n % base == n && (n >= base ==> 0 < n / base < n)
  {
  }

  lemma NotZero(d: nat, upper: bool)
    requires d < 16
    ensures d > 0 ==> DigitChar(d, upper) != '0'
  {
  }

  function Pow(b: nat, e: nat): (r: nat)
    requires b > 0
    ensures r > 0
  {
    if e == 0 then 1 else b * Pow(b, e - 1)
  }

  /** The number of significant bits. */
  function BitLength(n: nat): nat
  {
    if n == 0 then 0 else 1 + BitLength(n / 2)
  }

  lemma {:induction false} BitLengthBounds(n: nat)
    requires n > 0
    ensures BitLength(n) > 0 && Pow(2, BitLength(n) - 1) <= n < Pow(2, BitLength(n))
  {
    if n > 1 { BitLengthBounds(n / 2); }
  }

  lemma {:induction false} PowMonotone(b: nat, e: nat, f: nat)
    requires b > 0 && e <= f
    ensures Pow(b, e) <= Pow(b, f)
  {
    if e < f { PowMonotone(b, e, f - 1); }
  }

  /** The length of a decimal number is determined by the powers of ten around it. */
  lemma {:induction false} DecimalLength(n: nat, len: nat)
    requires len > 0 && n < Pow(10, len) && (len > 1 ==> Pow(10, len - 1) <= n)
    ensures |Digits(n, 10, false)| == len
  {
    hide DigitChar;
    if len > 1 {
      PowMonotone(10, 1, len - 1);
      DecimalLength(n / 10, len - 1);
    }
  }

  /** The table entries: zero first, then the powers from ten on. */
  function PowerOf10(t: nat): nat
  {
    if t == 0 then 0 else Pow(10, t)
  }

  /** 64 - clz(n | 1). */
  function Width(n: nat): nat
  {
    BitLength(if n % 2 == 0 then n + 1 else n)
  }

  function Estimate(bits: nat): nat
  {
    bits * 1233 / 4096
  }

  /** CountDigits, both widths: the estimate from the bit length, corrected by one comparison. */
  function CountDigits(n: nat): int
  {
    var t := Estimate(Width(n));
    t - (if n < PowerOf10(t) then 1 else 0) + 1
  }

  /** The largest bit length whose estimate is t. */
  function Top(t: nat): nat
  {
    (4096 * (t + 1) - 1) / 1233
  }

  /** For the estimates t to stop - 1: the numbers of Top(t) bits, two being 2^Top(t), lie between
      ten = 10^t and 10^(t + 1). */
  predicate Between(t: nat, stop: nat, two: nat, ten: nat)
    decreases stop - t
  {
    t >= stop || (ten <= two <= ten * 10 && Between(t + 1, stop, two * (if Top(t + 1) == Top(t) + 3 then 8 else 16), ten * 10))
  }

  lemma NextTop(t: nat)
    ensures Pow(2, Top(t + 1)) == Pow(2, Top(t)) * if Top(t + 1) == Top(t) + 3 then 8 else 16
    ensures Pow(10, t + 1) == 10 * Pow(10, t)
  {
    var e := Top(t);
    assert Top(t + 1) == e + 3 || Top(t + 1) == e + 4;
    assert Pow(2, e + 3) == 2 * Pow(2, e + 2) == 4 * Pow(2, e + 1) == 8 * Pow(2, e);
    assert Pow(2, e + 4) == 2 * Pow(2, e + 3);
  }

  lemma {:induction false} BetweenAt(t: nat, stop: nat, two: nat, ten: nat, i: nat)
    requires Between(t, stop, two, ten) && two == Pow(2, Top(t)) && ten == Pow(10, t) && t <= i < stop
    ensures Pow(10, i) <= Pow(2, Top(i)) <= Pow(10, i + 1)
    decreases stop - t
  {
    NextTop(t);
    hide Pow, Top;
    if t < i {
      BetweenAt(t + 1, stop, two * (if Top(t + 1) == Top(t) + 3 then 8 else 16), ten * 10, i);
    }
  }

  lemma {:induction false} PowAdd(b: nat, e: nat, f: nat)
    requires b > 0
    ensures Pow(b, e + f) == Pow(b, e) * Pow(b, f)
  {
    if e > 0 {
      PowAdd(b, e - 1, f);
      assert b * (Pow(b, e - 1) * Pow(b, f)) == b * Pow(b, e - 1) * Pow(b, f);
    }
  }

  lemma Constants()
    ensures Pow(2, 29) == 0x2000_0000 && Pow(10, 8) == 1_0000_0000
    ensures Pow(2, 49) == 0x2_0000_0000_0000 && Pow(10, 14) == 100_0000_0000_0000
  {
    assert Pow(2, 10) == 1024 && Pow(2, 9) == 512 && Pow(10, 7) == 1000_0000 && Pow(10, 1) == 10;
    PowAdd(2, 10, 10);
    PowAdd(2, 20, 9);
    PowAdd(2, 20, 20);
    PowAdd(2, 40, 9);
    PowAdd(10, 7, 7);
    PowAdd(10, 7, 1);
  }

  /** The twenty cases, computed. */
  lemma LowCases()
    ensures Between(0, 8, 8, 1)
  {
  }

  lemma MiddleCases()
    ensures Between(8, 14, 0x2000_0000, 1_0000_0000)
  {
  }

  lemma HighCases()
    ensures Between(14, 20, 0x2_0000_0000_0000, 100_0000_0000_0000)
  {
  }

  lemma Edge(t: nat)
    requires t < 20
    ensures Pow(10, t) <= Pow(2, Top(t)) <= Pow(10, t + 1)
  {
    hide Between, Pow;
    Constants();
    if t < 8 {
      LowCases();
      Smallest();
      BetweenAt(0, 8, 8, 1, t);
    } else if t < 14 {
      MiddleCases();
      BetweenAt(8, 14, 0x2000_0000, 1_0000_0000, t);
    } else {
      HighCases();
      BetweenAt(14, 20, 0x2_0000_0000_0000, 100_0000_0000_0000, t);
    }
  }

  lemma Smallest()
    ensures Pow(10, 0) == 1 && Pow(2, 3) == 8
  {
    assert Pow(2, 3) == 2 * Pow(2, 2);
  }

  lemma Word()
    ensures Pow(2, 64) == 0x1_0000_0000_0000_0000
  {
    Constants();
    PowAdd(2, 49, 15);
    assert Pow(2, 15) == 0x8000;
  }

  lemma WidthBounds(n: nat)
    requires n < 0x1_0000_0000_0000_0000
    ensures 0 < Width(n) <= 64 && n < Pow(2, Width(n)) && (Width(n) > 1 ==> Pow(2, Width(n) - 1) <= n)
  {
    hide BitLength;
    BitLengthBounds(if n % 2 == 0 then n + 1 else n);
    Word();
    if Width(n) > 1 { assert Pow(2, Width(n) - 1) == 2 * Pow(2, Width(n) - 2); }
    hide Pow;
    if Width(n) > 64 {
      PowMonotone(2, 64, Width(n) - 1);
    }
  }

  /** The estimate is the decimal length or one less. */
  lemma EstimateIsClose(bits: nat)
    requires 0 < bits <= 64
    ensures var t := Estimate(bits);
      Pow(2, bits) <= Pow(10, t + 1) && (t > 0 ==> bits > 1 && Pow(10, t - 1) <= Pow(2, bits - 1))
  {
    hide Pow;
    var t := Estimate(bits);
    assert t < 20 && bits <= Top(t) && (t > 0 ==> bits - 1 >= Top(t - 1));
    Edge(t);
    PowMonotone(2, bits, Top(t));
    if t > 0 {
      Edge(t - 1);
      PowMonotone(2, Top(t - 1), bits - 1);
    }
  }

  /** The count is the decimal length, for every 64-bit number. */
  lemma CountDigitsIsLength(n: nat)
    requires n < 0x1_0000_0000_0000_0000
    ensures CountDigits(n) == |Digits(n, 10, false)|
  {
    hide Digits, Width, Estimate;
    var t := Estimate(Width(n));
    WidthBounds(n);
    EstimateIsClose(Width(n));
    DecimalLength(n, if n < PowerOf10(t) then t else t + 1);
  }

  /** The table is never read past its end: 20 entries for 64 bits, 10 for 32. */
  lemma EstimateIsInTable(n: nat)
    requires n < 0x1_0000_0000_0000_0000
    ensures Estimate(Width(n)) < 20 && (n < 0x1_0000_0000 ==> Estimate(Width(n)) < 10)
  {
    hide Width;
    WidthBounds(n);
    if Width(n) > 32 {
      assert Pow(2, 8) == 256;
      hide Pow;
      PowAdd(2, 8, 8);
      PowAdd(2, 16, 16);
      PowMonotone(2, 32, Width(n) - 1);
    }
  }

  /** The version for compilers without clz: four digits at a time. */
  method CountDigitsByDivision(value: nat) returns (count: nat)
    ensures count == |Digits(value, 10, false)|
  {
    hide DigitChar;
    var n := value;
    count := 1;
    while true
      invariant count > 0 && count - 1 + |Digits(n, 10, false)| == |Digits(value, 10, false)|
      decreases n
    {
      FourDigits(n);
      if n < 10 { return count; }
      if n < 100 { return count + 1; }
      if n < 1000 { return count + 2; }
      if n < 10000 { return count + 3; }
      n := n / 10000;
      count := count + 4;
    }
  }

  lemma OneDigit(n: nat)
    ensures |Digits(n, 10, false)| == if n < 10 then 1 else 1 + |Digits(n / 10, 10, false)|
  {
  }

  lemma FourDigits(n: nat)
    ensures var len := |Digits(n, 10, false)|;
      if n < 10 then len == 1 else if n < 100 then len == 2 else if n < 1000 then len == 3
      else if n < 10000 then len == 4 else len == 4 + |Digits(n / 10000, 10, false)|
  {
    assert n / 10 / 10 == n / 100 && n / 100 / 10 == n / 1000 && n / 1000 / 10 == n / 10000;
    OneDigit(n);
    OneDigit(n / 10);
    OneDigit(n / 100);
    OneDigit(n / 1000);
    hide Digits;
  }

  // ---------- output ----------

  datatype Align = DefaultAlign | Left | Right | Center | Numeric

  /** signFlag, plusFlag and hashFlag are the specification's flags; type is its letter, '\0' for none. */
  datatype Spec = Spec(width: nat, align: Align, fill: char, signFlag: bool, plusFlag: bool, hashFlag: bool, kind: char)

  function Fill(c: char, n: nat): (r: string)
    ensures |r| == n && forall i :: 0 <= i < n ==> r[i] == c
  {
    seq(n, _ => c)
  }

  function Pad(spec: Spec, size: nat): nat
  {
    if spec.width <= size then 0 else spec.width - size
  }

  /** What stands before the digits and their prefix, size being the length of sign, prefix and digits. */
  function Before(spec: Spec, size: nat, sign: string): string
  {
    var pad := Pad(spec, size);
    match spec.align
    case Left => sign
    case Center => Fill(spec.fill, pad / 2) + sign
    case Numeric => sign + Fill(spec.fill, pad)
    case _ => Fill(spec.fill, pad) + sign
  }

  function After(spec: Spec, size: nat): string
  {
    var pad := Pad(spec, size);
    match spec.align
    case Left => Fill(spec.fill, pad)
    case Center => Fill(spec.fill, pad - pad / 2)
    case _ => ""
  }

  /** The padded output. */
  function Layout(spec: Spec, sign: string, body: string): string
  {
    Before(spec, |sign| + |body|, sign) + body + After(spec, |sign| + |body|)
  }

  /** Exactly the larger of width and content, and the content is in it, in order. */
  lemma LayoutLength(spec: Spec, sign: string, body: string)
    ensures |Layout(spec, sign, body)| == if spec.width <= |sign| + |body| then |sign| + |body| else spec.width
    ensures spec.width <= |sign| + |body| ==> Layout(spec, sign, body) == sign + body
  {
    assert Fill(spec.fill, 0) == "";
  }

  function SignText(value: int, spec: Spec): string
  {
    if value < 0 then "-" else if !spec.signFlag then "" else if spec.plusFlag then "+" else " "
  }

  /** The base a type letter stands for; 0 for a letter that is none. */
  function Base(kind: char): nat
  {
    if kind in "\0d" then 10 else if kind in "xX" then 16 else if kind in "bB" then 2 else if kind == 'o' then 8 else 0
  }

  function Prefix(spec: Spec): string
  {
    if !spec.hashFlag || Base(spec.kind) == 10 then "" else if spec.kind == 'o' then "0" else ['0', spec.kind]
  }

  function SignOf(sign: char): string
  {
    if sign == '\0' then "" else [sign]
  }

  function Replaced(s: string, at: nat, piece: string): (r: string)
    requires at + |piece| <= |s|
    ensures |r| == |s|
  {
    s[..at] + piece + s[at + |piece|..]
  }

  class Writer {
    var buffer: string

    /** The new part's contents are arbitrary. */
    method GrowBuffer(n: nat) returns (p: nat)
      modifies this
      ensures p == |old(buffer)| && |buffer| == p + n && buffer[..p] == old(buffer)
    {
      p := |buffer|;
      var junk: string :| |junk| == n by { assert |Fill(' ', n)| == n; }
      buffer := buffer + junk;
    }

    method FillN(at: nat, n: nat, c: char)
      requires at + n <= |buffer|
      modifies this
      ensures buffer == Replaced(old(buffer), at, Fill(c, n))
    {
      var i := 0;
      while i < n
        invariant i <= n && |buffer| == |old(buffer)|
        invariant forall j :: 0 <= j < |buffer| ==> buffer[j] == if at <= j < at + i then c else old(buffer)[j]
      {
        buffer := buffer[at + i := c];
        i := i + 1;
      }
    }

    /** Padding on both sides, the smaller half first. */
    method FillPadding(at: nat, total: nat, content: nat, fill: char) returns (p: nat)
      requires at + total <= |buffer| && content <= total
      modifies this
      ensures p == at + (total - content) / 2
      ensures var pad := total - content;
        buffer == Replaced(Replaced(old(buffer), at, Fill(fill, pad / 2)), p + content, Fill(fill, pad - pad / 2))
    {
      var padding := total - content;
      var left := padding / 2;
      FillN(at, left, fill);
      p := at + left;
      FillN(p + content, padding - left, fill);
    }

    /** The space for a number of the given size, with the sign and the padding in it: e is the last
        place of the number, and only the places of its prefix and digits are still open. */
    method PrepareFilledBuffer(size: nat, spec: Spec, sign: char) returns (e: nat)
      requires size > |SignOf(sign)|
      modifies this
      ensures Prepared(buffer, old(buffer), spec, size, sign, e)
    {
      hide Prepared, Fill, Replaced;
      var width := spec.width;
      ghost var was := buffer;
      if width <= size {
        var p := GrowBuffer(size);
        buffer := buffer[p := sign];
        UnpaddedPrepared(was, spec, size, sign, buffer);
        return p + size - 1;
      }
      var p := GrowBuffer(width);
      ghost var grown := buffer;
      var end := p + width;
      if spec.align.Left? {
        LeftPrepared(was, grown, spec, size, sign);
        buffer := buffer[p := sign];
        p := p + size;
        FillN(p, end - p, spec.fill);
      } else if spec.align.Center? {
        CenterPrepared(was, grown, spec, size, sign);
        p := FillPadding(p, width, size, spec.fill);
        buffer := buffer[p := sign];
        p := p + size;
      } else {
        RightPrepared(was, grown, spec, size, sign);
        var rest := size;
        if spec.align.Numeric? {
          if sign != '\0' {
            buffer := buffer[p := sign];
            p := p + 1;
            rest := rest - 1;
          }
        } else {
          buffer := buffer[end - rest := sign];
        }
        FillN(p, end - rest - p, spec.fill);
        p := end;
      }
      return p - 1;
    }

    /** Two digits at a time, from the last one back; the first one or two go to the front. */
    method FormatDecimal(at: nat, value: nat, numDigits: nat)
      requires numDigits == |Digits(value, 10, false)| && at + numDigits <= |buffer|
      modifies this
      ensures buffer == Replaced(old(buffer), at, Digits(value, 10, false))
    {
      hide Digits, DigitChar, Replaced;
      var n, v := numDigits - 1, value;
      while v >= 100
        invariant 0 <= n < numDigits && n + 1 == |Digits(v, 10, false)| && |buffer| == |old(buffer)|
        invariant Replaced(buffer, at, Digits(v, 10, false)) == Replaced(old(buffer), at, Digits(value, 10, false))
      {
        TwoDigits(buffer, at, v);
        buffer := buffer[at + n := DigitChar(v % 10, false)];
        buffer := buffer[at + n - 1 := DigitChar(v % 100 / 10, false)];
        v := v / 100;
        n := n - 2;
      }
      FirstDigits(buffer, at, v);
      if v < 10 {
        buffer := buffer[at := DigitChar(v, false)];
      } else {
        buffer := buffer[at + 1 := DigitChar(v % 10, false)];
        buffer := buffer[at := DigitChar(v / 10, false)];
      }
    }

    /** The loops for hexadecimal, octal and binary: digits from the last place back; p is the place
        before the first of them. */
    method FormatBase(e: nat, value: nat, base: nat, upper: bool) returns (p: int)
      requires 2 <= base <= 16 && e < |buffer| && e + 1 >= |Digits(value, base, upper)|
      modifies this
      ensures p == e - |Digits(value, base, upper)|
      ensures buffer == Replaced(old(buffer), p + 1, Digits(value, base, upper))
    {
      hide Digits, DigitChar, Replaced;
      p := e;
      var n: nat := value;
      ghost var at := e + 1 - |Digits(value, base, upper)|;
      while n >= base
        invariant |buffer| == |old(buffer)| && p + 1 - at == |Digits(n, base, upper)| && p <= e
        invariant Replaced(buffer, at, Digits(n, base, upper)) == Replaced(old(buffer), at, Digits(value, base, upper))
      {
        LastDigit(buffer, at, n, base, upper);
        buffer := buffer[p := DigitChar(n % base, upper)];
        p := p - 1;
        n := n / base;
      }
      OnlyDigit(buffer, at, n, base, upper);
      buffer := buffer[p := DigitChar(n, upper)];
      p := p - 1;
    }

    /** The counting loops. */
    method CountInBase(value: nat, base: nat, start: nat) returns (size: nat)
      requires 2 <= base <= 16
      ensures size == start + |Digits(value, base, false)|
    {
      hide Digits;
      LengthStep(value, base);
      size := start + 1;
      var n: nat := value / base;
      while n != 0
        invariant size + (if n == 0 then 0 else |Digits(n, base, false)|) == start + |Digits(value, base, false)|
        decreases n
      {
        LengthStep(n, base);
        size := size + 1;
        n := n / base;
      }
    }

    /** The magnitude, by wrapping negation in the unsigned type, and the sign with its size. */
    static method TakeSign(value: int, word: nat, spec: Spec) returns (magnitude: nat, size: nat, sign: char)
      requires word in {0x1_0000_0000, 0x1_0000_0000_0000_0000} && 0 <= 2 * value + word && value < word
      ensures magnitude == Magnitude(value) < word && size == |SignOf(sign)| && SignOf(sign) == SignText(value, spec)
    {
      size, sign, magnitude := 0, '\0', value % word;
      WrappedMagnitude(value, word);
      if value < 0 {
        sign := '-';
        size := size + 1;
        magnitude := (0 - magnitude) % word;
      } else if spec.signFlag {
        sign := if spec.plusFlag then '+' else ' ';
        size := size + 1;
      }
    }

    /** FormatInt for an integer type whose magnitudes fit the unsigned type of the given word. What
        is appended is the layout of sign, prefix and digits; an unknown type letter is an error. */
    method FormatInt(value: int, word: nat, spec: Spec) returns (ok: bool)
      requires word in {0x1_0000_0000, 0x1_0000_0000_0000_0000} && 0 <= 2 * value + word && value < word
      modifies this
      ensures ok <==> Base(spec.kind) != 0
      ensures !ok ==> buffer == old(buffer)
      ensures ok ==> buffer == old(buffer) + Output(value, spec)
    {
      hide Digits, Layout, Prefix, SignText, Magnitude;
      var magnitude, size, sign := TakeSign(value, word, spec);
      match Base(spec.kind) {
        case 10 => FormatDecimalInt(magnitude, size, sign, spec);
        case 16 => FormatPrefixed(magnitude, 16, spec.kind == 'X', size, sign, spec);
        case 2 => FormatPrefixed(magnitude, 2, false, size, sign, spec);
        case 8 => FormatPrefixed(magnitude, 8, false, size, sign, spec);
        case _ => return false;
      }
      return true;
    }

    method FormatDecimalInt(magnitude: nat, size: nat, sign: char, spec: Spec)
      requires magnitude < 0x1_0000_0000_0000_0000 && size == |SignOf(sign)| && Base(spec.kind) == 10
      modifies this
      ensures buffer == old(buffer) + Layout(spec, SignOf(sign), Prefix(spec) + Digits(magnitude, 10, false))
    {
      hide Digits, DigitChar, Prepared, Layout, CountDigits, Replaced;
      CountDigitsIsLength(magnitude);
      var numDigits := CountDigits(magnitude);
      ghost var was := buffer;
      var e := PrepareFilledBuffer(size + numDigits, spec, sign);
      Assemble(was, buffer, spec, sign, "", Digits(magnitude, 10, false), e);
      FormatDecimal(e + 1 - numDigits, magnitude, numDigits);
    }

    method FormatPrefixed(magnitude: nat, base: nat, upper: bool, size0: nat, sign: char, spec: Spec)
      requires 2 <= base <= 16 && size0 == |SignOf(sign)| && Base(spec.kind) == base != 10
      modifies this
      ensures buffer == old(buffer) + Layout(spec, SignOf(sign), Prefix(spec) + Digits(magnitude, base, upper))
    {
      hide Digits, DigitChar, Prepared, Layout, Replaced;
      var size := size0;
      if spec.hashFlag { size := size + if base == 8 then 1 else 2; }
      size := CountInBase(magnitude, base, size);
      if upper { CaseLength(magnitude, base); }
      ghost var was := buffer;
      var e := PrepareFilledBuffer(size, spec, sign);
      ghost var digits := Digits(magnitude, base, upper);
      Assemble(was, buffer, spec, sign, Prefix(spec), digits, e);
      ghost var open := buffer;
      var p := FormatBase(e, magnitude, base, upper);
      PutPrefix(buffer, p, spec);
      if spec.hashFlag {
        if base != 8 {
          buffer := buffer[p := spec.kind];
          p := p - 1;
        }
        buffer := buffer[p := '0'];
      }
    }
  }

  lemma WrappedMagnitude(value: int, word: nat)
    requires word in {0x1_0000_0000, 0x1_0000_0000_0000_0000} && 0 <= 2 * value + word && value < word
    ensures value >= 0 ==> value % word == value
    ensures value < 0 ==> 0 < word + value < word && value % word == word + value && (0 - (word + value)) % word == -value
  {
  }

  ghost predicate Prepared(b: string, was: string, spec: Spec, size: nat, sign: char, e: int)
  {
    var n := size - |SignOf(sign)|;
    0 <= e < |b| && 0 <= n <= e + 1 && b[..e + 1 - n] == was + Before(spec, size, SignOf(sign)) &&
    b[e + 1..] == After(spec, size)
  }

  lemma UnpaddedPrepared(was: string, spec: Spec, size: nat, sign: char, b: string)
    requires spec.width <= size && size > |SignOf(sign)|
    requires |b| == |was| + size && b[..|was|] == was && b[|was|] == sign
    ensures Prepared(b, was, spec, size, sign, |was| + size - 1)
  {
    assert Before(spec, size, SignOf(sign)) == SignOf(sign) && After(spec, size) == "";
  }

  lemma LeftPrepared(was: string, b: string, spec: Spec, size: nat, sign: char)
    requires spec.width > size > |SignOf(sign)| && spec.align.Left?
    requires |b| == |was| + spec.width && b[..|was|] == was
    ensures Prepared(Replaced(b[|was| := sign], |was| + size, Fill(spec.fill, spec.width - size)), was, spec, size, sign,
      |was| + size - 1)
  {
    hide Fill;
  }

  lemma CenterPrepared(was: string, b: string, spec: Spec, size: nat, sign: char)
    requires spec.width > size > |SignOf(sign)| && spec.align.Center?
    requires |b| == |was| + spec.width && b[..|was|] == was
    ensures var pad := spec.width - size; var p := |was| + pad / 2;
      Prepared(Replaced(Replaced(b, |was|, Fill(spec.fill, pad / 2)), p + size, Fill(spec.fill, pad - pad / 2))[p := sign],
        was, spec, size, sign, p + size - 1)
  {
    hide Fill;
  }

  lemma RightPrepared(was: string, b: string, spec: Spec, size: nat, sign: char)
    requires spec.width > size > |SignOf(sign)| && !spec.align.Left? && !spec.align.Center?
    requires |b| == |was| + spec.width && b[..|was|] == was
    ensures !spec.align.Numeric? ==> Prepared(Replaced(b[|b| - size := sign], |was|, Fill(spec.fill, spec.width - size)),
      was, spec, size, sign, |b| - 1)
    ensures spec.align.Numeric? && sign == '\0' ==> Prepared(Replaced(b, |was|, Fill(spec.fill, spec.width - size)),
      was, spec, size, sign, |b| - 1)
    ensures spec.align.Numeric? && sign != '\0' ==>
      Prepared(Replaced(b[|was| := sign], |was| + 1, Fill(spec.fill, spec.width - size)), was, spec, size, sign, |b| - 1)
  {
    hide Fill;
  }

  /** Writing the last two digits leaves the others to be written. */
  lemma TwoDigits(b: string, at: nat, v: nat)
    requires v >= 100 && at + |Digits(v, 10, false)| <= |b|
    ensures |Digits(v, 10, false)| == |Digits(v / 100, 10, false)| + 2
    ensures var n := at + |Digits(v, 10, false)| - 1;
      var written := b[n := DigitChar(v % 10, false)][n - 1 := DigitChar(v % 100 / 10, false)];
      Replaced(written, at, Digits(v / 100, 10, false)) == Replaced(b, at, Digits(v, 10, false))
  {
    LastTwo(v);
    hide Digits, DigitChar;
  }

  lemma FirstDigits(b: string, at: nat, v: nat)
    requires v < 100 && at + |Digits(v, 10, false)| <= |b|
    ensures v < 10 ==> b[at := DigitChar(v, false)] == Replaced(b, at, Digits(v, 10, false))
    ensures v >= 10 ==> |Digits(v, 10, false)| == 2
    ensures v >= 10 ==>
      b[at + 1 := DigitChar(v % 10, false)][at := DigitChar(v / 10, false)] == Replaced(b, at, Digits(v, 10, false))
  {
    hide DigitChar;
  }

  lemma LastTwo(v: nat)
    requires v >= 100
    ensures Digits(v, 10, false) ==
      Digits(v / 100, 10, false) + [DigitChar(v % 100 / 10, false)] + [DigitChar(v % 10, false)]
  {
    hide DigitChar;
    assert v / 10 / 10 == v / 100 && v / 10 % 10 == v % 100 / 10;
  }

  lemma LastDigit(b: string, at: nat, n: nat, base: nat, upper: bool)
    requires 2 <= base <= 16 && n >= base && at + |Digits(n, base, upper)| <= |b|
    ensures |Digits(n, base, upper)| == |Digits(n / base, base, upper)| + 1
    ensures Replaced(b[at + |Digits(n, base, upper)| - 1 := DigitChar(n % base, upper)], at, Digits(n / base, base, upper))
      == Replaced(b, at, Digits(n, base, upper))
  {
    hide DigitChar;
    var front, last := Digits(n / base, base, upper), DigitChar(n % base, upper);
    assert Digits(n, base, upper) == front + [last];
    hide Digits;
    PutLast(b, at, front, last);
  }

  lemma PutLast(b: string, at: nat, front: string, last: char)
    requires at + |front| + 1 <= |b|
    ensures Replaced(b[at + |front| := last], at, front) == Replaced(b, at, front + [last])
  {
  }

  lemma OnlyDigit(b: string, at: nat, n: nat, base: nat, upper: bool)
    requires 2 <= base <= 16 && n < base && at < |b|
    ensures |Digits(n, base, upper)| == 1
    ensures b[at := DigitChar(n, upper)] == Replaced(b, at, Digits(n, base, upper))
  {
    hide DigitChar;
  }

  /** One shift drops one digit. */
  lemma LengthStep(n: nat, base: nat)
    requires 2 <= base <= 16
    ensures 0 <= n / base && (n > 0 ==> n / base < n)
    ensures |Digits(n, base, false)| == 1 + if n / base == 0 then 0 else |Digits(n / base, base, false)|
  {
    hide DigitChar;
  }

  lemma {:induction false} CaseLength(n: nat, base: nat)
    requires 2 <= base <= 16
    ensures |Digits(n, base, true)| == |Digits(n, base, false)|
  {
    hide DigitChar;
    if n >= base { CaseLength(n / base, base); }
  }

  function Magnitude(value: int): nat
  {
    if value < 0 then -value else value
  }

  /** What FormatInt appends: sign, prefix and digits of the magnitude, padded. */
  function Output(value: int, spec: Spec): string
    requires Base(spec.kind) != 0
  {
    Layout(spec, SignText(value, spec), Prefix(spec) + Digits(Magnitude(value), Base(spec.kind), spec.kind == 'X'))
  }

  lemma Concat(a: string, b: string, c: string, d: string)
    ensures a + b + c + d == a + (b + c + d)
  {
  }

  /** Writing prefix and digits into the places left open completes the layout. */
  lemma Assemble(was: string, b: string, spec: Spec, sign: char, prefix: string, digits: string, e: nat)
    requires Prepared(b, was, spec, |SignOf(sign)| + |prefix| + |digits|, sign, e)
    ensures e < |b| && e + 1 >= |prefix| + |digits|
    ensures Replaced(Replaced(b, e + 1 - |digits|, digits), e + 1 - |digits| - |prefix|, prefix)
      == was + Layout(spec, SignOf(sign), prefix + digits)
    ensures prefix == "" ==> Replaced(b, e + 1 - |digits|, digits) == was + Layout(spec, SignOf(sign), prefix + digits)
  {
    hide Before, After;
    var one := Replaced(b, e + 1 - |digits|, digits);
    var k, body := e + 1 - |digits| - |prefix|, prefix + digits;
    assert Replaced(one, k, prefix) == b[..k] + body + b[e + 1..];
    Concat(was, Before(spec, |SignOf(sign)| + |body|, SignOf(sign)), body, After(spec, |SignOf(sign)| + |body|));
    if prefix == "" { assert Replaced(one, e + 1 - |digits|, prefix) == one; }
  }

  lemma PutPrefix(b: string, p: int, spec: Spec)
    requires p + 1 >= |Prefix(spec)| && p < |b| && Base(spec.kind) !in {0, 10}
    ensures Replaced(b, p + 1 - |Prefix(spec)|, Prefix(spec)) ==
      if !spec.hashFlag then b else if spec.kind == 'o' then b[p := '0'] else b[p := spec.kind][p - 1 := '0']
  {
  }

  /** The output read back: whoever strips padding, sign and prefix finds the value, and its length
      is the larger of the width and that content. */
  lemma OutputValue(value: int, spec: Spec)
    requires Base(spec.kind) != 0
    ensures var base := Base(spec.kind);
      var digits := Digits(Magnitude(value), base, spec.kind == 'X');
      && Output(value, spec) == Layout(spec, SignText(value, spec), Prefix(spec) + digits)
      && ValueOf(digits, base) * (if SignText(value, spec) == "-" then -1 else 1) == value
      && (Magnitude(value) > 0 ==> digits[0] != '0')
  {
    DigitsValue(Magnitude(value), Base(spec.kind), spec.kind == 'X');
  }
}
