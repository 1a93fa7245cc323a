/** The ranges of the eight integer types as powers of two, and texts of decimal digits as SafeTtoI
    reads them. */
module SafeIntLaws {
  import opened SafeInt
  import opened SafeIntMultiply
  import IntFormat

  function Pow2(n: nat): nat
  {
    if n == 0 then 1 else 2 * Pow2(n - 1)
  }

  lemma {:induction false} Pow2Sum(m: nat, n: nat)
    ensures Pow2(m + n) == Pow2(m) * Pow2(n)
  {
    if m > 0 {
      Pow2Sum(m - 1, n);
      assert Pow2(m) * Pow2(n) == 2 * (Pow2(m - 1) * Pow2(n));
    }
  }

  lemma Powers()
    ensures Pow2(7) == 0x80 && Pow2(8) == 0x100 && Pow2(15) == 0x8000 && Pow2(16) == 0x1_0000
    ensures Pow2(31) == 0x8000_0000 && Pow2(32) == 0x1_0000_0000
    ensures Pow2(63) == 0x8000_0000_0000_0000 && Pow2(64) == 0x1_0000_0000_0000_0000
  {
    assert Pow2(4) == 16 && Pow2(7) == 8 * Pow2(4) && Pow2(8) == 2 * Pow2(7);
    Pow2Sum(8, 7);
    Pow2Sum(8, 8);
    Pow2Sum(16, 15);
    Pow2Sum(16, 16);
    Pow2Sum(32, 31);
    Pow2Sum(32, 32);
  }

  function Width(t: IntType): nat
  {
    match t
    case I8 => 8 case I16 => 16 case I32 => 32 case I64 => 64
    case U8 => 8 case U16 => 16 case U32 => 32 case U64 => 64
  }

  /** A type of n bits holds -2^(n-1) to 2^(n-1) - 1 if it is signed, otherwise 0 to 2^n - 1. */
  lemma Ranges(t: IntType, x: int)
    ensures t.Bits() == Width(t) && (t.Signed() <==> t in {I8, I16, I32, I64})
    ensures t.Signed() ==> (t.Fits(x) <==> 0 <= 2 * x + Pow2(Width(t)) < 2 * Pow2(Width(t)))
    ensures !t.Signed() ==> (t.Fits(x) <==> 0 <= x < Pow2(Width(t)))
  {
    Powers();
  }

  /** Conversion keeps the residue modulo 2^n. */
  lemma Wraps(t: IntType, x: int)
    ensures Pow2(Width(t)) > 0 && t.Convert(x) % Pow2(Width(t)) == x % Pow2(Width(t))
  {
    Powers();
    Residue(x - t.Min(), t.Modulus(), t.Min());
  }

  lemma Residue(y: int, m: int, k: int)
    requires m > 0
    ensures (y % m + k) % m == (y + k) % m
  {
    var q := y / m;
    Shifted(y % m + k, m, q);
    assert y + k == y % m + k + m * q;
  }

  lemma Shifted(z: int, m: int, q: int)
    requires m > 0
    ensures (z + m * q) % m == z % m
  {
    var a, b := z / m, (z + m * q) / m;
    assert z + m * q == m * b + (z + m * q) % m;
    assert z == m * a + z % m;
    var d := b - a - q;
    assert m * d == z % m - (z + m * q) % m by { Spread(m, b, a, q); }
    SmallMultiple(m, d);
  }

  lemma Spread(m: int, b: int, a: int, q: int)
    ensures m * (b - a - q) == m * b - m * a - m * q
  {
  }

  lemma SmallMultiple(m: int, d: int)
    requires m > 0 && -m < m * d < m
    ensures d == 0
  {
  }

  // ---------- texts ----------

  /** A text as the codes of its characters. */
  function Codes(s: string): (r: seq<int>)
    ensures |r| == |s| && forall i :: 0 <= i < |s| ==> r[i] == s[i] as int
  {
    seq(|s|, i requires 0 <= i < |s| => s[i] as int)
  }

  predicate DigitRun(s: seq<int>, i: nat, j: nat)
    requires i <= j <= |s|
  {
    forall k :: i <= k < j ==> IsDigit(s[k])
  }

  /** The decimal value of a run of digits. */
  function RunValue(s: seq<int>, i: nat, j: nat): nat
    requires i <= j <= |s| && DigitRun(s, i, j)
  {
    Decimal(s, i, j)
  }

  /** What fmt writes for n is digits, and its value n. */
  lemma {:induction false} DigitsDecimal(n: nat, s: seq<int>, i: nat, j: nat)
    requires i <= j <= |s| && s[i..j] == Codes(IntFormat.Digits(n, 10, false))
    ensures DigitRun(s, i, j) && RunValue(s, i, j) == n
    decreases n
  {
    var m, d, front := DigitsSplit(n);
    DigitCode(d);
    hide IntFormat.DigitChar, IntFormat.Digits, Codes, RunValue, DigitRun, IsDigit;
    LastCode(s, i, j, front, IntFormat.DigitChar(d, false));
    if m > 0 { DigitsDecimal(m, s, i, j - 1); } else { NoRun(s, i); }
    LongerRun(s, i, j - 1, d);
  }

  lemma NoRun(s: seq<int>, i: nat)
    requires i <= |s|
    ensures DigitRun(s, i, i) && RunValue(s, i, i) == 0
  {
  }

  lemma LongerRun(s: seq<int>, i: nat, j: nat, d: nat)
    requires i <= j < |s| && DigitRun(s, i, j) && s[j] == 48 + d && d < 10
    ensures DigitRun(s, i, j + 1) && RunValue(s, i, j + 1) == RunValue(s, i, j) * 10 + d
  {
  }

  /** The last digit and those before it. */
  lemma DigitsSplit(n: nat) returns (m: nat, d: nat, front: string)
    ensures n == m * 10 + d && d < 10 && (m > 0 ==> m < n)
    ensures front == if m > 0 then IntFormat.Digits(m, 10, false) else ""
    ensures IntFormat.Digits(n, 10, false) == front + [IntFormat.DigitChar(d, false)]
  {
    hide IntFormat.DigitChar;
    m, d := n / 10, n % 10;
    front := if m > 0 then IntFormat.Digits(m, 10, false) else "";
  }

  lemma LastCode(s: seq<int>, i: nat, j: nat, front: string, c: char)
    requires i <= j <= |s| && s[i..j] == Codes(front + [c])
    ensures j == i + |front| + 1 && s[i..j - 1] == Codes(front) && s[j - 1] == c as int
  {
    assert s[i..j][..|front|] == s[i..j - 1] && s[i..j][|front|] == s[j - 1];
  }

  lemma DigitCode(d: nat)
    requires d < 10
    ensures IntFormat.DigitChar(d, false) as int == 48 + d
  {
  }

  lemma {:induction false} EndOfDigits(s: seq<int>, i: nat)
    requires i <= |s| && forall k :: i <= k < |s| ==> IsDigit(s[k])
    ensures DigitsEnd(s, i) == |s|
    decreases |s| - i
  {
    if i < |s| { EndOfDigits(s, i + 1); }
  }

  /** A plus sign in front makes no difference, and a text that begins with neither sign nor digit
      stands for zero. */
  lemma PlusAndOthers(n: nat, c: int, t: seq<int>)
    ensures ValueOf([43] + Codes(IntFormat.Digits(n, 10, false))) == n
    ensures c != 43 && c != 45 && !(48 <= c <= 57) ==> ValueOf([c] + t) == 0
  {
    hide Decimal;
    var digits := Codes(IntFormat.Digits(n, 10, false));
    var s := [43] + digits;
    assert s[1..|s|] == digits;
    DigitsDecimal(n, s, 1, |s|);
    EndOfDigits(s, 1);
    NoRun([c] + t, 0);
  }

  /** SafeTtoI reads back the decimal text of every integer. */
  lemma ReadsDecimal(value: int)
    ensures var digits := Codes(IntFormat.Digits(IntFormat.Magnitude(value), 10, false));
      ValueOf(if value < 0 then [45] + digits else digits) == value
  {
    hide Decimal, DigitsEnd;
    var n := IntFormat.Magnitude(value);
    var digits := Codes(IntFormat.Digits(n, 10, false));
    var s := if value < 0 then [45] + digits else digits;
    var i := if value < 0 then 1 else 0;
    assert s[i..|s|] == digits;
    DigitsDecimal(n, s, i, |s|);
    EndOfDigits(s, i);
    assert IsDigit(s[i]);
  }
}
