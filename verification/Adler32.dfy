/** adler32.c: Adler-32 with deferred modulo, and adler32_combine_ (section 8.2 of RFC 1950). */
module Adler32 {
  import opened Lz77
  import opened Wrappers

  const BASE := 65521
  const NMAX := 5552

  type UInt32 = n: nat | n < 0x1_0000_0000

  // ---------- the definition ----------

  datatype Sums = Sums(a: nat, b: nat)

  /** Both sums, reduced after every byte. */
  function Adler(start: Sums, s: seq<byte>): Sums
  {
    if s == [] then start else
      var p := Adler(start, s[..|s| - 1]);
      var a := (p.a + s[|s| - 1] as nat) % BASE;
      Sums(a, (p.b + a) % BASE)
  }

  function Pack(x: Sums): nat
  {
    x.a + 0x1_0000 * x.b
  }

  function Unpack(adler: UInt32): Sums
  {
    Sums(adler % 0x1_0000, adler / 0x1_0000 % 0x1_0000)
  }

  ghost predicate Reduced(x: Sums)
  {
    x.a < BASE && x.b < BASE
  }

  lemma UnpackPacked(x: Sums)
    requires Reduced(x)
    ensures Pack(x) < 0x1_0000_0000 && Unpack(Pack(x)) == x
  {
    assert Pack(x) / 0x1_0000 == x.b;
  }

  lemma {:induction false} AdlerReduced(start: Sums, s: seq<byte>)
    requires Reduced(start)
    ensures Reduced(Adler(start, s))
  {
  }

  // ---------- reduction without division ----------

  /** CHOP: 65536 is 15 modulo BASE. */
  function Chop(a: nat): nat
  {
    a % 0x1_0000 + 15 * (a / 0x1_0000)
  }

  function Mod28(a: nat): nat
  {
    if Chop(a) >= BASE then Chop(a) - BASE else Chop(a)
  }

  function Mod(a: nat): nat
  {
    Mod28(Chop(a))
  }

  /** MOD63: 2^32 is 225 modulo BASE. */
  function Mod63(a: nat): nat
  {
    Mod28(Chop(a % 0x1_0000_0000 + 225 * (a / 0x1_0000_0000)))
  }

  lemma ChopIsExact(a: nat)
    ensures Chop(a) % BASE == a % BASE
  {
    assert a == Chop(a) + BASE * (a / 0x1_0000);
  }

  lemma Mod28IsExact(a: nat)
    requires a < 0x1000_0000
    ensures Mod28(a) == a % BASE
  {
    ChopIsExact(a);
    assert Chop(a) < 2 * BASE;
  }

  lemma ModIsExact(a: UInt32)
    ensures Mod(a) == a % BASE
  {
    ChopIsExact(a);
    Mod28IsExact(Chop(a));
  }

  lemma FoldHigh(a: nat, q: nat, x: nat)
    requires a == q * 0x1_0000_0000 + (x - 225 * q)
    ensures x % BASE == a % BASE
  {
    assert a == x + BASE * (65551 * q);
  }

  lemma Mod63IsExact(a: nat)
    requires a < 0x8000_0000_0000_0000
    ensures Mod63(a) == a % BASE
  {
    var x, q := a % 0x1_0000_0000 + 225 * (a / 0x1_0000_0000), a / 0x1_0000_0000;
    FoldHigh(a, q, x);
    ChopIsExact(x);
    assert x < 0x100_0000_0000;
    hide Mod28;
    assert Chop(x) < 0x1000_0000;
    Mod28IsExact(Chop(x));
  }

  /** MOD as built with or without NO_DIVIDE. */
  function Reduce(a: UInt32, noDivide: bool): (r: nat)
    ensures r == a % BASE
  {
    ModIsExact(a);
    if noDivide then Mod(a) else a % BASE
  }

  // ---------- deferred modulo ----------

  /** Both sums without any reduction: what DO1 does. */
  function Plain(start: Sums, s: seq<byte>): Sums
  {
    if s == [] then start else
      var p := Plain(start, s[..|s| - 1]);
      var a := p.a + s[|s| - 1] as nat;
      Sums(a, p.b + a)
  }

  lemma {:induction false} PlainIsAdler(start: Sums, s: seq<byte>)
    requires Reduced(start)
    ensures Plain(start, s).a % BASE == Adler(start, s).a && Plain(start, s).b % BASE == Adler(start, s).b
  {
    if s != [] {
      var s', x := s[..|s| - 1], s[|s| - 1] as nat;
      PlainIsAdler(start, s');
      ModAdd(Plain(start, s').a, x);
      ModSum(Plain(start, s').b, Plain(start, s).a);
    }
  }

  lemma ModAdd(x: nat, y: nat)
    ensures (x % BASE + y) % BASE == (x + y) % BASE
  {
  }

  lemma ModSum(x: nat, y: nat)
    ensures (x % BASE + y % BASE) % BASE == (x + y) % BASE
  {
    ModAdd(x, y % BASE);
    ModAdd(y, x);
  }

  function Triangle(n: nat): nat
  {
    if n == 0 then 0 else Triangle(n - 1) + n
  }

  lemma {:induction false} TriangleClosed(n: nat)
    ensures 2 * Triangle(n) == n * (n + 1)
  {
    if n > 0 {
      TriangleClosed(n - 1);
      assert n * (n + 1) == (n - 1) * n + 2 * n;
    }
  }

  lemma {:induction false} PlainBound(start: Sums, s: seq<byte>)
    requires Reduced(start)
    ensures Plain(start, s).a <= BASE - 1 + 255 * |s|
    ensures Plain(start, s).b <= (BASE - 1) * (|s| + 1) + 255 * Triangle(|s|)
  {
    if s != [] {
      PlainBound(start, s[..|s| - 1]);
    }
  }

  lemma {:induction false} TriangleMono(m: nat, n: nat)
    requires m <= n
    ensures Triangle(m) <= Triangle(n)
    decreases n
  {
    if m < n {
      TriangleMono(m, n - 1);
    }
  }

  /** NMAX bytes cannot overflow 32 bits. */
  lemma BlockFits(start: Sums, s: seq<byte>)
    requires Reduced(start) && |s| <= NMAX
    ensures Plain(start, s).a < 0x1_0000_0000 && Plain(start, s).b < 0x1_0000_0000
  {
    PlainBound(start, s);
    TriangleMono(|s|, NMAX);
    TriangleClosed(NMAX);
  }

  /** The bound is reached by bytes of 255 behind the largest reduced sums. */
  lemma {:induction false} WorstCase(s: seq<byte>)
    requires forall i :: 0 <= i < |s| ==> s[i] == 255
    ensures var p := Plain(Sums(BASE - 1, BASE - 1), s);
      p.a == BASE - 1 + 255 * |s| && p.b == (BASE - 1) * (|s| + 1) + 255 * Triangle(|s|)
  {
    if s != [] {
      WorstCase(s[..|s| - 1]);
    }
  }

  /** One byte more than NMAX can overflow: NMAX is the largest block length. */
  lemma NmaxIsLargest(s: seq<byte>)
    requires |s| == NMAX + 1 && forall i :: 0 <= i < |s| ==> s[i] == 255
    ensures Plain(Sums(BASE - 1, BASE - 1), s).b >= 0x1_0000_0000
  {
    WorstCase(s);
    TriangleClosed(NMAX + 1);
  }

  lemma {:induction false} AdlerAdd(start: Sums, s: seq<byte>, t: seq<byte>)
    ensures Adler(start, s + t) == Adler(Adler(start, s), t)
    decreases |t|
  {
    if t == [] {
      assert s + t == s;
    } else {
      AdlerAdd(start, s, t[..|t| - 1]);
      assert (s + t)[..|s + t| - 1] == s + t[..|t| - 1];
    }
  }

  // ---------- adler32_z ----------

  /** n bytes without reduction, sixteen to a round as long as there are sixteen. */
  method SumBytes(buf: seq<byte>, at: nat, n: nat, adler0: UInt32, sum0: UInt32) returns (adler: UInt32, sum2: UInt32)
    requires at + n <= |buf| && n <= NMAX && Reduced(Sums(adler0, sum0))
    ensures Sums(adler, sum2) == Plain(Sums(adler0, sum0), buf[at..at + n])
  {
    ghost var start, s := Sums(adler0, sum0), buf[at..at + n];
    adler, sum2 := adler0, sum0;
    var i := 0;
    assert s[..0] == [];
    while n - i >= 16
      invariant i <= n && Sums(adler, sum2) == Plain(start, s[..i])
    {
      ghost var from := i;
      for k := 0 to 16
        invariant i == from + k && from + 16 <= n && Sums(adler, sum2) == Plain(start, s[..i])
      {
        adler, sum2 := AddByte(start, s, i, adler, sum2, buf[at + i]);
        i := i + 1;
      }
    }
    while i < n
      invariant i <= n && Sums(adler, sum2) == Plain(start, s[..i])
    {
      adler, sum2 := AddByte(start, s, i, adler, sum2, buf[at + i]);
      i := i + 1;
    }
    assert s[..n] == s;
  }

  /** DO1; the 32-bit sums do not overflow. */
  method AddByte(ghost start: Sums, ghost s: seq<byte>, ghost i: nat, adler0: UInt32, sum0: UInt32, x: byte)
    returns (adler: UInt32, sum2: UInt32)
    requires Reduced(start) && i < |s| <= NMAX && x == s[i] && Sums(adler0, sum0) == Plain(start, s[..i])
    ensures Sums(adler, sum2) == Plain(start, s[..i + 1])
  {
    assert s[..i + 1][..i] == s[..i];
    BlockFits(start, s[..i + 1]);
    adler := adler0 + x as nat;
    sum2 := sum0 + adler;
  }

  /** adler32_z on reduced sums is the definition, by whatever path the length selects; no buffer
      gives the initial value. */
  method Adler32Z(adler0: UInt32, buf: Option<seq<byte>>, noDivide: bool) returns (r: nat)
    requires Reduced(Unpack(adler0))
    ensures r == if buf.None? then 1 else Pack(Adler(Unpack(adler0), buf.value))
  {
    var sum2: UInt32 := adler0 / 0x1_0000 % 0x1_0000;
    var adler: UInt32 := adler0 % 0x1_0000;
    if buf.None? { return 1; }
    hide Adler, Plain;
    var s := buf.value;
    if |s| == 1 {
      r := OneByte(s, adler, sum2);
    } else if |s| < 16 {
      ghost var start := Sums(adler, sum2);
      adler, sum2 := SumBytes(s, 0, |s|, adler, sum2);
      assert s[0..0 + |s|] == s;
      r := ShortResult(start, s, adler, sum2, noDivide);
    } else {
      r := LongResult(s, adler, sum2, noDivide);
    }
  }

  /** A single byte. */
  method OneByte(s: seq<byte>, adler0: UInt32, sum0: UInt32) returns (r: nat)
    requires |s| == 1 && Reduced(Sums(adler0, sum0))
    ensures r == Pack(Adler(Sums(adler0, sum0), s))
  {
    AdlerOfByte(Sums(adler0, sum0), s);
    hide Adler;
    var adler, sum2 := adler0 + s[0] as nat, sum0;
    SubtractOnce(adler);
    if adler >= BASE { adler := adler - BASE; }
    sum2 := sum2 + adler;
    SubtractOnce(sum2);
    if sum2 >= BASE { sum2 := sum2 - BASE; }
    return adler + 0x1_0000 * sum2;
  }

  lemma AdlerOfByte(start: Sums, s: seq<byte>)
    requires |s| == 1
    ensures var a := (start.a + s[0] as nat) % BASE;
      Adler(start, s) == Sums(a, (start.b + a) % BASE)
  {
    assert s[..0] == [];
  }

  lemma SubtractOnce(x: nat)
    requires x < 2 * BASE
    ensures x % BASE == if x >= BASE then x - BASE else x
  {
  }

  /** Blocks of NMAX bytes, one modulo each, and the rest. */
  method LongResult(s: seq<byte>, adler0: UInt32, sum0: UInt32, noDivide: bool) returns (r: nat)
    requires Reduced(Sums(adler0, sum0))
    ensures r == Pack(Adler(Sums(adler0, sum0), s))
  {
    ghost var start := Sums(adler0, sum0);
    var adler, sum2, i := adler0, sum0, 0;
    assert s[..0] == [];
    while |s| - i >= NMAX
      invariant i <= |s| && Sums(adler, sum2) == Adler(start, s[..i]) && Reduced(Sums(adler, sum2))
    {
      hide Adler;
      adler, sum2 := SumBlock(start, s, i, NMAX, adler, sum2, noDivide);
      i := i + NMAX;
    }
    if i < |s| {
      hide Adler;
      adler, sum2 := SumBlock(start, s, i, |s| - i, adler, sum2, noDivide);
    }
    assert s[..|s|] == s;
    return adler + 0x1_0000 * sum2;
  }

  /** One block with the modulo behind it. */
  method SumBlock(ghost start: Sums, s: seq<byte>, i: nat, n: nat, adler0: UInt32, sum0: UInt32, noDivide: bool)
    returns (adler: UInt32, sum2: UInt32)
    requires i + n <= |s| && n <= NMAX && Reduced(Sums(adler0, sum0)) && Sums(adler0, sum0) == Adler(start, s[..i])
    ensures Sums(adler, sum2) == Adler(start, s[..i + n]) && Reduced(Sums(adler, sum2))
  {
    adler, sum2 := SumBytes(s, i, n, adler0, sum0);
    PlainIsAdler(Sums(adler0, sum0), s[i..i + n]);
    AdlerReduced(Sums(adler0, sum0), s[i..i + n]);
    AdlerAdd(start, s[..i], s[i..i + n]);
    assert s[..i] + s[i..i + n] == s[..i + n];
    adler := Reduce(adler, noDivide);
    sum2 := Reduce(sum2, noDivide);
    ModOfReduced(Adler(Sums(adler0, sum0), s[i..i + n]));
  }

  lemma ModOfReduced(x: Sums)
    requires Reduced(x)
    ensures x.a % BASE == x.a && x.b % BASE == x.b
  {
  }

  /** Fewer than 16 bytes: adler is less than two BASEs, sum2 less than 2^28. */
  method ShortResult(ghost start: Sums, ghost s: seq<byte>, adler0: UInt32, sum0: UInt32, noDivide: bool) returns (r: nat)
    requires Reduced(start) && |s| < 16 && Sums(adler0, sum0) == Plain(start, s)
    ensures r == Pack(Adler(start, s))
  {
    hide Plain, Adler, Mod28;
    PlainIsAdler(start, s);
    AdlerReduced(start, s);
    PlainBound(start, s);
    TriangleMono(|s|, 15);
    TriangleClosed(15);
    ModOfReduced(Adler(start, s));
    var adler, sum2 := adler0, sum0;
    if adler >= BASE { adler := adler - BASE; }
    Mod28IsExact(sum2);
    sum2 := if noDivide then Mod28(sum2) else sum2 % BASE;
    return adler + 0x1_0000 * sum2;
  }

  // ---------- adler32_combine_ ----------

  /** Plain sums are affine in the start: the bytes add a fixed amount to the first sum, and the
      second gains the first once per byte. */
  lemma {:induction false} PlainAffine(a: nat, b: nat, s: seq<byte>)
    ensures var p, q := Plain(Sums(a, b), s), Plain(Sums(0, 0), s);
      p.a == a + q.a && p.b == b + |s| * a + q.b
  {
    if s != [] {
      PlainAffine(a, b, s[..|s| - 1]);
      assert |s| * a == (|s| - 1) * a + a;
    }
  }

  /** What adler32_combine_ computes, modulo BASE. */
  lemma AdlerOfSum(s: seq<byte>, t: seq<byte>)
    ensures var x, y, z := Adler(Sums(1, 0), s), Adler(Sums(1, 0), t), Adler(Sums(1, 0), s + t);
      && z.a == (x.a + y.a + BASE - 1) % BASE
      && z.b == (|t| * x.a + x.b + y.b + BASE - |t| % BASE) % BASE
  {
    hide Adler, Plain;
    var x, y, q := Adler(Sums(1, 0), s), Adler(Sums(1, 0), t), Plain(Sums(0, 0), t);
    AdlerReduced(Sums(1, 0), s);
    AdlerReduced(Sums(1, 0), t);
    AdlerReduced(x, t);
    AdlerAdd(Sums(1, 0), s, t);
    PlainIsAdler(x, t);
    PlainIsAdler(Sums(1, 0), t);
    PlainAffine(x.a, x.b, t);
    PlainAffine(1, 0, t);
    ModOfReduced(Adler(x, t));
    ModOfReduced(y);
    Shifted(x.a, y.a, 1 + q.a);
    ShiftedLength(|t| * x.a + x.b, y.b, |t|, q.b);
  }

  lemma Shifted(x: nat, y: nat, p: nat)
    requires y == p % BASE && p >= 1
    ensures (x + p - 1) % BASE == (x + y + BASE - 1) % BASE
  {
    assert x + p - 1 == x + y + BASE - 1 + BASE * (p / BASE - 1);
  }

  lemma ShiftedLength(x: nat, y: nat, n: nat, q: nat)
    requires y == (n + q) % BASE
    ensures (x + q) % BASE == (x + y + BASE - n % BASE) % BASE
  {
    assert x + q == x + y + BASE - n % BASE + BASE * ((n + q) / BASE - n / BASE - 1);
  }

  /** adler32_combine_: from the checksums of two strings, and the length of the second, the checksum of
      the strings put together; every intermediate value fits 32 bits and the subtractions reduce both
      sums fully. */
  method Combine(adler1: UInt32, adler2: UInt32, len2: int, noDivide: bool) returns (r: UInt32)
    requires Reduced(Unpack(adler1)) && Reduced(Unpack(adler2)) && len2 < 0x8000_0000_0000_0000
    ensures len2 < 0 ==> r == 0xffff_ffff
    ensures len2 >= 0 ==> r == Pack(Combined(Unpack(adler1), Unpack(adler2), len2))
    ensures forall s, t :: |t| == len2 && adler1 == Checksum(s) && adler2 == Checksum(t) ==> r == Checksum(s + t)
  {
    hide Combined, Mod63, Pack, Checksum;
    forall s: seq<byte>, t: seq<byte> | |t| == len2 && adler1 == Checksum(s) && adler2 == Checksum(t)
      ensures Pack(Combined(Unpack(adler1), Unpack(adler2), len2)) == Checksum(s + t)
    {
      ChecksumsCombined(s, t);
    }
    if len2 < 0 { return 0xffff_ffff; }
    Mod63IsExact(len2);
    var rem: UInt32 := if noDivide then Mod63(len2) else len2 % BASE;
    var sum1: UInt32 := adler1 % 0x1_0000;
    ghost var x, y := Unpack(adler1), Unpack(adler2);
    ProductFits(rem, sum1);
    var sum2: UInt32 := rem * sum1;
    sum2 := Reduce(sum2, noDivide);
    RemainderOfProduct(len2, sum1);
    sum1 := sum1 + adler2 % 0x1_0000 + BASE - 1;
    sum2 := sum2 + adler1 / 0x1_0000 % 0x1_0000 + adler2 / 0x1_0000 % 0x1_0000 + BASE - rem;
    assert sum1 == x.a + y.a + BASE - 1 && sum2 == (len2 * x.a) % BASE + x.b + y.b + BASE - len2 % BASE;
    r := Finish(x, y, len2, sum1, sum2);
  }

  /** The sums adler32_combine_ stands for. */
  function Combined(x: Sums, y: Sums, n: nat): Sums
  {
    Sums((x.a + y.a + BASE - 1) % BASE, (n * x.a + x.b + y.b + BASE - n % BASE) % BASE)
  }

  /** The conditional subtractions. */
  method Finish(ghost x: Sums, ghost y: Sums, ghost n: nat, s1: UInt32, s2: UInt32) returns (r: UInt32)
    requires Reduced(x) && Reduced(y)
    requires s1 == x.a + y.a + BASE - 1 && s2 == (n * x.a) % BASE + x.b + y.b + BASE - n % BASE
    ensures r == Pack(Combined(x, y, n))
  {
    hide Combined;
    assert Combined(x, y, n) == Sums(s1 % BASE, s2 % BASE) by { CombinedIs(x, y, n, s1, s2); }
    var sum1 := FirstSum(s1);
    var sum2 := SecondSum(s2);
    return sum1 + 0x1_0000 * sum2;
  }

  lemma CombinedIs(x: Sums, y: Sums, n: nat, s1: nat, s2: nat)
    requires Reduced(x) && Reduced(y)
    requires s1 == x.a + y.a + BASE - 1 && s2 == (n * x.a) % BASE + x.b + y.b + BASE - n % BASE
    ensures Combined(x, y, n) == Sums(s1 % BASE, s2 % BASE)
  {
    ModAdd(n * x.a, x.b + y.b + BASE - n % BASE);
  }

  method FirstSum(s1: UInt32) returns (sum1: UInt32)
    requires s1 < 3 * BASE
    ensures sum1 == s1 % BASE
  {
    sum1 := s1;
    if sum1 >= BASE { sum1 := sum1 - BASE; }
    if sum1 >= BASE { sum1 := sum1 - BASE; }
    FullyReduced(s1, sum1);
  }

  method SecondSum(s2: UInt32) returns (sum2: UInt32)
    requires s2 < 4 * BASE
    ensures sum2 == s2 % BASE
  {
    sum2 := s2;
    if sum2 >= 2 * BASE { sum2 := sum2 - 2 * BASE; }
    if sum2 >= BASE { sum2 := sum2 - BASE; }
    FullyReduced(s2, sum2);
  }

  lemma FullyReduced(from: nat, to: nat)
    requires to < BASE && (to == from || to == from - BASE || to == from - 2 * BASE || to == from - 3 * BASE)
    ensures to == from % BASE
  {
  }

  lemma ProductFits(x: nat, y: nat)
    requires x < BASE && y < BASE
    ensures x * y < 0x1_0000_0000
  {
    ProductMono(x, 0x1_0000, y);
  }

  lemma ProductMono(x: nat, c: nat, y: nat)
    requires x <= c
    ensures x * y <= c * y
  {
  }

  lemma RemainderOfProduct(n: nat, a: nat)
    ensures (n % BASE * a) % BASE == (n * a) % BASE
  {
    var q := n / BASE;
    assert n * a == n % BASE * a + BASE * (q * a) by {
      assert n == n % BASE + BASE * q;
    }
    ModMultiple(n % BASE * a, q * a);
  }

  lemma ModMultiple(x: nat, k: nat)
    ensures (x + BASE * k) % BASE == x % BASE
  {
  }

  /** What adler32 makes of a string from the initial value, 1. */
  function Checksum(s: seq<byte>): nat
  {
    Pack(Adler(Sums(1, 0), s))
  }

  /** The checksums of no bytes and of "abc". */
  lemma CheckValue()
    ensures Checksum([]) == 1 && Checksum([97, 98, 99]) == 0x024d_0127
  {
    var s: seq<byte> := [97, 98, 99];
    assert s[..0] == [] && s[..1] == [97] && s[..2] == [97, 98];
    assert s[..2][..1] == s[..1] && s[..1][..0] == [];
    assert Adler(Sums(1, 0), s[..1]) == Sums(98, 98);
    assert Adler(Sums(1, 0), s[..2]) == Sums(196, 294);
    assert Adler(Sums(1, 0), s) == Sums(295, 589);
  }

  lemma ChecksumsCombined(s: seq<byte>, t: seq<byte>)
    ensures Checksum(s) < 0x1_0000_0000 && Checksum(t) < 0x1_0000_0000
    ensures Pack(Combined(Unpack(Checksum(s)), Unpack(Checksum(t)), |t|)) == Checksum(s + t)
  {
    hide Pack, Unpack, Combined, Adler;
    AdlerReduced(Sums(1, 0), s);
    AdlerReduced(Sums(1, 0), t);
    UnpackPacked(Adler(Sums(1, 0), s));
    UnpackPacked(Adler(Sums(1, 0), t));
    CombineIsConcatenation(s, t);
  }

  /** adler32_combine is concatenation, whatever the strings. */
  lemma CombineIsConcatenation(s: seq<byte>, t: seq<byte>)
    ensures Combined(Adler(Sums(1, 0), s), Adler(Sums(1, 0), t), |t|) == Adler(Sums(1, 0), s + t)
  {
    AdlerOfSum(s, t);
  }
}
