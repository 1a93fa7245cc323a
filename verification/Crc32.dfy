/** crc32.c: the table-driven CRC-32 and the shift register it refines (section 8 of RFC 1952). */
module Crc32 {
  import opened Lz77
  import opened Wrappers

  /** x^32 mod p, lowest power in the most significant bit. */
  const POLY: bv32 := 0xedb88320

  // ---------- the shift register ----------

  /** Multiply the register by x, mod p. */
  function Bit(c: bv32): bv32
  {
    if c & 1 == 1 then POLY ^ (c >> 1) else c >> 1
  }

  function Bits(n: nat, c: bv32): bv32
  {
    if n == 0 then c else Bits(n - 1, Bit(c))
  }

  /** Feed the n lowest bits of b, least significant first: x^32 joins the register for a one. */
  function Serial(n: nat, c: bv32, b: bv32): bv32
  {
    if n == 0 then c else Serial(n - 1, Bit(Xor(c, b & 1)), Half(b))
  }

  /** The register after a byte string, bit by bit. */
  function Register(c: bv32, s: seq<byte>): bv32
  {
    if s == [] then c else Serial(8, Register(c, s[..|s| - 1]), s[|s| - 1] as bv32)
  }

  /** The running CRC: the register is kept inverted between calls. */
  function Crc(crc: bv32, s: seq<byte>): bv32
  {
    Not(Register(Not(crc), s))
  }

  function Not(c: bv32): bv32
  {
    c ^ 0xffff_ffff
  }

  // ---------- linearity ----------

  /** Addition of polynomials over GF(2), under a name that proofs can treat as a symbol. */
  function Xor(a: bv32, b: bv32): bv32
  {
    a ^ b
  }

  lemma BitLinear(a: bv32, b: bv32)
    ensures Bit(Xor(a, b)) == Xor(Bit(a), Bit(b))
  {
    if a & 1 == 0 && b & 1 == 0 {
      BitLinearEven(a, b);
    } else if a & 1 == 0 {
      BitLinearMixed(a, b);
    } else if b & 1 == 0 {
      BitLinearMixed(b, a);
      assert a ^ b == b ^ a && Bit(a) ^ Bit(b) == Bit(b) ^ Bit(a);
    } else {
      BitLinearOdd(a, b);
    }
  }

  lemma BitLinearEven(a: bv32, b: bv32)
    requires a & 1 == 0 && b & 1 == 0
    ensures Bit(a ^ b) == Bit(a) ^ Bit(b)
  {
    ShiftLinear(a, b);
  }

  lemma BitLinearOdd(a: bv32, b: bv32)
    requires a & 1 == 1 && b & 1 == 1
    ensures Bit(a ^ b) == Bit(a) ^ Bit(b)
  {
    ShiftLinear(a, b);
  }

  lemma BitLinearMixed(a: bv32, b: bv32)
    requires a & 1 == 0 && b & 1 == 1
    ensures Bit(a ^ b) == Bit(a) ^ Bit(b)
  {
    ShiftLinear(a, b);
  }

  lemma ShiftLinear(a: bv32, b: bv32)
    ensures (a ^ b) >> 1 == (a >> 1) ^ (b >> 1) && (a ^ b) & 1 == (a & 1) ^ (b & 1)
  {
  }

  lemma {:induction false} BitsLinear(n: nat, a: bv32, b: bv32)
    ensures Bits(n, Xor(a, b)) == Xor(Bits(n, a), Bits(n, b))
  {
    hide Bit, Xor;
    if n > 0 {
      BitLinear(a, b);
      BitsLinear(n - 1, Bit(a), Bit(b));
    }
  }

  lemma {:induction false} BitsAdd(m: nat, n: nat, c: bv32)
    ensures Bits(m + n, c) == Bits(n, Bits(m, c))
  {
    hide Bit;
    if m > 0 {
      BitsAdd(m - 1, n, Bit(c));
    }
  }

  lemma BitOfEven(c: bv32)
    requires c & 1 == 0
    ensures Bit(c) == c >> 1
  {
  }

  /** Low bits that are zero are shifted out without effect. */
  lemma EightZeros(c: bv32)
    requires c & 0xff == 0
    ensures Bits(8, c) == c >> 8
  {
    hide Bit, Bits;
    FourZeros(c);
    assert (c >> 4) & 0xf == 0;
    FourZeros(c >> 4);
    BitsAdd(4, 4, c);
    ShiftsAdd(c);
  }

  lemma FourZeros(c: bv32)
    requires c & 0xf == 0
    ensures Bits(4, c) == c >> 4
  {
    hide Bit, Bits;
    assert c & 3 == 0 && (c >> 2) & 3 == 0;
    TwoZeros(c);
    TwoZeros(c >> 2);
    BitsAdd(2, 2, c);
    ShiftsAdd(c);
  }

  lemma ShiftsAdd(c: bv32)
    ensures (c >> 2) >> 2 == c >> 4 && (c >> 4) >> 4 == c >> 8
  {
  }

  lemma TwoZeros(c: bv32)
    requires c & 3 == 0
    ensures Bits(2, c) == c >> 2
  {
    hide Bit;
    BitOfEven(c);
    BitOfEven(c >> 1);
    assert Bits(2, c) == Bits(1, c >> 1) == Bits(0, c >> 2);
  }

  function Half(v: bv32): bv32
  {
    v >> 1
  }

  /** b has no more than n significant bits. */
  ghost predicate Fits(n: nat, b: bv32)
  {
    if n == 0 then b == 0 else Fits(n - 1, Half(b))
  }

  lemma XorAssoc(a: bv32, b: bv32, c: bv32)
    ensures Xor(Xor(a, b), c) == Xor(a, Xor(b, c))
  {
  }

  lemma LowAndHigh(b: bv32)
    ensures Xor(b & 1, b & 0xffff_fffe) == b
    ensures (b & 0xffff_fffe) >> 1 == b >> 1 && (b & 0xffff_fffe) & 1 == 0
  {
  }

  lemma SplitLowBit(c: bv32, b: bv32)
    ensures Xor(Bit(Xor(c, b & 1)), Half(b)) == Bit(Xor(c, b))
  {
    hide Bit, Xor;
    LowAndHigh(b);
    XorAssoc(c, b & 1, b & 0xffff_fffe);
    BitOfEven(b & 0xffff_fffe);
    BitLinear(Xor(c, b & 1), b & 0xffff_fffe);
  }

  /** Feeding bits one at a time is adding them all to the register and shifting. */
  lemma {:induction false} SerialIsBits(n: nat, c: bv32, b: bv32)
    requires Fits(n, b)
    ensures Serial(n, c, b) == Bits(n, Xor(c, b))
  {
    if n > 0 {
      hide Bit, Xor;
      SplitLowBit(c, b);
      SerialIsBits(n - 1, Bit(Xor(c, b & 1)), Half(b));
    }
  }

  lemma SerialByte(c: bv32, b: byte)
    ensures Serial(8, c, b as bv32) == Bits(8, Xor(c, b as bv32))
  {
    hide Bit, Xor;
    var x := b as bv32;
    assert Fits(8, x) by {
      assert Fits(0, x >> 8);
      assert Fits(4, x >> 4) == Fits(3, x >> 5) == Fits(2, x >> 6) == Fits(1, x >> 7) == Fits(0, x >> 8);
      assert Fits(8, x) == Fits(7, x >> 1) == Fits(6, x >> 2) == Fits(5, x >> 3) == Fits(4, x >> 4);
    }
    SerialIsBits(8, c, x);
  }

  // ---------- the tables ----------

  /** ZSWAP32. */
  function Swap(q: bv32): bv32
  {
    ((q >> 24) & 0xff) + ((q >> 8) & 0xff00) + ((q & 0xff00) << 8) + ((q & 0xff) << 24)
  }

  /** The low byte of c as a table index. */
  function Low(c: bv32): nat
  {
    (c & 0xff) as nat
  }

  lemma LowIsIndex(c: bv32)
    ensures Low(c) < 256 && Low(c) as bv32 == LowByte(c)
  {
    ByteValue(c & 0xff);
  }

  lemma ByteValue(x: bv32)
    requires x < 0x100
    ensures x as nat < 256 && (x as nat) as bv32 == x
  {
    var n := x as nat;
    assert n as bv32 == x;
  }

  /** Row k < 4 holds the register after k + 1 bytes of which only the first, n, is not zero; the
      byte-reversed registers follow. */
  function Entry(k: nat, n: nat): bv32
    requires k < 8 && n < 256
  {
    if k < 4 then Bits(8 * (k + 1), n as bv32) else Swap(Bits(8 * (k - 3), n as bv32))
  }

  ghost predicate TablesOk(table: array2<bv32>)
    reads table
  {
    && table.Length0 == 8 && table.Length1 == 256
    && forall k, n :: 0 <= k < 8 && 0 <= n < 256 ==> table[k, n] == Entry(k, n)
  }

  lemma XorComm(a: bv32, b: bv32)
    ensures Xor(a, b) == Xor(b, a)
  {
  }

  lemma LowAndRest(x: bv32)
    ensures Xor(x & 0xff, x & 0xffff_ff00) == x && (x & 0xffff_ff00) >> 8 == x >> 8 && (x & 0xffff_ff00) & 0xff == 0
  {
  }

  /** Eight shifts are a table look-up on the low byte and a shift by eight. */
  lemma ByteStep(x: bv32)
    ensures Bits(8, x) == Xor(Bits(8, Low(x) as bv32), x >> 8)
  {
    hide Bit, Xor, Low;
    LowIsIndex(x);
    LowAndRest(x);
    BitsLinear(8, x & 0xff, x & 0xffff_ff00);
    EightZeros(x & 0xffff_ff00);
  }

  /** make_crc_table: the first table bit by bit, the others column by column from it. */
  method MakeCrcTable() returns (table: array2<bv32>)
    ensures fresh(table) && TablesOk(table)
  {
    hide Entry;
    table := new bv32[8, 256];
    for n := 0 to 256
      invariant forall i :: 0 <= i < n ==> table[0, i] == Entry(0, i)
    {
      table[0, n] := ByteRegister(n);
    }
    for n := 0 to 256
      invariant forall i :: 0 <= i < 256 ==> table[0, i] == Entry(0, i)
      invariant forall k, i :: 0 <= k < 8 && 0 <= i < n ==> table[k, i] == Entry(k, i)
    {
      FillColumn(table, n);
    }
  }

  method ByteRegister(n: nat) returns (c: bv32)
    requires n < 256
    ensures c == Entry(0, n)
  {
    hide Bit;
    c := n as bv32;
    for k := 0 to 8
      invariant Bits(8 - k, c) == Bits(8, n as bv32)
    {
      c := Bit(c);
    }
  }

  method FillColumn(table: array2<bv32>, n: nat)
    requires table.Length0 == 8 && table.Length1 == 256 && n < 256
    requires forall i :: 0 <= i < 256 ==> table[0, i] == Entry(0, i)
    modifies table
    ensures forall k :: 0 <= k < 8 ==> table[k, n] == Entry(k, n)
    ensures forall k, i :: 0 <= k < 8 && 0 <= i < 256 && i != n ==> table[k, i] == old(table[k, i])
  {
    hide Swap, Entry;
    for k := 0 to 4
      invariant forall i :: 0 <= i < 256 ==> table[0, i] == Entry(0, i)
      invariant forall j :: 0 <= j < k || 4 <= j < k + 4 ==> table[j, n] == Entry(j, n)
      invariant forall j, i :: 0 <= j < 8 && 0 <= i < 256 && i != n ==> table[j, i] == old(table[j, i])
    {
      var c := TableEntry(table, k, n);
      SwappedEntry(k, n);
      table[k, n] := c;
      table[k + 4, n] := Swap(c);
    }
  }

  /** The entry of row k from the one above it. */
  method TableEntry(table: array2<bv32>, k: nat, n: nat) returns (c: bv32)
    requires table.Length0 == 8 && table.Length1 == 256 && k < 4 && n < 256
    requires forall i :: 0 <= i < 256 ==> table[0, i] == Entry(0, i)
    requires k > 0 ==> table[k - 1, n] == Entry(k - 1, n)
    ensures c == Entry(k, n)
  {
    hide Xor, Low, Entry;
    if k == 0 { return table[0, n]; }
    NextEntry(k, n);
    c := table[k - 1, n];
    c := Xor(table[0, Low(c)], c >> 8);
  }

  /** One more zero byte behind a table entry. */
  lemma NextEntry(k: nat, n: nat)
    requires 1 <= k < 4 && n < 256
    ensures var c := Entry(k - 1, n);
      Low(c) < 256 && Entry(k, n) == Xor(Entry(0, Low(c)), c >> 8)
  {
    hide Bit, Xor, Low, Swap;
    var c := Entry(k - 1, n);
    LowIsIndex(c);
    ByteStep(c);
    BitsAdd(8 * k, 8, n as bv32);
  }

  lemma SwappedEntry(k: nat, n: nat)
    requires k < 4 && n < 256
    ensures Entry(k + 4, n) == Swap(Entry(k, n))
  {
    hide Bit, Swap;
  }

  // ---------- four bytes at a time ----------

  /** Four bytes as a little-endian load sees them: each at its own place. */
  function Word(b0: byte, b1: byte, b2: byte, b3: byte): bv32
  {
    Xor(Xor(Xor(b0 as bv32, (b1 as bv32) << 8), (b2 as bv32) << 16), (b3 as bv32) << 24)
  }

  function Shr8(x: bv32): bv32
  {
    x >> 8
  }

  function LowByte(x: bv32): bv32
  {
    x & 0xff
  }

  /** Of n + 8 shifts, the low byte takes part in all, the rest in n. */
  lemma PeelByte(n: nat, x: bv32)
    ensures Bits(8 + n, x) == Xor(Bits(8 + n, LowByte(x)), Bits(n, Shr8(x)))
  {
    hide Bit, Bits, Xor;
    LowAndRest(x);
    BitsLinear(8 + n, x & 0xff, x & 0xffff_ff00);
    BitsAdd(8, n, x & 0xffff_ff00);
    EightZeros(x & 0xffff_ff00);
  }

  /** What the four look-ups of DOLIT4 add up to. */
  function Lookup4(x: bv32): bv32
  {
    Xor(Xor(Xor(Bits(32, LowByte(x)), Bits(24, LowByte(Shr8(x)))), Bits(16, LowByte(Shr8(Shr8(x))))),
        Bits(8, LowByte(Shr8(Shr8(Shr8(x))))))
  }

  lemma FourLookups(x: bv32)
    ensures Lookup4(x) == Bits(32, x)
  {
    hide Bit, Xor, LowByte, Shr8, Bits;
    var x1 := Shr8(x);
    var x2 := Shr8(x1);
    var x3 := Shr8(x2);
    PeelByte(24, x);
    PeelByte(16, x1);
    PeelByte(8, x2);
    PeelByte(0, x3);
    ShiftedOut(x);
    NoBits(Shr8(x3));
    XorZero(Bits(8, LowByte(x3)));
    var a, b, c, d := Bits(32, LowByte(x)), Bits(24, LowByte(x1)), Bits(16, LowByte(x2)), Bits(8, LowByte(x3));
    XorAssoc(a, b, Xor(c, d));
    XorAssoc(Xor(a, b), c, d);
  }

  lemma NoBits(x: bv32)
    ensures Bits(0, x) == x
  {
  }

  lemma ShiftedOut(x: bv32)
    ensures Shr8(Shr8(Shr8(Shr8(x)))) == 0
  {
  }

  lemma XorZero(x: bv32)
    ensures Xor(x, 0) == x
  {
  }

  /** A byte that joins the register after n shifts may as well join it n bits higher before. */
  lemma FoldByte(n: nat, u: bv32, b: bv32, high: bv32)
    requires Bits(n, high) == b
    ensures Bits(8, Xor(Bits(n, u), b)) == Bits(n + 8, Xor(u, high))
  {
    hide Bit, Xor, Bits;
    BitsLinear(n, u, high);
    BitsAdd(n, 8, Xor(u, high));
  }

  lemma HighBytes(b: byte)
    ensures var x := b as bv32;
      Bits(8, x << 8) == x && Bits(16, x << 16) == x && Bits(24, x << 24) == x
  {
    hide Bit, Bits;
    var x := b as bv32;
    UpAndDown(x);
    EightZeros(x << 8);
    EightZeros(x << 16);
    EightZeros(x << 24);
    BitsAdd(8, 8, x << 16);
    BitsAdd(8, 16, x << 24);
  }

  lemma UpAndDown(x: bv32)
    requires x < 0x100
    ensures (x << 8) & 0xff == 0 && (x << 16) & 0xff == 0 && (x << 24) & 0xff == 0
    ensures (x << 8) >> 8 == x && (x << 16) >> 8 == x << 8 && (x << 24) >> 8 == x << 16
  {
  }

  lemma WordIsSum(c: bv32, b0: byte, b1: byte, b2: byte, b3: byte)
    ensures Xor(Xor(Xor(Xor(c, b0 as bv32), (b1 as bv32) << 8), (b2 as bv32) << 16), (b3 as bv32) << 24)
      == Xor(c, Word(b0, b1, b2, b3))
  {
    hide Xor;
    var x0, x1, x2, x3 := b0 as bv32, (b1 as bv32) << 8, (b2 as bv32) << 16, (b3 as bv32) << 24;
    XorAssoc(c, x0, x1);
    XorAssoc(c, Xor(x0, x1), x2);
    XorAssoc(c, Xor(Xor(x0, x1), x2), x3);
  }

  lemma RegisterByte(c: bv32, s: seq<byte>, b: byte)
    ensures Register(c, s + [b]) == Bits(8, Xor(Register(c, s), b as bv32))
  {
    hide Bit, Xor, Serial, Bits;
    assert (s + [b])[..|s + [b]| - 1] == s;
    SerialByte(Register(c, s), b);
  }

  lemma ByteByByte(c: bv32, s: seq<byte>, b0: byte, b1: byte, b2: byte, b3: byte)
    ensures Register(c, s + [b0, b1, b2, b3]) == Bits(8, Xor(Bits(8, Xor(Bits(8, Xor(Bits(8,
      Xor(Register(c, s), b0 as bv32)), b1 as bv32)), b2 as bv32)), b3 as bv32))
  {
    hide Xor, Bits, Register;
    RegisterByte(c, s, b0);
    RegisterByte(c, s + [b0], b1);
    RegisterByte(c, s + [b0] + [b1], b2);
    RegisterByte(c, s + [b0] + [b1] + [b2], b3);
    assert s + [b0] + [b1] + [b2] + [b3] == s + [b0, b1, b2, b3];
  }

  lemma FoldThree(u: bv32, x1: bv32, x2: bv32, x3: bv32, h1: bv32, h2: bv32, h3: bv32)
    requires Bits(8, h1) == x1 && Bits(16, h2) == x2 && Bits(24, h3) == x3
    ensures Bits(8, Xor(Bits(8, Xor(Bits(8, Xor(Bits(8, u), x1)), x2)), x3))
      == Bits(32, Xor(Xor(Xor(u, h1), h2), h3))
  {
    hide Xor, Bits;
    FoldByte(8, u, x1, h1);
    FoldByte(16, Xor(u, h1), x2, h2);
    FoldByte(24, Xor(Xor(u, h1), h2), x3, h3);
  }

  /** Four bytes fed one after the other are one word added and 32 shifts. */
  lemma FourBytes(c: bv32, s: seq<byte>, b0: byte, b1: byte, b2: byte, b3: byte)
    ensures Register(c, s + [b0, b1, b2, b3]) == Bits(32, Xor(Register(c, s), Word(b0, b1, b2, b3)))
  {
    hide Xor, Word, Bits, Register;
    var x1, x2, x3 := b1 as bv32, b2 as bv32, b3 as bv32;
    ByteByByte(c, s, b0, b1, b2, b3);
    HighBytes(b1);
    HighBytes(b2);
    HighBytes(b3);
    FoldThree(Xor(Register(c, s), b0 as bv32), x1, x2, x3, x1 << 8, x2 << 16, x3 << 24);
    WordIsSum(Register(c, s), b0, b1, b2, b3);
  }

  lemma {:induction false} RegisterAdd(c: bv32, s: seq<byte>, t: seq<byte>)
    ensures Register(c, s + t) == Register(Register(c, s), t)
    decreases |t|
  {
    hide Serial;
    if t == [] {
      assert s + t == s;
    } else {
      var t' := t[..|t| - 1];
      RegisterAdd(c, s, t');
      assert (s + t)[..|s + t| - 1] == s + t';
    }
  }

  // ---------- the loops over a buffer ----------

  lemma XorShift(c: bv32, b: byte)
    ensures Shr8(Xor(c, b as bv32)) == Shr8(c)
  {
  }

  /** DO1: one byte by one look-up. */
  method DoByte(table: array2<bv32>, c: bv32, b: byte) returns (r: bv32)
    requires TablesOk(table)
    ensures r == Bits(8, Xor(c, b as bv32))
  {
    hide Bit, Xor, Low, Shr8, Bits;
    var x := Xor(c, b as bv32);
    LowIsIndex(x);
    PeelByte(0, x);
    NoBits(Shr8(x));
    XorShift(c, b);
    r := Xor(table[0, Low(x)], Shr8(c));
  }

  /** DOLIT4: one word by four look-ups. */
  method DoLit4(table: array2<bv32>, c: bv32, w: bv32) returns (r: bv32)
    requires TablesOk(table)
    ensures r == Bits(32, Xor(c, w))
  {
    hide Bit, Xor, Low, Shr8, Bits, LowByte;
    var x := Xor(c, w);
    LowIsIndex(x);
    LowIsIndex(Shr8(x));
    LowIsIndex(Shr8(Shr8(x)));
    LowIsIndex(Shr8(Shr8(Shr8(x))));
    FourLookups(x);
    r := Xor(Xor(Xor(table[3, Low(x)], table[2, Low(Shr8(x))]), table[1, Low(Shr8(Shr8(x)))]),
             table[0, Low(Shr8(Shr8(Shr8(x))))]);
  }

  /** One byte joins the register of the prefix before it. */
  lemma NextByte(c: bv32, s: seq<byte>, i: nat)
    requires i < |s|
    ensures Register(c, s[..i + 1]) == Bits(8, Xor(Register(c, s[..i]), s[i] as bv32))
  {
    hide Bit, Xor, Serial, Bits, Register;
    assert s[..i + 1] == s[..i] + [s[i]];
    RegisterByte(c, s[..i], s[i]);
  }

  /** Four bytes join the register of the prefix before them. */
  lemma NextWord(c: bv32, s: seq<byte>, i: nat)
    requires i + 4 <= |s|
    ensures Register(c, s[..i + 4]) == Bits(32, Xor(Register(c, s[..i]), Word(s[i], s[i + 1], s[i + 2], s[i + 3])))
  {
    hide Bit, Xor, Serial, Bits, Register, Word;
    assert s[..i + 4] == s[..i] + [s[i], s[i + 1], s[i + 2], s[i + 3]];
    FourBytes(c, s[..i], s[i], s[i + 1], s[i + 2], s[i + 3]);
  }

  lemma EmptyPrefix(c: bv32, s: seq<byte>)
    ensures Register(c, s[..0]) == c
    ensures s[..|s|] == s
  {
  }

  /** n times DOLIT4. */
  method DoLit(table: array2<bv32>, ghost start: bv32, c0: bv32, buf: seq<byte>, at: nat, n: nat) returns (c: bv32)
    requires TablesOk(table) && at + 4 * n <= |buf| && c0 == Register(start, buf[..at])
    ensures c == Register(start, buf[..at + 4 * n])
  {
    hide Xor, Bits, Register, Word, TablesOk;
    c := c0;
    for k := 0 to n
      invariant c == Register(start, buf[..at + 4 * k])
    {
      var i := at + 4 * k;
      NextWord(start, buf, i);
      c := DoLit4(table, c, Word(buf[i], buf[i + 1], buf[i + 2], buf[i + 3]));
    }
  }

  /** crc32_little: single bytes up to a word boundary, then eight words, words and bytes at a time. */
  method Crc32Little(table: array2<bv32>, crc: bv32, buf: seq<byte>, addr: nat) returns (r: bv32)
    requires TablesOk(table)
    ensures r == Crc(crc, buf)
  {
    hide Xor, Bits, Register, Not, TablesOk;
    ghost var start := Not(crc);
    var c, i := Not(crc), 0;
    EmptyPrefix(start, buf);
    while i < |buf| && (addr + i) % 4 != 0
      invariant i <= |buf| && c == Register(start, buf[..i])
    {
      NextByte(start, buf, i);
      c := DoByte(table, c, buf[i]);
      i := i + 1;
    }
    while |buf| - i >= 32
      invariant i <= |buf| && c == Register(start, buf[..i])
    {
      c := DoLit(table, start, c, buf, i, 8);
      i := i + 32;
    }
    while |buf| - i >= 4
      invariant i <= |buf| && c == Register(start, buf[..i])
    {
      c := DoLit(table, start, c, buf, i, 1);
      i := i + 4;
    }
    while i < |buf|
      invariant i <= |buf| && c == Register(start, buf[..i])
    {
      NextByte(start, buf, i);
      c := DoByte(table, c, buf[i]);
      i := i + 1;
    }
    r := Not(c);
  }

  // ---------- the byte-reversed register of a big-endian machine ----------

  lemma SwapLinear(a: bv32, b: bv32)
    ensures Swap(Xor(a, b)) == Xor(Swap(a), Swap(b))
  {
  }

  lemma SwapTwice(a: bv32)
    ensures Swap(Swap(a)) == a && Swap(Not(a)) == Not(Swap(a))
  {
  }

  lemma SwapBytes(a: bv32)
    ensures Swap(Shr8(a)) == Swap(a) << 8 && Swap(a) >> 24 == LowByte(a)
    ensures LowByte(Swap(a)) == LowByte(Shr8(Shr8(Shr8(a)))) && LowByte(Shr8(Swap(a))) == LowByte(Shr8(Shr8(a)))
    ensures LowByte(Shr8(Shr8(Swap(a)))) == LowByte(Shr8(a)) 
    ensures LowByte(Shr8(Shr8(Shr8(Swap(a))))) == LowByte(a)
  {
  }

  lemma SwapTop(a: bv32, b: byte)
    ensures (Swap(a) >> 24) ^ (b as bv32) == LowByte(Xor(a, b as bv32))
  {
  }

  lemma XorReverse(a: bv32, b: bv32, c: bv32, d: bv32)
    ensures Xor(Xor(Xor(d, c), b), a) == Xor(Xor(Xor(a, b), c), d)
  {
    hide Xor;
    XorComm(Xor(Xor(d, c), b), a);
    XorComm(Xor(d, c), b);
    XorComm(d, c);
    XorAssoc(a, b, Xor(c, d));
    XorAssoc(Xor(a, b), c, d);
  }

  /** One byte into the reversed register: the top byte is the index, the rest moves up. */
  lemma BigByte(x: bv32, b: byte)
    ensures var y := Xor(x, b as bv32); TopIndex(Swap(x), b) == Low(y) < 256
    ensures var y := Xor(x, b as bv32); Swap(Bits(8, y)) == Xor(Swap(Bits(8, LowByte(y))), Swap(x) << 8)
  {
    hide Bit, Xor, Shr8, Bits, Swap, LowByte;
    var y := Xor(x, b as bv32);
    BigIndex(x, b);
    PeelByte(0, y);
    NoBits(Shr8(y));
    XorShift(x, b);
    SwapBytes(x);
    SwapLinear(Bits(8, LowByte(y)), Shr8(y));
  }

  lemma BigIndex(x: bv32, b: byte)
    ensures var y := Xor(x, b as bv32); TopIndex(Swap(x), b) == Low(y) < 256
  {
    hide Bits, Swap;
    SwapTop(x, b);
    LowIsIndex(Xor(x, b as bv32));
    hide Xor;
  }

  /** The byte step of crc32_big, on the reversed register. */
  method DoByteBig(table: array2<bv32>, ghost x: bv32, c: bv32, b: byte) returns (r: bv32)
    requires TablesOk(table) && c == Swap(x)
    ensures r == Swap(Bits(8, Xor(x, b as bv32)))
  {
    hide Bit, Xor, Shr8, Bits, Swap, LowByte, Low, TopIndex;
    BigByte(x, b);
    LowIsIndex(Xor(x, b as bv32));
    r := Xor(table[4, TopIndex(c, b)], c << 8);
  }

  function TopIndex(c: bv32, b: byte): nat
  {
    ((c >> 24) ^ (b as bv32)) as nat
  }

  /** The four look-ups of DOBIG4 are those of DOLIT4 in reverse, on reversed registers. */
  lemma BigLookups(y: bv32)
    ensures Xor(Xor(Xor(Swap(Bits(8, LowByte(Shr8(Shr8(Shr8(y)))))), Swap(Bits(16, LowByte(Shr8(Shr8(y)))))),
                    Swap(Bits(24, LowByte(Shr8(y))))), Swap(Bits(32, LowByte(y)))) == Swap(Bits(32, y))
  {
    hide Bit, Xor, Shr8, Bits, LowByte, Swap;
    var a, b, c, d := Bits(32, LowByte(y)), Bits(24, LowByte(Shr8(y))), Bits(16, LowByte(Shr8(Shr8(y)))),
      Bits(8, LowByte(Shr8(Shr8(Shr8(y)))));
    FourLookups(y);
    XorReverse(Swap(a), Swap(b), Swap(c), Swap(d));
    SwapLinear(a, b);
    SwapLinear(Xor(a, b), c);
    SwapLinear(Xor(Xor(a, b), c), d);
  }

  /** DOBIG4. */
  method DoBig4(table: array2<bv32>, ghost x: bv32, c: bv32, w: bv32) returns (r: bv32)
    requires TablesOk(table) && c == Swap(x)
    ensures r == Swap(Bits(32, Xor(x, Swap(w))))
  {
    hide Bit, Xor, Low, Shr8, Bits, LowByte, Swap;
    ghost var y := Xor(x, Swap(w));
    SwapTwice(w);
    SwapLinear(x, Swap(w));
    var d := Xor(c, w);
    SwapBytes(y);
    LowIsIndex(d);
    LowIsIndex(Shr8(d));
    LowIsIndex(Shr8(Shr8(d)));
    LowIsIndex(Shr8(Shr8(Shr8(d))));
    r := Xor(Xor(Xor(table[4, Low(d)], table[5, Low(Shr8(d))]), table[6, Low(Shr8(Shr8(d)))]),
             table[7, Low(Shr8(Shr8(Shr8(d))))]);
    BigLookups(y);
  }

  /** n times DOBIG4; a big-endian load sees the bytes of a word reversed. */
  method DoBig(table: array2<bv32>, ghost start: bv32, c0: bv32, buf: seq<byte>, at: nat, n: nat) returns (c: bv32)
    requires TablesOk(table) && at + 4 * n <= |buf| && c0 == Swap(Register(start, buf[..at]))
    ensures c == Swap(Register(start, buf[..at + 4 * n]))
  {
    hide Xor, Bits, Register, Word, TablesOk, Swap;
    c := c0;
    for k := 0 to n
      invariant c == Swap(Register(start, buf[..at + 4 * k]))
    {
      var i := at + 4 * k;
      NextWord(start, buf, i);
      var w := Swap(Word(buf[i], buf[i + 1], buf[i + 2], buf[i + 3]));
      SwapTwice(Word(buf[i], buf[i + 1], buf[i + 2], buf[i + 3]));
      c := DoBig4(table, Register(start, buf[..i]), c, w);
    }
  }

  /** crc32_big: the same loops on the byte-reversed register. */
  method Crc32Big(table: array2<bv32>, crc: bv32, buf: seq<byte>, addr: nat) returns (r: bv32)
    requires TablesOk(table)
    ensures r == Crc(crc, buf)
  {
    hide Xor, Bits, Register, Not, TablesOk, Swap;
    ghost var start := Not(crc);
    var c, i := Not(Swap(crc)), 0;
    SwapTwice(crc);
    EmptyPrefix(start, buf);
    while i < |buf| && (addr + i) % 4 != 0
      invariant i <= |buf| && c == Swap(Register(start, buf[..i]))
    {
      NextByte(start, buf, i);
      c := DoByteBig(table, Register(start, buf[..i]), c, buf[i]);
      i := i + 1;
    }
    while |buf| - i >= 32
      invariant i <= |buf| && c == Swap(Register(start, buf[..i]))
    {
      c := DoBig(table, start, c, buf, i, 8);
      i := i + 32;
    }
    while |buf| - i >= 4
      invariant i <= |buf| && c == Swap(Register(start, buf[..i]))
    {
      c := DoBig(table, start, c, buf, i, 1);
      i := i + 4;
    }
    while i < |buf|
      invariant i <= |buf| && c == Swap(Register(start, buf[..i]))
    {
      NextByte(start, buf, i);
      c := DoByteBig(table, Register(start, buf[..i]), c, buf[i]);
      i := i + 1;
    }
    SwapTwice(Register(start, buf));
    SwapTwice(Not(Register(start, buf)));
    r := Swap(Not(c));
  }

  /** The loop of crc32_z without word access, eight bytes at a time. */
  method Crc32Bytes(table: array2<bv32>, crc0: bv32, buf: seq<byte>) returns (r: bv32)
    requires TablesOk(table)
    ensures r == Crc(crc0, buf)
  {
    hide Xor, Bits, Register, Not, TablesOk;
    ghost var start := Not(crc0);
    var crc, i := Not(crc0), 0;
    EmptyPrefix(start, buf);
    while |buf| - i >= 8
      invariant i <= |buf| && crc == Register(start, buf[..i])
    {
      ghost var from := i;
      for k := 0 to 8
        invariant i == from + k && from + 8 <= |buf| && crc == Register(start, buf[..i])
      {
        NextByte(start, buf, i);
        crc := DoByte(table, crc, buf[i]);
        i := i + 1;
      }
    }
    while i < |buf|
      invariant i <= |buf| && crc == Register(start, buf[..i])
    {
      NextByte(start, buf, i);
      crc := DoByte(table, crc, buf[i]);
      i := i + 1;
    }
    r := Not(crc);
  }

  datatype Machine = LittleEndian | BigEndian | NoWords

  /** crc32_z: whatever the machine and the alignment, the result is that of the shift register;
      no buffer gives the initial value. */
  method Crc32Z(table: array2<bv32>, crc: bv32, buf: Option<seq<byte>>, addr: nat, machine: Machine) returns (r: bv32)
    requires TablesOk(table)
    ensures r == if buf.None? then 0 else Crc(crc, buf.value)
  {
    hide Crc, TablesOk;
    if buf.None? { return 0; }
    match machine
    case LittleEndian => r := Crc32Little(table, crc, buf.value, addr);
    case BigEndian => r := Crc32Big(table, crc, buf.value, addr);
    case NoWords => r := Crc32Bytes(table, crc, buf.value);
  }

  /** A CRC computed in pieces is the CRC of the whole. */
  lemma CrcAdd(crc: bv32, s: seq<byte>, t: seq<byte>)
    ensures Crc(Crc(crc, s), t) == Crc(crc, s + t)
  {
    RegisterAdd(Not(crc), s, t);
    assert Not(Not(Register(Not(crc), s))) == Register(Not(crc), s);
  }
}
