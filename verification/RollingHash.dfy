/** UPDATE_HASH and the two facts about it that the match finder depends on. */
module RollingHash {
  import opened Lz77

  /** hash_size = 1 << hash_bits, for the widths memLevel 1..9 gives. */
  function HashSize(bits: nat): nat
    requires 8 <= bits <= 16
  {
    match bits
    case 8 => 0x100 case 9 => 0x200 case 10 => 0x400 case 11 => 0x800 case 12 => 0x1000
    case 13 => 0x2000 case 14 => 0x4000 case 15 => 0x8000 case _ => 0x1_0000
  }

  /** hash_mask = hash_size - 1. */
  function Mask(bits: nat): bv32
    requires 8 <= bits <= 16
  {
    match bits
    case 8 => 0xff case 9 => 0x1ff case 10 => 0x3ff case 11 => 0x7ff case 12 => 0xfff
    case 13 => 0x1fff case 14 => 0x3fff case 15 => 0x7fff case _ => 0xffff
  }

  /** h << hash_shift, where hash_shift = (hash_bits + 2) / 3 lies in 3..6. */
  function Shift(h: bv32, bits: nat): bv32
    requires 8 <= bits <= 16
  {
    match (bits + 2) / 3
    case 3 => h << 3 case 4 => h << 4 case 5 => h << 5 case _ => h << 6
  }

  function Update(h: bv32, c: byte, bits: nat): bv32
    requires 8 <= bits <= 16
  {
    (Shift(h, bits) ^ (c as bv32)) & Mask(bits)
  }

  /** The key under which the string a b c is filed. */
  function Key(a: byte, b: byte, c: byte, bits: nat): bv32
    requires 8 <= bits <= 16
  {
    Update(Update(a as bv32, b, bits), c, bits)
  }

  /** The key as an index of the head table. */
  function KeyIndex(a: byte, b: byte, c: byte, bits: nat): nat
    requires 8 <= bits <= 16
  {
    Key(a, b, c, bits) as nat
  }

  /** The running hash h is ready to take the third byte of a string that starts a b. */
  ghost predicate Covers(h: bv32, a: byte, b: byte, bits: nat)
    requires 8 <= bits <= 16
  {
    forall c {:trigger Update(h, c, bits)} :: Update(h, c, bits) == Key(a, b, c, bits)
  }

  /** The running hash is ready for the third byte of the string at position a. */
  ghost predicate CoversAt(h: bv32, input: seq<byte>, a: nat, bits: nat)
    requires 8 <= bits <= 16 && a + 1 < |input|
  {
    Covers(h, input[a], input[a + 1], bits)
  }

  /** Whatever the register held, after two bytes only those two matter to the third:
      3 * hash_shift >= hash_bits. */
  lemma TwoBytesCover(h: bv32, a: byte, b: byte, bits: nat)
    requires 8 <= bits <= 16
    ensures Covers(Update(Update(h, a, bits), b, bits), a, b, bits)
  {
    forall c: byte ensures Update(Update(Update(h, a, bits), b, bits), c, bits) == Key(a, b, c, bits) {
      Forgets(h, a, b, c, bits);
    }
  }

  lemma Forgets(h: bv32, a: byte, b: byte, c: byte, bits: nat)
    requires 8 <= bits <= 16
    ensures Update(Update(Update(h, a, bits), b, bits), c, bits) == Key(a, b, c, bits)
  {
    match bits
    case 8 => Forgets8(h, a, b, c);
    case 9 => Forgets9(h, a, b, c);
    case 10 => Forgets10(h, a, b, c);
    case 11 => Forgets11(h, a, b, c);
    case 12 => Forgets12(h, a, b, c);
    case 13 => Forgets13(h, a, b, c);
    case 14 => Forgets14(h, a, b, c);
    case 15 => Forgets15(h, a, b, c);
    case _ => Forgets16(h, a, b, c);
  }

  lemma Forgets8(h: bv32, a: byte, b: byte, c: byte)
    ensures Update(Update(Update(h, a, 8), b, 8), c, 8) == Key(a, b, c, 8)
  {
  }

  lemma Forgets9(h: bv32, a: byte, b: byte, c: byte)
    ensures Update(Update(Update(h, a, 9), b, 9), c, 9) == Key(a, b, c, 9)
  {
  }

  lemma Forgets10(h: bv32, a: byte, b: byte, c: byte)
    ensures Update(Update(Update(h, a, 10), b, 10), c, 10) == Key(a, b, c, 10)
  {
  }

  lemma Forgets11(h: bv32, a: byte, b: byte, c: byte)
    ensures Update(Update(Update(h, a, 11), b, 11), c, 11) == Key(a, b, c, 11)
  {
  }

  lemma Forgets12(h: bv32, a: byte, b: byte, c: byte)
    ensures Update(Update(Update(h, a, 12), b, 12), c, 12) == Key(a, b, c, 12)
  {
  }

  lemma Forgets13(h: bv32, a: byte, b: byte, c: byte)
    ensures Update(Update(Update(h, a, 13), b, 13), c, 13) == Key(a, b, c, 13)
  {
  }

  lemma Forgets14(h: bv32, a: byte, b: byte, c: byte)
    ensures Update(Update(Update(h, a, 14), b, 14), c, 14) == Key(a, b, c, 14)
  {
  }

  lemma Forgets15(h: bv32, a: byte, b: byte, c: byte)
    ensures Update(Update(Update(h, a, 15), b, 15), c, 15) == Key(a, b, c, 15)
  {
  }

  lemma Forgets16(h: bv32, a: byte, b: byte, c: byte)
    ensures Update(Update(Update(h, a, 16), b, 16), c, 16) == Key(a, b, c, 16)
  {
  }

  /** Every key is an index of the head table. */
  lemma KeyInTable(h: bv32, c: byte, bits: nat)
    requires 8 <= bits <= 16
    ensures Update(h, c, bits) as nat < HashSize(bits)
  {
    hide And, Update, Shift, Mask, HashSize;
    UpdateIsAnd(h, c, bits);
    MaskBelow(Shift(h, bits) ^ (c as bv32), bits);
  }

  lemma UpdateIsAnd(h: bv32, c: byte, bits: nat)
    requires 8 <= bits <= 16
    ensures Update(h, c, bits) == And(Shift(h, bits) ^ (c as bv32), Mask(bits))
  {
    hide Shift, Mask;
  }

  /** Taking the third byte yields the string's key and readies the register for the next string. */
  lemma InsertCovers(h: bv32, input: seq<byte>, a: nat, bits: nat)
    requires 8 <= bits <= 16 && a + 2 < |input| && CoversAt(h, input, a, bits)
    ensures Update(h, input[a + 2], bits) as nat == KeyIndex(input[a], input[a + 1], input[a + 2], bits) < HashSize(bits)
    ensures CoversAt(Update(h, input[a + 2], bits), input, a + 1, bits)
  {
    hide Shift, Mask, HashSize;
    assert Update(h, input[a + 2], bits) == Key(input[a], input[a + 1], input[a + 2], bits);
    KeyInTable(h, input[a + 2], bits);
    TwoBytesCover(input[a] as bv32, input[a + 1], input[a + 2], bits);
  }

  /** Equal keys and equal bytes 0 and 1 force equal third bytes, which is why the scan
      in longest_match may skip byte 2. */
  lemma KeyFixesThirdByte(a: byte, b: byte, c: byte, d: byte, bits: nat)
    requires 8 <= bits <= 16 && KeyIndex(a, b, c, bits) == KeyIndex(a, b, d, bits)
    ensures c == d
  {
    SameBits(Key(a, b, c, bits), Key(a, b, d, bits));
    assert Mask(bits) & 0xff == 0xff;
  }

  lemma SameBits(x: bv32, y: bv32)
    requires x as nat == y as nat
    ensures x == y
  {
    assert (x as nat) as bv32 == x;
  }

  // ---------- masks and numbers ----------

  function And(x: bv32, mask: bv32): bv32
  {
    x & mask
  }

  lemma AndIs(x: bv32, mask: bv32)
    ensures And(x, mask) == x & mask
  {
  }

  /** What a mask leaves is below the size. */
  lemma MaskBelow(x: bv32, bits: nat)
    requires 8 <= bits <= 16
    ensures And(x, Mask(bits)) as nat < HashSize(bits)
  {
    hide And;
    match bits
    case 8 => Below8(x);
    case 9 => Below9(x);
    case 10 => Below10(x);
    case 11 => Below11(x);
    case 12 => Below12(x);
    case 13 => Below13(x);
    case 14 => Below14(x);
    case 15 => Below15(x);
    case _ => Below16(x);
  }

  /** A number below twice the size, with the size taken off if it is not below it. */
  function Folded(n: int, size: int): int
  {
    n - if n < size then 0 else size
  }

  /** On such numbers that is what the mask does. */
  lemma MaskFolds(x: bv32, bits: nat)
    requires 9 <= bits <= 15 && x as nat < 2 * HashSize(bits)
    ensures And(x, Mask(bits)) as nat == Folded(x as nat, HashSize(bits))
  {
    hide And, Folded;
    match bits
    case 9 => Folds9(x);
    case 10 => Folds10(x);
    case 11 => Folds11(x);
    case 12 => Folds12(x);
    case 13 => Folds13(x);
    case 14 => Folds14(x);
    case _ => Folds15(x);
  }

  lemma Below8(x: bv32)
    ensures And(x, 0xff) as nat < 0x100
  {
    hide And;
    AndIs(x, 0xff);
    BitsBelow8(x);
  }

  lemma BitsBelow8(x: bv32)
    ensures (x & 0xff) as nat < 0x100
  {
    assert (x & 0xff) as nat == ((x & 0xff) as bv8) as nat;
  }

  lemma Below9(x: bv32)
    ensures And(x, 0x1ff) as nat < 0x200
  {
    hide And;
    AndIs(x, 0x1ff);
    BitsBelow9(x);
  }

  lemma BitsBelow9(x: bv32)
    ensures (x & 0x1ff) as nat < 0x200
  {
    assert (x & 0x1ff) as nat == ((x & 0x1ff) as bv9) as nat;
  }

  lemma Below10(x: bv32)
    ensures And(x, 0x3ff) as nat < 0x400
  {
    hide And;
    AndIs(x, 0x3ff);
    BitsBelow10(x);
  }

  lemma BitsBelow10(x: bv32)
    ensures (x & 0x3ff) as nat < 0x400
  {
    assert (x & 0x3ff) as nat == ((x & 0x3ff) as bv10) as nat;
  }

  lemma Below11(x: bv32)
    ensures And(x, 0x7ff) as nat < 0x800
  {
    hide And;
    AndIs(x, 0x7ff);
    BitsBelow11(x);
  }

  lemma BitsBelow11(x: bv32)
    ensures (x & 0x7ff) as nat < 0x800
  {
    assert (x & 0x7ff) as nat == ((x & 0x7ff) as bv11) as nat;
  }

  lemma Below12(x: bv32)
    ensures And(x, 0xfff) as nat < 0x1000
  {
    hide And;
    AndIs(x, 0xfff);
    BitsBelow12(x);
  }

  lemma BitsBelow12(x: bv32)
    ensures (x & 0xfff) as nat < 0x1000
  {
    assert (x & 0xfff) as nat == ((x & 0xfff) as bv12) as nat;
  }

  lemma Below13(x: bv32)
    ensures And(x, 0x1fff) as nat < 0x2000
  {
    hide And;
    AndIs(x, 0x1fff);
    BitsBelow13(x);
  }

  lemma BitsBelow13(x: bv32)
    ensures (x & 0x1fff) as nat < 0x2000
  {
    assert (x & 0x1fff) as nat == ((x & 0x1fff) as bv13) as nat;
  }

  lemma Below14(x: bv32)
    ensures And(x, 0x3fff) as nat < 0x4000
  {
    hide And;
    AndIs(x, 0x3fff);
    BitsBelow14(x);
  }

  lemma BitsBelow14(x: bv32)
    ensures (x & 0x3fff) as nat < 0x4000
  {
    assert (x & 0x3fff) as nat == ((x & 0x3fff) as bv14) as nat;
  }

  lemma Below15(x: bv32)
    ensures And(x, 0x7fff) as nat < 0x8000
  {
    hide And;
    AndIs(x, 0x7fff);
    BitsBelow15(x);
  }

  lemma BitsBelow15(x: bv32)
    ensures (x & 0x7fff) as nat < 0x8000
  {
    assert (x & 0x7fff) as nat == ((x & 0x7fff) as bv15) as nat;
  }

  lemma Below16(x: bv32)
    ensures And(x, 0xffff) as nat < 0x1_0000
  {
    hide And;
    AndIs(x, 0xffff);
    BitsBelow16(x);
  }

  lemma BitsBelow16(x: bv32)
    ensures (x & 0xffff) as nat < 0x1_0000
  {
    assert (x & 0xffff) as nat == ((x & 0xffff) as bv16) as nat;
  }

  lemma Folds9(x: bv32)
    requires x as nat < 0x400
    ensures And(x, 0x1ff) as nat == Folded(x as nat, 0x200)
  {
    hide And, Folded;
    AndIs(x, 0x1ff);
    FoldedBits9(x);
  }

  lemma FoldedBits9(x: bv32)
    requires x as nat < 0x400
    ensures (x & 0x1ff) as nat == Folded(x as nat, 0x200)
  {
    BitsFold9(x);
  }

  lemma BitsFold9(x: bv32)
    requires x as nat < 0x400
    ensures (x & 0x1ff) as nat == x as nat - if x as nat < 0x200 then 0 else 0x200
  {
  }

  lemma Folds10(x: bv32)
    requires x as nat < 0x800
    ensures And(x, 0x3ff) as nat == Folded(x as nat, 0x400)
  {
    hide And, Folded;
    AndIs(x, 0x3ff);
    FoldedBits10(x);
  }

  lemma FoldedBits10(x: bv32)
    requires x as nat < 0x800
    ensures (x & 0x3ff) as nat == Folded(x as nat, 0x400)
  {
    BitsFold10(x);
  }

  lemma BitsFold10(x: bv32)
    requires x as nat < 0x800
    ensures (x & 0x3ff) as nat == x as nat - if x as nat < 0x400 then 0 else 0x400
  {
  }

  lemma Folds11(x: bv32)
    requires x as nat < 0x1000
    ensures And(x, 0x7ff) as nat == Folded(x as nat, 0x800)
  {
    hide And, Folded;
    AndIs(x, 0x7ff);
    FoldedBits11(x);
  }

  lemma FoldedBits11(x: bv32)
    requires x as nat < 0x1000
    ensures (x & 0x7ff) as nat == Folded(x as nat, 0x800)
  {
    BitsFold11(x);
  }

  lemma BitsFold11(x: bv32)
    requires x as nat < 0x1000
    ensures (x & 0x7ff) as nat == x as nat - if x as nat < 0x800 then 0 else 0x800
  {
  }

  lemma Folds12(x: bv32)
    requires x as nat < 0x2000
    ensures And(x, 0xfff) as nat == Folded(x as nat, 0x1000)
  {
    hide And, Folded;
    AndIs(x, 0xfff);
    FoldedBits12(x);
  }

  lemma FoldedBits12(x: bv32)
    requires x as nat < 0x2000
    ensures (x & 0xfff) as nat == Folded(x as nat, 0x1000)
  {
    BitsFold12(x);
  }

  lemma BitsFold12(x: bv32)
    requires x as nat < 0x2000
    ensures (x & 0xfff) as nat == x as nat - if x as nat < 0x1000 then 0 else 0x1000
  {
  }

  lemma Folds13(x: bv32)
    requires x as nat < 0x4000
    ensures And(x, 0x1fff) as nat == Folded(x as nat, 0x2000)
  {
    hide And, Folded;
    AndIs(x, 0x1fff);
    FoldedBits13(x);
  }

  lemma FoldedBits13(x: bv32)
    requires x as nat < 0x4000
    ensures (x & 0x1fff) as nat == Folded(x as nat, 0x2000)
  {
    BitsFold13(x);
  }

  lemma BitsFold13(x: bv32)
    requires x as nat < 0x4000
    ensures (x & 0x1fff) as nat == x as nat - if x as nat < 0x2000 then 0 else 0x2000
  {
  }

  lemma Folds14(x: bv32)
    requires x as nat < 0x8000
    ensures And(x, 0x3fff) as nat == Folded(x as nat, 0x4000)
  {
    hide And, Folded;
    AndIs(x, 0x3fff);
    FoldedBits14(x);
  }

  lemma FoldedBits14(x: bv32)
    requires x as nat < 0x8000
    ensures (x & 0x3fff) as nat == Folded(x as nat, 0x4000)
  {
    BitsFold14(x);
  }

  lemma BitsFold14(x: bv32)
    requires x as nat < 0x8000
    ensures (x & 0x3fff) as nat == x as nat - if x as nat < 0x4000 then 0 else 0x4000
  {
  }

  lemma Folds15(x: bv32)
    requires x as nat < 0x1_0000
    ensures And(x, 0x7fff) as nat == Folded(x as nat, 0x8000)
  {
    hide And, Folded;
    AndIs(x, 0x7fff);
    FoldedBits15(x);
  }

  lemma FoldedBits15(x: bv32)
    requires x as nat < 0x1_0000
    ensures (x & 0x7fff) as nat == Folded(x as nat, 0x8000)
  {
    BitsFold15(x);
  }

  lemma BitsFold15(x: bv32)
    requires x as nat < 0x1_0000
    ensures (x & 0x7fff) as nat == x as nat - if x as nat < 0x8000 then 0 else 0x8000
  {
  }
}
