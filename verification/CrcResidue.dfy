/** Laws of the CRC-32 that its bit order, its polynomial and its two inversions cannot escape: the
    check value, and the residue of every string with its CRC behind it (section 8 of RFC 1952). */
module CrcResidue {
  import opened Lz77
  import opened Crc32

  /** The four bytes of x, least significant first. */
  function LittleEndian(x: bv32): seq<byte>
  {
    [(x & 0xff) as byte, ((x >> 8) & 0xff) as byte, ((x >> 16) & 0xff) as byte, (x >> 24) as byte]
  }

  /** They are the bytes of the word x. */
  lemma WordOfBytes(x: bv32)
    ensures Word((x & 0xff) as byte, ((x >> 8) & 0xff) as byte, ((x >> 16) & 0xff) as byte, (x >> 24) as byte) == x
  {
  }

  /** Whatever the string, with its own CRC behind it its CRC is this constant. */
  lemma Residue(s: seq<byte>)
    ensures Crc(0, s + LittleEndian(Crc(0, s))) == 0x2144_df1c
  {
    hide Register, Bits, Word;
    var r := Register(0xffff_ffff, s);
    var x := Crc(0, s);
    WordOfBytes(x);
    FourBytes(0xffff_ffff, s, (x & 0xff) as byte, ((x >> 8) & 0xff) as byte, ((x >> 16) & 0xff) as byte,
              (x >> 24) as byte);
    OnesComplement(r);
    AllOnes();
  }

  lemma OnesComplement(r: bv32)
    ensures Not(0) == 0xffff_ffff && Xor(r, Not(r)) == 0xffff_ffff && Not(0xdebb_20e3) == 0x2144_df1c
  {
  }

  lemma AllOnes()
    ensures Bits(32, 0xffff_ffff) == 0xdebb_20e3
  {
    hide Bit, Bits;
    Eight0();
    Eight1();
    Eight2();
    Eight3();
    BitsAdd(8, 8, 0xffff_ffff);
    BitsAdd(16, 8, 0xffff_ffff);
    BitsAdd(24, 8, 0xffff_ffff);
  }

  lemma Eight0()
    ensures Bits(8, 0xffff_ffff) == 0x2dfd_1072
  {
  }

  lemma Eight1()
    ensures Bits(8, 0x2dfd_1072) == 0xbe26_ed00
  {
  }

  lemma Eight2()
    ensures Bits(8, 0xbe26_ed00) == 0x00be_26ed
  {
  }

  lemma Eight3()
    ensures Bits(8, 0x00be_26ed) == 0xdebb_20e3
  {
  }

  /** The check value: the CRC of the digits 1 to 9. */
  lemma CheckValue()
    ensures Crc(0, [49, 50, 51, 52, 53, 54, 55, 56, 57]) == 0xcbf4_3926
  {
    hide Bits, Register;
    var s: seq<byte> := [49, 50, 51, 52, 53, 54, 55, 56, 57];
    var f: bv32 := 0xffff_ffff;
    assert Register(f, []) == f by { NothingRead(f); }
    Digit1();
    RegisterByte(f, s[..0], s[0]);
    assert s[..0] + [s[0]] == s[..1];
    Digit2();
    RegisterByte(f, s[..1], s[1]);
    assert s[..1] + [s[1]] == s[..2];
    Digit3();
    RegisterByte(f, s[..2], s[2]);
    assert s[..2] + [s[2]] == s[..3];
    Digit4();
    RegisterByte(f, s[..3], s[3]);
    assert s[..3] + [s[3]] == s[..4];
    Digit5();
    RegisterByte(f, s[..4], s[4]);
    assert s[..4] + [s[4]] == s[..5];
    Digit6();
    RegisterByte(f, s[..5], s[5]);
    assert s[..5] + [s[5]] == s[..6];
    Digit7();
    RegisterByte(f, s[..6], s[6]);
    assert s[..6] + [s[6]] == s[..7];
    Digit8();
    RegisterByte(f, s[..7], s[7]);
    assert s[..7] + [s[7]] == s[..8];
    Digit9();
    RegisterByte(f, s[..8], s[8]);
    assert s[..8] + [s[8]] == s[..9];
    assert s[..9] == s;
  }

  lemma NothingRead(c: bv32)
    ensures Register(c, []) == c
  {
  }

  lemma Digit1()
    ensures Bits(8, Xor(0xffff_ffff, 49)) == 0x7c23_1048
  {
  }

  lemma Digit2()
    ensures Bits(8, Xor(0x7c23_1048, 50)) == 0xb0ac_bb32
  {
  }

  lemma Digit3()
    ensures Bits(8, Xor(0xb0ac_bb32, 51)) == 0x77b7_9c2d
  {
  }

  lemma Digit4()
    ensures Bits(8, Xor(0x77b7_9c2d, 52)) == 0x641c_1f5c
  {
  }

  lemma Digit5()
    ensures Bits(8, Xor(0x641c_1f5c, 53)) == 0x340a_c5e3
  {
  }

  lemma Digit6()
    ensures Bits(8, Xor(0x340a_c5e3, 54)) == 0xf68d_2c9e
  {
  }

  lemma Digit7()
    ensures Bits(8, Xor(0xf68d_2c9e, 55)) == 0xaffc_9660
  {
  }

  lemma Digit8()
    ensures Bits(8, Xor(0xaffc_9660, 56)) == 0x651f_2550
  {
  }

  lemma Digit9()
    ensures Bits(8, Xor(0x651f_2550, 57)) == 0x340b_c6d9
  {
  }

}
