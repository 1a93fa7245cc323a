/** A reader of gzip members, from sections 2.3 and 2.3.1 of RFC 1952 alone: what it finds in the header
    and the trailer that the wrapper writes is what the application asked for. */
module GzipReader {
  import opened Lz77
  import opened Crc32
  import opened Wrappers
  import opened GzipWrapper

  /** What a member's header says. */
  datatype Fields = Fields(text: bool, time: bv32, xfl: byte, os: byte, extra: Option<seq<byte>>,
                           name: Option<seq<byte>>, comment: Option<seq<byte>>, checked: bool)

  /** A field and the bytes behind it. */
  datatype Piece<T> = Piece(value: T, rest: seq<byte>)

  /** Two and four bytes as a number, least significant byte first. */
  function Number2(t: seq<byte>): bv32
    requires |t| >= 2
  {
    (t[0] as bv32) | ((t[1] as bv32) << 8)
  }

  function Number4(t: seq<byte>): bv32
    requires |t| >= 4
  {
    (t[0] as bv32) | ((t[1] as bv32) << 8) | ((t[2] as bv32) << 16) | ((t[3] as bv32) << 24)
  }

  function Length2(t: seq<byte>): nat
    requires |t| >= 2
  {
    Number2(t) as nat
  }

  /** The bit of the flag byte is set. */
  predicate Flag(flags: byte, bit: byte)
  {
    flags & bit != 0
  }

  /** The extra field: two bytes of length and as many bytes as they say. */
  function ReadExtra(present: bool, t: seq<byte>): Option<Piece<Option<seq<byte>>>>
  {
    if !present then Some(Piece(None, t))
    else if |t| < 2 || |t| - 2 < Length2(t) then None
    else var n := Length2(t); Some(Piece(Some(t[2..2 + n]), t[2 + n..]))
  }

  /** A string up to the next zero byte. */
  function ReadString(t: seq<byte>): Option<Piece<seq<byte>>>
  {
    if t == [] then None
    else if t[0] == 0 then Some(Piece([], t[1..]))
    else
      match ReadString(t[1..])
      case None => None
      case Some(p) => Some(Piece([t[0]] + p.value, p.rest))
  }

  function ReadOptional(present: bool, t: seq<byte>): Option<Piece<Option<seq<byte>>>>
  {
    if !present then Some(Piece(None, t))
    else
      match ReadString(t)
      case None => None
      case Some(p) => Some(Piece(Some(p.value), p.rest))
  }

  /** The CRC16 is right: the two low bytes of the CRC32 of all bytes before it. */
  predicate ChecksOut(t: seq<byte>, rest: seq<byte>)
  {
    |rest| >= 2 && |rest| <= |t| && Number2(rest) == Low16(Crc(0, t[..|t| - |rest|]))
  }

  /** The header: magic number 31 139, method 8, flags FTEXT 1, FHCRC 2, FEXTRA 4, FNAME 8, FCOMMENT 16
      and no others, time, extra flags, system, and the fields that the flags announce, in order. */
  function ReadHeader(t: seq<byte>): Option<Piece<Fields>>
  {
    if |t| < 10 || t[0] != 31 || t[1] != 139 || t[2] != 8 || Flag(t[3], 0xe0) then None
    else
      match ReadExtra(Flag(t[3], 4), t[10..])
      case None => None
      case Some(e) =>
        match ReadOptional(Flag(t[3], 8), e.rest)
        case None => None
        case Some(n) =>
          match ReadOptional(Flag(t[3], 16), n.rest)
          case None => None
          case Some(c) =>
            var fields := Fields(Flag(t[3], 1), Number4(t[4..8]), t[8], t[9], e.value, n.value, c.value, Flag(t[3], 2));
            if !Flag(t[3], 2) then Some(Piece(fields, c.rest))
            else if ChecksOut(t, c.rest) then Some(Piece(fields, c.rest[2..]))
            else None
  }

  /** What the application put into a header. */
  function Asked(h: GzHeader, xfl: byte): Fields
    requires ProperHeader(h)
  {
    Fields(h.text, h.time, xfl, h.os, if h.extra.Some? then Some(h.extra.value[..ExtraSize(h)]) else None,
           h.name, h.comment, h.hcrc)
  }

  lemma ShortRead(x: bv32, rest: seq<byte>)
    ensures Number2(Short(x) + rest) == Low16(x)
  {
    assert Short(x)[0] == ByteOf(x) && Short(x)[1] == ByteOf(x >> 8);
    ShortBits(x);
  }

  lemma ShortBits(x: bv32)
    ensures (((x & 0xff) as byte) as bv32) | (((((x >> 8) & 0xff) as byte) as bv32) << 8) == x & 0xffff
  {
  }

  lemma LengthRead(h: GzHeader, rest: seq<byte>)
    ensures Length2(Short(h.extraLen) + rest) == ExtraSize(h)
  {
    hide Short, Number2, Low16;
    ShortRead(h.extraLen, rest);
  }

  lemma LongRead(x: bv32, rest: seq<byte>)
    ensures Number4(Long(x) + rest) == x
  {
    assert Long(x)[0] == ByteOf(x) && Long(x)[1] == ByteOf(x >> 8);
    assert Long(x)[2] == ByteOf(x >> 16) && Long(x)[3] == ByteOf(x >> 16 >> 8);
    LongBits(x);
  }

  lemma LongBits(x: bv32)
    ensures (((x & 0xff) as byte) as bv32) | (((((x >> 8) & 0xff) as byte) as bv32) << 8)
      | (((((x >> 16) & 0xff) as byte) as bv32) << 16) | (((((x >> 16 >> 8) & 0xff) as byte) as bv32) << 24) == x
  {
  }

  /** The flag byte announces exactly the fields that there are. */
  lemma FlagsRead(h: GzHeader)
    ensures var f := FlagByte(h);
      && !Flag(f, 0xe0) && (Flag(f, 1) <==> h.text) && (Flag(f, 2) <==> h.hcrc) && (Flag(f, 4) <==> h.extra.Some?)
      && (Flag(f, 8) <==> h.name.Some?) && (Flag(f, 16) <==> h.comment.Some?)
  {
  }

  lemma {:induction false} StringRead(s: seq<byte>, rest: seq<byte>)
    requires 0 !in s
    ensures ReadString(s + [0] + rest) == Some(Piece(s, rest))
  {
    var t := s + [0] + rest;
    if s == [] {
      assert t[0] == 0 && t[1..] == rest;
    } else {
      assert t[0] == s[0] && t[1..] == s[1..] + [0] + rest;
      StringRead(s[1..], rest);
      assert [s[0]] + s[1..] == s;
    }
  }

  lemma OptionalRead(s: Option<seq<byte>>, rest: seq<byte>)
    requires s.Some? ==> 0 !in s.value
    ensures ReadOptional(s.Some?, StringPart(s) + rest) == Some(Piece(s, rest))
  {
    hide ReadString;
    if s.Some? {
      StringRead(s.value, rest);
    } else {
      assert [] + rest == rest;
    }
  }

  lemma ExtraRead(h: GzHeader, rest: seq<byte>)
    requires ProperHeader(h)
    ensures ReadExtra(h.extra.Some?, (if h.extra.Some? then Short(h.extraLen) else []) + ExtraPart(h) + rest) ==
      Some(Piece(Asked(h, 0).extra, rest))
  {
    hide Short, ExtraSize, Length2;
    if h.extra.Some? {
      var n := ExtraSize(h);
      var t := Short(h.extraLen) + ExtraPart(h) + rest;
      LengthRead(h, ExtraPart(h) + rest);
      assert t == Short(h.extraLen) + (ExtraPart(h) + rest);
      assert t[2..2 + n] == ExtraPart(h) && t[2 + n..] == rest;
    } else {
      assert [] + [] + rest == rest;
    }
  }

  /** Section 2.3.1: from the bytes the wrapper delivers the reader recovers every field, and leaves what
      follows. */
  lemma HeaderRead(h: GzHeader, xfl: byte, rest: seq<byte>)
    requires ProperHeader(h)
    ensures ReadHeader(Header(h, xfl) + rest) == Some(Piece(Asked(h, xfl), rest))
  {
    hide Crc, FlagByte, Short, Long, ExtraPart, StringPart, ReadExtra, ReadOptional, Number4, Number2, Flag, ChecksOut,
      HeaderBody, Asked, TenBytes, Header;
    var t := Header(h, xfl) + rest;
    var len := if h.extra.Some? then Short(h.extraLen) else [];
    var crc := HcrcPart(h, xfl);
    var c := crc + rest;
    var n := StringPart(h.comment) + c;
    var e := StringPart(h.name) + n;
    var ten := TenBytes(FlagByte(h), h.time, xfl, h.os);
    HeaderLayout(h, xfl, rest);
    assert len + ExtraPart(h) + e == t[10..];
    TenRead(FlagByte(h), h.time, xfl, h.os, len + ExtraPart(h) + e);
    FlagsRead(h);
    ExtraRead(h, e);
    OptionalRead(h.name, n);
    OptionalRead(h.comment, c);
    AskedFields(h, xfl);
    if h.hcrc {
      CrcChecksOut(h, xfl, rest);
      assert c[2..] == rest;
    } else {
      assert c == rest;
    }
  }

  lemma TenRead(flags: byte, time: bv32, xfl: byte, os: byte, rest: seq<byte>)
    ensures var t := TenBytes(flags, time, xfl, os) + rest;
      && |t| == 10 + |rest| && t[0] == 31 && t[1] == 139 && t[2] == 8 && t[3] == flags && Number4(t[4..8]) == time
      && t[8] == xfl && t[9] == os && t[10..] == rest
  {
    hide Number4, Long;
    var t := TenBytes(flags, time, xfl, os) + rest;
    assert t[4..8] == Long(time) + [];
    LongRead(time, []);
  }

  /** The bytes of a header, field by field. */
  lemma HeaderLayout(h: GzHeader, xfl: byte, rest: seq<byte>)
    requires ProperHeader(h)
    ensures var len := if h.extra.Some? then Short(h.extraLen) else [];
      Header(h, xfl) + rest == TenBytes(FlagByte(h), h.time, xfl, h.os) +
        (len + ExtraPart(h) + (StringPart(h.name) + (StringPart(h.comment) + (HcrcPart(h, xfl) + rest))))
  {
    hide Crc, FlagByte, Short, Long, ExtraPart, StringPart, TenBytes, HcrcPart;
  }

  lemma AskedFields(h: GzHeader, xfl: byte)
    requires ProperHeader(h)
    ensures Asked(h, xfl) == Fields(h.text, h.time, xfl, h.os, Asked(h, 0).extra, h.name, h.comment, h.hcrc)
  {
  }

  lemma CrcChecksOut(h: GzHeader, xfl: byte, rest: seq<byte>)
    requires ProperHeader(h) && h.hcrc
    ensures ChecksOut(Header(h, xfl) + rest, HcrcPart(h, xfl) + rest)
  {
    hide Crc, HeaderBody, Short, Number2, Low16;
    var t, c := Header(h, xfl) + rest, HcrcPart(h, xfl) + rest;
    assert t == HeaderBody(h, xfl) + c && t[..|t| - |c|] == HeaderBody(h, xfl);
    ShortRead(Crc(0, HeaderBody(h, xfl)), rest);
  }

  /** A whole member: from what has been delivered when the stream has ended (GzipWrapper.Run) the reader
      recovers the fields, and behind the compressed bytes the CRC32 and the length of the input. */
  lemma MemberRead(h: GzHeader, xfl: byte, body: seq<byte>, input: seq<byte>)
    requires ProperHeader(h)
    ensures ReadHeader(Header(h, xfl) + body + Trailer(input)) == Some(Piece(Asked(h, xfl), body + Trailer(input)))
    ensures ReadTrailer((body + Trailer(input))[|body|..]) ==
      Some(Piece((Crc(0, input), (|input| % 0x1_0000_0000) as bv32), []))
  {
    hide Header, Trailer, ReadHeader, ReadTrailer, Crc;
    HeaderRead(h, xfl, body + Trailer(input));
    assert Header(h, xfl) + body + Trailer(input) == Header(h, xfl) + (body + Trailer(input));
    TrailerRead(input, []);
    assert (body + Trailer(input))[|body|..] == Trailer(input) + [];
  }

  /** The trailer: CRC32 and length modulo 2^32. */
  function ReadTrailer(t: seq<byte>): Option<Piece<(bv32, bv32)>>
  {
    if |t| < 8 then None else Some(Piece((Number4(t[..4]), Number4(t[4..8])), t[8..]))
  }

  lemma TrailerRead(input: seq<byte>, rest: seq<byte>)
    ensures ReadTrailer(Trailer(input) + rest) == Some(Piece((Crc(0, input), (|input| % 0x1_0000_0000) as bv32), rest))
  {
    hide Crc, Long, Number4;
    var t := Trailer(input) + rest;
    var crc, n := Crc(0, input), Low32(|input|);
    assert t[..4] == Long(crc) + [] && t[4..8] == Long(n) + [] && t[8..] == rest;
    LongRead(crc, []);
    LongRead(n, []);
  }
}
