/** The wrapper around the compressed data in deflate(): the gzip header written through a bounded
    pending buffer into output space of any size, and the trailer (RFC 1952). */
module GzipWrapper {
  import opened Lz77
  import opened Crc32
  import opened Wrappers
  import DeflateState

  datatype Status = GzipState | ExtraState | NameState | CommentState | HcrcState | BusyState | FinishState

  /** gz_header: extra points to at least extraLen % 65536 bytes; the strings are those before the
      terminating zero. */
  datatype GzHeader = GzHeader(text: bool, time: bv32, os: byte, extra: Option<seq<byte>>, extraLen: bv32,
                               name: Option<seq<byte>>, comment: Option<seq<byte>>, hcrc: bool)

  ghost predicate ProperHeader(h: GzHeader)
  {
    && (h.extra.Some? ==> |h.extra.value| >= ExtraSize(h))
    && (h.name.Some? ==> 0 !in h.name.value)
    && (h.comment.Some? ==> 0 !in h.comment.value)
  }

  function ExtraSize(h: GzHeader): nat
  {
    Low16(h.extraLen) as nat
  }

  function Low16(x: bv32): bv32
  {
    x & 0xffff
  }

  function ByteOf(x: bv32): byte
  {
    (x & 0xff) as byte
  }

  // ---------- the header as RFC 1952 lays it out ----------

  function FlagByte(h: GzHeader): byte
  {
    (if h.text then 1 else 0) + (if h.hcrc then 2 else 0) + (if h.extra.Some? then 4 else 0)
    + (if h.name.Some? then 8 else 0) + (if h.comment.Some? then 16 else 0)
  }

  function TenBytes(flags: byte, time: bv32, xfl: byte, os: byte): (r: seq<byte>)
    ensures |r| == 10
  {
    [31, 139, 8, flags] + Long(time) + [xfl, os]
  }

  /** The fixed fields and the length of the extra field. */
  function FixedPart(h: GzHeader, xfl: byte): seq<byte>
  {
    TenBytes(FlagByte(h), h.time, xfl, h.os) + if h.extra.Some? then Short(h.extraLen) else []
  }

  /** A 16-bit and a 32-bit number, least significant byte first. */
  function Short(x: bv32): (r: seq<byte>)
    ensures |r| == 2
  {
    [ByteOf(x), ByteOf(x >> 8)]
  }

  function Long(x: bv32): (r: seq<byte>)
    ensures |r| == 4
  {
    Short(x) + Short(x >> 16)
  }

  function ExtraPart(h: GzHeader): seq<byte>
    requires ProperHeader(h)
  {
    if h.extra.Some? then h.extra.value[..ExtraSize(h)] else []
  }

  function StringPart(s: Option<seq<byte>>): seq<byte>
  {
    if s.Some? then s.value + [0] else []
  }

  /** Everything the header CRC covers. */
  function HeaderBody(h: GzHeader, xfl: byte): seq<byte>
    requires ProperHeader(h)
  {
    FixedPart(h, xfl) + ExtraPart(h) + StringPart(h.name) + StringPart(h.comment)
  }

  /** CRC16: the low half of the CRC-32 of all header bytes before it. */
  function HcrcPart(h: GzHeader, xfl: byte): seq<byte>
    requires ProperHeader(h)
  {
    if h.hcrc then
      Short(Crc(0, HeaderBody(h, xfl)))
    else []
  }

  function Header(h: GzHeader, xfl: byte): seq<byte>
    requires ProperHeader(h)
  {
    HeaderBody(h, xfl) + HcrcPart(h, xfl)
  }

  /** What has been put by the time the state machine is in the given state at the given index. */
  function PutSoFar(h: GzHeader, xfl: byte, status: Status, index: nat): seq<byte>
    requires ProperHeader(h)
    requires status.ExtraState? ==> index <= |ExtraPart(h)|
    requires status.NameState? ==> index <= |StringPart(h.name)|
    requires status.CommentState? ==> index <= |StringPart(h.comment)|
  {
    match status
    case GzipState => []
    case ExtraState => FixedPart(h, xfl) + ExtraPart(h)[..index]
    case NameState => FixedPart(h, xfl) + ExtraPart(h) + StringPart(h.name)[..index]
    case CommentState => FixedPart(h, xfl) + ExtraPart(h) + StringPart(h.name) + StringPart(h.comment)[..index]
    case HcrcState => HeaderBody(h, xfl)
    case _ => Header(h, xfl)
  }

  // ---------- the pending buffer ----------

  class Stream {
    const head: GzHeader      // the default header when the application set none
    const custom: bool        // whether it set one
    const xfl: byte
    const pendingBuf: array<byte>

    var pending: nat      // bytes not delivered yet
    var pendingOut: nat   // where they start in pendingBuf
    var status: Status
    var gzindex: nat
    var adler: bv32
    var availOut: nat
    var out: seq<byte>    // what has been delivered through next_out, over all calls
    var nextIn: seq<byte>
    var totalIn: nat
    var wrapOpen: bool    // wrap > 0: the trailer has not been written
    var lastFlush: int

    ghost var consumed: seq<byte>  // the input read so far
    ghost var body: seq<byte>      // the compressed bytes produced so far

    /** deflateInit2_ with a gzip wrapper, and deflateSetHeader when a header is given. */
    constructor (given: Option<GzHeader>, osCode: byte, level: int, plain: bool, bufSize: nat)
      requires bufSize >= 512 && (given.Some? ==> ProperHeader(given.value))
      ensures StreamOk() && fresh(pendingBuf) && out == [] && nextIn == [] && consumed == []
      ensures custom == given.Some? && (given.Some? ==> head == given.value)
      ensures given.None? ==> head == GzHeader(false, 0, osCode, None, 0, None, None, false)
      ensures xfl == if level == 9 then 2 else if plain || level < 2 then 4 else 0
      ensures status.GzipState? && pendingBuf.Length == bufSize
    {
      head := if given.Some? then given.value else GzHeader(false, 0, osCode, None, 0, None, None, false);
      custom := given.Some?;
      xfl := if level == 9 then 2 else if plain || level < 2 then 4 else 0;
      pendingBuf := new byte[bufSize];
      pending, pendingOut, status, gzindex, adler, availOut := 0, 0, GzipState, 0, 0, 0;
      out, nextIn, totalIn, wrapOpen, lastFlush := [], [], 0, true, Z_NO_FLUSH;
      consumed, body := [], [];
    }

    ghost predicate BufferOk()
      reads `pending, `pendingOut
    {
      && pendingBuf.Length >= 512
      && pendingOut + pending <= pendingBuf.Length && (pending == 0 ==> pendingOut == 0)
    }

    /** Everything put so far, delivered or not. */
    ghost function Written(): seq<byte>
      requires BufferOk()
      reads `pending, `pendingOut, `out, pendingBuf
    {
      out + pendingBuf[pendingOut..pendingOut + pending]
    }

    /** flush_pending. */
    method FlushPending()
      requires BufferOk()
      modifies `pending, `pendingOut, `out, `availOut
      ensures BufferOk() && Written() == old(Written())
      ensures availOut > 0 ==> pending == 0
      ensures old(CrcCovers(0)) ==> CrcCovers(0)
      ensures old(out) <= out && |out| + availOut == |old(out)| + old(availOut)
    {
      hide Crc;
      var len := pending;
      if len > availOut { len := availOut; }
      if len == 0 { return; }
      assert pendingBuf[pendingOut..pendingOut + pending]
        == pendingBuf[pendingOut..pendingOut + len] + pendingBuf[pendingOut + len..pendingOut + pending];
      out := out + pendingBuf[pendingOut..pendingOut + len];
      pendingOut := pendingOut + len;
      availOut := availOut - len;
      pending := pending - len;
      if pending == 0 {
        pendingOut := 0;
      }
    }

    /** put_byte: only right while nothing has been taken out of the buffer. */
    method PutByte(b: byte)
      requires BufferOk() && pendingOut == 0 && pending < pendingBuf.Length
      modifies `pending, pendingBuf
      ensures BufferOk() && pending == old(pending) + 1 && Written() == old(Written()) + [b]
      ensures pendingBuf[..old(pending)] == old(pendingBuf[..pending])
    {
      pendingBuf[pending] := b;
      pending := pending + 1;
      assert pendingBuf[..pending] == old(pendingBuf[..pending]) + [b];
    }

    /** zmemcpy to the end of the pending bytes. */
    method CopyIn(src: seq<byte>)
      requires pending + |src| <= pendingBuf.Length
      modifies pendingBuf
      ensures pendingBuf[..pending + |src|] == old(pendingBuf[..pending]) + src
    {
      ghost var before := pendingBuf[..pending];
      forall i | 0 <= i < |src| {
        pendingBuf[pending + i] := src[i];
      }
      assert pendingBuf[..pending] == before;
    }

    method PutBytes(src: seq<byte>)
      requires BufferOk() && pendingOut == 0 && pending + |src| <= pendingBuf.Length
      modifies `pending, pendingBuf
      ensures BufferOk() && pending == old(pending) + |src| && Written() == old(Written()) + src
      ensures pendingBuf[..old(pending)] == old(pendingBuf[..pending])
    {
      ghost var before := pendingBuf[..pending];
      CopyIn(src);
      assert pendingBuf[..pending] == pendingBuf[..pending + |src|][..pending] == before;
      pending := pending + |src|;
      assert out + (before + src) == out + before + src;
    }

    // ---------- the header CRC ----------

    /** All bytes put, the last k excepted, have been added to the header CRC once. */
    ghost predicate CrcCovers(k: nat)
      requires BufferOk()
      reads `pending, `pendingOut, `out, `adler, pendingBuf
    {
      head.hcrc ==> k <= |Written()| && adler == Crc(0, Written()[..|Written()| - k])
    }

    /** HCRC_UPDATE(beg). */
    method HcrcUpdate(beg: nat)
      requires BufferOk() && pendingOut == 0 && beg <= pending && CrcCovers(pending - beg)
      modifies `adler
      ensures CrcCovers(0) && (!head.hcrc ==> adler == old(adler))
    {
      hide Crc;
      if head.hcrc && pending > beg {
        ghost var w := Written();
        CrcAdd(0, w[..|w| - (pending - beg)], pendingBuf[beg..pending]);
        assert w[..|w| - (pending - beg)] + pendingBuf[beg..pending] == w[..|w| - 0];
        adler := Crc(adler, pendingBuf[beg..pending]);
      }
    }

    /** put_byte ahead of the header CRC. */
    method PutUncovered(beg: nat, b: byte)
      requires BufferOk() && pendingOut == 0 && beg <= pending < pendingBuf.Length && CrcCovers(pending - beg)
      modifies `pending, pendingBuf
      ensures BufferOk() && pending == old(pending) + 1 && Written() == old(Written()) + [b]
      ensures CrcCovers(pending - beg)
    {
      hide Crc;
      ghost var w, n := Written(), |Written()| - (pending - beg);
      PutByte(b);
      assert Written()[..n] == w[..n];
    }

    /** The do-loop over a string field, from gzindex on; true when the output space is full. */
    method PutString(str: seq<byte>, ghost before: seq<byte>) returns (blocked: bool)
      requires BufferOk() && pendingOut == 0 && 0 !in str && gzindex <= |str|
      requires Written() == before + (str + [0])[..gzindex] && CrcCovers(0)
      modifies `pending, `pendingOut, `out, `availOut, `adler, `gzindex, pendingBuf
      ensures BufferOk() && CrcCovers(0) && (!head.hcrc ==> adler == old(adler))
      ensures blocked ==> gzindex <= |str| && Written() == before + (str + [0])[..gzindex] && availOut == 0
      ensures !blocked ==> pendingOut == 0 && Written() == before + str + [0]
      ensures old(out) <= out && |out| + availOut == |old(out)| + old(availOut)
    {
      hide Crc, Stream.Written, Stream.CrcCovers;
      var beg: nat := pending;
      while true
        invariant BufferOk() && pendingOut == 0 && gzindex <= |str| && beg <= pending
        invariant Written() == before + (str + [0])[..gzindex] && CrcCovers(pending - beg)
        invariant !head.hcrc ==> adler == old(adler)
        invariant old(out) <= out && |out| + availOut == |old(out)| + old(availOut)
        decreases |str| - gzindex
      {
        if pending == pendingBuf.Length {
          HcrcUpdate(beg);
          FlushPending();
          if pending != 0 { return true; }
          beg := 0;
        }
        var val := (str + [0])[gzindex];
        gzindex := gzindex + 1;
        PutUncovered(beg, val);
        assert (str + [0])[..gzindex] == (str + [0])[..gzindex - 1] + [val];
        if val == 0 { break; }
      }
      assert (str + [0])[..gzindex] == str + [0];
      HcrcUpdate(beg);
      return false;
    }

    // ---------- the header states ----------

    /** Between any two steps of the header: exactly a prefix of the header has been put, and the
        header CRC covers all of it. */
    ghost predicate HeaderOk()
      reads `pending, `pendingOut, `out, `adler, `status, `gzindex, pendingBuf
    {
      && BufferOk() && ProperHeader(head) && IndexOk(head, status, gzindex)
      && Written() == PutSoFar(head, xfl, status, gzindex)
      && (!status.GzipState? ==> adler == 0 || (head.hcrc && !status.BusyState?))
      && (!status.GzipState? && !status.BusyState? ==> CrcCovers(0))
      && (!custom ==> head.extra.None? && head.name.None? && head.comment.None? && !head.hcrc)
      && !status.FinishState?
    }

    /** GZIP_STATE with a header to write. */
    method WriteFixed()
      requires HeaderOk() && status.GzipState? && pending == 0
      modifies `pending, `adler, `status, `gzindex, pendingBuf
      ensures HeaderOk() && status.ExtraState? && pendingOut == 0
    {
      hide Crc;
      adler := 0;
      PutFixedBytes();
      ghost var w := FixedPart(head, xfl);
      EmptyCrc();
      assert Written()[..|Written()| - pending] == [];
      HcrcUpdate(0);
      gzindex := 0;
      status := ExtraState;
      assert ExtraPart(head)[..0] == [];
    }

    lemma EmptyCrc()
      ensures Crc(0, []) == 0
    {
    }

    method PutFixedBytes()
      requires BufferOk() && pending == 0
      modifies `pending, pendingBuf
      ensures BufferOk() && Written() == old(Written()) + FixedPart(head, xfl) && |FixedPart(head, xfl)| == pending
    {
      hide Stream.Written, FlagByte, Short, TenBytes;
      PutTenBytes(FlagByte(head), head.time, head.os);
      if head.extra.Some? {
        ghost var w := Written();
        PutShort(head.extraLen);
      }
    }

    method PutTenBytes(flags: byte, time: bv32, os: byte)
      requires BufferOk() && pending == 0
      modifies `pending, pendingBuf
      ensures BufferOk() && Written() == old(Written()) + TenBytes(flags, time, xfl, os) && pending == 10
    {
      hide Stream.Written, Long;
      ghost var w := Written();
      PutTwo(31, 139);
      PutTwo(8, flags);
      assert Written() == w + [31, 139, 8, flags];
      PutLong(time);
      PutTwo(xfl, os);
      assert Written() == w + TenBytes(flags, time, xfl, os);
    }

    method PutTwo(a: byte, b: byte)
      requires BufferOk() && pendingOut == 0 && pending + 2 <= pendingBuf.Length
      modifies `pending, pendingBuf
      ensures BufferOk() && Written() == old(Written()) + [a, b] && pending == old(pending) + 2
    {
      hide Stream.Written;
      ghost var w := Written();
      PutByte(a);
      PutByte(b);
      assert w + [a] + [b] == w + [a, b];
    }

    method PutShort(x: bv32)
      requires BufferOk() && pendingOut == 0 && pending + 2 <= pendingBuf.Length
      modifies `pending, pendingBuf
      ensures BufferOk() && Written() == old(Written()) + Short(x) && pending == old(pending) + 2
    {
      hide ByteOf, Stream.Written;
      PutTwo(ByteOf(x), ByteOf(x >> 8));
    }

    method PutLong(x: bv32)
      requires BufferOk() && pendingOut == 0 && pending + 4 <= pendingBuf.Length
      modifies `pending, pendingBuf
      ensures BufferOk() && Written() == old(Written()) + Long(x) && pending == old(pending) + 4
    {
      hide Short, Stream.Written;
      ghost var w := Written();
      PutShort(x);
      PutShort(x >> 16);
      assert w + Short(x) + Short(x >> 16) == w + Long(x);
    }

    /** The extra field, in pieces as large as the pending buffer; true when the output is full. */
    method PutExtra(ghost before: seq<byte>) returns (blocked: bool)
      requires BufferOk() && pendingOut == 0 && ProperHeader(head) && gzindex <= |ExtraPart(head)| && head.extra.Some?
      requires Written() == before + ExtraPart(head)[..gzindex] && CrcCovers(0)
      modifies `pending, `pendingOut, `out, `availOut, `adler, `gzindex, pendingBuf
      ensures BufferOk() && CrcCovers(0) && (!head.hcrc ==> adler == old(adler))
      ensures gzindex <= |ExtraPart(head)| && Written() == before + ExtraPart(head)[..gzindex]
      ensures blocked ==> availOut == 0
      ensures !blocked ==> pendingOut == 0 && gzindex == |ExtraPart(head)|
      ensures old(out) <= out && |out| + availOut == |old(out)| + old(availOut)
    {
      hide Crc, Stream.Written, Stream.CrcCovers, ExtraPart, ProperHeader;
      ExtraLength();
      var left := ExtraSize(head) - gzindex;
      while pending + left > pendingBuf.Length
        invariant BufferOk() && pendingOut == 0 && left == ExtraSize(head) - gzindex >= 0
        invariant Written() == before + ExtraPart(head)[..gzindex] && CrcCovers(0)
        invariant !head.hcrc ==> adler == old(adler)
        invariant old(out) <= out && |out| + availOut == |old(out)| + old(availOut)
        decreases left, pending
      {
        var copy := pendingBuf.Length - pending;
        PutPiece(before, copy);
        FlushPending();
        if pending != 0 { return true; }
        left := left - copy;
      }
      PutPiece(before, left);
      return false;
    }

    lemma ExtraLength()
      requires ProperHeader(head) && head.extra.Some?
      ensures |ExtraPart(head)| == ExtraSize(head) && ExtraSize(head) <= |head.extra.value|
    {
    }

    /** n more bytes of the extra field, and HCRC_UPDATE. */
    method PutPiece(ghost before: seq<byte>, n: nat)
      requires BufferOk() && pendingOut == 0 && ProperHeader(head) && gzindex + n <= |ExtraPart(head)| && head.extra.Some?
      requires Written() == before + ExtraPart(head)[..gzindex] && CrcCovers(0) && pending + n <= pendingBuf.Length
      modifies `pending, `adler, `gzindex, pendingBuf
      ensures BufferOk() && CrcCovers(0) && (!head.hcrc ==> adler == old(adler))
      ensures gzindex == old(gzindex) + n && Written() == before + ExtraPart(head)[..gzindex]
      ensures pending == old(pending) + n
    {
      hide Crc, Stream.Written, Stream.CrcCovers;
      ghost var extra := ExtraPart(head);
      PutCovered(head.extra.value[gzindex..gzindex + n]);
      assert head.extra.value[gzindex..gzindex + n] == extra[gzindex..gzindex + n];
      assert extra[..gzindex] + extra[gzindex..gzindex + n] == extra[..gzindex + n];
      assert before + extra[..gzindex] + extra[gzindex..gzindex + n] == before + (extra[..gzindex] + extra[gzindex..gzindex + n]);
      gzindex := gzindex + n;
    }

    /** zmemcpy followed by HCRC_UPDATE from where it began. */
    method PutCovered(src: seq<byte>)
      requires BufferOk() && pendingOut == 0 && pending + |src| <= pendingBuf.Length && CrcCovers(0)
      modifies `pending, `adler, pendingBuf
      ensures BufferOk() && pending == old(pending) + |src| && Written() == old(Written()) + src
      ensures CrcCovers(0) && (!head.hcrc ==> adler == old(adler))
    {
      hide Crc;
      var beg: nat := pending;
      ghost var w := Written();
      assert w[..|w| - 0] == w;
      PutBytes(src);
      assert Written()[..|w|] == w;
      HcrcUpdate(beg);
    }

    /** EXTRA_STATE. */
    method WriteExtra() returns (blocked: bool)
      requires HeaderOk() && status.ExtraState? && pendingOut == 0
      modifies `pending, `pendingOut, `out, `availOut, `adler, `gzindex, `status, pendingBuf
      ensures HeaderOk() && (blocked ==> availOut == 0) && (!blocked ==> status.NameState? && pendingOut == 0)
      ensures old(out) <= out && |out| + availOut == |old(out)| + old(availOut)
    {
      hide Crc, FixedPart, Stream.Written, Stream.CrcCovers;
      if head.extra.Some? {
        blocked := PutExtra(FixedPart(head, xfl));
        if blocked { return true; }
        gzindex := 0;
      }
      ExtraIsWhole();
      status := NameState;
      return false;
    }

    lemma ExtraIsWhole()
      requires ProperHeader(head)
      ensures ExtraPart(head)[..|ExtraPart(head)|] == ExtraPart(head)
      ensures StringPart(head.name)[..0] == []
      ensures FixedPart(head, xfl) + ExtraPart(head) + [] == FixedPart(head, xfl) + ExtraPart(head)
    {
    }

    /** NAME_STATE. */
    method WriteName() returns (blocked: bool)
      requires HeaderOk() && status.NameState? && pendingOut == 0
      modifies `pending, `pendingOut, `out, `availOut, `adler, `gzindex, `status, pendingBuf
      ensures HeaderOk() && (blocked ==> availOut == 0) && (!blocked ==> status.CommentState? && pendingOut == 0)
      ensures old(out) <= out && |out| + availOut == |old(out)| + old(availOut)
    {
      hide Crc, FixedPart, ExtraPart, Stream.Written, Stream.CrcCovers;
      ghost var before := FixedPart(head, xfl) + ExtraPart(head);
      if head.name.Some? {
        StringIndex(head.name, before);
        blocked := PutString(head.name.value, before);
        if blocked { return true; }
        gzindex := 0;
      }
      StringIsWhole(head.name, before);
      StringIsWhole(head.comment, before + StringPart(head.name));
      status := CommentState;
      return false;
    }

    /** COMMENT_STATE; gzindex is not reset behind it. */
    method WriteComment() returns (blocked: bool)
      requires HeaderOk() && status.CommentState? && pendingOut == 0
      modifies `pending, `pendingOut, `out, `availOut, `adler, `gzindex, `status, pendingBuf
      ensures HeaderOk() && (blocked ==> availOut == 0) && (!blocked ==> status.HcrcState? && pendingOut == 0)
      ensures old(out) <= out && |out| + availOut == |old(out)| + old(availOut)
    {
      hide Crc, FixedPart, ExtraPart, Stream.Written, Stream.CrcCovers;
      ghost var before := FixedPart(head, xfl) + ExtraPart(head) + StringPart(head.name);
      if head.comment.Some? {
        StringIndex(head.comment, before);
        blocked := PutString(head.comment.value, before);
        if blocked { return true; }
      }
      StringIsWhole(head.comment, before);
      status := HcrcState;
      return false;
    }

    /** The end of the header with a custom header: the CRC16, and an empty pending buffer. */
    method WriteHcrc() returns (blocked: bool)
      requires HeaderOk() && status.HcrcState? && pendingOut == 0
      modifies `pending, `pendingOut, `out, `availOut, `adler, `status, pendingBuf
      ensures HeaderOk() && (blocked ==> availOut == 0) && (!blocked ==> status.BusyState? && pending == 0)
      ensures old(out) <= out && |out| + availOut == |old(out)| + old(availOut)
    {
      hide Crc, HeaderBody, Stream.Written;
      if head.hcrc {
        if pending + 2 > pendingBuf.Length {
          FlushPending();
          if pending != 0 { return true; }
        }
        assert Written()[..|Written()| - 0] == Written();
        PutShort(adler);
        adler := 0;
      }
      NothingBehind(HeaderBody(head, xfl));
      status := BusyState;
      FlushPending();
      return pending != 0;
    }

    /** GZIP_STATE without a header to write: ten bytes, and an empty pending buffer. */
    method WriteDefault() returns (blocked: bool)
      requires HeaderOk() && status.GzipState? && pending == 0 && !custom
      modifies `pending, `pendingOut, `out, `availOut, `adler, `status, pendingBuf
      ensures HeaderOk() && (blocked ==> availOut == 0) && status.BusyState? && (!blocked ==> pending == 0)
      ensures old(out) <= out && |out| + availOut == |old(out)| + old(availOut)
    {
      hide Crc, FixedPart;
      adler := 0;
      PutFixedBytes();
      DefaultHeader();
      status := BusyState;
      FlushPending();
      return pending != 0;
    }

    lemma DefaultHeader()
      requires ProperHeader(head) && head.extra.None? && head.name.None? && head.comment.None? && !head.hcrc
      ensures Header(head, xfl) == FixedPart(head, xfl)
    {
    }

    /** The header states of one call: they resume where the last call ran out of output space. */
    method WriteHeader() returns (blocked: bool)
      requires HeaderOk() && pending == 0
      modifies `pending, `pendingOut, `out, `availOut, `adler, `gzindex, `status, pendingBuf
      ensures HeaderOk() && (blocked ==> availOut == 0) && (!blocked ==> status.BusyState? && pending == 0)
      ensures old(out) <= out && |out| + availOut == |old(out)| + old(availOut)
    {
      hide Stream.HeaderOk;
      HeaderStates();
      if status.GzipState? {
        if !custom {
          blocked := WriteDefault();
          return;
        }
        WriteFixed();
      }
      if status.ExtraState? {
        blocked := WriteExtra();
        if blocked { return; }
      }
      if status.NameState? {
        blocked := WriteName();
        if blocked { return; }
      }
      if status.CommentState? {
        blocked := WriteComment();
        if blocked { return; }
      }
      if status.HcrcState? {
        blocked := WriteHcrc();
        if blocked { return; }
      }
      blocked := false;
      HeaderStates();
    }

    lemma HeaderStates()
      requires HeaderOk()
      ensures !status.FinishState? && (pending == 0 ==> pendingOut == 0)
    {
    }

    // ---------- the body and the trailer ----------

    /** Behind the header: header, compressed bytes and, once written, the trailer; the checksum
        and the length are those of the input read. */
    ghost predicate BodyOk()
      reads `pending, `pendingOut, `out, `adler, `status, `totalIn, `wrapOpen, `consumed, `body, pendingBuf
    {
      && BufferOk() && ProperHeader(head)
      && Written() == Header(head, xfl) + body + (if wrapOpen then [] else Trailer(consumed))
      && adler == Crc(0, consumed) && totalIn == |consumed|
      && (status.BusyState? || status.FinishState?) && (!wrapOpen ==> status.FinishState?)
    }

    /** read_buf with wrap == 2. */
    method ReadInput(n: nat)
      requires BodyOk() && n <= |nextIn| && wrapOpen
      modifies `nextIn, `adler, `totalIn, `consumed
      ensures BodyOk() && consumed + nextIn == old(consumed + nextIn) && nextIn == old(nextIn[n..])
    {
      hide Crc, Stream.Written, Header;
      if n == 0 { return; }
      CrcAdd(0, consumed, nextIn[..n]);
      adler := Crc(adler, nextIn[..n]);
      assert consumed + nextIn == consumed + nextIn[..n] + nextIn[n..];
      consumed := consumed + nextIn[..n];
      totalIn := totalIn + n;
      nextIn := nextIn[n..];
    }

    /** A block written to the empty pending buffer, and flush_pending. */
    method EmitBlock(bytes: seq<byte>)
      requires BodyOk() && pending == 0 && wrapOpen && |bytes| <= pendingBuf.Length
      modifies `pending, `pendingOut, `out, `availOut, `body, pendingBuf
      ensures BodyOk() && body == old(body) + bytes && (availOut > 0 ==> pending == 0)
      ensures old(out) <= out && |out| + availOut == |old(out)| + old(availOut)
    {
      hide Crc, Stream.Written, Header, Trailer;
      PutBytes(bytes);
      AppendBody(Header(head, xfl), body, bytes);
      body := body + bytes;
      FlushPending();
    }

    /** One call of the compression function: its doings until they are done or, behind a block,
        the output space is full. The last of them comes once all the input is read, which leaves input
        unread only for want of output space; finishing always emits a last block. */
    method Compress(doings: seq<Doing>, flush: int) returns (st: DeflateState.BlockState)
      requires BodyOk() && pending == 0 && status.BusyState? && (flush == Z_FINISH ==> doings != [])
      requires forall i :: 0 <= i < |doings| ==> |doings[i].block| <= pendingBuf.Length
      modifies `nextIn, `adler, `totalIn, `consumed, `pending, `pendingOut, `out, `availOut, `body, pendingBuf
      ensures BodyOk() && wrapOpen && consumed + nextIn == old(consumed + nextIn)
      ensures old(out) <= out && |out| + availOut == |old(out)| + old(availOut)
      ensures st.FinishDone? || st.BlockDone? ==> pending == 0
      ensures st.FinishDone? || st.FinishStarted? ==> flush == Z_FINISH
      ensures flush == Z_FINISH ==> !st.BlockDone?
      ensures nextIn == [] || (st.NeedMore? && availOut == 0)
    {
      hide Stream.BodyOk;
      WrapIsOpen();
      var k := 0;
      while k < |doings|
        invariant k <= |doings| && BodyOk() && pending == 0 && wrapOpen
        invariant consumed + nextIn == old(consumed + nextIn)
        invariant 0 < k == |doings| ==> nextIn == []
        invariant old(out) <= out && |out| + availOut == |old(out)| + old(availOut)
      {
        var n := doings[k].read;
        if n > |nextIn| || k + 1 == |doings| { n := |nextIn|; }
        ReadInput(n);
        EmitBlock(doings[k].block);
        k := k + 1;
        if availOut == 0 {
          return if k == |doings| && flush == Z_FINISH then DeflateState.FinishStarted else DeflateState.NeedMore;
        }
      }
      if doings == [] { ReadInput(|nextIn|); }
      return
        if flush == Z_FINISH then DeflateState.FinishDone
        else if flush == Z_NO_FLUSH then DeflateState.NeedMore
        else DeflateState.BlockDone;
    }

    lemma WrapIsOpen()
      requires BodyOk()
      ensures status.BusyState? ==> wrapOpen
    {
    }

    /** The trailer, and wrap = -wrap. */
    method WriteTrailer()
      requires BodyOk() && pending == 0 && status.FinishState? && wrapOpen
      modifies `pending, `pendingOut, `out, `availOut, `wrapOpen, pendingBuf
      ensures BodyOk() && !wrapOpen
      ensures old(out) <= out && |out| + availOut == |old(out)| + old(availOut)
    {
      hide Crc, Stream.Written, Header, Long, Low32, Trailer;
      PutLong(adler);
      PutLong(Low32(totalIn));
      TrailerBehind(Header(head, xfl) + body, consumed);
      wrapOpen := false;
      FlushPending();
    }

    // ---------- deflate() ----------

    /** The invariant between calls. */
    ghost predicate StreamOk()
      reads `pending, `pendingOut, `out, `adler, `status, `gzindex, `totalIn, `wrapOpen, `consumed, `body, pendingBuf
    {
      if status.BusyState? || status.FinishState? then BodyOk()
      else HeaderOk() && wrapOpen && consumed == [] && body == [] && totalIn == 0
    }

    /** Everything that belongs on the wire for what has happened so far. */
    ghost function Image(): seq<byte>
      requires ProperHeader(head)
      reads `wrapOpen, `consumed, `body
    {
      Header(head, xfl) + body + if wrapOpen then [] else Trailer(consumed)
    }

    /** deflate() with wrap == 2, the compressor's part given by doings; ahead tells whether
        lookahead != 0. */
    method Deflate(flush: int, doings: seq<Doing>, ahead: bool) returns (code: Code)
      requires StreamOk() && 0 <= flush <= 5
      requires (flush == Z_FINISH ==> doings != []) && (status.FinishState? ==> !ahead)
      requires forall i :: 0 <= i < |doings| ==> |doings[i].block| <= pendingBuf.Length
      modifies this, pendingBuf
      ensures StreamOk() && consumed + nextIn == old(consumed + nextIn)
      ensures old(out) <= out && |out| + availOut == |old(out)| + old(availOut)
      ensures code == StreamEnd ==> !wrapOpen && ProperHeader(head) && out == Image() && nextIn == []
      ensures code == BufError <== old(availOut) == 0 || (old(pending) == 0 &&
        ((old(nextIn) == [] && Rank(flush) <= Rank(old(lastFlush)) && flush != Z_FINISH) ||
         (old(status).FinishState? && old(nextIn) != [])))
      ensures code == BufError ==> nextIn == old(nextIn) && (old(availOut) == 0 || old(pending) == 0 ==> out == old(out))
      ensures flush != Z_FINISH ==> code != StreamEnd
    {
      hide Stream.HeaderOk, Stream.BodyOk, Rank;
      if availOut == 0 { return BufError; }
      var oldFlush := lastFlush;
      lastFlush := flush;
      if pending != 0 {
        FlushStream();
        if availOut == 0 {
          lastFlush := -1;
          return Ok;
        }
      } else if nextIn == [] && Rank(flush) <= Rank(oldFlush) && flush != Z_FINISH {
        return BufError;
      }
      if status.FinishState? && nextIn != [] { return BufError; }
      if !status.BusyState? && !status.FinishState? {
        var blocked := HeaderStep();
        if blocked {
          lastFlush := -1;
          return Ok;
        }
      }
      code := DeflateBody(flush, doings, ahead);
      BodyStates();
      if code == StreamEnd { WholeImage(); }
    }

    /** The header states within one call. */
    method HeaderStep() returns (blocked: bool)
      requires StreamOk() && !status.BusyState? && !status.FinishState? && pending == 0
      modifies `pending, `pendingOut, `out, `availOut, `adler, `gzindex, `status, pendingBuf
      ensures StreamOk() && (blocked ==> availOut == 0) && (!blocked ==> status.BusyState? && pending == 0)
      ensures old(out) <= out && |out| + availOut == |old(out)| + old(availOut)
    {
      hide Stream.HeaderOk, Stream.BodyOk;
      blocked := WriteHeader();
      HeaderStates();
      if status.BusyState? { HeaderDone(); }
    }

    /** The invariant says what has been delivered: a prefix of the image of what has happened. The
        header part of it does not depend on how the output was cut up. */
    lemma DeliveredIsPrefix()
      requires StreamOk()
      ensures ProperHeader(head) && (status.BusyState? || status.FinishState? ==> out <= Image())
      ensures !status.BusyState? && !status.FinishState? ==> out <= Header(head, xfl)
    {
      hide Crc, HeaderBody, HcrcPart, PutSoFar, Trailer, Header;
      assert out <= Written();
      if !status.BusyState? && !status.FinishState? {
        PutIsPrefix(head, xfl, status, gzindex);
        PrefixTrans(out, Written(), Header(head, xfl));
      }
    }

    lemma WholeImage()
      requires BodyOk() && pending == 0
      ensures ProperHeader(head) && out == Image()
    {
      hide Crc, Header, Trailer;
      assert Written() == out;
    }

    lemma ClosedImage()
      requires ProperHeader(head) && !wrapOpen
      ensures Image() == Header(head, xfl) + body + Trailer(consumed)
    {
      hide Header, Trailer;
    }

    /** deflate() behind the header: the compression function, then the trailer once. */
    method DeflateBody(flush: int, doings: seq<Doing>, ahead: bool) returns (code: Code)
      requires BodyOk() && pending == 0
      requires (flush == Z_FINISH ==> doings != []) && (status.FinishState? ==> !ahead && nextIn == [])
      requires forall i :: 0 <= i < |doings| ==> |doings[i].block| <= pendingBuf.Length
      modifies `nextIn, `adler, `totalIn, `consumed, `pending, `pendingOut, `out, `availOut, `body, `status, `wrapOpen
      modifies `lastFlush, pendingBuf
      ensures BodyOk() && consumed + nextIn == old(consumed + nextIn)
      ensures old(out) <= out && |out| + availOut == |old(out)| + old(availOut)
      ensures code == StreamEnd ==> !wrapOpen && pending == 0 && nextIn == []
      ensures code != BufError && (flush != Z_FINISH ==> code != StreamEnd)
    {
      hide Stream.BodyOk;
      if nextIn != [] || ahead || (flush != Z_NO_FLUSH && !status.FinishState?) {
        BodyStates();
        var st := Compress(doings, flush);
        if st.FinishStarted? || st.FinishDone? {
          BeginFinish();
        }
        if st.NeedMore? || st.FinishStarted? {
          if availOut == 0 { lastFlush := -1; }
          return Ok;
        }
        if st.BlockDone? && availOut == 0 {
          lastFlush := -1;
          return Ok;
        }
      }
      if flush != Z_FINISH { return Ok; }
      if !wrapOpen { return StreamEnd; }
      WriteTrailer();
      return if pending != 0 then Ok else StreamEnd;
    }

    method BeginFinish()
      requires BodyOk()
      modifies `status
      ensures BodyOk() && status.FinishState?
    {
      status := FinishState;
    }

    lemma BodyStates()
      requires BodyOk()
      ensures status.BusyState? || status.FinishState?
    {
    }

    /** Delivering pending bytes keeps the invariant. */
    method FlushStream()
      requires StreamOk()
      modifies `pending, `pendingOut, `out, `availOut
      ensures StreamOk() && (availOut > 0 ==> pending == 0)
      ensures old(out) <= out && |out| + availOut == |old(out)| + old(availOut)
    {
      hide Crc, Stream.Written, Header, Trailer, PutSoFar, IndexOk, Stream.CrcCovers;
      StreamBuffer();
      FlushPending();
    }

    lemma StreamBuffer()
      requires StreamOk()
      ensures BufferOk() && ProperHeader(head)
    {
    }

    /** The end of the header is the beginning of the body. */
    lemma HeaderDone()
      requires HeaderOk() && status.BusyState? && wrapOpen && consumed == [] && body == [] && totalIn == 0
      ensures BodyOk()
    {
      hide Crc, Header;
      EmptyCrc();
      assert Header(head, xfl) + [] + [] == Header(head, xfl);
    }
  }

  /** One call by the application. */
  datatype Call = Call(data: seq<byte>, room: nat, flush: int, doings: seq<Doing>, ahead: bool)

  ghost predicate ProperCall(c: Call, bufSize: nat)
  {
    && 0 <= c.flush <= 5 && (c.flush == Z_FINISH ==> c.doings != [])
    && forall i :: 0 <= i < |c.doings| ==> |c.doings[i].block| <= bufSize
  }

  /** All the input the calls bring. */
  function Fed(calls: seq<Call>): seq<byte>
  {
    if calls == [] then [] else Fed(calls[..|calls| - 1]) + calls[|calls| - 1].data
  }

  lemma FedMore(consumed: seq<byte>, ahead: seq<byte>, start: seq<byte>, fed: seq<byte>, more: seq<byte>)
    requires consumed + ahead == start + fed
    ensures consumed + (ahead + more) == start + (fed + more)
  {
    assert consumed + (ahead + more) == consumed + ahead + more;
  }

  /** Any sequence of calls with any sizes of input and output: no input is lost, what has been
      delivered is a prefix of the one image, and once Z_STREAM_END is returned it is all of it, with
      the checksum and the length of all that was fed. */
  method Run(s: Stream, calls: seq<Call>) returns (last: Code)
    requires s.StreamOk()
    requires forall i :: 0 <= i < |calls| ==> ProperCall(calls[i], s.pendingBuf.Length)
    modifies s, s.pendingBuf
    ensures s.StreamOk() && ProperHeader(s.head)
    ensures s.consumed + s.nextIn == old(s.consumed + s.nextIn) + Fed(calls) && old(s.out) <= s.out
    ensures s.status.BusyState? || s.status.FinishState? ==> s.out <= s.Image()
    ensures !s.status.BusyState? && !s.status.FinishState? ==> s.out <= Header(s.head, s.xfl)
    ensures last == StreamEnd ==> s.consumed == old(s.consumed + s.nextIn) + Fed(calls)
    ensures last == StreamEnd ==> s.out == Header(s.head, s.xfl) + s.body + Trailer(s.consumed)
  {
    hide Stream.StreamOk, Stream.Image, Header, Trailer;
    last := Ok;
    s.StreamBuffer();
    for k := 0 to |calls|
      invariant s.StreamOk() && ProperHeader(s.head)
      invariant s.consumed + s.nextIn == old(s.consumed + s.nextIn) + Fed(calls[..k]) && old(s.out) <= s.out
      invariant last == StreamEnd ==> !s.wrapOpen && s.out == s.Image() && s.nextIn == []
    {
      var c := calls[k];
      assert ProperCall(c, s.pendingBuf.Length);
      assert calls[..k + 1][..k] == calls[..k];
      FedMore(s.consumed, s.nextIn, old(s.consumed + s.nextIn), Fed(calls[..k]), c.data);
      s.nextIn := s.nextIn + c.data;
      s.availOut := c.room;
      last := s.Deflate(c.flush, c.doings, c.ahead && !s.status.FinishState?);
      s.StreamBuffer();
    }
    assert calls[..|calls|] == calls;
    s.DeliveredIsPrefix();
    if last == StreamEnd { s.ClosedImage(); }
  }

  datatype Code = Ok | StreamEnd | BufError

  const Z_NO_FLUSH := 0
  const Z_FINISH := 4

  /** RANK: Z_BLOCK (5) ranks between Z_NO_FLUSH and Z_PARTIAL_FLUSH. */
  function Rank(flush: int): int
  {
    2 * flush - if flush > 4 then 9 else 0
  }

  /** Z_NO_FLUSH, Z_BLOCK, Z_PARTIAL_FLUSH, Z_SYNC_FLUSH, Z_FULL_FLUSH, Z_FINISH, in this order. */
  lemma RankOrder()
    ensures Rank(0) < Rank(5) < Rank(1) < Rank(2) < Rank(3) < Rank(4)
  {
  }

  /** The compressor's doings in one call, as far as the wrapper sees them: input bytes read, then
      a block of output. */
  datatype Doing = Doing(read: nat, block: seq<byte>)

  lemma PrefixTrans(a: seq<byte>, b: seq<byte>, c: seq<byte>)
    requires a <= b <= c
    ensures a <= c
  {
    assert c[..|b|] == b;
    assert c[..|a|] == b[..|a|];
  }

  lemma PrefixOfSum(a: seq<byte>, x: seq<byte>, k: nat, y: seq<byte>)
    requires k <= |x|
    ensures a + x[..k] <= a + x + y
  {
    assert (a + x + y)[..|a| + k] == a + x[..k];
  }

  /** What the header states have put is a prefix of the header. */
  lemma PutIsPrefix(h: GzHeader, xfl: byte, status: Status, index: nat)
    requires ProperHeader(h) && IndexOk(h, status, index)
    requires !status.BusyState? && !status.FinishState?
    ensures PutSoFar(h, xfl, status, index) <= Header(h, xfl)
  {
    hide FixedPart, ExtraPart, HcrcPart;
    var f, e, n, c, r := FixedPart(h, xfl), ExtraPart(h), StringPart(h.name), StringPart(h.comment), HcrcPart(h, xfl);
    match status
    case GzipState =>
    case ExtraState =>
      PrefixOfSum(f, e, index, n + c + r);
      assert f + e + (n + c + r) == Header(h, xfl);
    case NameState =>
      PrefixOfSum(f + e, n, index, c + r);
      assert f + e + n + (c + r) == Header(h, xfl);
    case CommentState =>
      PrefixOfSum(f + e + n, c, index, r);
    case HcrcState =>
  }

  /** CRC32 and length modulo 2^32 of the input. */
  function Trailer(input: seq<byte>): seq<byte>
  {
    Long(Crc(0, input)) + Long(Low32(|input|))
  }

  function Low32(n: nat): bv32
  {
    (n % 0x1_0000_0000) as bv32
  }

  lemma TrailerBehind(w: seq<byte>, input: seq<byte>)
    ensures w + [] + Long(Crc(0, input)) + Long(Low32(|input|)) == w + Trailer(input)
  {
    hide Long, Low32, Crc;
    assert w + [] == w;
  }

  lemma AppendBody(head: seq<byte>, body: seq<byte>, more: seq<byte>)
    ensures head + body + [] + more == head + (body + more) + []
  {
  }

  lemma NothingBehind(s: seq<byte>)
    ensures s + [] == s
  {
  }

  lemma StringIndex(s: Option<seq<byte>>, before: seq<byte>)
    requires s.Some? && 0 !in s.value
    ensures StringPart(s) == s.value + [0] && |StringPart(s)| == |s.value| + 1
    ensures before + s.value + [0] == before + StringPart(s)
  {
  }

  lemma StringIsWhole(s: Option<seq<byte>>, before: seq<byte>)
    ensures StringPart(s)[..|StringPart(s)|] == StringPart(s) && StringPart(s)[..0] == [] && before + [] == before
    ensures s.None? ==> StringPart(s) == []
  {
  }

  ghost predicate IndexOk(h: GzHeader, status: Status, index: nat)
    requires ProperHeader(h)
  {
    && (status.ExtraState? ==> index <= |ExtraPart(h)|)
    && (status.NameState? ==> index <= if h.name.Some? then |h.name.value| else 0)
    && (status.CommentState? ==> index <= if h.comment.Some? then |h.comment.value| else 0)
  }
}
