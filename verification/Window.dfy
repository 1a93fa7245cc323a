/** read_buf and fill_window: how input enters the sliding window. */
module Window {
  import opened Lz77
  import opened RollingHash
  import opened HashChains
  import opened DeflateState
  import opened HashTable

  /** read_buf into the free end of the window, and the lookahead += n that follows it. */
  method ReadBuf(s: State, ghost top: int, size: nat) returns (n: nat)
    requires s.Shape() && s.WindowOk() && s.KeysOk() && s.ChainsBelow(top)
    requires s.strstart + s.lookahead + size <= s.window.Length
    modifies s`nextIn, s`lookahead, s`input, s`written, s.window
    ensures n == if |old(s.nextIn)| > size then size else |old(s.nextIn)|
    ensures s.input == old(s.input) + old(s.nextIn)[..n] && s.nextIn == old(s.nextIn)[n..]
    ensures s.lookahead == old(s.lookahead) + n && s.written >= old(s.written)
    ensures s.WindowOk() && s.KeysOk() && s.ChainsBelow(top)
    ensures forall i :: 0 <= i < s.strstart + old(s.lookahead) ==> s.window[i] == old(s.window[i])
  {
    hide KeysTrue, ChainsOk, HashSize;
    n := |s.nextIn|;
    if n > size { n := size; }
    var end := s.strstart + s.lookahead;
    forall i | 0 <= i < n {
      s.window[end + i] := s.nextIn[i];
    }
    GrowKeepsKeys(s.input, s.nextIn[..n], s.dict, s.hashBits);
    s.input := s.input + s.nextIn[..n];
    s.nextIn := s.nextIn[n..];
    s.lookahead := s.lookahead + n;
    s.written := if s.written < end + n then end + n else s.written;
  }

  /** The move of the upper window half to the lower one. */
  method SlideWindow(s: State, ghost top: int)
    requires s.Shape() && s.WindowOk() && s.KeysOk() && s.ChainsBelow(top)
    requires s.strstart >= s.wSize + s.MaxDist()
    modifies s`matchStart, s`strstart, s`blockStart, s`base, s.window, s.prev, s.head
    ensures s.base == old(s.base) + s.wSize && s.strstart == old(s.strstart) - s.wSize
    ensures s.blockStart == old(s.blockStart) - s.wSize && s.matchStart == Minus(old(s.matchStart), s.wSize)
    ensures s.WindowOk() && s.KeysOk() && s.ChainsBelow(top - s.wSize)
  {
    hide KeysTrue, ChainsOk, HashSize;
    var more := 2 * s.wSize - s.lookahead - s.strstart;
    forall i | 0 <= i < s.wSize - more {
      s.window[i] := s.window[s.wSize + i];
    }
    s.matchStart := Minus(s.matchStart, s.wSize);
    s.strstart := s.strstart - s.wSize;
    s.blockStart := s.blockStart - s.wSize;
    SlideHash(s, top);
  }

  /** Of insert strings that waited before strstart to be filed, those now complete have been. */
  ghost predicate FiledSince(s: State, dict: map<int, nat>, insert: nat)
    reads s`base, s`strstart, s`lookahead, s`insert, s`input, s`dict
  {
    && 8 <= s.hashBits <= 16 && s.insert <= insert && (s.insert < insert ==> s.lookahead + s.insert >= 2)
    && s.dict == FileAll(dict, s.input, s.base + s.strstart - insert, s.base + s.strstart - s.insert, s.hashBits)
  }

  lemma NothingFiled(s: State)
    requires 8 <= s.hashBits <= 16
    ensures FiledSince(s, s.dict, s.insert)
  {
    FileNone(s.dict, s.input, s.base + s.strstart - s.insert, s.hashBits);
  }

  /** Once input has arrived: restart the running hash and file the strings left over from the
      end of the previous input, as far as they are complete now. */
  method FilePending(s: State, ghost top: int)
    requires s.Shape() && s.WindowOk() && s.KeysOk() && s.ChainsBelow(top)
    requires s.insert <= s.strstart && top <= s.strstart - s.insert && top <= s.Top()
    modifies s`insH, s`insert, s`dict, s.prev, s.head
    ensures s.WindowOk() && s.KeysOk() && s.ChainsBelow(s.Top()) && s.InsertOk() && s.HashReady()
    ensures FiledSince(s, old(s.dict), old(s.insert))
  {
    hide CoversAt, KeysTrue, ChainsOk, HashSize, State.Contents, FileAll, KeyOf, IsLatest, State.KeysOk;
    ghost var dict, lo := s.dict, s.base + s.strstart - s.insert;
    FileNone(dict, s.input, lo, s.hashBits);
    if s.lookahead + s.insert >= MIN_MATCH {
      var str := s.strstart - s.insert;
      StartHash(s, str);
      AdvanceKeepsChains(s.base, s.dict, top, str, s.head[..], s.prev[..]);
      while s.insert != 0
        invariant str == s.strstart - s.insert && s.insert <= s.strstart
        invariant s.lookahead + s.insert >= MIN_MATCH
        invariant s.WindowOk() && s.KeysOk() && s.ChainsBelow(str)
        invariant CoversAt(s.insH, s.input, s.base + str, s.hashBits)
        invariant lo <= s.base + str && s.dict == FileAll(dict, s.input, lo, s.base + str, s.hashBits)
        decreases s.insert
      {
        FileOne(s.dict, s.input, s.base + str, s.hashBits);
        FileMore(dict, s.input, s.input, lo, s.base + str, s.base + str + 1, s.hashBits);
        var _ := InsertString(s, str, str);
        str := str + 1;
        s.insert := s.insert - 1;
        if s.lookahead + s.insert < MIN_MATCH { break; }
      }
    } else {
      AdvanceKeepsChains(s.base, s.dict, top, s.Top(), s.head[..], s.prev[..]);
    }
  }

  /** ins_h from the two bytes at str. */
  method StartHash(s: State, str: nat)
    requires s.Shape() && s.WindowOk() && str + 1 < s.strstart + s.lookahead
    modifies s`insH
    ensures CoversAt(s.insH, s.input, s.base + str, s.hashBits)
  {
    WindowByte(s, str);
    WindowByte(s, str + 1);
    s.insH := s.window[str] as bv32;
    s.insH := Update(s.insH, s.window[str + 1], s.hashBits);
  }

  /** Slide when the window is almost full. */
  method SlideIfFull(s: State)
    requires s.Shape() && s.WindowOk() && s.KeysOk() && s.ChainsBelow(s.Top()) && s.InsertOk()
    modifies s`matchStart, s`strstart, s`blockStart, s`base, s.window, s.prev, s.head
    ensures s.WindowOk() && s.ChainsBelow(s.Top()) && s.InsertOk()
    ensures s.strstart <= 2 * s.wSize - MIN_LOOKAHEAD
    ensures s.base + s.strstart == old(s.base + s.strstart) && s.base + s.blockStart == old(s.base + s.blockStart)
    ensures s.base >= old(s.base)
    ensures Minus(s.strstart, s.matchStart) == old(Minus(s.strstart, s.matchStart))
    ensures s.strstart == old(s.strstart) < s.wSize + s.MaxDist() || 2 <= s.strstart <= s.wSize
  {
    hide KeysTrue, ChainsOk, HashSize, State.ChainsBelow, State.Contents;
    if s.strstart >= s.wSize + s.MaxDist() {
      SlideWindow(s, s.Top());
    }
  }

  /** Read as much as fits, at least two bytes' room being left, and file what is complete now. */
  method ReadMore(s: State)
    requires s.Shape() && s.WindowOk() && s.KeysOk() && s.ChainsBelow(s.Top()) && s.InsertOk()
    requires s.lookahead < MIN_LOOKAHEAD && s.strstart < 2 * s.wSize - MIN_LOOKAHEAD && s.nextIn != []
    modifies s`nextIn, s`lookahead, s`input, s`written, s`insH, s`insert, s`dict, s.window, s.prev, s.head
    ensures s.WindowOk() && s.KeysOk() && s.ChainsBelow(s.Top()) && s.InsertOk() && (old(s.HashReady()) ==> s.HashReady())
    ensures s.input + s.nextIn == old(s.input + s.nextIn) && old(s.input) <= s.input
    ensures |s.nextIn| < |old(s.nextIn)| && s.lookahead >= old(s.lookahead)
    ensures FiledSince(s, old(s.dict), old(s.insert))
  {
    hide CoversAt, KeysTrue, HashSize, State.ChainsBelow, State.Contents, FiledSince;
    var more := 2 * s.wSize - s.lookahead - s.strstart;
    assert more >= 2;
    ghost var top := s.Top();
    var n := ReadBuf(s, top, more);
    hide State.HashReady;
    FilePending(s, top);
  }

  /** One round of fill_window's loop: slide, then read; dict and insert are those before the first. */
  method FillStep(s: State, ghost dict: map<int, nat>, ghost insert: nat)
    requires s.Shape() && s.WindowOk() && s.KeysOk() && s.ChainsBelow(s.Top()) && s.InsertOk()
    requires s.lookahead < MIN_LOOKAHEAD && FiledSince(s, dict, insert)
    modifies s`matchStart, s`strstart, s`blockStart, s`base, s`nextIn, s`lookahead, s`input, s`written
    modifies s`insH, s`insert, s`dict, s.window, s.prev, s.head
    ensures s.WindowOk() && s.KeysOk() && s.ChainsBelow(s.Top()) && s.InsertOk() && (old(s.HashReady()) ==> s.HashReady())
    ensures s.strstart <= 2 * s.wSize - MIN_LOOKAHEAD
    ensures s.base + s.strstart == old(s.base + s.strstart) && s.base + s.blockStart == old(s.base + s.blockStart)
    ensures s.base >= old(s.base)
    ensures Minus(s.strstart, s.matchStart) == old(Minus(s.strstart, s.matchStart))
    ensures s.input + s.nextIn == old(s.input + s.nextIn) && old(s.input) <= s.input
    ensures old(s.strstart) >= 1 ==> s.strstart >= 1
    ensures old(s.nextIn) != [] ==> |s.nextIn| < |old(s.nextIn)|
    ensures FiledSince(s, dict, insert)
  {
    hide CoversAt, KeysTrue, HashSize, State.ChainsBelow, State.Contents, FiledSince, FileAll;
    ghost var dict1, insert1, input1, lookahead1 := s.dict, s.insert, s.input, s.lookahead;
    FiledBefore(s, dict, insert);
    SlideIfFull(s);
    if s.nextIn == [] {
      NothingFiled(s);
    } else {
      hide State.HashReady;
      ReadMore(s);
    }
    hide State.Shape, State.InsertOk;
    FiledAfter(s, dict, insert, dict1, insert1, input1, lookahead1);
  }

  /** Zero the bytes past the input that the match scan may read and that were never written. */
  method RaiseHighWater(s: State)
    requires s.Shape() && s.WindowOk()
    modifies s`highWater, s`written, s.window
    ensures s.WindowOk() && s.written >= old(s.written)
    ensures s.written >= s.window.Length || s.written >= s.strstart + s.lookahead + WIN_INIT
  {
    hide HashSize;
    if s.highWater < s.window.Length {
      var curr := s.strstart + s.lookahead;
      if s.highWater < curr {
        var init := s.window.Length - curr;
        if init > WIN_INIT { init := WIN_INIT; }
        ZeroWindow(s, curr, init);
        s.highWater := curr + init;
      } else if s.highWater < curr + WIN_INIT {
        var init := curr + WIN_INIT - s.highWater;
        if init > s.window.Length - s.highWater { init := s.window.Length - s.highWater; }
        ZeroWindow(s, s.highWater, init);
        s.highWater := s.highWater + init;
      }
    }
  }

  method ZeroWindow(s: State, at: nat, n: nat)
    requires s.Shape() && at + n <= s.window.Length && at <= s.written
    modifies s`written, s.window
    ensures s.written == if old(s.written) < at + n then at + n else old(s.written)
    ensures forall i: nat {:trigger s.window[i]} :: i < at ==> s.window[i] == old(s.window[i])
  {
    hide HashSize;
    forall i | 0 <= i < n {
      s.window[at + i] := 0;
    }
    s.written := if s.written < at + n then at + n else s.written;
  }

  /** fill_window: on exit there is enough lookahead or no input left, strstart leaves room for
      a search, and every byte the match scan may read has been written. The stream, and all
      positions in it, are what they were. */
  method FillWindow(s: State)
    requires s.Shape() && s.WindowOk() && s.KeysOk() && s.ChainsBelow(s.Top()) && s.InsertOk()
    requires s.lookahead < MIN_LOOKAHEAD
    modifies s`matchStart, s`strstart, s`blockStart, s`base, s`nextIn, s`lookahead, s`input, s`written, s`highWater
    modifies s`insH, s`insert, s`dict, s.window, s.prev, s.head
    ensures s.WindowOk() && s.KeysOk() && s.ChainsBelow(s.Top()) && s.InsertOk()
    ensures old(s.HashReady()) ==> s.HashReady()
    ensures s.lookahead >= MIN_LOOKAHEAD || s.nextIn == []
    ensures s.strstart <= 2 * s.wSize - MIN_LOOKAHEAD
    ensures s.written >= s.window.Length || s.written >= s.strstart + s.lookahead + WIN_INIT
    ensures s.base + s.strstart == old(s.base + s.strstart) && s.base + s.blockStart == old(s.base + s.blockStart)
    ensures s.base >= old(s.base)
    ensures Minus(s.strstart, s.matchStart) == old(Minus(s.strstart, s.matchStart))
    ensures s.input + s.nextIn == old(s.input + s.nextIn) && old(s.input) <= s.input
    ensures old(s.strstart) >= 1 ==> s.strstart >= 1
    ensures FiledSince(s, old(s.dict), old(s.insert))
  {
    hide CoversAt, KeysTrue, ChainsOk, HashSize, State.KeysOk, State.ChainsBelow, State.Contents, Minus, FiledSince;
    ghost var dict, insert, p := s.dict, s.insert, s.base + s.strstart;
    NothingFiled(s);
    while true
      invariant s.WindowOk() && s.KeysOk() && s.ChainsBelow(s.Top()) && s.InsertOk()
      invariant old(s.HashReady()) ==> s.HashReady()
      invariant s.lookahead < MIN_LOOKAHEAD && (old(s.strstart) >= 1 ==> s.strstart >= 1)
      invariant s.base + s.strstart == old(s.base + s.strstart) && s.base + s.blockStart == old(s.base + s.blockStart)
      invariant s.base >= old(s.base)
      invariant Minus(s.strstart, s.matchStart) == old(Minus(s.strstart, s.matchStart))
      invariant s.input + s.nextIn == old(s.input + s.nextIn) && old(s.input) <= s.input
      invariant FiledSince(s, dict, insert)
      decreases |s.nextIn|
    {
      FillStep(s, dict, insert);
      if s.lookahead >= MIN_LOOKAHEAD || s.nextIn == [] { break; }
    }
    RaiseHighWater(s);
  }

  /** What has been filed by now, in terms of the stream. */
  lemma FiledBefore(s: State, dict: map<int, nat>, insert: nat)
    requires FiledSince(s, dict, insert)
    ensures s.dict == FileAll(dict, s.input, s.base + s.strstart - insert, s.base + s.strstart - s.insert, s.hashBits)
    ensures s.insert <= insert && (s.insert < insert ==> s.lookahead + s.insert >= 2)
  {
  }

  /** Two rounds file what one would have. */
  lemma FiledAfter(s: State, dict: map<int, nat>, insert: nat, dict1: map<int, nat>, insert1: nat, input1: seq<byte>,
                   lookahead1: nat)
    requires FiledSince(s, dict1, insert1) && insert1 <= insert && (insert1 < insert ==> lookahead1 + insert1 >= 2)
    requires dict1 == FileAll(dict, input1, s.base + s.strstart - insert, s.base + s.strstart - insert1, s.hashBits)
    requires input1 <= s.input && lookahead1 <= s.lookahead && |input1| == s.base + s.strstart + lookahead1
    ensures FiledSince(s, dict, insert)
  {
    hide FileAll;
    var p := s.base + s.strstart;
    FileMore(dict, input1, s.input, p - insert, p - insert1, p - s.insert, s.hashBits);
  }
}
