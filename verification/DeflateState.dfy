/** The compression state: the fields of deflate's internal_state that the match finder and the
    token log use, the ghost history they stand for, and the invariants every operation keeps. */
module DeflateState {
  import opened Lz77
  import opened RollingHash
  import opened HashChains
  import opened Wrappers

  const MIN_LOOKAHEAD := MAX_MATCH + MIN_MATCH + 1
  const WIN_INIT := MAX_MATCH
  const TOO_FAR := 4096
  const UINT_RANGE := 0x1_0000_0000

  /** unsigned int, with its wrap-around subtraction. */
  type UInt = n: nat | n < UINT_RANGE

  function Minus(a: UInt, b: UInt): UInt
  {
    if a >= b then a - b else a - b + UINT_RANGE
  }

  datatype Flush = NoFlush | PartialFlush | SyncFlush | FullFlush | FinishFlush | BlockFlush
  datatype BlockState = NeedMore | BlockDone | FinishStarted | FinishDone
  datatype Strategy = DefaultStrategy | Filtered | HuffmanOnly | Rle | Fixed

  /** A row of configuration_table; lazy tells deflate_slow from deflate_fast. */
  datatype Config = Config(goodLength: nat, maxLazy: nat, niceLength: nat, maxChain: nat, lazy: bool)

  function ConfigurationTable(level: nat): (c: Config)
    requires 1 <= level <= 9
    ensures c.maxChain >= 4 && MIN_MATCH <= c.maxLazy <= MAX_MATCH && c.niceLength <= MAX_MATCH
  {
    match level
    case 1 => Config(4, 4, 8, 4, false)
    case 2 => Config(4, 5, 16, 8, false)
    case 3 => Config(4, 6, 32, 32, false)
    case 4 => Config(4, 4, 16, 16, true)
    case 5 => Config(8, 16, 32, 32, true)
    case 6 => Config(8, 16, 128, 128, true)
    case 7 => Config(8, 32, 128, 256, true)
    case 8 => Config(32, 128, 258, 1024, true)
    case _ => Config(32, 258, 258, 4096, true)
  }

  /** What one call of _tr_flush_block receives: the token log, the raw bytes of the block if the
      window still holds all of them, their number, and the end-of-stream flag. */
  datatype Block = Block(tokens: seq<Token>, buf: Option<seq<byte>>, storedLen: nat, last: bool)

  function BlockTokens(blocks: seq<Block>): seq<Token>
  {
    if blocks == [] then [] else BlockTokens(blocks[..|blocks| - 1]) + blocks[|blocks| - 1].tokens
  }

  /** Each block's tokens, read after the blocks before it, stand for exactly storedLen more
      bytes, and those are the raw bytes handed over with the tokens. */
  ghost predicate BlocksOk(blocks: seq<Block>)
  {
    blocks != [] ==>
      var before, b := blocks[..|blocks| - 1], blocks[|blocks| - 1];
      && BlocksOk(before)
      && Expand(BlockTokens(before)).Some? && Expand(BlockTokens(blocks)).Some?
      && var out, out' := Expand(BlockTokens(before)).value, Expand(BlockTokens(blocks)).value;
      && out <= out' && |out'| == |out| + b.storedLen
      && (b.buf.Some? ==> b.buf.value == out'[|out|..])
  }

  /** A completed full flush: how many tokens had been logged and how many bytes read. */
  datatype Mark = Mark(token: nat, at: nat)

  /** The tokens logged since the mark stand, by themselves, for the bytes since the mark. */
  ghost predicate StandsAlone(m: Mark, tokens: seq<Token>, input: seq<byte>, upTo: int)
  {
    m.token <= |tokens| && m.at <= upTo <= |input| && Expand(tokens[m.token..]) == Some(input[m.at..upTo])
  }

  ghost predicate AllStandAlone(marks: seq<Mark>, tokens: seq<Token>, input: seq<byte>, upTo: int)
  {
    forall i {:trigger marks[i]} :: 0 <= i < |marks| ==> StandsAlone(marks[i], tokens, input, upTo)
  }

  /** Position src is behind no mark, so that it may be copied from. */
  ghost predicate Reachable(marks: seq<Mark>, src: int)
  {
    forall i {:trigger marks[i]} :: 0 <= i < |marks| ==> marks[i].at <= src
  }

  /** The tokens stand for input[..upTo] and those of the blocks, a prefix of them in meaning, for
      input[..flushedTo]; from each mark on they stand for the rest of it. */
  ghost predicate Means(marks: seq<Mark>, tokens: seq<Token>, blocks: seq<Block>, input: seq<byte>, flushedTo: int,
                        upTo: int)
  {
    && 0 <= flushedTo <= upTo <= |input|
    && Expand(tokens) == Some(input[..upTo])
    && Expand(BlockTokens(blocks)) == Some(input[..flushedTo])
    && BlocksOk(blocks)
    && AllStandAlone(marks, tokens, input, upTo)
  }

  lemma MeansGrows(marks: seq<Mark>, tokens: seq<Token>, blocks: seq<Block>, input: seq<byte>, input': seq<byte>,
                   flushedTo: int, upTo: int)
    requires Means(marks, tokens, blocks, input, flushedTo, upTo) && input <= input'
    ensures Means(marks, tokens, blocks, input', flushedTo, upTo)
  {
    assert input[..upTo] == input'[..upTo] && input[..flushedTo] == input'[..flushedTo];
    forall i | 0 <= i < |marks| ensures StandsAlone(marks[i], tokens, input', upTo) {
      assert StandsAlone(marks[i], tokens, input, upTo);
      assert input[marks[i].at..upTo] == input'[marks[i].at..upTo];
    }
  }

  /** A repetition of length len found at position p - 1, its distance being gap - 1; it does not reach
      behind a mark. */
  ghost predicate PendingMatch(marks: seq<Mark>, input: seq<byte>, p: nat, gap: nat, maxDist: int, len: nat)
  {
    p >= 1 && 2 <= gap <= maxDist + 1 && Repeats(input, p - 1, gap - 1, len) && Reachable(marks, p - gap)
  }

  /** A copy has a length and a distance that the format and the window allow. */
  ghost predicate InRange(t: Token, maxDist: int)
  {
    t.Copy? ==> MIN_MATCH <= t.len <= MAX_MATCH && 1 <= t.dist <= maxDist
  }

  function TokenAt(d: Pos, lc: byte): Token
  {
    if d == 0 then Literal(lc) else Copy(d, lc as nat + MIN_MATCH)
  }

  /** w_size = 1 << w_bits, as hash_size is 1 << hash_bits; a 256-byte window is raised to 512. */
  function WindowSize(windowBits: nat): nat
    requires 8 <= windowBits <= 15
  {
    HashSize(if windowBits == 8 then 9 else windowBits)
  }

  /** lit_bufsize = 1 << (memLevel + 6). */
  function LitBufsize(memLevel: nat): nat
    requires 1 <= memLevel <= 9
  {
    match memLevel
    case 1 => 128 case 2 => 256 case 3 => 512 case 4 => 1024 case 5 => 2048 case 6 => 4096 case 7 => 8192
    case 8 => 16384 case _ => 32768
  }

  /** The sizes are powers of two, from 512, 256 and 128 on. */
  lemma Sizes(windowBits: nat, memLevel: nat)
    requires 8 <= windowBits <= 15 && 1 <= memLevel <= 9
    ensures WindowSize(8) == WindowSize(9) == 512
    ensures windowBits > 9 ==> WindowSize(windowBits) == 2 * WindowSize(windowBits - 1)
    ensures HashSize(8) == 256 && HashSize(memLevel + 7) == 2 * LitBufsize(memLevel)
    ensures LitBufsize(1) == 128 && (memLevel > 1 ==> LitBufsize(memLevel) == 2 * LitBufsize(memLevel - 1))
  {
  }

  /** Lengths 3 to 258, a lookahead of 262, and a match of three bytes is too far beyond 4096 bytes; what
      each level looks for, level by level. */
  lemma Parameters(level: nat)
    requires 1 <= level <= 9
    ensures MIN_MATCH == 3 && MAX_MATCH == 258 && MIN_LOOKAHEAD == 262 && TOO_FAR == 4096 && WIN_INIT == 258
    ensures var c := ConfigurationTable(level);
      && c.goodLength == [4, 4, 4, 4, 8, 8, 8, 32, 32][level - 1]
      && c.maxLazy == [4, 5, 6, 4, 16, 16, 32, 128, 258][level - 1]
      && c.niceLength == [8, 16, 32, 16, 32, 128, 128, 258, 258][level - 1]
      && c.maxChain == [4, 8, 32, 16, 32, 128, 256, 1024, 4096][level - 1]
      && (c.lazy <==> level >= 4)
  {
  }

  class State {
    // configuration
    const config: Config
    const strategy: Strategy
    const hashBits: nat
    const wSize: nat
    const litBufsize: nat

    // buffers
    const window: array<byte>
    const prev: array<Pos>
    const head: array<Pos>
    const dBuf: array<Pos>
    const lBuf: array<byte>

    var insH: bv32
    var blockStart: int
    var matchLength: nat
    var prevMatch: UInt
    var matchAvailable: bool
    var strstart: nat
    var matchStart: UInt
    var lookahead: nat
    var prevLength: nat
    var lastLit: nat
    var insert: nat
    var highWater: nat

    var finished: bool   // status == FINISH_STATE

    // strm->next_in with avail_in, and strm->avail_out
    var nextIn: seq<byte>
    var availOut: nat

    // the history the fields stand for
    ghost var input: seq<byte>       // every byte read so far
    ghost var base: nat              // stream position of window index 0
    ghost var dict: map<int, nat>    // the filed strings
    ghost var tokens: seq<Token>     // every token logged so far
    ghost var blocks: seq<Block>     // the blocks flushed so far
    ghost var marks: seq<Mark>       // the full flushes completed so far
    ghost var written: nat           // window[..written] has been written at least once

    /** deflateInit2_ with checked parameters, and lm_init. */
    constructor (level: nat, strategy: Strategy, windowBits: nat, memLevel: nat)
      requires 1 <= level <= 9 && 8 <= windowBits <= 15 && 1 <= memLevel <= 9
      ensures Shape() && Common() && HashReady() && MeaningOk(0)
      ensures fresh(window) && fresh(prev) && fresh(head) && fresh(dBuf) && fresh(lBuf)
      ensures config == ConfigurationTable(level) && this.strategy == strategy
      ensures hashBits == memLevel + 7 && wSize == WindowSize(windowBits) && litBufsize == LitBufsize(memLevel)
      ensures MaxDist() == wSize - 262
      ensures input == [] && nextIn == [] && tokens == [] && blocks == [] && marks == [] && !finished && strstart == base == 0
      ensures matchLength == prevLength == MIN_MATCH - 1 && !matchAvailable
    {
      config := ConfigurationTable(level);
      this.strategy := strategy;
      hashBits := memLevel + 7;
      wSize := WindowSize(windowBits);
      litBufsize := LitBufsize(memLevel);
      window := new byte[2 * WindowSize(windowBits)];
      prev := new Pos[WindowSize(windowBits)];
      head := new Pos[HashSize(memLevel + 7)](_ => NIL);
      dBuf := new Pos[LitBufsize(memLevel)];
      lBuf := new byte[LitBufsize(memLevel)];
      highWater, strstart, blockStart, lookahead, insert := 0, 0, 0, 0, 0;
      matchLength, prevLength, matchAvailable, insH := MIN_MATCH - 1, MIN_MATCH - 1, false, 0;
      prevMatch, matchStart, lastLit, finished, nextIn, availOut := 0, 0, 0, false, [], 0;
      input, base, dict, tokens, blocks, marks, written := [], 0, map[], [], [], [], 0;
      new;
      ClearedChains(0, Top(), head[..], prev[..]);
    }

    /** What deflateInit2_ sets up and nothing changes. */
    ghost predicate Shape()
    {
      && 512 <= wSize <= 0x8000 && 8 <= hashBits <= 16 && litBufsize >= 128
      && window.Length == 2 * wSize && prev.Length == wSize && head.Length == HashSize(hashBits)
      && dBuf.Length == lBuf.Length == litBufsize
      && prev != head && prev != dBuf && head != dBuf && window != lBuf
      && {window as object, lBuf} !! {prev as object, head, dBuf}
      && config.maxChain >= 4 && MIN_MATCH <= config.maxLazy <= MAX_MATCH && config.niceLength <= MAX_MATCH
    }

    function MaxDist(): int
    {
      wSize - MIN_LOOKAHEAD
    }

    /** The window's valid part ends where the stream read so far ends; written bytes reach past it. */
    ghost predicate Extent()
      reads `strstart, `lookahead, `base, `input, `written, `highWater
    {
      && strstart + lookahead <= window.Length
      && base + strstart + lookahead == |input|
      && strstart + lookahead <= written <= window.Length && highWater <= written
    }

    /** The window holds the suffix of the stream read so far. */
    ghost predicate Contents()
      requires Extent()
      reads `strstart, `lookahead, `base, `input, `written, `highWater, window
    {
      forall i: nat {:trigger window[i]} :: i < strstart + lookahead ==> window[i] == input[base + i]
    }

    ghost predicate WindowOk()
      reads `strstart, `lookahead, `base, `input, `written, `highWater, window
    {
      Extent() && Contents()
    }

    /** The filed strings are true strings of the stream. */
    ghost predicate KeysOk()
      reads `input, `dict
    {
      8 <= hashBits <= 16 && KeysTrue(input, dict, hashBits)
    }

    /** The chains are sound, for filed strings below window index top. */
    ghost predicate ChainsBelow(top: int)
      reads `base, `dict, head, prev
    {
      ChainsOk(base, dict, top, head[..], prev[..])
    }

    /** Every complete string before strstart is below this window index; none is filed above it. */
    function Top(): int
      reads `strstart, `lookahead
    {
      if lookahead >= 2 then strstart else strstart + lookahead - 2
    }

    /** At most two strings at the end of the input wait to be filed when more input arrives. */
    ghost predicate InsertOk()
      reads `insert, `strstart, `lookahead
    {
      insert <= strstart && (insert == 0 || lookahead + insert < MIN_MATCH)
    }

    /** ins_h is ready for the string at strstart whenever that string is complete. */
    ghost predicate HashReady()
      reads `insH, `strstart, `lookahead, `base, `input
    {
      && 8 <= hashBits <= 16 && base + strstart + lookahead == |input|
      && (lookahead >= MIN_MATCH ==> CoversAt(insH, input, base + strstart, hashBits))
    }

    /** d_buf and l_buf hold the tokens logged since the last flush; all tokens are in range. */
    ghost predicate LogOk()
      reads `lastLit, `tokens, `blocks, dBuf, lBuf
    {
      && lastLit <= dBuf.Length && lastLit <= lBuf.Length
      && |tokens| == |BlockTokens(blocks)| + lastLit
      && BlockTokens(blocks) <= tokens
      && (forall i: nat {:trigger dBuf[i]} {:trigger lBuf[i]} :: i < lastLit ==>
        TokenAt(dBuf[i], lBuf[i]) == tokens[|tokens| - lastLit + i])
      && (forall i: nat {:trigger InRange(tokens[i], MaxDist())} :: i < |tokens| ==> InRange(tokens[i], MaxDist()))
    }

    /** The tokens stand for the stream up to position upTo, the flushed ones up to block_start; what
        lies in the window may be copied from. */
    ghost predicate MeaningOk(upTo: int)
      reads `base, `blockStart, `input, `tokens, `blocks, `marks
    {
      Means(marks, tokens, blocks, input, base + blockStart, upTo) && Reachable(marks, base)
    }

    /** The string at strstart has been filed if it is complete. */
    ghost predicate FiledHere()
      reads `base, `dict, `strstart, `lookahead, `insH, `input, head, prev
    {
      && 8 <= hashBits <= 16 && base + strstart + lookahead == |input|
      && ChainsBelow(if lookahead >= MIN_MATCH then strstart + 1 else Top())
      && (lookahead >= MIN_MATCH ==> CoversAt(insH, input, base + strstart + 1, hashBits))
    }

    /** There is a byte to compress and room for a full match scan over written bytes. */
    ghost predicate RoomToSearch()
      reads `strstart, `lookahead, `written
    {
      lookahead > 0 && strstart + MAX_MATCH < window.Length && strstart + MAX_MATCH < written
    }

    /** The two bytes behind any match here lie in the window and have been written. */
    ghost predicate RoomToJump()
      reads `strstart, `lookahead, `written
    {
      && strstart + MIN_LOOKAHEAD <= window.Length
      && (lookahead >= MIN_LOOKAHEAD || written >= window.Length || written >= strstart + lookahead + WIN_INIT)
    }

    /** All input has been read, tokenized and handed over in blocks. */
    ghost predicate AllFlushed()
      reads `nextIn, `lookahead, `lastLit, `strstart, `blockStart, `blocks, `input
    {
      && nextIn == [] && lookahead == 0 && lastLit == 0 && blockStart == strstart
      && Expand(BlockTokens(blocks)) == Some(input)
    }

    /** The last block carries the end-of-stream flag. */
    ghost predicate Ended()
      reads `blocks
    {
      blocks != [] && blocks[|blocks| - 1].last
    }

    /** What every strategy keeps, the place of the chains' top aside. */
    ghost predicate Kept()
      reads `strstart, `lookahead, `base, `input, `written, `highWater, `dict, `insert, `lastLit, `tokens, `blocks
      reads window, dBuf, lBuf
    {
      && Shape() && WindowOk() && KeysOk() && InsertOk() && LogOk() && lastLit < litBufsize - 1
    }

    /** What every strategy keeps between two steps. */
    ghost predicate Common()
      reads `strstart, `lookahead, `base, `input, `written, `highWater, `dict, `insert, `lastLit, `tokens, `blocks
      reads window, prev, head, dBuf, lBuf
    {
      Kept() && ChainsBelow(Top())
    }

    /** A pending match of deflate_slow is a true repetition one byte back; match_start may have
        wrapped below zero, the distance has not. */
    ghost predicate PendingOk()
      reads `base, `input, `strstart, `lookahead, `matchLength, `matchStart, `matchAvailable, `marks
    {
      && 2 <= matchLength <= MAX_MATCH && (matchAvailable ==> strstart >= 1) && strstart < UINT_RANGE
      && (matchLength >= MIN_MATCH ==>
        && matchAvailable && matchLength <= lookahead + 1
        && PendingMatch(marks, input, base + strstart, Minus(strstart, matchStart), MaxDist(), matchLength))
    }

    /** A match at strstart that beats the previous one is a true repetition. */
    ghost predicate FoundOk()
      reads `base, `input, `strstart, `lookahead, `prevLength, `matchLength, `matchStart, `marks
    {
      && 2 <= matchLength <= MAX_MATCH
      && (matchLength > prevLength ==>
        && matchLength <= lookahead && matchStart < strstart
        && PendingMatch(marks, input, base + strstart + 1, strstart + 1 - matchStart, MaxDist(), matchLength))
    }

    /** The invariant of deflate_fast's loop: nothing is pending. */
    ghost predicate FastOk()
      reads `strstart, `lookahead, `base, `input, `written, `highWater, `dict, `insert, `lastLit, `tokens, `blocks
      reads `insH, `matchLength, `matchStart, `matchAvailable, `prevLength, `blockStart, `marks
      reads window, prev, head, dBuf, lBuf
    {
      Common() && HashReady() && matchLength < MIN_MATCH && prevLength == MIN_MATCH - 1 && MeaningOk(base + strstart)
    }

    /** The invariant of the loops that keep no dictionary. */
    ghost predicate RunsOk()
      reads `strstart, `lookahead, `base, `input, `written, `highWater, `dict, `insert, `lastLit, `tokens, `blocks
      reads `insH, `matchLength, `matchStart, `matchAvailable, `prevLength, `blockStart, `marks
      reads window, prev, head, dBuf, lBuf
    {
      Common() && MeaningOk(base + strstart)
    }

    /** The invariant of deflate_slow's loop: all but the pending byte has been logged. */
    ghost predicate SlowOk()
      reads `strstart, `lookahead, `base, `input, `written, `highWater, `dict, `insert, `lastLit, `tokens, `blocks
      reads `insH, `matchLength, `matchStart, `matchAvailable, `prevLength, `blockStart, `marks
      reads window, prev, head, dBuf, lBuf
    {
      && Common() && HashReady() && PendingOk()
      && MeaningOk(base + strstart - (if matchAvailable then 1 else 0))
    }
  }

  lemma WindowSlice(s: State, at: nat, n: nat)
    requires s.WindowOk() && at + n <= s.strstart + s.lookahead
    ensures s.window[at..at + n] == s.input[s.base + at..s.base + at + n]
  {
  }

  lemma WindowByte(s: State, i: nat)
    requires s.WindowOk() && i < s.strstart + s.lookahead
    ensures s.window[i] == s.input[s.base + i]
  {
  }
}
