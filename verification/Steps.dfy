/** The parts that the loops of the compression functions share. */
module Steps {
  import opened Lz77
  import opened Wrappers
  import opened RollingHash
  import opened HashChains
  import opened DeflateState
  import opened HashTable
  import opened Window
  import opened Emit
  import opened Candidates

  datatype Next = Go | Wait | EndOfInput

  /** if (lookahead >= MIN_MATCH) INSERT_STRING(strstart): the string here is filed, and the result is
      the last string filed before it under its key. */
  method InsertHere(s: State) returns (hashHead: Pos)
    requires s.Shape() && s.WindowOk() && s.KeysOk() && s.ChainsBelow(s.Top()) && s.HashReady()
    modifies s`insH, s`dict, s.prev, s.head
    ensures s.KeysOk() && s.FiledHere()
    ensures HeadFound(s, old(s.dict), hashHead)
    ensures s.dict == FileAll(old(s.dict), s.input, s.base + s.strstart, s.base + s.strstart + 1, s.hashBits)
  {
    hide HashSize, CoversAt, State.Contents, ChainsOk, KeysTrue, KeyOf, IsLatest;
    FileOne(s.dict, s.input, s.base + s.strstart, s.hashBits);
    hide FileAll;
    hashHead := NIL;
    if s.lookahead >= MIN_MATCH {
      hashHead := InsertString(s, s.Top(), s.strstart);
    }
  }

  /** strstart++, lookahead--. */
  method Advance(s: State)
    requires s.Shape() && s.WindowOk() && s.FiledHere() && s.InsertOk() && s.lookahead > 0
    modifies s`strstart, s`lookahead
    ensures s.strstart == old(s.strstart) + 1 && s.lookahead == old(s.lookahead) - 1
    ensures s.WindowOk() && s.ChainsBelow(s.Top()) && s.HashReady() && s.InsertOk()
  {
    hide HashSize, CoversAt, ChainsOk;
    s.strstart := s.strstart + 1;
    s.lookahead := s.lookahead - 1;
  }

  /** The head of each loop: refill the window when fewer than enough bytes are ahead, wait for
      more input unless flushing, and stop at the end of the input. */
  method Refill(s: State, enough: nat, flush: Flush) returns (next: Next)
    requires s.Common() && 1 <= enough <= MIN_LOOKAHEAD
    modifies s`matchStart, s`strstart, s`blockStart, s`base, s`nextIn, s`lookahead, s`input, s`written, s`highWater
    modifies s`insH, s`insert, s`dict, s.window, s.prev, s.head
    ensures s.Common() && (old(s.HashReady()) ==> s.HashReady())
    ensures s.base + s.strstart == old(s.base + s.strstart) && s.base + s.blockStart == old(s.base + s.blockStart)
    ensures s.base >= old(s.base)
    ensures s.strstart < UINT_RANGE && Minus(s.strstart, s.matchStart) == old(Minus(s.strstart, s.matchStart))
    ensures s.input + s.nextIn == old(s.input + s.nextIn) && old(s.input) <= s.input
    ensures old(s.strstart) >= 1 ==> s.strstart >= 1
    ensures s.lookahead >= enough || s.nextIn == []
    ensures FiledSince(s, old(s.dict), old(s.insert))
    ensures next.Go? ==> s.lookahead > 0 && (enough > MAX_MATCH ==> s.RoomToSearch())
    ensures next.Go? && enough == MIN_LOOKAHEAD ==> s.RoomToJump()
    ensures next.Wait? ==> flush.NoFlush? && s.lookahead < enough
    ensures next.EndOfInput? ==> !flush.NoFlush? && s.lookahead == 0
  {
    hide CoversAt, KeysTrue, ChainsOk, HashSize, State.KeysOk, State.ChainsBelow, State.HashReady, State.Contents,
      State.LogOk, FiledSince;
    NothingFiled(s);
    if s.lookahead < enough {
      FillWindow(s);
      if s.lookahead < enough && flush == NoFlush { return Wait; }
      if s.lookahead == 0 { return EndOfInput; }
    }
    return Go;
  }

  /** strstart += n, lookahead -= n, over strings that are not filed. */
  method Jump(s: State, n: nat, ghost top: int)
    requires s.Shape() && s.WindowOk() && s.InsertOk() && s.ChainsBelow(top) && n <= s.lookahead
    requires top <= s.strstart + n && top <= s.strstart + s.lookahead - 2
    modifies s`strstart, s`lookahead
    ensures s.WindowOk() && s.InsertOk() && s.ChainsBelow(s.Top())
    ensures s.strstart == old(s.strstart) + n && s.lookahead == old(s.lookahead) - n
  {
    hide HashSize, ChainsOk;
    s.strstart := s.strstart + n;
    s.lookahead := s.lookahead - n;
    AdvanceKeepsChains(s.base, s.dict, top, s.Top(), s.head[..], s.prev[..]);
  }

  /** Bounds that Common implies. */
  lemma CommonBounds(s: State)
    requires s.Common()
    ensures s.base + s.strstart + s.lookahead == |s.input| && s.strstart + s.lookahead <= 0x1_0000
  {
    hide HashSize;
  }

  /** if (bflush) FLUSH_BLOCK(s, 0); true means the caller returns need_more. */
  method FlushIfFull(s: State, bflush: bool) returns (full: bool)
    requires s.Shape() && s.WindowOk() && s.LogOk() && s.MeaningOk(s.base + s.strstart)
    requires s.lastLit < s.litBufsize && (bflush <==> s.lastLit == s.litBufsize - 1)
    modifies s`lastLit, s`blockStart, s`availOut, s`blocks
    ensures s.LogOk() && s.MeaningOk(s.base + s.strstart) && s.lastLit < s.litBufsize - 1
    ensures full <==> bflush && s.availOut == 0
    ensures !bflush ==> s.blocks == old(s.blocks) && s.availOut == old(s.availOut)
  {
    hide HashSize, Means, State.LogOk, State.WindowOk;
    full := false;
    if bflush {
      FlushBlockOnly(s, false);
      full := s.availOut == 0;
    }
  }

  /** The common end of the compression functions, once all input has been tokenized. */
  method FlushRest(s: State, flush: Flush) returns (st: BlockState)
    requires s.Shape() && s.WindowOk() && s.LogOk() && s.MeaningOk(s.base + s.strstart) && s.lookahead == 0
    requires s.nextIn == []
    modifies s`lastLit, s`blockStart, s`availOut, s`blocks
    ensures s.LogOk() && s.MeaningOk(s.base + s.strstart) && s.AllFlushed()
    ensures st.NeedMore? <==> old(s.lastLit) != 0 && s.availOut == 0 && !flush.FinishFlush?
    ensures st.FinishStarted? || st.FinishDone? <==> flush.FinishFlush?
    ensures flush.FinishFlush? ==> s.Ended() && (st.FinishStarted? <==> s.availOut == 0)
  {
    hide HashSize, State.Contents, State.LogOk, State.MeaningOk;
    if flush == FinishFlush {
      FlushBlockOnly(s, true);
      st := if s.availOut == 0 then FinishStarted else FinishDone;
    } else if s.lastLit != 0 {
      FlushBlockOnly(s, false);
      st := if s.availOut == 0 then NeedMore else BlockDone;
    } else {
      NothingLogged(s);
      st := BlockDone;
    }
    BlocksMeanAll(s);
  }

  /** With an empty log everything up to the present position is in a block already. */
  lemma NothingLogged(s: State)
    requires s.LogOk() && s.lastLit == 0 && s.MeaningOk(s.base + s.strstart)
    ensures s.blockStart == s.strstart
  {
    assert BlockTokens(s.blocks) == s.tokens;
    assert |s.input[..s.base + s.blockStart]| == |s.input[..s.base + s.strstart]|;
  }

  /** At the end of the input, what the blocks mean up to block_start is everything. */
  lemma BlocksMeanAll(s: State)
    requires s.WindowOk() && s.lookahead == 0 && s.blockStart == s.strstart && s.MeaningOk(s.base + s.strstart)
    ensures Expand(BlockTokens(s.blocks)) == Some(s.input)
  {
    assert s.input[..s.base + s.strstart] == s.input;
  }
}
