/** deflate_rle and deflate_huff: matches at distance one only, or none at all. */
module DeflateRuns {
  import opened Lz77
  import opened RollingHash
  import opened HashChains
  import opened DeflateState
  import opened Matcher
  import opened Emit
  import opened Steps
  import opened Window

  /** The scan of deflate_rle; the end is tested for only after every eighth comparison. */
  method ScanRun(s: State) returns (len: nat)
    requires s.Shape() && 0 < s.strstart && s.strstart + MAX_MATCH < s.window.Length
    requires s.strstart + MAX_MATCH < s.written
    requires s.window[s.strstart - 1] == s.window[s.strstart] == s.window[s.strstart + 1] == s.window[s.strstart + 2]
    ensures MIN_MATCH <= len <= MAX_MATCH
    ensures s.window[s.strstart..s.strstart + len] == s.window[s.strstart - 1..s.strstart - 1 + len]
    ensures len < MAX_MATCH ==> s.window[s.strstart - 1 + len] != s.window[s.strstart + len]
  {
    hide HashSize;
    var prev := s.window[s.strstart - 1];
    var scan, strend := s.strstart + 2, s.strstart + MAX_MATCH;
    while true
      invariant s.strstart + 2 <= scan < strend && s.window[scan] == prev
      invariant s.window[s.strstart..scan + 1] == s.window[s.strstart - 1..scan]
      decreases strend - scan
    {
      scan := scan + 1;
      if prev != s.window[scan] { break; }
      if (strend - scan) % 8 == 0 && scan >= strend { break; }
    }
    len := MAX_MATCH - (strend - scan);
  }

  /** match_length becomes the exact number of repeats of the previous byte, 0 when below three. */
  method MatchRun(s: State)
    requires s.Shape() && s.WindowOk() && s.RoomToSearch()
    modifies s`matchLength
    ensures s.matchLength > 0 ==> s.strstart > 0 && MIN_MATCH <= s.matchLength <= Max(s)
    ensures s.lookahead >= MIN_MATCH && s.strstart > 0 ==>
      s.matchLength == if TrueLen(s, s.strstart - 1) >= MIN_MATCH then TrueLen(s, s.strstart - 1) else 0
  {
    hide HashSize, State.Contents, MatchLen;
    s.matchLength := 0;
    if s.lookahead >= MIN_MATCH && s.strstart > 0 {
      var prev := s.window[s.strstart - 1];
      if prev == s.window[s.strstart] && prev == s.window[s.strstart + 1] && prev == s.window[s.strstart + 2] {
        var len := ScanRun(s);
        ScannedIsTrue(s, s.strstart - 1, len);
        s.matchLength := if len > s.lookahead then s.lookahead else len;
      } else if TrueLen(s, s.strstart - 1) >= MIN_MATCH {
        AgreesWithin(s, s.strstart - 1, 0);
        AgreesWithin(s, s.strstart - 1, 1);
        AgreesWithin(s, s.strstart - 1, 2);
      }
    }
  }

  /** Log the byte at strstart and move on. */
  method TakeLiteral(s: State) returns (full: bool)
    requires s.RunsOk() && s.lookahead > 0
    modifies s`strstart, s`lookahead, s`lastLit, s`tokens, s`blockStart, s`availOut, s`blocks, s.dBuf, s.lBuf
    ensures s.RunsOk() && s.strstart == old(s.strstart) + 1 && (full ==> s.availOut == 0)
    ensures s.tokens == old(s.tokens + [Literal(s.window[s.strstart])])
  {
    hide HashSize, State.Contents, ChainsOk, Means, State.KeysOk, State.LogOk, State.ChainsBelow;
    WindowByte(s, s.strstart);
    var bflush := TallyLit(s, s.window[s.strstart], s.base + s.strstart);
    Jump(s, 1, s.Top());
    full := FlushIfFull(s, bflush);
  }

  /** Log the run at distance one and move over it. */
  method TakeRun(s: State) returns (full: bool)
    requires s.RunsOk() && s.strstart > 0 && MIN_MATCH <= s.matchLength <= Max(s)
    requires s.matchLength == TrueLen(s, s.strstart - 1)
    modifies s`strstart, s`lookahead, s`matchLength
    modifies s`lastLit, s`tokens, s`blockStart, s`availOut, s`blocks, s.dBuf, s.lBuf
    ensures s.RunsOk() && s.strstart > old(s.strstart) && (full ==> s.availOut == 0)
    ensures s.tokens == old(s.tokens + [Copy(1, s.matchLength)])
  {
    hide HashSize, State.Contents, ChainsOk, Means, State.KeysOk, State.LogOk, State.ChainsBelow, MatchLen, Repeats,
      State.MeaningOk, Reachable;
    MatchLenRepeats(s.input, s.base + s.strstart - 1, s.base + s.strstart, Max(s));
    InWindow(s, s.base + s.strstart, s.base + s.strstart - 1);
    var bflush := TallyDist(s, 1, s.matchLength - MIN_MATCH, s.base + s.strstart);
    Jump(s, s.matchLength, s.Top());
    s.matchLength := 0;
    full := FlushIfFull(s, bflush);
  }

  method RefillRuns(s: State, enough: nat, flush: Flush) returns (next: Next)
    requires s.RunsOk() && 1 <= enough <= MIN_LOOKAHEAD
    modifies s`matchStart, s`strstart, s`blockStart, s`base, s`nextIn, s`lookahead, s`input, s`written, s`highWater
    modifies s`insH, s`insert, s`dict, s.window, s.prev, s.head
    ensures s.RunsOk() && s.base + s.strstart == old(s.base + s.strstart)
    ensures FiledSince(s, old(s.dict), old(s.insert))
    ensures s.input + s.nextIn == old(s.input + s.nextIn)
    ensures s.lookahead >= enough || s.nextIn == []
    ensures next.Go? ==> s.lookahead > 0 && (enough > MAX_MATCH ==> s.RoomToSearch())
    ensures next.Wait? ==> flush.NoFlush? && s.lookahead < enough
    ensures next.EndOfInput? ==> !flush.NoFlush? && s.lookahead == 0
  {
    hide FiledSince, CoversAt, HashSize, Means, State.Common, State.HashReady;
    ghost var input, p, flushedTo := s.input, s.base + s.strstart, s.base + s.blockStart;
    CommonBounds(s);
    next := Refill(s, enough, flush);
    MeansGrows(s.marks, s.tokens, s.blocks, input, s.input, flushedTo, p);
  }

  lemma RunsBounds(s: State)
    requires s.RunsOk()
    ensures s.base + s.strstart + s.lookahead == |s.input|
  {
    CommonBounds(s);
  }

  /** From the n-th on all tokens are literals, or copies at distance one as well. */
  ghost predicate LiteralsSince(tokens: seq<Token>, n: nat)
  {
    forall i :: n <= i < |tokens| ==> tokens[i].Literal?
  }

  ghost predicate RunsSince(tokens: seq<Token>, n: nat)
  {
    forall i :: n <= i < |tokens| ==> tokens[i].Literal? || tokens[i].dist == 1
  }

  lemma NoneSince(tokens: seq<Token>)
    ensures LiteralsSince(tokens, |tokens|) && RunsSince(tokens, |tokens|)
  {
  }

  lemma OneMoreSince(before: seq<Token>, tokens: seq<Token>, n: nat)
    requires |tokens| == |before| + 1 && before <= tokens
    ensures LiteralsSince(before, n) && tokens[|before|].Literal? ==> LiteralsSince(tokens, n)
    ensures RunsSince(before, n) && (tokens[|before|].Literal? || tokens[|before|].dist == 1) ==> RunsSince(tokens, n)
  {
  }

  /** deflate_rle. */
  method DeflateRle(s: State, flush: Flush) returns (st: BlockState)
    requires s.RunsOk()
    modifies s, s.window, s.prev, s.head, s.dBuf, s.lBuf
    ensures s.RunsOk() && s.input + s.nextIn == old(s.input + s.nextIn)
    ensures RunsSince(s.tokens, |old(s.tokens)|)
    ensures s.finished == old(s.finished) && s.marks == old(s.marks) && old(s.tokens) <= s.tokens
    ensures st.NeedMore? ==> (flush.NoFlush? && s.nextIn == []) || s.availOut == 0
    ensures st.NeedMore? || s.AllFlushed()
    ensures st.BlockDone? ==> !flush.FinishFlush? && !flush.NoFlush?
    ensures st.FinishStarted? || st.FinishDone? ==> flush.FinishFlush? && s.Ended()
  {
    hide HashSize, CoversAt, State.RunsOk, State.RoomToSearch, TrueLen, FiledSince, State.AllFlushed, State.Ended,
      RunsSince, LiteralsSince, RunToken;
    assert RunsSince(s.tokens, |s.tokens|) by { NoneSince(s.tokens); }
    RunsBounds(s);
    while true
      invariant s.RunsOk() && s.input + s.nextIn == old(s.input + s.nextIn)
      invariant s.base + s.strstart + s.lookahead == |s.input| && s.finished == old(s.finished)
      invariant s.marks == old(s.marks) && old(s.tokens) <= s.tokens
      invariant RunsSince(s.tokens, |old(s.tokens)|)
      decreases s.lookahead + |s.nextIn|
    {
      var next := RefillRuns(s, MAX_MATCH + 1, flush);
      RunsBounds(s);
      if next == Wait { return NeedMore; }
      if next == EndOfInput { break; }
      ghost var before := s.tokens;
      var full := RleStep(s);
      OneMoreSince(before, s.tokens, |old(s.tokens)|);
      RunsBounds(s);
      if full { return NeedMore; }
    }
    st := FinishRuns(s, flush);
  }

  /** What deflate_rle logs for the bytes at strstart: the whole run of the previous byte if it is at
      least three long, otherwise one literal. */
  ghost function RunToken(s: State): (t: Token)
    requires s.Shape() && s.WindowOk() && s.lookahead > 0
    ensures t.Literal? || t.dist == 1
    reads s`strstart, s`lookahead, s`base, s`input, s`written, s`highWater, s.window
  {
    if s.lookahead >= MIN_MATCH && s.strstart > 0 && TrueLen(s, s.strstart - 1) >= MIN_MATCH
    then Copy(1, TrueLen(s, s.strstart - 1)) else Literal(s.window[s.strstart])
  }

  method RleStep(s: State) returns (full: bool)
    requires s.RunsOk() && s.RoomToSearch()
    modifies s`strstart, s`lookahead, s`matchLength
    modifies s`lastLit, s`tokens, s`blockStart, s`availOut, s`blocks, s.dBuf, s.lBuf
    ensures s.RunsOk() && s.strstart > old(s.strstart) && (full ==> s.availOut == 0)
    ensures s.tokens == old(s.tokens + [RunToken(s)])
  {
    hide HashSize, State.Contents, State.MeaningOk, State.KeysOk, State.LogOk, State.ChainsBelow, TrueLen;
    MatchRun(s);
    if s.matchLength >= MIN_MATCH {
      full := TakeRun(s);
    } else {
      full := TakeLiteral(s);
    }
  }

  method HuffStep(s: State) returns (full: bool)
    requires s.RunsOk() && s.lookahead > 0
    modifies s`strstart, s`lookahead, s`matchLength
    modifies s`lastLit, s`tokens, s`blockStart, s`availOut, s`blocks, s.dBuf, s.lBuf
    ensures s.RunsOk() && s.strstart == old(s.strstart) + 1 && (full ==> s.availOut == 0)
    ensures s.tokens == old(s.tokens + [Literal(s.window[s.strstart])])
  {
    hide HashSize, State.Common, State.MeaningOk;
    s.matchLength := 0;
    full := TakeLiteral(s);
  }

  /** deflate_huff. */
  method DeflateHuff(s: State, flush: Flush) returns (st: BlockState)
    requires s.RunsOk()
    modifies s, s.window, s.prev, s.head, s.dBuf, s.lBuf
    ensures s.RunsOk() && s.input + s.nextIn == old(s.input + s.nextIn)
    ensures LiteralsSince(s.tokens, |old(s.tokens)|)
    ensures s.finished == old(s.finished) && s.marks == old(s.marks) && old(s.tokens) <= s.tokens
    ensures st.NeedMore? ==> (flush.NoFlush? && s.nextIn == []) || s.availOut == 0
    ensures st.NeedMore? || s.AllFlushed()
    ensures st.BlockDone? ==> !flush.FinishFlush? && !flush.NoFlush?
    ensures st.FinishStarted? || st.FinishDone? ==> flush.FinishFlush? && s.Ended()
  {
    hide HashSize, CoversAt, State.RunsOk, FiledSince, State.AllFlushed, State.Ended, LiteralsSince, RunsSince;
    assert LiteralsSince(s.tokens, |s.tokens|) by { NoneSince(s.tokens); }
    RunsBounds(s);
    while true
      invariant s.RunsOk() && s.input + s.nextIn == old(s.input + s.nextIn)
      invariant s.base + s.strstart + s.lookahead == |s.input| && s.finished == old(s.finished)
      invariant s.marks == old(s.marks) && old(s.tokens) <= s.tokens
      invariant LiteralsSince(s.tokens, |old(s.tokens)|)
      decreases s.lookahead + |s.nextIn|
    {
      var next := RefillRuns(s, 1, flush);
      RunsBounds(s);
      if next == Wait { return NeedMore; }
      if next == EndOfInput { break; }
      ghost var before := s.tokens;
      var full := HuffStep(s);
      OneMoreSince(before, s.tokens, |old(s.tokens)|);
      RunsBounds(s);
      if full { return NeedMore; }
    }
    st := FinishRuns(s, flush);
  }

  /** Behind both loops. */
  method FinishRuns(s: State, flush: Flush) returns (st: BlockState)
    requires s.RunsOk() && s.lookahead == 0 && s.nextIn == []
    modifies s`insert, s`lastLit, s`blockStart, s`availOut, s`blocks
    ensures s.RunsOk() && s.AllFlushed() && s.insert == 0
    ensures st.NeedMore? ==> s.availOut == 0
    ensures st.BlockDone? ==> !flush.FinishFlush?
    ensures st.FinishStarted? || st.FinishDone? ==> flush.FinishFlush? && s.Ended()
  {
    hide HashSize, State.Contents, ChainsOk, Means, State.KeysOk, State.LogOk, State.ChainsBelow, Expand, BlockTokens;
    s.insert := 0;
    st := FlushRest(s, flush);
  }
}
