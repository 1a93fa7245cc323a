/** deflate_fast: the first match is taken, and long matches are not filed. */
module DeflateFast {
  import opened Lz77
  import opened RollingHash
  import opened HashChains
  import opened DeflateState
  import opened Matcher
  import opened Candidates
  import opened Emit
  import opened Steps
  import opened Window

  /** ins_h from the two bytes at strstart; garbage, and not needed, when they are not input. */
  method RestartHash(s: State)
    requires s.Shape() && s.WindowOk() && s.strstart + 1 < s.window.Length && s.strstart + 1 < s.written
    modifies s`insH
    ensures s.HashReady()
  {
    s.insH := s.window[s.strstart] as bv32;
    s.insH := Update(s.insH, s.window[s.strstart + 1], s.hashBits);
    if s.lookahead >= MIN_MATCH {
      WindowByte(s, s.strstart);
      WindowByte(s, s.strstart + 1);
    }
  }

  /** The insertion loop behind a short match; every string in it is complete. */
  method FileMatch(s: State)
    requires s.Shape() && s.WindowOk() && s.KeysOk() && s.InsertOk() && s.FiledHere()
    requires MIN_MATCH <= s.matchLength && s.matchLength + MIN_MATCH <= s.lookahead
    modifies s`strstart, s`lookahead, s`matchLength, s`insH, s`dict, s.prev, s.head
    ensures s.WindowOk() && s.KeysOk() && s.InsertOk() && s.ChainsBelow(s.Top()) && s.HashReady() && s.matchLength == 0
    ensures s.strstart == old(s.strstart + s.matchLength) && s.lookahead == old(s.lookahead - s.matchLength)
    ensures s.dict == FileAll(old(s.dict), s.input, s.base + old(s.strstart) + 1, s.base + s.strstart, s.hashBits)
  {
    hide HashSize, CoversAt, State.Contents, ChainsOk, KeysTrue, State.HashReady, State.KeysOk, HeadFound, FileAll;
    ghost var end, lo, dict := s.strstart + s.matchLength, s.base + s.strstart + 1, s.dict;
    FileNone(dict, s.input, lo, s.hashBits);
    s.matchLength := s.matchLength - 1;
    while true
      invariant s.WindowOk() && s.KeysOk() && s.InsertOk() && s.FiledHere()
      invariant s.matchLength >= 1 && s.lookahead >= s.matchLength + 1 + MIN_MATCH
      invariant s.strstart + s.matchLength + 1 == end
      invariant s.strstart + s.lookahead == old(s.strstart + s.lookahead)
      invariant s.dict == FileAll(dict, s.input, lo, s.base + s.strstart + 1, s.hashBits) && lo <= s.base + s.strstart + 1
      decreases s.matchLength
    {
      Advance(s);
      var _ := InsertHere(s);
      FileMore(dict, s.input, s.input, lo, s.base + s.strstart, s.base + s.strstart + 1, s.hashBits);
      s.matchLength := s.matchLength - 1;
      if s.matchLength == 0 { break; }
    }
    Advance(s);
  }

  /** Log the match at strstart and move over it. */
  method TakeMatch(s: State) returns (full: bool)
    requires s.Kept() && s.FiledHere() && s.RoomToJump() && s.MeaningOk(s.base + s.strstart)
    requires MIN_MATCH <= s.matchLength <= MAX_MATCH && s.matchLength <= s.lookahead
    requires s.matchStart < s.strstart && s.strstart - s.matchStart <= s.MaxDist()
    requires Repeats(s.input, s.base + s.strstart, s.strstart - s.matchStart, s.matchLength)
    modifies s`strstart, s`lookahead, s`matchLength, s`insH, s`dict
    modifies s`lastLit, s`tokens, s`blockStart, s`availOut, s`blocks, s.prev, s.head, s.dBuf, s.lBuf
    ensures s.Common() && s.HashReady() && s.MeaningOk(s.base + s.strstart) && s.matchLength == 0
    ensures s.strstart == old(s.strstart + s.matchLength) && (full ==> s.availOut == 0)
    ensures s.tokens == old(s.tokens + [Copy(s.strstart - s.matchStart, s.matchLength)])
    ensures s.dict == old(FileAll(s.dict, s.input, s.base + s.strstart + 1,
      s.base + s.strstart + FiledWith(s, s.matchLength), s.hashBits))
  {
    hide HashSize, CoversAt, State.Contents, ChainsOk, Means, State.KeysOk, State.LogOk, State.ChainsBelow, Repeats,
      State.MeaningOk, State.HashReady, State.FiledHere, State.RoomToJump, Reachable, FileAll;
    InWindow(s, s.base + s.strstart, s.base + s.matchStart);
    var bflush := TallyDist(s, s.strstart - s.matchStart, s.matchLength - MIN_MATCH, s.base + s.strstart);
    PassMatch(s);
    full := FlushIfFull(s, bflush);
  }

  /** How many strings are filed along with a match of length len: all of them if it is short and not at
      the end of the input, otherwise the first. */
  function FiledWith(s: State, len: nat): nat
    reads s`lookahead
  {
    if len <= s.config.maxLazy && s.lookahead - len >= MIN_MATCH then len else 1
  }

  /** Move over a match whose first string has been filed. */
  method PassMatch(s: State)
    requires s.Shape() && s.WindowOk() && s.KeysOk() && s.InsertOk() && s.FiledHere() && s.RoomToJump()
    requires MIN_MATCH <= s.matchLength <= MAX_MATCH && s.matchLength <= s.lookahead
    modifies s`strstart, s`lookahead, s`matchLength, s`insH, s`dict, s.prev, s.head
    ensures s.WindowOk() && s.KeysOk() && s.InsertOk() && s.ChainsBelow(s.Top()) && s.HashReady() && s.matchLength == 0
    ensures s.strstart == old(s.strstart + s.matchLength) && s.lookahead == old(s.lookahead - s.matchLength)
    ensures s.dict == old(FileAll(s.dict, s.input, s.base + s.strstart + 1,
      s.base + s.strstart + FiledWith(s, s.matchLength), s.hashBits))
  {
    hide HashSize, State.Contents, State.KeysOk, ChainsOk, State.HashReady, State.FiledHere, FileAll;
    if s.matchLength <= s.config.maxLazy && s.lookahead - s.matchLength >= MIN_MATCH {
      FileMatch(s);
    } else {
      FileNone(s.dict, s.input, s.base + s.strstart + 1, s.hashBits);
      JumpMatch(s);
    }
  }

  /** Move over a match without filing its strings. */
  method JumpMatch(s: State)
    requires s.Shape() && s.WindowOk() && s.KeysOk() && s.InsertOk() && s.FiledHere() && s.RoomToJump()
    requires MIN_MATCH <= s.matchLength <= MAX_MATCH && s.matchLength <= s.lookahead
    modifies s`strstart, s`lookahead, s`matchLength, s`insH
    ensures s.WindowOk() && s.KeysOk() && s.InsertOk() && s.ChainsBelow(s.Top()) && s.HashReady() && s.matchLength == 0
    ensures s.strstart == old(s.strstart + s.matchLength) && s.lookahead == old(s.lookahead - s.matchLength)
  {
    hide HashSize, State.Contents, KeysTrue, ChainsOk;
    Jump(s, s.matchLength, s.strstart + 1);
    s.matchLength := 0;
    RestartHash(s);
  }

  /** The literal branch. */
  method TakeLiteral(s: State) returns (full: bool)
    requires s.Kept() && s.FiledHere() && s.lookahead > 0 && s.MeaningOk(s.base + s.strstart)
    modifies s`strstart, s`lookahead, s`lastLit, s`tokens, s`blockStart, s`availOut, s`blocks, s.dBuf, s.lBuf
    ensures s.Common() && s.HashReady() && s.MeaningOk(s.base + s.strstart)
    ensures s.strstart == old(s.strstart) + 1 && (full ==> s.availOut == 0)
    ensures s.tokens == old(s.tokens + [Literal(s.window[s.strstart])])
  {
    hide HashSize, CoversAt, State.Contents, ChainsOk, Means, State.KeysOk, State.LogOk, State.ChainsBelow;
    WindowByte(s, s.strstart);
    var bflush := TallyLit(s, s.window[s.strstart], s.base + s.strstart);
    Advance(s);
    full := FlushIfFull(s, bflush);
  }

  /** The match found at strstart, if any, is always taken; otherwise the byte is. */
  method TakeGreedy(s: State) returns (full: bool)
    requires s.Kept() && s.FiledHere() && s.RoomToJump() && s.lookahead > 0 && s.MeaningOk(s.base + s.strstart)
    requires s.matchLength >= MIN_MATCH ==>
      && s.matchLength <= MAX_MATCH && s.matchLength <= s.lookahead
      && s.matchStart < s.strstart && s.strstart - s.matchStart <= s.MaxDist()
      && Repeats(s.input, s.base + s.strstart, s.strstart - s.matchStart, s.matchLength)
    modifies s`strstart, s`lookahead, s`matchLength, s`insH, s`dict
    modifies s`lastLit, s`tokens, s`blockStart, s`availOut, s`blocks, s.prev, s.head, s.dBuf, s.lBuf
    ensures s.Common() && s.HashReady() && s.MeaningOk(s.base + s.strstart) && s.matchLength < MIN_MATCH
    ensures s.strstart > old(s.strstart) && (full ==> s.availOut == 0)
    ensures s.tokens == old(s.tokens + [if s.matchLength >= MIN_MATCH
      then Copy(s.strstart - s.matchStart, s.matchLength) else Literal(s.window[s.strstart])])
    ensures s.strstart == old(s.strstart + if s.matchLength >= MIN_MATCH then s.matchLength else 1)
    ensures s.dict == old(FileAll(s.dict, s.input, s.base + s.strstart + 1,
      s.base + s.strstart + if s.matchLength >= MIN_MATCH then FiledWith(s, s.matchLength) else 1, s.hashBits))
  {
    hide HashSize, CoversAt, State.Contents, ChainsOk, Means, State.KeysOk, State.LogOk, State.ChainsBelow, Repeats,
      State.HashReady, State.MeaningOk, State.FiledHere, State.RoomToJump, FileAll;
    FileNone(s.dict, s.input, s.base + s.strstart + 1, s.hashBits);
    if s.matchLength >= MIN_MATCH {
      full := TakeMatch(s);
    } else {
      full := TakeLiteral(s);
    }
  }

  /** What deflate_fast logs for the bytes at strstart: the longest match that the plain search finds
      among the strings filed, if it is at least three long, otherwise one literal. */
  ghost function GreedyToken(s: State): (t: Token)
    requires s.Shape() && s.Extent() && s.lookahead > 0
    ensures t.Copy? ==> MIN_MATCH <= t.len <= s.lookahead
    reads s`strstart, s`lookahead, s`base, s`input, s`written, s`highWater, s`dict
  {
    var p := BestIn(s, s.dict, MIN_MATCH - 1, 0);
    if Clip(s, p.len) >= MIN_MATCH then Copy(s.strstart - p.pos, Clip(s, p.len)) else Literal(s.input[s.base + s.strstart])
  }

  /** A repetition of the last string filed under the same key, near enough, is never logged as a
      literal. */
  lemma RepeatIsCopied(s: State, q: Pos)
    requires s.Shape() && s.Extent() && s.lookahead >= MIN_MATCH && q != NIL && s.strstart - q <= s.MaxDist()
    requires IsLatest(s.base, s.dict, KeyOf(s.input, s.base + s.strstart, s.hashBits), q, s.base + s.strstart)
    requires s.input[s.base + q..s.base + q + 3] == s.input[s.base + s.strstart..s.base + s.strstart + 3]
    ensures GreedyToken(s).Copy?
  {
    hide HashSize, IsLatest, KeyOf, BestIn;
    RepeatIsFound(s, s.dict, q, 0);
  }

  /** The search of an iteration: a match of length 3 or more is that of the plain search. */
  method SearchGreedy(s: State, ghost dict: map<int, nat>, hashHead: Pos)
    requires s.Shape() && s.WindowOk() && s.KeysOk() && s.FiledHere() && s.RoomToSearch()
    requires HeadFound(s, dict, hashHead) && s.matchLength < MIN_MATCH && s.prevLength == MIN_MATCH - 1
    modifies s`matchLength, s`matchStart
    ensures var p := old(BestIn(s, dict, MIN_MATCH - 1, s.matchStart));
      if Clip(s, p.len) >= MIN_MATCH then s.matchLength == Clip(s, p.len) && s.matchStart == p.pos
      else s.matchLength < MIN_MATCH
    ensures s.matchLength >= MIN_MATCH ==>
      && s.matchLength <= MAX_MATCH && s.matchLength <= s.lookahead
      && s.matchStart < s.strstart && s.strstart - s.matchStart <= s.MaxDist()
      && Repeats(s.input, s.base + s.strstart, s.strstart - s.matchStart, s.matchLength)
  {
    hide HashSize, CoversAt, State.Contents, ChainsOk, State.KeysOk, Repeats, BestIn, HeadFound;
    if hashHead != NIL && s.strstart - hashHead <= s.MaxDist() {
      HeadIsCandidate(s, dict, hashHead);
      s.matchLength := FindBest(s, dict, hashHead);
    } else {
      NothingToFind(s, dict, hashHead, MIN_MATCH - 1, s.matchStart);
    }
  }

  /** File the string at strstart and search. */
  method FindGreedy(s: State)
    requires s.FastOk() && s.RoomToSearch()
    modifies s`matchLength, s`matchStart, s`insH, s`dict, s.prev, s.head
    ensures s.Kept() && s.FiledHere()
    ensures s.matchLength >= MIN_MATCH ==>
      && s.matchLength <= MAX_MATCH && s.matchLength <= s.lookahead
      && s.matchStart < s.strstart && s.strstart - s.matchStart <= s.MaxDist()
      && Repeats(s.input, s.base + s.strstart, s.strstart - s.matchStart, s.matchLength)
    ensures old(GreedyToken(s)) == if s.matchLength >= MIN_MATCH then Copy(s.strstart - s.matchStart, s.matchLength)
      else Literal(s.window[s.strstart])
    ensures s.dict == FileAll(old(s.dict), s.input, s.base + s.strstart, s.base + s.strstart + 1, s.hashBits)
  {
    hide HashSize, CoversAt, State.Contents, ChainsOk, Means, State.KeysOk, State.LogOk, State.ChainsBelow,
      State.HashReady, Repeats, BestIn, State.MeaningOk, HeadFound, FileAll;
    ghost var dict := s.dict;
    WindowByte(s, s.strstart);
    StartIrrelevant(s, dict, MIN_MATCH - 1, s.matchStart);
    var hashHead := InsertHere(s);
    SearchGreedy(s, dict, hashHead);
  }

  /** One iteration behind the refill: the token logged is that of the plain search among the strings
      filed, and the strings passed are filed as far as the match is short. */
  method FastStep(s: State) returns (full: bool)
    requires s.FastOk() && s.RoomToSearch() && s.RoomToJump()
    modifies s`strstart, s`lookahead, s`matchLength, s`matchStart
    modifies s`insH, s`dict, s`lastLit, s`tokens, s`blockStart, s`availOut, s`blocks, s.prev, s.head, s.dBuf, s.lBuf
    ensures s.FastOk() && s.strstart > old(s.strstart) && (full ==> s.availOut == 0)
    ensures s.tokens == old(s.tokens + [GreedyToken(s)])
    ensures s.strstart == old(s.strstart + if GreedyToken(s).Copy? then GreedyToken(s).len else 1)
    ensures s.dict == old(FileAll(s.dict, s.input, s.base + s.strstart,
      s.base + s.strstart + if GreedyToken(s).Copy? then FiledWith(s, GreedyToken(s).len) else 1, s.hashBits))
  {
    hide HashSize, CoversAt, State.Contents, ChainsOk, Means, State.KeysOk, State.LogOk, State.ChainsBelow,
      State.HashReady, State.FiledHere, Repeats, GreedyToken, State.MeaningOk, State.RoomToJump, FileAll;
    ghost var dict, p, t := s.dict, s.base + s.strstart, GreedyToken(s);
    FileMore(dict, s.input, s.input, p, p + 1, p + if t.Copy? then FiledWith(s, t.len) else 1, s.hashBits);
    FindGreedy(s);
    full := TakeGreedy(s);
  }

  /** The place found does not depend on the place to start with. */
  lemma StartIrrelevant(s: State, dict: map<int, nat>, prevLen: nat, start: UInt)
    requires s.Shape() && s.Extent()
    ensures var p, q := BestIn(s, dict, prevLen, start), BestIn(s, dict, prevLen, 0);
      p.len == q.len && (p.len > prevLen ==> p == q)
  {
    hide HashSize, CandidatesFor, KeyOf, MatchLen;
    if s.lookahead >= MIN_MATCH {
      var key := KeyOf(s.input, s.base + s.strstart, s.hashBits);
      PickStart(s.input, s.base, s.base + s.strstart, Max(s), NiceMatch(s),
        CandidatesFor(s.base, dict, key, s.strstart, s.MaxDist(), ChainFor(s, prevLen)), prevLen, start);
    }
  }

  lemma {:induction false} PickStart(s: seq<byte>, base: nat, b: nat, max: nat, nice: nat, cands: seq<Pos>, len: nat,
                                     start: UInt)
    requires b + max <= |s| && forall i :: 0 <= i < |cands| ==> base + cands[i] < b
    ensures var p := Pick(s, base, b, max, nice, cands, Best(len, start));
      var q := Pick(s, base, b, max, nice, cands, Best(len, 0));
      p.len == q.len && (p.len > len ==> p == q)
  {
    if cands != [] && MatchLen(s, base + cands[0], b, max) <= len {
      PickStart(s, base, b, max, nice, cands[1..], len, start);
    } else if cands != [] {
      var n := MatchLen(s, base + cands[0], b, max);
      PickIsLongest(s, base, b, max, nice, cands[1..], Best(n, cands[0]));
    }
  }

  method RefillFast(s: State, flush: Flush) returns (next: Next)
    requires s.FastOk()
    modifies s`matchStart, s`strstart, s`blockStart, s`base, s`nextIn, s`lookahead, s`input, s`written, s`highWater
    modifies s`insH, s`insert, s`dict, s.window, s.prev, s.head
    ensures s.FastOk() && s.base + s.strstart == old(s.base + s.strstart)
    ensures FiledSince(s, old(s.dict), old(s.insert))
    ensures s.input + s.nextIn == old(s.input + s.nextIn)
    ensures s.lookahead >= MIN_LOOKAHEAD || s.nextIn == []
    ensures next.Go? ==> s.RoomToSearch() && s.RoomToJump()
    ensures next.Wait? ==> flush.NoFlush? && s.lookahead < MIN_LOOKAHEAD
    ensures next.EndOfInput? ==> !flush.NoFlush? && s.lookahead == 0
  {
    hide FiledSince, CoversAt, HashSize, Means, State.Common, State.HashReady;
    ghost var input, p, flushedTo := s.input, s.base + s.strstart, s.base + s.blockStart;
    CommonBounds(s);
    next := Refill(s, MIN_LOOKAHEAD, flush);
    MeansGrows(s.marks, s.tokens, s.blocks, input, s.input, flushedTo, p);
  }

  lemma FastBounds(s: State)
    requires s.FastOk()
    ensures s.base + s.strstart + s.lookahead == |s.input|
  {
    CommonBounds(s);
  }

  /** deflate_fast: the logged tokens always stand for the whole stream up to strstart. */
  method DeflateFast(s: State, flush: Flush) returns (st: BlockState)
    requires s.FastOk()
    modifies s, s.window, s.prev, s.head, s.dBuf, s.lBuf
    ensures s.FastOk() && s.input + s.nextIn == old(s.input + s.nextIn)
    ensures s.finished == old(s.finished) && s.marks == old(s.marks) && old(s.tokens) <= s.tokens
    ensures st.NeedMore? ==> (flush.NoFlush? && s.nextIn == []) || s.availOut == 0
    ensures st.NeedMore? || s.AllFlushed()
    ensures st.BlockDone? ==> !flush.FinishFlush? && !flush.NoFlush?
    ensures st.FinishStarted? || st.FinishDone? ==> flush.FinishFlush? && s.Ended()
  {
    hide HashSize, CoversAt, State.FastOk, FileAll, FiledSince, GreedyToken, FiledWith, State.AllFlushed, State.Ended;
    FastBounds(s);
    while true
      invariant s.FastOk() && s.input + s.nextIn == old(s.input + s.nextIn)
      invariant s.base + s.strstart + s.lookahead == |s.input| && s.finished == old(s.finished)
      invariant s.marks == old(s.marks) && old(s.tokens) <= s.tokens
      decreases s.lookahead + |s.nextIn|
    {
      var next := RefillFast(s, flush);
      FastBounds(s);
      if next == Wait { return NeedMore; }
      if next == EndOfInput { break; }
      var full := FastStep(s);
      FastBounds(s);
      if full { return NeedMore; }
    }
    st := FinishFast(s, flush);
  }

  /** Behind the loop: the strings to file later and the final block. */
  method FinishFast(s: State, flush: Flush) returns (st: BlockState)
    requires s.FastOk() && s.lookahead == 0 && s.nextIn == []
    modifies s`insert, s`lastLit, s`blockStart, s`availOut, s`blocks
    ensures s.FastOk() && s.AllFlushed() && s.insert == if s.strstart < 2 then s.strstart else 2
    ensures st.NeedMore? ==> s.availOut == 0
    ensures st.BlockDone? ==> !flush.FinishFlush?
    ensures st.FinishStarted? || st.FinishDone? ==> flush.FinishFlush? && s.Ended()
  {
    hide HashSize, CoversAt, State.Contents, ChainsOk, Means, State.KeysOk, State.LogOk, State.ChainsBelow,
      State.HashReady, Expand, BlockTokens;
    s.insert := if s.strstart < MIN_MATCH - 1 then s.strstart else MIN_MATCH - 1;
    st := FlushRest(s, flush);
  }
}
