/** deflate_slow: lazy matching. */
module DeflateSlow {
  import opened Lz77
  import opened RollingHash
  import opened HashChains
  import opened DeflateState
  import opened Matcher
  import opened Candidates
  import opened Wrappers
  import opened Emit
  import opened Steps
  import opened Window

  /** The match at strstart that beats the previous one, of length prevLen, if there is one worth it: the
      longest that the plain search finds among the strings filed in dict, unless the previous one is
      long enough; too short to be worth it are up to five bytes in filtered data and three bytes that
      are too far back. */
  ghost function Improvement(s: State, dict: map<int, nat>, prevLen: nat, start: UInt): (r: Option<Best>)
    requires s.Shape() && s.Extent()
    ensures r.Some? ==> r.value.len > prevLen
    reads s`strstart, s`lookahead, s`base, s`input, s`written, s`highWater
  {
    var p := BestIn(s, dict, prevLen, start);
    var len := Clip(s, p.len);
    if prevLen < s.config.maxLazy && len > prevLen && Worth(s, len, s.strstart - p.pos) then Some(Best(len, p.pos)) else None
  }

  predicate Worth(s: State, len: nat, dist: int)
  {
    len > 5 || !(s.strategy == Filtered || (len == MIN_MATCH && dist > TOO_FAR))
  }

  lemma ImprovementIs(s: State, dict: map<int, nat>, prevLen: nat, start: UInt)
    requires s.Shape() && s.Extent() && prevLen < s.config.maxLazy
    ensures var p := BestIn(s, dict, prevLen, start);
      Improvement(s, dict, prevLen, start) ==
        if Clip(s, p.len) > prevLen && Worth(s, Clip(s, p.len), s.strstart - p.pos) then Some(Best(Clip(s, p.len), p.pos))
        else None
  {
  }

  /** prev_length, prev_match and match_length for the string at strstart: the previous step's
      match becomes the one to beat. */
  method SearchHere(s: State, ghost dict: map<int, nat>, hashHead: Pos)
    requires s.Shape() && s.WindowOk() && s.KeysOk() && s.FiledHere() && s.RoomToSearch() && s.PendingOk()
    requires Reachable(s.marks, s.base) && HeadFound(s, dict, hashHead)
    modifies s`prevLength, s`prevMatch, s`matchLength, s`matchStart
    ensures s.prevLength == old(s.matchLength) && s.prevMatch == old(s.matchStart)
    ensures s.FoundOk()
    ensures var imp := Improvement(s, dict, s.prevLength, s.prevMatch);
      if imp.Some? then s.matchLength == imp.value.len && s.matchStart == imp.value.pos else s.matchLength <= s.prevLength
  {
    hide HashSize, CoversAt, State.Contents, ChainsOk, KeysTrue, BestIn, HeadFound, Candidate;
    s.prevLength, s.prevMatch := s.matchLength, s.matchStart;
    s.matchLength := MIN_MATCH - 1;
    if hashHead != NIL && s.prevLength < s.config.maxLazy && s.strstart - hashHead <= s.MaxDist() {
      HeadIsCandidate(s, dict, hashHead);
      SearchChain(s, dict, hashHead);
    } else if hashHead == NIL || s.strstart - hashHead > s.MaxDist() {
      NothingToFind(s, dict, hashHead, s.prevLength, s.prevMatch);
    }
  }

  lemma BestIsPending(s: State)
    requires Reachable(s.marks, s.base) && s.matchStart < s.strstart && s.strstart - s.matchStart <= s.MaxDist()
    requires Repeats(s.input, s.base + s.strstart, s.strstart - s.matchStart, s.matchLength)
    ensures PendingMatch(s.marks, s.input, s.base + s.strstart + 1, s.strstart + 1 - s.matchStart, s.MaxDist(),
                         s.matchLength)
  {
    hide Repeats;
  }

  /** longest_match, and its result dropped if it is not worth it. */
  method SearchChain(s: State, ghost dict: map<int, nat>, hashHead: Pos)
    requires s.Shape() && s.WindowOk() && s.KeysOk() && s.ChainsBelow(s.strstart + 1) && s.RoomToSearch()
    requires s.lookahead >= MIN_MATCH && 2 <= s.prevLength <= MAX_MATCH && s.prevLength < s.config.maxLazy
    requires Reachable(s.marks, s.base) && HeadFound(s, dict, hashHead)
    requires hashHead != NIL && s.strstart - hashHead <= s.MaxDist()
    modifies s`matchLength, s`matchStart
    ensures s.FoundOk()
    ensures var imp := Improvement(s, dict, s.prevLength, old(s.matchStart));
      if imp.Some? then s.matchLength == imp.value.len && s.matchStart == imp.value.pos else s.matchLength <= s.prevLength
  {
    hide HashSize, State.Contents, State.KeysOk, State.ChainsBelow, Repeats, BestIn, HeadFound, PendingMatch, Reachable,
      Improvement, Clip;
    ImprovementIs(s, dict, s.prevLength, s.matchStart);
    s.matchLength := FindBest(s, dict, hashHead);
    if s.matchLength > s.prevLength { BestIsPending(s); }
    if s.matchLength <= 5 && (s.strategy == Filtered
       || (s.matchLength == MIN_MATCH && Minus(s.strstart, s.matchStart) > TOO_FAR)) {
      s.matchLength := MIN_MATCH - 1;
    }
  }

  /** The previous match wins: log it, then move over it, filing its strings as far as they are
      complete. lookahead is lowered along with strstart here instead of beforehand. */
  method TakePrevious(s: State) returns (bflush: bool)
    requires s.Kept() && s.FiledHere() && MIN_MATCH <= s.prevLength <= MAX_MATCH
    requires s.matchAvailable && s.prevLength <= s.lookahead + 1 && 1 <= s.strstart < UINT_RANGE && s.lookahead > 0
    requires s.MeaningOk(s.base + s.strstart - 1)
    requires 1 <= Minus(s.strstart - 1, s.prevMatch) <= s.MaxDist()
    requires Reachable(s.marks, s.base + s.strstart - 1 - Minus(s.strstart - 1, s.prevMatch))
    requires Repeats(s.input, s.base + s.strstart - 1, Minus(s.strstart - 1, s.prevMatch), s.prevLength)
    modifies s`strstart, s`lookahead, s`prevLength, s`matchAvailable, s`matchLength, s`insH, s`dict
    modifies s`lastLit, s`tokens, s.prev, s.head, s.dBuf, s.lBuf
    ensures s.WindowOk() && s.KeysOk() && s.ChainsBelow(s.Top()) && s.HashReady() && s.InsertOk() && s.LogOk()
    ensures s.MeaningOk(s.base + s.strstart) && !s.matchAvailable && s.matchLength == MIN_MATCH - 1
    ensures s.strstart == old(s.strstart + s.prevLength) - 1
    ensures s.tokens == old(s.tokens + [Copy(Minus(s.strstart - 1, s.prevMatch), s.prevLength)])
    ensures s.lookahead == old(s.lookahead) - (old(s.prevLength) - 1)
    ensures s.lastLit == old(s.lastLit) + 1 && (bflush <==> s.lastLit == s.litBufsize - 1)
    ensures s.dict == FileAll(old(s.dict), s.input, s.base + old(s.strstart) + 1, s.base + s.strstart, s.hashBits)
  {
    hide HashSize, CoversAt, State.Contents, ChainsOk, KeysTrue, Expand, BlocksOk, State.KeysOk, State.LogOk, FileAll,
      Reachable;
    bflush := TallyDist(s, Minus(s.strstart - 1, s.prevMatch), s.prevLength - MIN_MATCH, s.base + s.strstart - 1);
    SkipMatch(s);
    s.matchAvailable := false;
    s.matchLength := MIN_MATCH - 1;
    Advance(s);
  }

  /** The insertion loop behind a match: prev_length - 2 strings, none beyond the input. */
  method SkipMatch(s: State)
    requires s.Shape() && s.WindowOk() && s.KeysOk() && s.InsertOk() && s.FiledHere()
    requires MIN_MATCH <= s.prevLength <= s.lookahead + 1
    modifies s`strstart, s`lookahead, s`prevLength, s`insH, s`dict, s.prev, s.head
    ensures s.WindowOk() && s.KeysOk() && s.InsertOk() && s.FiledHere()
    ensures s.strstart == old(s.strstart + s.prevLength) - 2
    ensures s.lookahead == old(s.lookahead) - (old(s.prevLength) - 2)
    ensures s.dict == FileAll(old(s.dict), s.input, s.base + old(s.strstart) + 1, s.base + s.strstart + 1, s.hashBits)
  {
    hide HashSize, CoversAt, State.Contents, ChainsOk, KeysTrue, State.HashReady, State.KeysOk, HeadFound, FileAll;
    var maxInsert: int := s.strstart + s.lookahead - MIN_MATCH;
    ghost var lo, dict := s.base + s.strstart + 1, s.dict;
    FileNone(dict, s.input, lo, s.hashBits);
    s.prevLength := s.prevLength - 2;
    ghost var end := s.strstart + s.prevLength;
    while true
      invariant s.WindowOk() && s.KeysOk() && s.InsertOk() && s.FiledHere()
      invariant 1 <= s.prevLength < s.lookahead && s.strstart + s.prevLength == end
      invariant s.strstart + s.lookahead == maxInsert + MIN_MATCH
      invariant s.dict == FileAll(dict, s.input, lo, s.base + s.strstart + 1, s.hashBits) && lo <= s.base + s.strstart + 1
      decreases s.prevLength
    {
      Advance(s);
      FileInside(s, maxInsert);
      FileMore(dict, s.input, s.input, lo, s.base + s.strstart, s.base + s.strstart + 1, s.hashBits);
      s.prevLength := s.prevLength - 1;
      if s.prevLength == 0 { break; }
    }
  }

  /** One string inside a match, filed if it is complete. */
  method FileInside(s: State, maxInsert: int)
    requires s.Shape() && s.WindowOk() && s.KeysOk() && s.ChainsBelow(s.Top()) && s.HashReady()
    requires maxInsert == s.strstart + s.lookahead - MIN_MATCH
    modifies s`insH, s`dict, s.prev, s.head
    ensures s.KeysOk() && s.FiledHere()
    ensures s.dict == FileAll(old(s.dict), s.input, s.base + s.strstart, s.base + s.strstart + 1, s.hashBits)
  {
    hide HashSize, CoversAt, State.Contents, ChainsOk, State.HashReady, State.KeysOk, HeadFound, FileAll;
    if s.strstart <= maxInsert {
      var _ := InsertHere(s);
    } else {
      NothingToFile(s);
      FileOne(s.dict, s.input, s.base + s.strstart, s.hashBits);
    }
  }

  lemma NothingToFile(s: State)
    requires s.Shape() && s.lookahead < MIN_MATCH && s.ChainsBelow(s.Top())
    requires s.base + s.strstart + s.lookahead == |s.input|
    ensures s.FiledHere()
  {
  }

  /** Refilling moves no position of the stream, so the loop invariant stays. */
  method RefillSlow(s: State, flush: Flush) returns (next: Next)
    requires s.SlowOk()
    modifies s`matchStart, s`strstart, s`blockStart, s`base, s`nextIn, s`lookahead, s`input, s`written, s`highWater
    modifies s`insH, s`insert, s`dict, s.window, s.prev, s.head
    ensures s.SlowOk() && s.base + s.strstart == old(s.base + s.strstart)
    ensures FiledSince(s, old(s.dict), old(s.insert))
    ensures s.input + s.nextIn == old(s.input + s.nextIn)
    ensures s.lookahead >= MIN_LOOKAHEAD || s.nextIn == []
    ensures next.Go? ==> s.RoomToSearch()
    ensures next.Wait? ==> flush.NoFlush? && s.lookahead < MIN_LOOKAHEAD
    ensures next.EndOfInput? ==> !flush.NoFlush? && s.lookahead == 0
  {
    hide FiledSince, CoversAt, HashSize, Means, PendingMatch, State.Common, State.HashReady;
    CommonBounds(s);
    ghost var input, lookahead, gap := s.input, s.lookahead, Minus(s.strstart, s.matchStart);
    ghost var p, flushedTo := s.base + s.strstart, s.base + s.blockStart;
    next := Refill(s, MIN_LOOKAHEAD, flush);
    CommonBounds(s);
    MeansGrows(s.marks, s.tokens, s.blocks, input, s.input, flushedTo, p - (if s.matchAvailable then 1 else 0));
    if s.matchLength >= MIN_MATCH {
      PendingGrows(s.marks, input, s.input, p, gap, s.MaxDist(), s.matchLength);
    }
  }

  lemma PendingGrows(marks: seq<Mark>, input: seq<byte>, input': seq<byte>, p: nat, gap: nat, maxDist: int, len: nat)
    requires PendingMatch(marks, input, p, gap, maxDist, len) && input <= input'
    ensures PendingMatch(marks, input', p, gap, maxDist, len)
  {
    RepeatsGrows(input, input', p - 1, gap - 1, len);
  }

  /** The branch for a pending byte without a better match: log it as a literal. */
  method TakeLiteral(s: State) returns (full: bool)
    requires s.Kept() && s.FiledHere() && s.matchAvailable && 1 <= s.strstart && s.lookahead > 0
    requires s.FoundOk() && (s.matchLength >= MIN_MATCH ==> s.matchLength > s.prevLength)
    requires s.MeaningOk(s.base + s.strstart - 1)
    modifies s`strstart, s`lookahead, s`lastLit, s`tokens, s`blockStart, s`availOut, s`blocks, s.dBuf, s.lBuf
    ensures s.SlowOk() && s.strstart == old(s.strstart) + 1 && (full ==> s.availOut == 0)
    ensures s.tokens == old(s.tokens + [Literal(s.window[s.strstart - 1])])
    ensures s.matchAvailable && s.matchLength == old(s.matchLength) && s.matchStart == old(s.matchStart)
  {
    hide HashSize, CoversAt, State.Contents, ChainsOk, Means, PendingMatch, State.KeysOk, State.LogOk, State.ChainsBelow,
      State.FiledHere, State.HashReady;
    LogLiteral(s);
    Advance(s);
    full := s.availOut == 0;
  }

  method LogLiteral(s: State)
    requires s.Kept() && 1 <= s.strstart && s.MeaningOk(s.base + s.strstart - 1)
    modifies s`lastLit, s`tokens, s`blockStart, s`availOut, s`blocks, s.dBuf, s.lBuf
    ensures s.Kept() && s.MeaningOk(s.base + s.strstart)
    ensures s.tokens == old(s.tokens + [Literal(s.window[s.strstart - 1])])
  {
    hide HashSize, State.Contents, Means, State.KeysOk, State.LogOk;
    WindowByte(s, s.strstart - 1);
    var bflush := TallyLit(s, s.window[s.strstart - 1], s.base + s.strstart - 1);
    if bflush { FlushBlockOnly(s, false); }
  }

  /** The branch without a pending byte: wait for the next step to decide. */
  method Defer(s: State)
    requires s.Kept() && s.FiledHere() && s.lookahead > 0
    requires s.FoundOk() && (s.matchLength >= MIN_MATCH ==> s.matchLength > s.prevLength)
    requires s.MeaningOk(s.base + s.strstart)
    modifies s`strstart, s`lookahead, s`matchAvailable
    ensures s.SlowOk() && s.matchAvailable && s.strstart == old(s.strstart) + 1
  {
    hide HashSize, CoversAt, State.Contents, ChainsOk, Means, PendingMatch, State.KeysOk, State.LogOk, State.ChainsBelow,
      State.FiledHere, State.HashReady;
    s.matchAvailable := true;
    Advance(s);
  }

  /** The match branch of an iteration, with the block flush behind it. */
  method TakeMatch(s: State) returns (full: bool)
    requires s.Kept() && s.FiledHere() && MIN_MATCH <= s.prevLength <= MAX_MATCH
    requires s.matchAvailable && s.prevLength <= s.lookahead + 1 && 1 <= s.strstart < UINT_RANGE && s.lookahead > 0
    requires s.MeaningOk(s.base + s.strstart - 1)
    requires PendingMatch(s.marks, s.input, s.base + s.strstart, Minus(s.strstart, s.prevMatch), s.MaxDist(), s.prevLength)
    modifies s`strstart, s`lookahead, s`prevLength, s`matchAvailable, s`matchLength, s`insH, s`dict
    modifies s`lastLit, s`tokens, s`blockStart, s`availOut, s`blocks, s.prev, s.head, s.dBuf, s.lBuf
    ensures s.SlowOk() && (full ==> s.availOut == 0)
    ensures s.strstart == old(s.strstart + s.prevLength) - 1
    ensures s.tokens == old(s.tokens + [Copy(Minus(s.strstart - 1, s.prevMatch), s.prevLength)])
    ensures !s.matchAvailable && s.matchLength == MIN_MATCH - 1
    ensures s.dict == FileAll(old(s.dict), s.input, s.base + old(s.strstart) + 1, s.base + s.strstart, s.hashBits)
  {
    hide FileAll, HashSize, CoversAt, State.Contents, ChainsOk, Means, State.KeysOk, State.LogOk, State.ChainsBelow,
      State.HashReady, State.FiledHere;
    assert Minus(s.strstart - 1, s.prevMatch) == Minus(s.strstart, s.prevMatch) - 1;
    var bflush := TakePrevious(s);
    full := FlushIfFull(s, bflush);
  }

  lemma SlowBounds(s: State)
    requires s.SlowOk()
    ensures s.base + s.strstart + s.lookahead == |s.input|
  {
    CommonBounds(s);
  }

  /** What lazy matching logs once it is known whether the match at strstart is better than the previous
      one: the previous match unless it is, otherwise the previous byte if it is pending. */
  ghost function LazyTokens(s: State, prevLen: nat, prevMatch: UInt, better: bool): seq<Token>
    requires s.matchAvailable ==> 1 <= s.strstart < UINT_RANGE && s.strstart <= s.window.Length
    reads s`matchAvailable, s`strstart, s.window
  {
    if !s.matchAvailable then []
    else if prevLen >= MIN_MATCH && !better then [Copy(Minus(s.strstart - 1, prevMatch), prevLen)]
    else [Literal(s.window[s.strstart - 1])]
  }

  /** The decision between the previous match and the one at strstart; the latter is kept for the next
      step unless the former has been taken. */
  method Decide(s: State) returns (full: bool)
    requires s.Kept() && s.FiledHere() && s.lookahead > 0 && s.FoundOk() && 2 <= s.prevLength <= MAX_MATCH
    requires s.matchAvailable ==> 1 <= s.strstart < UINT_RANGE
    requires s.MeaningOk(s.base + s.strstart - (if s.matchAvailable then 1 else 0))
    requires s.prevLength >= MIN_MATCH ==> s.matchAvailable && s.prevLength <= s.lookahead + 1 && s.strstart < UINT_RANGE
    requires s.prevLength >= MIN_MATCH ==>
      PendingMatch(s.marks, s.input, s.base + s.strstart, Minus(s.strstart, s.prevMatch), s.MaxDist(), s.prevLength)
    modifies s`strstart, s`lookahead, s`prevLength, s`matchAvailable, s`matchLength, s`insH, s`dict
    modifies s`lastLit, s`tokens, s`blockStart, s`availOut, s`blocks, s.prev, s.head, s.dBuf, s.lBuf
    ensures s.SlowOk() && s.strstart > old(s.strstart) && (full ==> s.availOut == 0)
    ensures s.tokens == old(s.tokens + LazyTokens(s, s.prevLength, s.prevMatch, s.matchLength > s.prevLength))
    ensures s.matchAvailable <==> !old(s.prevLength >= MIN_MATCH && s.matchLength <= s.prevLength)
    ensures s.matchAvailable ==> s.strstart == old(s.strstart) + 1 && s.matchLength == old(s.matchLength)
    ensures !s.matchAvailable ==> s.strstart == old(s.strstart + s.prevLength) - 1 && s.matchLength == MIN_MATCH - 1
    ensures s.dict == FileAll(old(s.dict), s.input, s.base + old(s.strstart) + 1, s.base + s.strstart, s.hashBits)
  {
    hide HashSize, CoversAt, State.Contents, ChainsOk, Means, PendingMatch, State.KeysOk, State.LogOk, State.ChainsBelow,
      State.HashReady, State.FiledHere, FileAll;
    FileNone(s.dict, s.input, s.base + s.strstart + 1, s.hashBits);
    if s.prevLength >= MIN_MATCH && s.matchLength <= s.prevLength {
      full := TakeMatch(s);
    } else if s.matchAvailable {
      full := TakeLiteral(s);
    } else {
      assert s.tokens + [] == s.tokens;
      Defer(s);
      full := false;
    }
  }

  /** What is new at strstart: the string is filed, and a better match found if there is one. */
  method FindLazy(s: State)
    requires s.SlowOk() && s.RoomToSearch()
    modifies s`prevLength, s`prevMatch, s`matchLength, s`matchStart, s`insH, s`dict, s.prev, s.head
    ensures s.Kept() && s.FiledHere() && s.FoundOk()
    ensures s.prevLength == old(s.matchLength) && s.prevMatch == old(s.matchStart)
    ensures var imp := old(Improvement(s, s.dict, s.matchLength, s.matchStart));
      if imp.Some? then s.matchLength == imp.value.len && s.matchStart == imp.value.pos else s.matchLength <= s.prevLength
    ensures s.dict == FileAll(old(s.dict), s.input, s.base + s.strstart, s.base + s.strstart + 1, s.hashBits)
  {
    hide HashSize, CoversAt, State.Contents, ChainsOk, Means, PendingMatch, State.KeysOk, State.LogOk, State.ChainsBelow,
      State.HashReady, State.FoundOk, HeadFound, FileAll, Improvement;
    ghost var dict := s.dict;
    var hashHead := InsertHere(s);
    SearchHere(s, dict, hashHead);
  }

  /** One iteration behind the refill; true means return need_more because the output is full. What is
      logged, kept for the next step and filed is determined by the stream, the strings filed and the
      match pending: a better match at strstart is kept, otherwise the pending one is taken. */
  method SlowStep(s: State) returns (full: bool)
    requires s.SlowOk() && s.RoomToSearch()
    modifies s`strstart, s`lookahead, s`prevLength, s`prevMatch, s`matchAvailable, s`matchLength, s`matchStart
    modifies s`insH, s`dict, s`lastLit, s`tokens, s`blockStart, s`availOut, s`blocks, s.prev, s.head, s.dBuf, s.lBuf
    ensures s.SlowOk() && s.strstart > old(s.strstart) && (full ==> s.availOut == 0)
    ensures var imp := old(Improvement(s, s.dict, s.matchLength, s.matchStart));
      && s.tokens == old(s.tokens + LazyTokens(s, s.matchLength, s.matchStart, imp.Some?))
      && (s.matchAvailable <==> imp.Some? || old(s.matchLength) < MIN_MATCH)
      && (imp.Some? ==> s.matchLength == imp.value.len && s.matchStart == imp.value.pos)
      && (imp.None? ==> s.matchLength < MIN_MATCH)
    ensures s.strstart == old(s.strstart) + if s.matchAvailable then 1 else old(s.matchLength) - 1
    ensures s.dict == FileAll(old(s.dict), s.input, s.base + old(s.strstart), s.base + s.strstart, s.hashBits)
  {
    hide HashSize, CoversAt, State.Contents, ChainsOk, Means, PendingMatch, State.KeysOk, State.LogOk, State.ChainsBelow,
      State.HashReady, State.FiledHere, State.FoundOk, FileAll, Improvement;
    ghost var dict, p := s.dict, s.base + s.strstart;
    FindLazy(s);
    full := Decide(s);
    FileMore(dict, s.input, s.input, p, p + 1, s.base + s.strstart, s.hashBits);
  }

  /** Behind the loop: the last pending byte, the strings to file later, the final block. */
  method FinishSlow(s: State, flush: Flush) returns (st: BlockState)
    requires s.SlowOk() && s.lookahead == 0 && s.nextIn == []
    modifies s`matchAvailable, s`insert, s`lastLit, s`tokens, s`blockStart, s`availOut, s`blocks, s.dBuf, s.lBuf
    ensures s.SlowOk() && s.AllFlushed() && !s.matchAvailable && s.insert == if s.strstart < 2 then s.strstart else 2
    ensures old(s.tokens) <= s.tokens
    ensures st.NeedMore? ==> s.availOut == 0
    ensures st.BlockDone? ==> !flush.FinishFlush?
    ensures st.FinishStarted? || st.FinishDone? ==> flush.FinishFlush? && s.Ended()
  {
    hide HashSize, CoversAt, State.Contents, ChainsOk, Means, PendingMatch, State.KeysOk, State.LogOk, State.ChainsBelow,
      State.HashReady, Expand, BlockTokens, State.MeaningOk, State.Ended, State.WindowOk;
    LogLastByte(s);
    s.insert := if s.strstart < MIN_MATCH - 1 then s.strstart else MIN_MATCH - 1;
    st := FlushRest(s, flush);
  }

  /** The literal logged behind the loop; its bflush is not looked at. */
  method LogLastByte(s: State)
    requires s.SlowOk() && s.lookahead == 0
    modifies s`matchAvailable, s`lastLit, s`tokens, s.dBuf, s.lBuf
    ensures s.LogOk() && s.MeaningOk(s.base + s.strstart) && s.lastLit < s.litBufsize
    ensures !s.matchAvailable && s.matchLength == 2
    ensures s.tokens == old(s.tokens + if s.matchAvailable then [Literal(s.window[s.strstart - 1])] else [])
  {
    hide HashSize, CoversAt, State.Contents, ChainsOk, Means, State.KeysOk, State.LogOk, State.ChainsBelow, State.HashReady;
    if s.matchAvailable {
      WindowByte(s, s.strstart - 1);
      var _ := TallyLit(s, s.window[s.strstart - 1], s.base + s.strstart - 1);
      s.matchAvailable := false;
    }
  }

  /** deflate_slow: whatever the chunking of input and output, the logged tokens always stand for
      the stream up to the pending byte; when a flush completes, the blocks stand for all of it. */
  method DeflateSlow(s: State, flush: Flush) returns (st: BlockState)
    requires s.SlowOk()
    modifies s, s.window, s.prev, s.head, s.dBuf, s.lBuf
    ensures s.SlowOk() && s.input + s.nextIn == old(s.input + s.nextIn)
    ensures s.finished == old(s.finished) && s.marks == old(s.marks) && old(s.tokens) <= s.tokens
    ensures st.NeedMore? ==> (flush.NoFlush? && s.nextIn == []) || s.availOut == 0
    ensures st.NeedMore? || (s.AllFlushed() && !s.matchAvailable)
    ensures st.BlockDone? ==> !flush.FinishFlush? && !flush.NoFlush?
    ensures st.FinishStarted? || st.FinishDone? ==> flush.FinishFlush? && s.Ended()
  {
    hide HashSize, CoversAt, State.SlowOk, FileAll, FiledSince, Improvement, LazyTokens, State.AllFlushed, State.Ended;
    SlowBounds(s);
    while true
      invariant s.SlowOk() && s.input + s.nextIn == old(s.input + s.nextIn)
      invariant s.base + s.strstart + s.lookahead == |s.input| && s.finished == old(s.finished)
      invariant s.marks == old(s.marks) && old(s.tokens) <= s.tokens
      decreases s.lookahead + |s.nextIn|
    {
      var next := RefillSlow(s, flush);
      SlowBounds(s);
      if next == Wait { return NeedMore; }
      if next == EndOfInput { break; }
      var full := SlowStep(s);
      SlowBounds(s);
      if full { return NeedMore; }
    }
    st := FinishSlow(s, flush);
  }
}
