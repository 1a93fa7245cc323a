/** The compression part of deflate(): dispatch by strategy and level, the full flush, and whole
    runs of calls. */
module Deflate {
  import opened Lz77
  import opened RollingHash
  import opened HashChains
  import opened DeflateState
  import opened HashTable
  import opened DeflateSlow
  import opened DeflateFast
  import opened DeflateRuns
  import opened Wrappers

  /** The invariant of the compression function that the state's strategy and level select. */
  ghost predicate EngineOk(s: State)
    reads s`strstart, s`lookahead, s`base, s`input, s`written, s`highWater, s`dict, s`insert, s`lastLit, s`tokens, s`blocks
    reads s`insH, s`matchLength, s`matchStart, s`matchAvailable, s`prevLength, s`blockStart, s`marks
    reads s.window, s.prev, s.head, s.dBuf, s.lBuf
  {
    if s.strategy == HuffmanOnly || s.strategy == Rle then s.RunsOk()
    else if s.config.lazy then s.SlowOk() else s.FastOk()
  }

  /** deflate_slow holds back no byte. */
  predicate AtRest(s: State)
    reads s`matchAvailable
  {
    s.strategy == HuffmanOnly || s.strategy == Rle || !s.config.lazy || !s.matchAvailable
  }

  /** The compression functions by strategy and level. */
  method Compress(s: State, flush: Flush) returns (st: BlockState)
    requires EngineOk(s)
    modifies s, s.window, s.prev, s.head, s.dBuf, s.lBuf
    ensures EngineOk(s) && s.input + s.nextIn == old(s.input + s.nextIn)
    ensures s.strategy == HuffmanOnly ==> LiteralsSince(s.tokens, |old(s.tokens)|)
    ensures s.strategy == Rle ==> RunsSince(s.tokens, |old(s.tokens)|)
    ensures s.finished == old(s.finished) && s.marks == old(s.marks) && old(s.tokens) <= s.tokens
    ensures st.NeedMore? ==> (flush.NoFlush? && s.nextIn == []) || s.availOut == 0
    ensures st.NeedMore? || (s.AllFlushed() && AtRest(s))
    ensures st.BlockDone? ==> !flush.FinishFlush? && !flush.NoFlush?
    ensures st.FinishStarted? || st.FinishDone? ==> flush.FinishFlush? && s.Ended()
  {
    hide HashSize, State.SlowOk, State.FastOk, State.RunsOk, State.AllFlushed;
    if s.strategy == HuffmanOnly {
      st := DeflateHuff(s, flush);
    } else if s.strategy == Rle {
      st := DeflateRle(s, flush);
    } else if s.config.lazy {
      st := DeflateSlow.DeflateSlow(s, flush);
    } else {
      st := DeflateFast.DeflateFast(s, flush);
    }
  }

  /** strstart, block_start and insert go back to 0 when no input is ahead. */
  method ResetWindow(s: State)
    requires s.Kept() && s.lookahead == 0 && s.blockStart == s.strstart && s.MeaningOk(s.base + s.strstart)
    requires s.dict == map[] && forall h :: 0 <= h < s.head.Length ==> s.head[h] == NIL
    modifies s`base, s`strstart, s`blockStart, s`insert
    ensures s.Common() && s.HashReady() && s.MeaningOk(s.base + s.strstart)
    ensures s.strstart == s.blockStart == s.insert == 0 && s.base == old(s.base + s.strstart)
  {
    hide HashSize, State.LogOk, Means, KeysTrue, ChainsOk, CoversAt;
    s.base := s.base + s.strstart;
    s.strstart := 0;
    s.blockStart := 0;
    s.insert := 0;
    ClearedChains(s.base, s.Top(), s.head[..], s.prev[..]);
  }

  /** Z_FULL_FLUSH: forget the history, and start the window afresh when it is used up. */
  method ForgetHistory(s: State)
    requires EngineOk(s) && s.AllFlushed() && AtRest(s)
    modifies s`dict, s`base, s`strstart, s`blockStart, s`insert, s`marks, s.head
    ensures EngineOk(s) && s.AllFlushed() && AtRest(s)
    ensures s.marks == old(s.marks) + [Mark(|s.tokens|, |s.input|)]
  {
    hide HashSize, State.LogOk, Means, State.ChainsBelow, CoversAt, Expand, BlockTokens, State.Contents, State.KeysOk,
      State.HashReady, Reachable;
    ClearHash(s, s.Top());
    if s.lookahead == 0 {
      ResetWindow(s);
    }
    SetMark(s);
  }

  /** From the present position on, the tokens will stand alone: the window is empty. */
  ghost method SetMark(s: State)
    requires s.WindowOk() && s.MeaningOk(s.base + s.strstart) && s.lookahead == 0 && s.strstart == 0
    modifies s`marks
    ensures s.MeaningOk(s.base + s.strstart) && s.marks == old(s.marks) + [Mark(|s.tokens|, |s.input|)]
  {
    hide BlocksOk, Expand, State.Contents;
    var m := Mark(|s.tokens|, |s.input|);
    MarkStandsAlone(m, s.tokens, s.input);
    s.marks := s.marks + [m];
  }

  lemma MarkStandsAlone(m: Mark, tokens: seq<Token>, input: seq<byte>)
    requires m == Mark(|tokens|, |input|)
    ensures StandsAlone(m, tokens, input, |input|)
  {
    assert tokens[m.token..] == [] && input[m.at..|input|] == [];
  }

  /** Between two calls: the strategy's invariant, and after the end nothing is left to compress. */
  ghost predicate SessionOk(s: State)
    reads s, s.window, s.prev, s.head, s.dBuf, s.lBuf
  {
    EngineOk(s) && (s.finished ==> s.lookahead == 0 && s.Ended() && Expand(BlockTokens(s.blocks)) == Some(s.input))
  }

  /** A call completes a full flush. */
  predicate FullFlushDone(flush: Flush, r: Option<BlockState>)
  {
    flush == FullFlush && r == Some(BlockDone)
  }

  /** The compression step of deflate(); None when there is nothing to do. */
  method DeflateCall(s: State, flush: Flush) returns (r: Option<BlockState>)
    requires SessionOk(s)
    modifies s, s.window, s.prev, s.head, s.dBuf, s.lBuf
    ensures SessionOk(s) && s.input + s.nextIn == old(s.input + s.nextIn)
    ensures r.Some? <==> !old(s.finished) && (old(s.nextIn) != [] || old(s.lookahead) != 0 || flush != NoFlush)
    ensures r.None? ==> s.nextIn == old(s.nextIn) && s.tokens == old(s.tokens) && s.blocks == old(s.blocks)
    ensures r == Some(NeedMore) ==> (flush.NoFlush? && s.nextIn == []) || s.availOut == 0
    ensures r.Some? && !r.value.NeedMore? ==> s.AllFlushed() && (flush.FinishFlush? <==> !r.value.BlockDone?)
    ensures s.finished <==> old(s.finished) || r == Some(FinishDone) || r == Some(FinishStarted)
    ensures s.marks == old(s.marks) + if FullFlushDone(flush, r) then [Mark(|s.tokens|, |s.input|)] else []
    ensures old(s.tokens) <= s.tokens
  {
    hide HashSize, State.SlowOk, State.FastOk, State.RunsOk, Expand, BlockTokens;
    if s.finished && s.nextIn != [] { return None; }  // Z_BUF_ERROR
    if s.nextIn != [] || s.lookahead != 0 || (flush != NoFlush && !s.finished) {
      var st := Compress(s, flush);
      if st == FinishStarted || st == FinishDone {
        s.finished := true;
      }
      if st == BlockDone && flush == FullFlush {
        ForgetHistory(s);
      }
      return Some(st);
    }
    return None;
  }

  /** One call by the application: more input, a flush mode and some output space. */
  datatype Call = Call(data: seq<byte>, flush: Flush, room: nat)

  function Fed(calls: seq<Call>): seq<byte>
  {
    if calls == [] then [] else Fed(calls[..|calls| - 1]) + calls[|calls| - 1].data
  }

  /** Where in the stream the full flushes completed by the calls lie, start bytes coming before: behind
      all the input fed by then. */
  function FlushPoints(calls: seq<Call>, results: seq<Option<BlockState>>, start: nat): seq<nat>
    requires |calls| == |results|
  {
    if calls == [] then [] else
      var k := |calls| - 1;
      FlushPoints(calls[..k], results[..k], start) +
        if FullFlushDone(calls[k].flush, results[k]) then [start + |Fed(calls)|] else []
  }

  ghost function Places(marks: seq<Mark>): seq<nat>
  {
    if marks == [] then [] else Places(marks[..|marks| - 1]) + [marks[|marks| - 1].at]
  }

  /** Any run: however the input is cut up, whatever is flushed, and wherever the output fills up,
      the tokens logged by then stand for the input read by then, from the start and from each completed
      full flush on (SessionOk); once the stream is finished the blocks stand for all input taken, and
      nothing fed is lost or reordered, nothing logged changed. */
  method Run(s: State, calls: seq<Call>) returns (results: seq<Option<BlockState>>)
    requires SessionOk(s)
    modifies s, s.window, s.prev, s.head, s.dBuf, s.lBuf
    ensures SessionOk(s) && s.input + s.nextIn == old(s.input + s.nextIn) + Fed(calls)
    ensures s.finished ==> Expand(BlockTokens(s.blocks)) == Some(s.input)
    ensures |results| == |calls| && old(s.tokens) <= s.tokens && old(s.marks) <= s.marks
    ensures Places(s.marks) == old(Places(s.marks)) + FlushPoints(calls, results, old(|s.input| + |s.nextIn|))
  {
    hide HashSize, EngineOk, Expand, BlockTokens, State.AllFlushed, FullFlushDone;
    results := [];
    var i := 0;
    assert calls[..0] == [];
    while i < |calls|
      invariant 0 <= i <= |calls| == |results| + |calls| - i && SessionOk(s)
      invariant s.input + s.nextIn == old(s.input + s.nextIn) + Fed(calls[..i])
      invariant old(s.tokens) <= s.tokens && old(s.marks) <= s.marks
      invariant Places(s.marks) == old(Places(s.marks)) + FlushPoints(calls[..i], results, old(|s.input| + |s.nextIn|))
    {
      var r := Step(s, calls[i], old(s.input + s.nextIn), Fed(calls[..i]));
      OneMore(calls, i, results, r, old(|s.input| + |s.nextIn|));
      results := results + [r];
      i := i + 1;
    }
    assert calls[..i] == calls;
  }

  lemma OneMore(calls: seq<Call>, i: nat, results: seq<Option<BlockState>>, r: Option<BlockState>, start: nat)
    requires i < |calls| && |results| == i
    ensures Fed(calls[..i + 1]) == Fed(calls[..i]) + calls[i].data
    ensures FlushPoints(calls[..i + 1], results + [r], start) == FlushPoints(calls[..i], results, start) +
      if FullFlushDone(calls[i].flush, r) then [start + |Fed(calls[..i + 1])|] else []
  {
    assert calls[..i + 1][..i] == calls[..i] && (results + [r])[..i] == results;
  }

  lemma PlacesMore(marks: seq<Mark>, m: Mark)
    ensures Places(marks + [m]) == Places(marks) + [m.at]
  {
    assert (marks + [m])[..|marks|] == marks;
  }

  /** One call of a run. */
  method Step(s: State, call: Call, ghost before: seq<byte>, ghost fed: seq<byte>) returns (r: Option<BlockState>)
    requires SessionOk(s) && s.input + s.nextIn == before + fed
    modifies s, s.window, s.prev, s.head, s.dBuf, s.lBuf
    ensures SessionOk(s) && s.input + s.nextIn == before + (fed + call.data)
    ensures old(s.tokens) <= s.tokens && old(s.marks) <= s.marks
    ensures Places(s.marks) == old(Places(s.marks)) +
      if FullFlushDone(call.flush, r) then [|before| + |fed + call.data|] else []
  {
    hide HashSize, EngineOk, Expand, BlockTokens, Places;
    assert s.input + (s.nextIn + call.data) == (s.input + s.nextIn) + call.data == before + (fed + call.data);
    s.nextIn := s.nextIn + call.data;
    s.availOut := call.room;
    r := DeflateCall(s, call.flush);
    if FullFlushDone(call.flush, r) {
      PlacesMore(old(s.marks), Mark(|s.tokens|, |s.input|));
      assert |s.input| == |s.input + s.nextIn|;
    } else {
      assert s.marks == old(s.marks);
    }
  }

  /** The stream position up to which bytes have been turned into tokens. */
  ghost function Tokenized(s: State): int
    reads s
  {
    s.base + s.strstart - if !AtRest(s) then 1 else 0
  }

  /** What the invariant says to a decoder: at any moment the tokens logged so far expand to the
      stream up to that position, every copy is one the format and the window allow, and the blocks
      handed over are a prefix of the tokens. */
  lemma TokensMeanStream(s: State)
    requires SessionOk(s)
    ensures 0 <= Tokenized(s) <= |s.input| && Expand(s.tokens) == Some(s.input[..Tokenized(s)])
    ensures forall i {:trigger s.tokens[i]} :: 0 <= i < |s.tokens| ==> InRange(s.tokens[i], s.MaxDist())
    ensures BlockTokens(s.blocks) <= s.tokens
    ensures forall i {:trigger s.marks[i]} :: 0 <= i < |s.marks| ==>
      s.marks[i].token <= |s.tokens| && s.marks[i].at <= Tokenized(s) &&
      Expand(s.tokens[s.marks[i].token..]) == Some(s.input[s.marks[i].at..Tokenized(s)])
  {
    hide HashSize, Expand, BlockTokens, State.HashReady, State.ChainsBelow, State.KeysOk, State.WindowOk, InRange;
    assert s.LogOk();
    forall i | 0 <= i < |s.tokens| ensures InRange(s.tokens[i], s.MaxDist()) {
      assert InRange(s.tokens[i], s.MaxDist());
    }
    forall i | 0 <= i < |s.marks| ensures StandsAlone(s.marks[i], s.tokens, s.input, Tokenized(s)) {
      assert s.marks[i] == s.marks[i];
    }
  }

  /** A whole stream: from deflateInit2 with any parameters, through any calls. */
  method Session(level: nat, strategy: Strategy, windowBits: nat, memLevel: nat, calls: seq<Call>)
    returns (s: State, results: seq<Option<BlockState>>)
    requires 1 <= level <= 9 && 8 <= windowBits <= 15 && 1 <= memLevel <= 9
    ensures SessionOk(s) && s.input + s.nextIn == Fed(calls)
    ensures Expand(s.tokens) == Some(s.input[..Tokenized(s)])
    ensures s.finished ==> Expand(BlockTokens(s.blocks)) == Some(s.input)
    ensures |results| == |calls| && Places(s.marks) == FlushPoints(calls, results, 0)
    ensures forall i {:trigger s.marks[i]} :: 0 <= i < |s.marks| ==>
      s.marks[i].token <= |s.tokens| && s.marks[i].at <= Tokenized(s) &&
      Expand(s.tokens[s.marks[i].token..]) == Some(s.input[s.marks[i].at..Tokenized(s)])
  {
    s := new State(level, strategy, windowBits, memLevel);
    hide HashSize, Expand, BlockTokens, State.HashReady, State.ChainsBelow, State.KeysOk, State.WindowOk, State.LogOk;
    assert EngineOk(s);
    hide EngineOk, SessionOk;
    results := Run(s, calls);
    assert [] + Fed(calls) == Fed(calls);
    TokensMeanStream(s);
  }
}
