/** The token log (_tr_tally_lit, _tr_tally_dist) and its hand-over to the block writer
    (FLUSH_BLOCK_ONLY). Positions n are stream positions. */
module Emit {
  import opened Lz77
  import opened Wrappers
  import opened HashChains
  import opened DeflateState
  import opened RollingHash

  /** Appends to d_buf and l_buf. */
  method LogToken(s: State, d: Pos, lc: byte) returns (bflush: bool)
    requires s.Shape() && s.LogOk() && s.lastLit < s.litBufsize && InRange(TokenAt(d, lc), s.MaxDist())
    modifies s`lastLit, s`tokens, s.dBuf, s.lBuf
    ensures s.LogOk() && s.tokens == old(s.tokens) + [TokenAt(d, lc)] && s.lastLit == old(s.lastLit) + 1
    ensures bflush <==> s.lastLit == s.litBufsize - 1
  {
    hide HashSize, BlockTokens, TokenAt, InRange;
    s.dBuf[s.lastLit] := d;
    s.lBuf[s.lastLit] := lc;
    s.lastLit := s.lastLit + 1;
    s.tokens := s.tokens + [TokenAt(d, lc)];
    bflush := s.lastLit == s.litBufsize - 1;
  }

  /** _tr_tally_lit for the byte at stream position n. */
  method TallyLit(s: State, c: byte, ghost n: nat) returns (bflush: bool)
    requires s.Shape() && s.LogOk() && s.MeaningOk(n) && s.lastLit < s.litBufsize
    requires n < |s.input| && c == s.input[n]
    modifies s`lastLit, s`tokens, s.dBuf, s.lBuf
    ensures s.LogOk() && s.MeaningOk(n + 1) && s.lastLit == old(s.lastLit) + 1
    ensures s.tokens == old(s.tokens) + [Literal(c)]
    ensures bflush <==> s.lastLit == s.litBufsize - 1
  {
    hide HashSize, State.LogOk, BlocksOk, AllStandAlone, Reachable;
    ExpandLiteral(s.tokens, s.input, n);
    MarksLiteral(s.marks, s.tokens, s.input, n);
    bflush := LogToken(s, 0, c);
  }

  /** _tr_tally_dist for a repetition at stream position n. */
  method TallyDist(s: State, dist: UInt, lc: nat, ghost n: nat) returns (bflush: bool)
    requires s.Shape() && s.LogOk() && s.MeaningOk(n) && s.lastLit < s.litBufsize
    requires dist <= s.MaxDist() && lc + MIN_MATCH <= MAX_MATCH && Repeats(s.input, n, dist, lc + MIN_MATCH)
    requires Reachable(s.marks, n - dist)
    modifies s`lastLit, s`tokens, s.dBuf, s.lBuf
    ensures s.LogOk() && s.MeaningOk(n + lc + MIN_MATCH) && s.lastLit == old(s.lastLit) + 1
    ensures s.tokens == old(s.tokens) + [Copy(dist, lc + MIN_MATCH)]
    ensures bflush <==> s.lastLit == s.litBufsize - 1
  {
    hide HashSize, State.LogOk, BlocksOk, Expand, Repeats, TokenAt, InRange, AllStandAlone, Reachable;
    CopyToken(dist, lc, s.MaxDist());
    RepeatsWithin(s.input, n, dist, lc + MIN_MATCH);
    ExpandCopy(s.tokens, s.input, n, dist, lc + MIN_MATCH);
    MarksCopy(s.marks, s.tokens, s.input, n, dist, lc + MIN_MATCH);
    bflush := LogToken(s, dist, lc as byte);
  }

  /** What lies in the window may be copied from. */
  lemma InWindow(s: State, upTo: int, src: int)
    requires s.MeaningOk(upTo) && src >= s.base
    ensures Reachable(s.marks, src)
  {
  }

  /** A literal extends what stands alone since each mark. */
  lemma MarksLiteral(marks: seq<Mark>, tokens: seq<Token>, input: seq<byte>, n: nat)
    requires AllStandAlone(marks, tokens, input, n) && n < |input|
    ensures AllStandAlone(marks, tokens + [Literal(input[n])], input, n + 1)
  {
    forall i | 0 <= i < |marks| ensures StandsAlone(marks[i], tokens + [Literal(input[n])], input, n + 1) {
      var m := marks[i];
      assert StandsAlone(m, tokens, input, n);
      SinceLiteral(m, tokens, input, n);
    }
  }

  lemma SinceLiteral(m: Mark, tokens: seq<Token>, input: seq<byte>, n: nat)
    requires StandsAlone(m, tokens, input, n) && n < |input|
    ensures StandsAlone(m, tokens + [Literal(input[n])], input, n + 1)
  {
    hide Expand;
    var since := input[m.at..];
    assert since[..n - m.at] == input[m.at..n] && since[..n + 1 - m.at] == input[m.at..n + 1];
    assert (tokens + [Literal(input[n])])[m.token..] == tokens[m.token..] + [Literal(input[n])];
    ExpandLiteral(tokens[m.token..], since, n - m.at);
  }

  /** So does a copy that reaches behind none of them. */
  lemma MarksCopy(marks: seq<Mark>, tokens: seq<Token>, input: seq<byte>, n: nat, dist: nat, len: nat)
    requires AllStandAlone(marks, tokens, input, n) && Repeats(input, n, dist, len) && Reachable(marks, n - dist)
    ensures n + len <= |input| && AllStandAlone(marks, tokens + [Copy(dist, len)], input, n + len)
  {
    hide Repeats;
    RepeatsWithin(input, n, dist, len);
    forall i | 0 <= i < |marks| ensures StandsAlone(marks[i], tokens + [Copy(dist, len)], input, n + len) {
      assert StandsAlone(marks[i], tokens, input, n);
      SinceCopy(marks[i], tokens, input, n, dist, len);
    }
  }

  lemma SinceCopy(m: Mark, tokens: seq<Token>, input: seq<byte>, n: nat, dist: nat, len: nat)
    requires StandsAlone(m, tokens, input, n) && Repeats(input, n, dist, len) && m.at + dist <= n
    ensures n + len <= |input| && StandsAlone(m, tokens + [Copy(dist, len)], input, n + len)
  {
    hide Expand;
    var since, k := input[m.at..], n - m.at;
    assert since[..k] == input[m.at..n] && since[..k + len] == input[m.at..n + len];
    assert since[k..k + len] == input[n..n + len] && since[k - dist..k - dist + len] == input[n - dist..n - dist + len];
    assert (tokens + [Copy(dist, len)])[m.token..] == tokens[m.token..] + [Copy(dist, len)];
    ExpandCopy(tokens[m.token..], since, k, dist, len);
  }

  lemma RepeatsWithin(s: seq<byte>, n: nat, dist: nat, len: nat)
    requires Repeats(s, n, dist, len)
    ensures dist > 0 && n + len <= |s|
  {
  }

  /** The log entry of a copy. */
  lemma CopyToken(dist: nat, lc: nat, maxDist: int)
    requires lc + MIN_MATCH <= MAX_MATCH && dist <= maxDist < 0x1_0000
    ensures dist > 0 ==> TokenAt(dist, lc as byte) == Copy(dist, lc + MIN_MATCH)
    ensures dist > 0 ==> InRange(Copy(dist, lc + MIN_MATCH), maxDist)
  {
    ByteOfLength(lc);
  }

  /** One more block keeps the block list sound when its tokens carry the meaning from lo to hi. */
  lemma BlockAdded(blocks: seq<Block>, b: Block, input: seq<byte>, lo: nat, hi: nat)
    requires BlocksOk(blocks) && lo <= hi <= |input|
    requires Expand(BlockTokens(blocks)) == Some(input[..lo])
    requires Expand(BlockTokens(blocks) + b.tokens) == Some(input[..hi])
    requires b.storedLen == hi - lo && (b.buf.Some? ==> b.buf.value == input[lo..hi])
    ensures BlockTokens(blocks + [b]) == BlockTokens(blocks) + b.tokens && BlocksOk(blocks + [b])
  {
    hide Expand;
    assert (blocks + [b])[..|blocks|] == blocks;
    assert input[..hi][lo..] == input[lo..hi];
  }

  /** FLUSH_BLOCK_ONLY: _tr_flush_block consumes the log; flush_pending may take output space. */
  method FlushBlockOnly(s: State, last: bool)
    requires s.Shape() && s.WindowOk() && s.LogOk() && s.MeaningOk(s.base + s.strstart)
    modifies s`lastLit, s`blockStart, s`availOut, s`blocks
    ensures s.LogOk() && s.MeaningOk(s.base + s.strstart)
    ensures s.lastLit == 0 && s.blockStart == s.strstart && s.availOut <= old(s.availOut)
    ensures |s.blocks| == |old(s.blocks)| + 1 && s.blocks[..|old(s.blocks)|] == old(s.blocks)
    ensures var b := s.blocks[|old(s.blocks)|];
      b.last == last && b.storedLen == s.strstart - old(s.blockStart) && (b.buf.Some? <==> old(s.blockStart) >= 0)
  {
    hide HashSize;
    hide State.Contents, BlocksOk, BlockTokens, Expand, TokenAt, InRange;
    var buf := if s.blockStart >= 0 then Some(s.window[s.blockStart..s.strstart]) else None;
    ghost var b := Block(s.tokens[|BlockTokens(s.blocks)|..], buf, s.strstart - s.blockStart, last);
    if s.blockStart >= 0 { WindowSlice(s, s.blockStart, s.strstart - s.blockStart); }
    assert BlockTokens(s.blocks) + b.tokens == s.tokens;
    BlockAdded(s.blocks, b, s.input, s.base + s.blockStart, s.base + s.strstart);
    s.blocks := s.blocks + [b];
    s.lastLit := 0;
    s.blockStart := s.strstart;
    var room: nat :| room <= s.availOut;
    s.availOut := room;
  }
}
