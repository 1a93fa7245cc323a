/** longest_match, and the plain search along a hash chain that it refines. */
module Matcher {
  import opened Lz77
  import opened RollingHash
  import opened HashChains
  import opened DeflateState

  // ---------- the plain search ----------

  /** How many of the max bytes at a and at b agree, counted from the front. */
  function MatchLen(s: seq<byte>, a: nat, b: nat, max: nat): nat
    requires a <= b && b + max <= |s|
    decreases max
  {
    if max == 0 || s[a] != s[b] then 0 else 1 + MatchLen(s, a + 1, b + 1, max - 1)
  }

  lemma {:induction false} MatchLenIs(s: seq<byte>, a: nat, b: nat, max: nat, n: nat)
    requires a < b && b + max <= |s| && n <= max && Repeats(s, b, b - a, n)
    requires n == max || s[a + n] != s[b + n]
    ensures MatchLen(s, a, b, max) == n
    decreases n
  {
    if n > 0 {
      assert s[b] == s[b..b + n][0] == s[a..a + n][0] == s[a];
      RepeatsTail(s, b, b - a, n);
      MatchLenIs(s, a + 1, b + 1, max - 1, n - 1);
    }
  }

  lemma {:induction false} MatchLenRepeats(s: seq<byte>, a: nat, b: nat, max: nat)
    requires a < b && b + max <= |s|
    ensures MatchLen(s, a, b, max) <= max && Repeats(s, b, b - a, MatchLen(s, a, b, max))
    decreases max
  {
    if max > 0 && s[a] == s[b] {
      MatchLenRepeats(s, a + 1, b + 1, max - 1);
      var n := MatchLen(s, a + 1, b + 1, max - 1);
      assert s[b..b + (n + 1)] == [s[b]] + s[b + 1..b + 1 + n];
      assert s[a..a + (n + 1)] == [s[a]] + s[a + 1..a + 1 + n];
    }
  }

  /** The candidates met along a chain: cur, then links while they exceed limit (and shrink),
      at most chain of them. */
  function Visited(prev: seq<Pos>, limit: nat, cur: Pos, chain: nat): (r: seq<Pos>)
    requires cur < 2 * |prev|
    ensures forall i :: 0 <= i < |r| ==> r[i] == cur || limit < r[i] < cur
    decreases cur
  {
    var q := prev[Slot(cur, |prev|)];
    if chain <= 1 || q <= limit || q >= cur then [cur] else [cur] + Visited(prev, limit, q, chain - 1)
  }

  datatype Best = Best(len: nat, pos: UInt)

  /** Keeps the first strictly longer match, and stops at one that is nice enough. */
  function Pick(s: seq<byte>, base: nat, b: nat, max: nat, nice: nat, cands: seq<Pos>, best: Best): Best
    requires b + max <= |s| && forall i :: 0 <= i < |cands| ==> base + cands[i] < b
  {
    if cands == [] then best else
      var n := MatchLen(s, base + cands[0], b, max);
      if n <= best.len then Pick(s, base, b, max, nice, cands[1..], best)
      else if n >= nice then Best(n, cands[0])
      else Pick(s, base, b, max, nice, cands[1..], Best(n, cands[0]))
  }

  /** The match lengths of candidates. */
  function Lengths(s: seq<byte>, base: nat, b: nat, max: nat, cands: seq<Pos>): (r: seq<nat>)
    requires b + max <= |s| && forall i :: 0 <= i < |cands| ==> base + cands[i] < b
    ensures |r| == |cands|
  {
    if cands == [] then [] else [MatchLen(s, base + cands[0], b, max)] + Lengths(s, base, b, max, cands[1..])
  }

  /** Of the first n candidates, with their lengths, p is the longest, and the first of that length
      if it improves on start; n leaves out candidates only after one that is nice enough. */
  ghost predicate Longest(lens: seq<nat>, cands: seq<Pos>, nice: nat, start: nat, p: Best, n: nat)
    requires |lens| == |cands|
  {
    && n <= |cands| && (forall i :: 0 <= i < n ==> lens[i] <= p.len)
    && (p.len > start ==> exists i :: FirstOf(lens, cands, p, n, i))
    && (n < |cands| ==> n > 0 && nice <= p.len && start < p.len && FirstOf(lens, cands, p, n, n - 1))
  }

  ghost predicate FirstOf(lens: seq<nat>, cands: seq<Pos>, p: Best, n: nat, i: int)
    requires |lens| == |cands|
  {
    0 <= i < n <= |cands| && p == Best(lens[i], cands[i]) && forall j :: 0 <= j < i ==> lens[j] < p.len
  }

  /** A candidate in front that does not beat p. */
  lemma LongestCons(lens: seq<nat>, cands: seq<Pos>, nice: nat, start: nat, start': nat, p: Best, n: nat)
    requires |lens| == |cands| > 0 && Longest(lens[1..], cands[1..], nice, start', p, n)
    requires lens[0] <= start' <= p.len && start <= start' && (start < start' ==> lens[0] == start')
    requires start < p.len == start' ==> p == Best(lens[0], cands[0])
    ensures Longest(lens, cands, nice, start, p, n + 1)
  {
    assert forall i :: 0 < i < |lens| ==> lens[i] == lens[1..][i - 1] && cands[i] == cands[1..][i - 1];
    if p.len > start' {
      var i :| FirstOf(lens[1..], cands[1..], p, n, i);
      assert FirstOf(lens, cands, p, n + 1, i + 1);
      if n < |cands| - 1 { assert FirstOf(lens, cands, p, n + 1, n); }
    } else if p.len > start {
      assert FirstOf(lens, cands, p, n + 1, 0);
    }
  }

  /** The search is exact: its result is the start value, or the first of the longest candidates up
      to where it stops, which is the end or a nice candidate. */
  lemma {:induction false} PickIsLongest(s: seq<byte>, base: nat, b: nat, max: nat, nice: nat, cands: seq<Pos>, best: Best)
    requires b + max <= |s| && forall i :: 0 <= i < |cands| ==> base + cands[i] < b
    ensures var p := Pick(s, base, b, max, nice, cands, best);
      && best.len <= p.len && (p.len == best.len ==> p == best)
      && exists n :: Longest(Lengths(s, base, b, max, cands), cands, nice, best.len, p, n)
  {
    hide Longest, MatchLen;
    var lens, p := Lengths(s, base, b, max, cands), Pick(s, base, b, max, nice, cands, best);
    if cands == [] {
      LongestNone(nice, p);
    } else {
      var m := lens[0];
      var best' := if m > best.len then Best(m, cands[0]) else best;
      if m > best.len && m >= nice {
        LongestNice(lens, cands, nice, best.len);
      } else {
        PickIsLongest(s, base, b, max, nice, cands[1..], best');
        var n :| Longest(lens[1..], cands[1..], nice, best'.len, p, n);
        LongestCons(lens, cands, nice, best.len, best'.len, p, n);
      }
    }
  }

  lemma LongestNone(nice: nat, p: Best)
    ensures Longest([], [], nice, p.len, p, 0)
  {
  }

  lemma LongestNice(lens: seq<nat>, cands: seq<Pos>, nice: nat, start: nat)
    requires |lens| == |cands| > 0 && lens[0] >= nice && lens[0] > start
    ensures Longest(lens, cands, nice, start, Best(lens[0], cands[0]), 1)
  {
    assert FirstOf(lens, cands, Best(lens[0], cands[0]), 1, 0);
  }

  lemma {:induction false} LengthAt(s: seq<byte>, base: nat, b: nat, max: nat, cands: seq<Pos>, i: nat)
    requires b + max <= |s| && i < |cands| && forall i :: 0 <= i < |cands| ==> base + cands[i] < b
    ensures Lengths(s, base, b, max, cands)[i] == MatchLen(s, base + cands[i], b, max)
  {
    if i > 0 {
      LengthAt(s, base, b, max, cands[1..], i - 1);
    }
  }

  /** The plain search: pick among the candidates visited. */
  function Search(s: seq<byte>, base: nat, b: nat, max: nat, nice: nat,
                  prev: seq<Pos>, limit: nat, cur: Pos, chain: nat, best: Best): Best
    requires b + max <= |s| && cur < 2 * |prev| && base + cur < b
  {
    Pick(s, base, b, max, nice, Visited(prev, limit, cur, chain), best)
  }

  lemma SearchStep(s: seq<byte>, base: nat, b: nat, max: nat, nice: nat,
                   prev: seq<Pos>, limit: nat, cur: Pos, chain: nat, best: Best)
    requires b + max <= |s| && cur < 2 * |prev| && base + cur < b
    ensures var n := MatchLen(s, base + cur, b, max);
      var best' := if n > best.len then Best(n, cur) else best;
      var q := prev[Slot(cur, |prev|)];
      Search(s, base, b, max, nice, prev, limit, cur, chain, best) ==
        if (n > best.len && n >= nice) || chain <= 1 || q <= limit || q >= cur then best'
        else Search(s, base, b, max, nice, prev, limit, q, chain - 1, best')
  {
    var q := prev[Slot(cur, |prev|)];
    var cands := Visited(prev, limit, cur, chain);
    assert cands[0] == cur;
    if chain <= 1 || q <= limit || q >= cur {
      assert cands == [cur] && cands[1..] == [];
      var n := MatchLen(s, base + cur, b, max);
      assert Pick(s, base, b, max, nice, cands[1..], if n > best.len then Best(n, cur) else best)
        == if n > best.len then Best(n, cur) else best;
    } else {
      assert cands == [cur] + Visited(prev, limit, q, chain - 1);
      assert cands[1..] == Visited(prev, limit, q, chain - 1);
    }
  }

  /** Nothing improves on a start value that already covers all valid bytes. */
  lemma {:induction false} PickSaturated(s: seq<byte>, base: nat, b: nat, max: nat, nice: nat, cands: seq<Pos>, best: Best)
    requires b + max <= |s| && max <= best.len && forall i :: 0 <= i < |cands| ==> base + cands[i] < b
    ensures Pick(s, base, b, max, nice, cands, best) == best
  {
    if cands != [] {
      MatchLenRepeats(s, base + cands[0], b, max);
      PickSaturated(s, base, b, max, nice, cands[1..], best);
    }
  }

  // ---------- the search deflate runs ----------

  /** The unrolled scan from byte 3 on: the end is tested for only after every eighth comparison. */
  method ScanMatch(s: State, cur: nat) returns (len: nat)
    requires s.Shape() && cur < s.strstart && s.strstart + MAX_MATCH < s.window.Length
    requires s.strstart + MAX_MATCH < s.written
    requires s.window[cur] == s.window[s.strstart] && s.window[cur + 1] == s.window[s.strstart + 1]
    requires s.window[cur + 2] == s.window[s.strstart + 2]
    ensures MIN_MATCH <= len <= MAX_MATCH
    ensures s.window[s.strstart..s.strstart + len] == s.window[cur..cur + len]
    ensures len < MAX_MATCH ==> s.window[cur + len] != s.window[s.strstart + len]
  {
    hide HashSize;
    var scan, match_, strend := s.strstart + 2, cur + 2, s.strstart + MAX_MATCH;
    while true
      invariant scan - match_ == s.strstart - cur && s.strstart + 2 <= scan < strend
      invariant s.window[s.strstart..scan + 1] == s.window[cur..match_ + 1]
      decreases strend - scan
    {
      scan, match_ := scan + 1, match_ + 1;
      if s.window[scan] != s.window[match_] { break; }
      if (strend - scan) % 8 == 0 && scan >= strend { break; }
    }
    len := MAX_MATCH - (strend - scan);
  }

  /** Byte 2 need not be compared: the strings at cur and strstart have the same key. */
  lemma ThirdByteAgrees(s: State, cur: nat)
    requires s.Shape() && s.WindowOk() && s.KeysOk() && cur < s.strstart && s.lookahead >= MIN_MATCH
    requires s.base + cur in s.dict && s.base + s.strstart in s.dict
    requires s.dict[s.base + cur] == s.dict[s.base + s.strstart]
    requires s.window[cur] == s.window[s.strstart] && s.window[cur + 1] == s.window[s.strstart + 1]
    ensures s.window[cur + 2] == s.window[s.strstart + 2]
  {
    hide HashSize, KeyIndex;
    assert TrueKey(s.input, s.dict, s.base + cur, s.hashBits);
    assert TrueKey(s.input, s.dict, s.base + s.strstart, s.hashBits);
    var a, b := s.base + cur, s.base + s.strstart;
    assert s.window[cur + 2] == s.input[a + 2] && s.window[s.strstart + 2] == s.input[b + 2];
    assert s.window[cur + 1] == s.input[a + 1] && s.window[s.strstart + 1] == s.input[b + 1];
    KeyFixesThirdByte(s.input[a], s.input[a + 1], s.input[a + 2], s.input[b + 2], s.hashBits);
  }

  /** The bytes the scan may compare with certainty. */
  function Max(s: State): nat
    reads s`lookahead
  {
    if s.lookahead < MAX_MATCH then s.lookahead else MAX_MATCH
  }

  function Clip(s: State, len: nat): nat
    reads s`lookahead
  {
    if len <= s.lookahead then len else s.lookahead
  }

  function Limit(s: State): nat
    requires s.Shape()
    reads s`strstart
  {
    if s.strstart > s.MaxDist() then s.strstart - s.MaxDist() else NIL
  }

  /** A candidate failing one of the four early comparisons cannot improve on bestLen. */
  lemma RejectedIsShort(s: State, cur: nat, bestLen: nat)
    requires s.Shape() && s.WindowOk() && cur < s.strstart && 1 <= bestLen <= MAX_MATCH
    requires s.strstart + MAX_MATCH < s.window.Length
    requires s.window[cur + bestLen] != s.window[s.strstart + bestLen]
      || s.window[cur + bestLen - 1] != s.window[s.strstart + bestLen - 1]
      || s.window[cur] != s.window[s.strstart] || s.window[cur + 1] != s.window[s.strstart + 1]
    ensures MatchLen(s.input, s.base + cur, s.base + s.strstart, Max(s)) <= bestLen
  {
    hide HashSize, MatchLen, State.Contents;
    MatchLenRepeats(s.input, s.base + cur, s.base + s.strstart, Max(s));
    if MatchLen(s.input, s.base + cur, s.base + s.strstart, Max(s)) > bestLen {
      var i := if s.window[cur + bestLen] != s.window[s.strstart + bestLen] then bestLen
               else if s.window[cur + bestLen - 1] != s.window[s.strstart + bestLen - 1] then bestLen - 1
               else if s.window[cur] != s.window[s.strstart] then 0 else 1;
      AgreesWithin(s, cur, i);
    }
  }

  lemma AgreesWithin(s: State, cur: nat, i: nat)
    requires s.Shape() && s.WindowOk() && cur < s.strstart
    requires i < MatchLen(s.input, s.base + cur, s.base + s.strstart, Max(s))
    ensures s.strstart + i < s.window.Length && s.window[cur + i] == s.window[s.strstart + i]
  {
    hide HashSize;
    var a, b := s.base + cur, s.base + s.strstart;
    MatchLenRepeats(s.input, a, b, Max(s));
    var n := MatchLen(s.input, a, b, Max(s));
    assert s.input[b + i] == s.input[b..b + n][i] == s.input[a..a + n][i] == s.input[a + i];
    WindowByte(s, cur + i);
    WindowByte(s, s.strstart + i);
  }

  /** The scanned length, cut to the valid bytes, is the true match length. */
  lemma ScannedIsTrue(s: State, cur: nat, len: nat)
    requires s.Shape() && s.WindowOk() && cur < s.strstart && MIN_MATCH <= len <= MAX_MATCH
    requires s.strstart + MAX_MATCH < s.window.Length
    requires s.window[s.strstart..s.strstart + len] == s.window[cur..cur + len]
    requires len < MAX_MATCH ==> s.window[cur + len] != s.window[s.strstart + len]
    ensures MatchLen(s.input, s.base + cur, s.base + s.strstart, Max(s)) == Clip(s, len)
  {
    hide HashSize, MatchLen, State.Contents;
    var n := Clip(s, len);
    var a, b := s.base + cur, s.base + s.strstart;
    assert s.window[s.strstart..s.strstart + n] == s.window[cur..cur + n] by { Clipped(s, cur, len, n); }
    ScannedSlices(s, cur, n);
    assert n == Max(s) || s.input[a + n] != s.input[b + n];
    assert Repeats(s.input, b, b - a, n);
    hide State.Shape, State.WindowOk, Repeats;
    MatchLenIs(s.input, a, b, Max(s), n);
  }

  /** Equal and different bytes of the window, as bytes of the stream. */
  lemma ScannedSlices(s: State, cur: nat, n: nat)
    requires s.WindowOk() && cur < s.strstart && n <= s.lookahead
    requires s.window[s.strstart..s.strstart + n] == s.window[cur..cur + n]
    ensures s.base + s.strstart + s.lookahead <= |s.input|
    ensures s.input[s.base + cur..s.base + cur + n] == s.input[s.base + s.strstart..s.base + s.strstart + n]
    ensures n < s.lookahead ==> s.strstart + n < s.window.Length
    ensures n < s.lookahead && s.window[cur + n] != s.window[s.strstart + n] ==>
      s.input[s.base + cur + n] != s.input[s.base + s.strstart + n]
  {
    hide State.Contents;
    WindowSlice(s, cur, n);
    WindowSlice(s, s.strstart, n);
    if n < s.lookahead {
      WindowByte(s, cur + n);
      WindowByte(s, s.strstart + n);
    }
  }

  lemma Clipped(s: State, cur: nat, len: nat, n: nat)
    requires cur <= s.strstart && n <= len && s.strstart + len <= s.window.Length
    requires s.window[s.strstart..s.strstart + len] == s.window[cur..cur + len]
    ensures s.window[s.strstart..s.strstart + n] == s.window[cur..cur + n]
  {
    assert s.window[s.strstart..s.strstart + n] == s.window[s.strstart..s.strstart + len][..n];
    assert s.window[cur..cur + n] == s.window[cur..cur + len][..n];
  }

  /** A candidate that longest_match may compare: filed under the key of the current string, in
      the window before it, and near enough. */
  ghost predicate Candidate(s: State, cur: Pos)
    reads s`base, s`dict, s`strstart
  {
    && 0 < cur < s.strstart && s.strstart - cur <= s.MaxDist()
    && s.base + cur in s.dict && s.base + s.strstart in s.dict
    && s.dict[s.base + cur] == s.dict[s.base + s.strstart]
  }

  /** The true match length of a candidate: valid bytes only. */
  ghost function TrueLen(s: State, cur: Pos): nat
    requires s.Extent() && cur < s.strstart
    reads s`strstart, s`lookahead, s`base, s`input, s`written, s`highWater
  {
    MatchLen(s.input, s.base + cur, s.base + s.strstart, Max(s))
  }

  /** The plain search from candidate cur on. */
  ghost function SearchFrom(s: State, nice: nat, cur: Pos, chain: nat, best: Best): Best
    requires s.Shape() && s.Extent() && Candidate(s, cur)
    reads s`strstart, s`lookahead, s`base, s`input, s`written, s`highWater, s`dict, s.prev
  {
    Search(s.input, s.base, s.base + s.strstart, Max(s), nice, s.prev[..], Limit(s), cur, chain, best)
  }

  /** One round of the plain search; the chain invariant makes the next link above limit a
      candidate again, and a smaller one. */
  lemma SearchFromStep(s: State, nice: nat, cur: Pos, chain: nat, best: Best)
    requires s.Shape() && s.Extent() && s.ChainsBelow(s.strstart + 1) && Candidate(s, cur)
    ensures cur < s.strstart < 2 * s.wSize && TrueLen(s, cur) <= s.lookahead
    ensures var n, q := TrueLen(s, cur), s.prev[Slot(cur, s.wSize)];
      var best' := if n > best.len then Best(n, cur) else best;
      && (q > Limit(s) ==> Candidate(s, q))
      && SearchFrom(s, nice, cur, chain, best) ==
        if (n > best.len && n >= nice) || chain <= 1 || q <= Limit(s) then best'
        else SearchFrom(s, nice, q, chain - 1, best')
  {
    hide HashSize, MatchLen, Search;
    assert LinkOk(s.base, s.dict, s.prev[..][Slot(cur, |s.prev[..]|)], s.base + cur);
    MatchLenRepeats(s.input, s.base + cur, s.base + s.strstart, Max(s));
    SearchStep(s.input, s.base, s.base + s.strstart, Max(s), nice, s.prev[..], Limit(s), cur, chain, best);
  }

  /** Nothing improves on a start value that already covers all valid bytes. */
  lemma SaturatedFrom(s: State, nice: nat, cur: Pos, chain: nat, best: Best)
    requires s.Shape() && s.Extent() && Candidate(s, cur) && s.lookahead <= best.len
    ensures SearchFrom(s, nice, cur, chain, best) == best
  {
    hide HashSize, Visited, Pick;
    PickSaturated(s.input, s.base, s.base + s.strstart, Max(s), nice, Visited(s.prev[..], Limit(s), cur, chain), best);
  }

  /** r and pos are the length and place of the longest candidate met from cur on, as far as the search
      goes; if r does not exceed prev_length nothing longer was met. */
  ghost predicate LongestVisited(s: State, nice: nat, cur: Pos, chain: nat, r: nat, pos: UInt)
    requires s.Shape() && s.Extent() && Candidate(s, cur)
    reads s`strstart, s`lookahead, s`base, s`input, s`written, s`highWater, s`dict, s`prevLength, s.prev
  {
    var cands := Visited(s.prev[..], Limit(s), cur, chain);
    var lens := Lengths(s.input, s.base, s.base + s.strstart, Max(s), cands);
    exists n :: Longest(lens, cands, nice, s.prevLength, Best(r, pos), n)
  }

  lemma FoundIsLongest(s: State, nice: nat, cur: Pos, chain: nat, start: UInt, pos: UInt)
    requires s.Shape() && s.Extent() && Candidate(s, cur)
    ensures var p := SearchFrom(s, nice, cur, chain, Best(s.prevLength, start));
      (Clip(s, p.len) > s.prevLength ==> pos == p.pos) ==> LongestVisited(s, nice, cur, chain, Clip(s, p.len), pos)
  {
    hide HashSize, Visited, Pick, MatchLen, Lengths;
    var cands := Visited(s.prev[..], Limit(s), cur, chain);
    var b, best := s.base + s.strstart, Best(s.prevLength, start);
    PickIsLongest(s.input, s.base, b, Max(s), nice, cands, best);
    var lens, p := Lengths(s.input, s.base, b, Max(s), cands), SearchFrom(s, nice, cur, chain, best);
    var n :| Longest(lens, cands, nice, s.prevLength, p, n);
    forall i | 0 <= i < |cands| ensures lens[i] <= s.lookahead {
      LengthAt(s.input, s.base, b, Max(s), cands, i);
      MatchLenRepeats(s.input, s.base + cands[i], b, Max(s));
    }
    if Clip(s, p.len) > s.prevLength ==> pos == p.pos {
      assert Longest(lens, cands, nice, s.prevLength, Best(Clip(s, p.len), pos), n);
    }
  }

  /** One candidate: the early comparisons, then the scan; 0 when rejected. */
  method TryCandidate(s: State, cur: Pos, bestLen: nat, scanEnd1: byte, scanEnd: byte) returns (len: nat)
    requires s.Shape() && s.WindowOk() && s.KeysOk() && Candidate(s, cur)
    requires s.lookahead >= MIN_MATCH && 1 <= bestLen <= MAX_MATCH
    requires s.strstart + MAX_MATCH < s.window.Length && s.strstart + MAX_MATCH < s.written
    requires scanEnd1 == s.window[s.strstart + bestLen - 1] && scanEnd == s.window[s.strstart + bestLen]
    ensures len <= MAX_MATCH
    ensures len == 0 ==> TrueLen(s, cur) <= bestLen
    ensures len > 0 ==> TrueLen(s, cur) == Clip(s, len)
  {
    hide HashSize, KeysTrue, MatchLen, State.Contents;
    if s.window[cur + bestLen] != scanEnd || s.window[cur + bestLen - 1] != scanEnd1
      || s.window[cur] != s.window[s.strstart] || s.window[cur + 1] != s.window[s.strstart + 1] {
      RejectedIsShort(s, cur, bestLen);
      return 0;
    }
    ThirdByteAgrees(s, cur);
    len := ScanMatch(s, cur);
    ScannedIsTrue(s, cur, len);
  }

  function NiceMatch(s: State): nat
    reads s`lookahead
  {
    if s.config.niceLength > s.lookahead then s.lookahead else s.config.niceLength
  }

  /** The number of candidates to visit, prevLen being the length to beat. */
  function ChainFor(s: State, prevLen: nat): nat
  {
    if prevLen >= s.config.goodLength then s.config.maxChain / 4 else s.config.maxChain
  }

  /** A quarter of the chain if the match to beat is good, all of it otherwise. */
  lemma QuarterChain(s: State, prevLen: nat)
    ensures prevLen >= s.config.goodLength ==> 4 * ChainFor(s, prevLen) <= s.config.maxChain < 4 * ChainFor(s, prevLen) + 4
    ensures prevLen < s.config.goodLength ==> ChainFor(s, prevLen) == s.config.maxChain
  {
  }

  function ChainLength(s: State): nat
    reads s`prevLength
  {
    ChainFor(s, s.prevLength)
  }

  /** The loop of longest_match does what the plain search over the valid input bytes does, except
      that its length may reach past the lookahead. */
  method WalkChain(s: State, curMatch: Pos) returns (bestLen: nat, matchStart: UInt)
    requires s.Shape() && s.WindowOk() && s.KeysOk() && s.ChainsBelow(s.strstart + 1)
    requires s.lookahead >= MIN_MATCH && 1 <= s.prevLength <= MAX_MATCH && Candidate(s, curMatch)
    requires s.strstart + MAX_MATCH < s.window.Length && s.strstart + MAX_MATCH < s.written
    ensures var p := SearchFrom(s, NiceMatch(s), curMatch, ChainLength(s), Best(s.prevLength, s.matchStart));
      Clip(s, bestLen) == Clip(s, p.len) && (Clip(s, p.len) > s.prevLength ==> matchStart == p.pos)
  {
    hide HashSize, State.KeysOk, State.ChainsBelow, State.Contents, TrueLen, SearchFrom, Candidate;
    var chainLength := s.config.maxChain;
    var niceMatch := s.config.niceLength;
    bestLen, matchStart := s.prevLength, s.matchStart;
    var limit := Limit(s);
    var scanEnd1, scanEnd := s.window[s.strstart + bestLen - 1], s.window[s.strstart + bestLen];
    if s.prevLength >= s.config.goodLength { chainLength := chainLength / 4; }
    if niceMatch > s.lookahead { niceMatch := s.lookahead; }
    var cur: Pos := curMatch;
    ghost var goal := SearchFrom(s, niceMatch, cur, chainLength, Best(bestLen, matchStart));
    while true
      invariant Candidate(s, cur) && chainLength >= 1
      invariant s.prevLength <= bestLen <= MAX_MATCH && (bestLen < s.lookahead || bestLen == s.prevLength)
      invariant scanEnd1 == s.window[s.strstart + bestLen - 1] && scanEnd == s.window[s.strstart + bestLen]
      invariant goal == SearchFrom(s, niceMatch, cur, chainLength, Best(bestLen, matchStart))
      decreases chainLength
    {
      SearchFromStep(s, niceMatch, cur, chainLength, Best(bestLen, matchStart));
      var len := TryCandidate(s, cur, bestLen, scanEnd1, scanEnd);
      if len > bestLen {
        if bestLen >= s.lookahead { SaturatedFrom(s, niceMatch, cur, chainLength, Best(bestLen, matchStart)); }
        matchStart := cur;
        bestLen := len;
        if len >= niceMatch { break; }
        scanEnd1, scanEnd := s.window[s.strstart + bestLen - 1], s.window[s.strstart + bestLen];
      }
      cur := s.prev[Slot(cur, s.wSize)];
      if cur <= limit { break; }
      chainLength := chainLength - 1;
      if chainLength == 0 { break; }
    }
  }

  /** longest_match returns what the plain search over the valid input bytes finds, cut to the
      lookahead: the longest candidate visited, as far as the search goes. match_start is the search's
      choice whenever the result exceeds prev_length. */
  method LongestMatch(s: State, curMatch: Pos) returns (r: nat)
    requires s.Shape() && s.WindowOk() && s.KeysOk() && s.ChainsBelow(s.strstart + 1)
    requires s.lookahead >= MIN_MATCH && 1 <= s.prevLength <= MAX_MATCH && Candidate(s, curMatch)
    requires s.strstart + MAX_MATCH < s.window.Length && s.strstart + MAX_MATCH < s.written
    modifies s`matchStart
    ensures var p := old(SearchFrom(s, NiceMatch(s), curMatch, ChainLength(s), Best(s.prevLength, s.matchStart)));
      r == Clip(s, p.len) && (r > s.prevLength ==> s.matchStart == p.pos)
    ensures LongestVisited(s, NiceMatch(s), curMatch, ChainLength(s), r, s.matchStart)
  {
    hide HashSize, State.Contents, State.KeysOk, State.ChainsBelow, SearchFrom, Candidate, LongestVisited;
    var bestLen, matchStart := WalkChain(s, curMatch);
    FoundIsLongest(s, NiceMatch(s), curMatch, ChainLength(s), s.matchStart, matchStart);
    s.matchStart := matchStart;
    r := Clip(s, bestLen);
  }

  /** What the search finds beyond its start value is a true, near enough repetition. */
  lemma SearchIsSound(s: seq<byte>, base: nat, b: nat, max: nat, nice: nat,
                      prev: seq<Pos>, limit: nat, cur: Pos, chain: nat, best: Best)
    requires b + max <= |s| && cur < 2 * |prev| && base + cur < b
    ensures var p := Search(s, base, b, max, nice, prev, limit, cur, chain, best);
      p == best || (best.len < p.len <= max && p.pos <= cur && (p.pos == cur || p.pos > limit)
                    && Repeats(s, b, b - (base + p.pos), p.len))
  {
    hide MatchLen, Visited, Pick;
    var cands := Visited(prev, limit, cur, chain);
    PickIsLongest(s, base, b, max, nice, cands, best);
    var p := Pick(s, base, b, max, nice, cands, best);
    if p != best {
      var lens := Lengths(s, base, b, max, cands);
      var n :| Longest(lens, cands, nice, best.len, p, n);
      var i :| FirstOf(lens, cands, p, n, i);
      LengthAt(s, base, b, max, cands, i);
      MatchLenRepeats(s, base + cands[i], b, max);
    }
  }

  /** longest_match as its callers rely on it: a result above prev_length is the length of a
      true repetition at distance strstart - match_start, at most MAX_DIST back. */
  method FindMatch(s: State, curMatch: Pos) returns (r: nat)
    requires s.Shape() && s.WindowOk() && s.KeysOk() && s.ChainsBelow(s.strstart + 1)
    requires s.lookahead >= MIN_MATCH && 1 <= s.prevLength <= MAX_MATCH && Candidate(s, curMatch)
    requires s.strstart + MAX_MATCH < s.window.Length && s.strstart + MAX_MATCH < s.written
    modifies s`matchStart
    ensures r <= s.lookahead && r <= MAX_MATCH
    ensures r >= s.prevLength || r == s.lookahead
    ensures r > s.prevLength ==> s.matchStart < s.strstart && s.strstart - s.matchStart <= s.MaxDist()
    ensures r > s.prevLength ==> Repeats(s.input, s.base + s.strstart, s.strstart - s.matchStart, r)
    ensures var p := old(SearchFrom(s, NiceMatch(s), curMatch, ChainLength(s), Best(s.prevLength, s.matchStart)));
      r == Clip(s, p.len) && (r > s.prevLength ==> s.matchStart == p.pos)
  {
    hide HashSize, State.Contents, State.KeysOk, State.ChainsBelow, Search, LongestVisited;
    SearchIsSound(s.input, s.base, s.base + s.strstart, Max(s), NiceMatch(s), s.prev[..], Limit(s), curMatch,
                  ChainLength(s), Best(s.prevLength, s.matchStart));
    r := LongestMatch(s, curMatch);
  }
}
