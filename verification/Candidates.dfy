/** What the hash chains are for: the candidates that longest_match visits are the last strings filed
    under the key, newest first, and none is missed. */
module Candidates {
  import opened Lz77
  import opened RollingHash
  import opened HashChains
  import opened DeflateState
  import opened Matcher

  /** The window indices q with limit < q < hi at which a string is filed under the key, from the
      highest down, at most n of them. */
  ghost function Filed(base: nat, dict: map<int, nat>, key: nat, limit: nat, hi: nat, n: nat): (r: seq<Pos>)
    requires hi <= 0x1_0000
    ensures |r| <= n && forall i :: 0 <= i < |r| ==> limit < r[i] < hi
    decreases hi
  {
    if n == 0 || hi <= limit + 1 then []
    else if base + hi - 1 in dict && dict[base + hi - 1] == key
    then [hi - 1] + Filed(base, dict, key, limit, hi - 1, n - 1)
    else Filed(base, dict, key, limit, hi - 1, n)
  }

  /** Where nothing is filed under the key nothing is found. */
  lemma {:induction false} FiledSkips(base: nat, dict: map<int, nat>, key: nat, limit: nat, lo: nat, hi: nat, n: nat)
    requires lo <= hi <= 0x1_0000 && NoneBetween(dict, key, base + lo - 1, base + hi)
    ensures Filed(base, dict, key, limit, hi, n) == Filed(base, dict, key, limit, lo, n)
    decreases hi
  {
    if lo < hi {
      FiledSkips(base, dict, key, limit, lo, hi - 1, n);
    }
  }

  /** Nor does what is filed from hi on matter. */
  lemma {:induction false} FiledIgnores(base: nat, dict: map<int, nat>, key: nat, limit: nat, hi: nat, n: nat,
                                        a: int, k: nat)
    requires hi <= 0x1_0000 && a >= base + hi
    ensures Filed(base, dict[a := k], key, limit, hi, n) == Filed(base, dict, key, limit, hi, n)
    decreases hi
  {
    if n > 0 && hi > limit + 1 {
      FiledIgnores(base, dict, key, limit, hi - 1, n, a, k);
      FiledIgnores(base, dict, key, limit, hi - 1, n - 1, a, k);
    }
  }

  /** From the last string on, the list is that string and the ones before it. */
  lemma FiledFromLatest(base: nat, dict: map<int, nat>, key: nat, limit: nat, q: Pos, hi: nat, n: nat)
    requires IsLatest(base, dict, key, q, base + hi) && hi <= 0x1_0000
    ensures n == 0 || q <= limit ==> Filed(base, dict, key, limit, hi, n) == []
    ensures n > 0 && q > limit ==>
      q < hi && Filed(base, dict, key, limit, hi, n) == [q] + Filed(base, dict, key, limit, q, n - 1)
  {
    hide NoneBetween;
    if q < hi {
      NarrowerNone(dict, key, base + q, base + hi);
      FiledSkips(base, dict, key, limit, q + 1, hi, n);
    }
  }

  lemma NarrowerNone(dict: map<int, nat>, key: nat, lo: int, hi: int)
    requires NoneBetween(dict, key, lo, hi)
    ensures NoneBetween(dict, key, lo + 1 - 1, hi)
  {
  }

  /** Walking a chain from a filed string visits that string and then exactly the last strings filed
      before it under its key, down to the limit, as long as their slots are live. */
  lemma {:induction false} VisitedIsFiled(base: nat, dict: map<int, nat>, key: nat, top: int, prev: seq<Pos>,
                                          limit: nat, cur: Pos, chain: nat)
    requires LinksOk(base, dict, top, prev) && top <= 2 * |prev| && top - |prev| <= limit + 1
    requires top - |prev| <= cur < top && base + cur in dict && dict[base + cur] == key && chain >= 1
    ensures Visited(prev, limit, cur, chain) == [cur] + Filed(base, dict, key, limit, cur, chain - 1)
    decreases cur
  {
    hide IsLatest;
    var q := prev[Slot(cur, |prev|)];
    assert LinkOk(base, dict, q, base + cur);
    FiledFromLatest(base, dict, key, limit, q, cur, chain - 1);
    if chain > 1 && q > limit {
      LatestIsFiled(base, dict, key, q, base + cur);
      VisitedIsFiled(base, dict, key, top, prev, limit, q, chain - 1);
    }
  }

  lemma LatestIsFiled(base: nat, dict: map<int, nat>, key: nat, q: Pos, hi: int)
    requires IsLatest(base, dict, key, q, hi) && q > 0
    ensures base + q < hi && base + q in dict && dict[base + q] == key
  {
  }

  /** The candidates for the string at window index p: the last string filed under the key, if it is at
      most maxDist back, and then those nearer than maxDist, at most chain in all. */
  ghost function CandidatesFor(base: nat, dict: map<int, nat>, key: nat, p: nat, maxDist: int, chain: nat): (r: seq<Pos>)
    requires p <= 0x1_0000 && chain >= 1
    ensures forall i :: 0 <= i < |r| ==> 0 < r[i] < p
  {
    var last := Filed(base, dict, key, 0, p, 1);
    if last == [] || p - last[0] > maxDist then []
    else last + Filed(base, dict, key, if p > maxDist then p - maxDist else 0, last[0], chain - 1)
  }

  /** Without a hash head, or with one too far back, there is no candidate. */
  lemma NoCandidates(base: nat, dict: map<int, nat>, key: nat, p: nat, maxDist: int, chain: nat, q: Pos)
    requires p <= 0x1_0000 && chain >= 1 && IsLatest(base, dict, key, q, base + p)
    ensures q == NIL || p - q > maxDist ==> CandidatesFor(base, dict, key, p, maxDist, chain) == []
  {
    hide IsLatest;
    FiledFromLatest(base, dict, key, 0, q, p, 1);
  }

  /** A string filed under the key above window index 0 and at most maxDist back is never missed. */
  lemma NearStringIsFound(base: nat, dict: map<int, nat>, key: nat, p: nat, maxDist: int, chain: nat, q: Pos, x: Pos)
    requires p <= 0x1_0000 && chain >= 1 && IsLatest(base, dict, key, q, base + p)
    requires 0 < x < p && p - x <= maxDist && base + x in dict && dict[base + x] == key
    ensures q != NIL && x <= q && CandidatesFor(base, dict, key, p, maxDist, chain) != []
  {
    FiledFromLatest(base, dict, key, 0, q, p, 1);
  }

  /** The string at strstart has just been filed, and head is the last one filed before it under its key;
      an incomplete string is not filed. dict is the dictionary before. */
  ghost predicate HeadFound(s: State, dict: map<int, nat>, head: Pos)
    reads s`strstart, s`lookahead, s`base, s`input, s`dict
  {
    && 8 <= s.hashBits <= 16 && s.base + s.strstart + s.lookahead == |s.input|
    && if s.lookahead < MIN_MATCH then s.dict == dict && head == NIL else
         var key := KeyOf(s.input, s.base + s.strstart, s.hashBits);
         s.dict == dict[s.base + s.strstart := key] && IsLatest(s.base, dict, key, head, s.base + s.strstart)
  }

  /** The hash head may be handed to longest_match if it is near enough. */
  lemma HeadIsCandidate(s: State, dict: map<int, nat>, head: Pos)
    requires HeadFound(s, dict, head) && head != NIL && s.strstart - head <= s.MaxDist()
    ensures s.lookahead >= MIN_MATCH && Candidate(s, head)
  {
  }

  /** What the search for the string at strstart finds among the strings filed in dict, prevLen being
      the length to beat: the plain search over the candidates. */
  ghost function BestIn(s: State, dict: map<int, nat>, prevLen: nat, start: UInt): (r: Best)
    requires s.Shape() && s.Extent()
    ensures r.len > prevLen ==> r.pos < s.strstart
    reads s`strstart, s`lookahead, s`base, s`input, s`written, s`highWater
  {
    if s.lookahead < MIN_MATCH then Best(prevLen, start) else
      var key := KeyOf(s.input, s.base + s.strstart, s.hashBits);
      PickAmong(s.input, s.base, s.base + s.strstart, Max(s), NiceMatch(s),
                CandidatesFor(s.base, dict, key, s.strstart, s.MaxDist(), ChainFor(s, prevLen)), Best(prevLen, start));
      Pick(s.input, s.base, s.base + s.strstart, Max(s), NiceMatch(s),
           CandidatesFor(s.base, dict, key, s.strstart, s.MaxDist(), ChainFor(s, prevLen)), Best(prevLen, start))
  }

  lemma PickAmong(s: seq<byte>, base: nat, b: nat, max: nat, nice: nat, cands: seq<Pos>, best: Best)
    requires b + max <= |s| && forall i :: 0 <= i < |cands| ==> base + cands[i] < b
    ensures var p := Pick(s, base, b, max, nice, cands, best);
      best.len <= p.len && (p.len > best.len ==> base + p.pos < b)
  {
    hide Pick, MatchLen, Lengths;
    PickIsLongest(s, base, b, max, nice, cands, best);
    var p := Pick(s, base, b, max, nice, cands, best);
    if p.len > best.len {
      var n :| Longest(Lengths(s, base, b, max, cands), cands, nice, best.len, p, n);
    }
  }

  /** Searching from the hash head is that search. */
  lemma SearchIsOverFiled(s: State, dict: map<int, nat>, head: Pos, start: UInt)
    requires s.Shape() && s.Extent() && s.ChainsBelow(s.strstart + 1) && HeadFound(s, dict, head)
    requires head != NIL && s.strstart - head <= s.MaxDist()
    ensures Candidate(s, head)
    ensures SearchFrom(s, NiceMatch(s), head, ChainLength(s), Best(s.prevLength, start)) ==
      BestIn(s, dict, s.prevLength, start)
  {
    HeadIsCandidate(s, dict, head);
    hide HashSize, IsLatest, Pick, KeyOf, Filed, HeadsOk, CandidatesFor;
    var key := KeyOf(s.input, s.base + s.strstart, s.hashBits);
    VisitedIsFiled(s.base, s.dict, key, s.strstart + 1, s.prev[..], Limit(s), head, ChainLength(s));
    FiledIgnores(s.base, dict, key, Limit(s), head, ChainLength(s) - 1, s.base + s.strstart, key);
    CandidatesFromHead(s.base, dict, key, s.strstart, s.MaxDist(), ChainLength(s), head);
  }

  lemma CandidatesFromHead(base: nat, dict: map<int, nat>, key: nat, p: nat, maxDist: int, chain: nat, q: Pos)
    requires p <= 0x1_0000 && chain >= 1 && IsLatest(base, dict, key, q, base + p) && q != NIL && p - q <= maxDist
    ensures CandidatesFor(base, dict, key, p, maxDist, chain) ==
      [q] + Filed(base, dict, key, if p > maxDist then p - maxDist else 0, q, chain - 1)
  {
    hide IsLatest;
    FiledFromLatest(base, dict, key, 0, q, p, 1);
    assert Filed(base, dict, key, 0, p, 1) == [q];
  }

  /** Without a hash head near enough there is nothing to find. */
  lemma NothingToFind(s: State, dict: map<int, nat>, head: Pos, prevLen: nat, start: UInt)
    requires s.Shape() && s.Extent() && HeadFound(s, dict, head)
    requires head == NIL || s.strstart - head > s.MaxDist()
    ensures BestIn(s, dict, prevLen, start) == Best(prevLen, start)
  {
    hide HashSize, IsLatest, KeyOf, CandidatesFor;
    if s.lookahead >= MIN_MATCH {
      var key := KeyOf(s.input, s.base + s.strstart, s.hashBits);
      NoCandidates(s.base, dict, key, s.strstart, s.MaxDist(), ChainFor(s, prevLen), head);
    }
  }

  /** longest_match called with the hash head: what it returns is what the plain search finds among the
      strings filed, a true repetition within reach whenever it exceeds prev_length. */
  method FindBest(s: State, ghost dict: map<int, nat>, head: Pos) returns (r: nat)
    requires s.Shape() && s.WindowOk() && s.KeysOk() && s.ChainsBelow(s.strstart + 1) && s.RoomToSearch()
    requires 1 <= s.prevLength <= MAX_MATCH
    requires HeadFound(s, dict, head) && head != NIL && s.strstart - head <= s.MaxDist()
    modifies s`matchStart
    ensures var p := old(BestIn(s, dict, s.prevLength, s.matchStart));
      r == Clip(s, p.len) && (r > s.prevLength ==> s.matchStart == p.pos)
    ensures r <= s.lookahead && r <= MAX_MATCH && (r >= s.prevLength || r == s.lookahead)
    ensures r > s.prevLength ==> s.matchStart < s.strstart && s.strstart - s.matchStart <= s.MaxDist()
    ensures r > s.prevLength ==> Repeats(s.input, s.base + s.strstart, s.strstart - s.matchStart, r)
  {
    hide HashSize, State.Contents, State.KeysOk, State.ChainsBelow, SearchFrom, Repeats, NiceMatch, ChainLength, Candidate,
      BestIn, HeadFound;
    HeadIsCandidate(s, dict, head);
    SearchIsOverFiled(s, dict, head, s.matchStart);
    r := FindMatch(s, head);
  }

  /** If the last string filed under the key of the string at strstart is near enough and begins with the
      same three bytes, a match of at least three bytes is found. */
  lemma RepeatIsFound(s: State, dict: map<int, nat>, q: Pos, start: UInt)
    requires s.Shape() && s.Extent() && s.lookahead >= MIN_MATCH && q != NIL && s.strstart - q <= s.MaxDist()
    requires IsLatest(s.base, dict, KeyOf(s.input, s.base + s.strstart, s.hashBits), q, s.base + s.strstart)
    requires s.input[s.base + q..s.base + q + 3] == s.input[s.base + s.strstart..s.base + s.strstart + 3]
    ensures BestIn(s, dict, MIN_MATCH - 1, start).len >= MIN_MATCH
  {
    hide HashSize, IsLatest, Pick, KeyOf, Filed, MatchLen, Lengths, CandidatesFor;
    var key, b := KeyOf(s.input, s.base + s.strstart, s.hashBits), s.base + s.strstart;
    var chain := ChainFor(s, MIN_MATCH - 1);
    var cands := CandidatesFor(s.base, dict, key, s.strstart, s.MaxDist(), chain);
    CandidatesFromHead(s.base, dict, key, s.strstart, s.MaxDist(), chain, q);
    assert cands[0] == q;
    ThreeAgree(s.input, s.base + q, b, Max(s));
    LengthAt(s.input, s.base, b, Max(s), cands, 0);
    PickIsLongest(s.input, s.base, b, Max(s), NiceMatch(s), cands, Best(MIN_MATCH - 1, start));
    var p := Pick(s.input, s.base, b, Max(s), NiceMatch(s), cands, Best(MIN_MATCH - 1, start));
    var n :| Longest(Lengths(s.input, s.base, b, Max(s), cands), cands, NiceMatch(s), MIN_MATCH - 1, p, n);
  }

  lemma ThreeAgree(s: seq<byte>, a: nat, b: nat, max: nat)
    requires a < b && b + max <= |s| && max >= 3 && s[a..a + 3] == s[b..b + 3]
    ensures MatchLen(s, a, b, max) >= 3
  {
    assert s[a] == s[a..a + 3][0] && s[a + 1] == s[a..a + 3][1] && s[a + 2] == s[a..a + 3][2];
    assert s[b] == s[b..b + 3][0] && s[b + 1] == s[b..b + 3][1] && s[b + 2] == s[b..b + 3][2];
    assert MatchLen(s, a + 2, b + 2, max - 2) >= 1;
    assert MatchLen(s, a + 1, b + 1, max - 1) >= 2;
  }
}
