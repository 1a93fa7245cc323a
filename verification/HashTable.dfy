/** The macros INSERT_STRING and CLEAR_HASH, and slide_hash. */
module HashTable {
  import opened RollingHash
  import opened HashChains
  import opened DeflateState

  /** UPDATE_HASH with the third byte of the string at str yields its key, in range. */
  method UpdateHash(s: State, str: nat) returns (key: nat)
    requires s.Shape() && s.WindowOk() && str + 2 < s.strstart + s.lookahead
    requires CoversAt(s.insH, s.input, s.base + str, s.hashBits)
    modifies s`insH
    ensures key < s.head.Length
    ensures key == KeyOf(s.input, s.base + str, s.hashBits)
    ensures CoversAt(s.insH, s.input, s.base + str + 1, s.hashBits)
  {
    hide CoversAt, Update, KeyIndex, State.Contents;
    WindowByte(s, str + 2);
    InsertCovers(s.insH, s.input, s.base + str, s.hashBits);
    s.insH := Update(s.insH, s.window[str + 2], s.hashBits);
    key := s.insH as nat;
  }

  /** Files the string at str and returns the last string filed before it under the same key; NIL if
      there is none above window index 0. */
  method InsertString(s: State, ghost top: int, str: nat) returns (matchHead: Pos)
    requires s.Shape() && s.WindowOk() && s.KeysOk() && s.ChainsBelow(top)
    requires 0 <= top <= str && str + 2 < s.strstart + s.lookahead
    requires CoversAt(s.insH, s.input, s.base + str, s.hashBits)
    modifies s`insH, s`dict, s.prev, s.head
    ensures s.KeysOk() && s.ChainsBelow(str + 1)
    ensures CoversAt(s.insH, s.input, s.base + str + 1, s.hashBits)
    ensures s.dict == old(s.dict)[s.base + str := KeyOf(s.input, s.base + str, s.hashBits)]
    ensures IsLatest(s.base, old(s.dict), KeyOf(s.input, s.base + str, s.hashBits), matchHead, s.base + str)
  {
    hide CoversAt, KeyOf, State.Contents, IsLatest;
    var key := UpdateHash(s, str);
    matchHead := FileString(s, top, str, key);
  }

  method FileString(s: State, ghost top: int, str: nat, key: nat) returns (matchHead: Pos)
    requires s.Shape() && s.WindowOk() && s.KeysOk() && s.ChainsBelow(top)
    requires 0 <= top <= str && str + 2 < s.strstart + s.lookahead
    requires key < s.head.Length
    requires key == KeyOf(s.input, s.base + str, s.hashBits)
    modifies s`dict, s.prev, s.head
    ensures s.KeysOk() && s.ChainsBelow(str + 1)
    ensures s.dict == old(s.dict)[s.base + str := KeyOf(s.input, s.base + str, s.hashBits)]
    ensures IsLatest(s.base, old(s.dict), KeyOf(s.input, s.base + str, s.hashBits), matchHead, s.base + str)
  {
    hide KeyIndex, State.Contents, IsLatest;
    var pos: Pos := str;
    ghost var head0, prev0 := s.head[..], s.prev[..];
    InsertKeepsKeys(s.input, s.dict, s.hashBits, s.base + str);
    InsertKeepsChains(s.base, s.dict, top, head0, prev0, pos, key);
    matchHead := s.head[key];
    s.prev[Slot(str, s.wSize)] := matchHead;
    s.head[key] := pos;
    s.dict := s.dict[s.base + str := key];
    assert s.head[..] == head0[key := pos];
    assert s.prev[..] == prev0[Slot(str, s.wSize) := matchHead];
  }

  /** One of the two loops of slide_hash, from the end of the table down. */
  method SlideTable(table: array<Pos>, wSize: nat)
    modifies table
    ensures forall i :: 0 <= i < table.Length ==> table[i] == Slid(old(table[i]), wSize)
  {
    var n := table.Length;
    while n != 0
      invariant 0 <= n <= table.Length
      invariant forall i :: 0 <= i < n ==> table[i] == old(table[i])
      invariant forall i :: n <= i < table.Length ==> table[i] == Slid(old(table[i]), wSize)
    {
      n := n - 1;
      var m := table[n];
      table[n] := if m >= wSize then m - wSize else NIL;
    }
  }

  /** slide_hash, together with the move of the window's origin that it belongs to. */
  method SlideHash(s: State, ghost top: int)
    requires s.Shape() && s.KeysOk() && s.ChainsBelow(top)
    modifies s`base, s.prev, s.head
    ensures s.base == old(s.base) + s.wSize && s.KeysOk() && s.ChainsBelow(top - s.wSize)
  {
    ghost var head0, prev0 := s.head[..], s.prev[..];
    SlideTable(s.head, s.wSize);
    SlideTable(s.prev, s.wSize);
    SlideKeepsChains(s.base, s.dict, top, head0, prev0, s.head[..], s.prev[..]);
    s.base := s.base + s.wSize;
  }

  /** CLEAR_HASH: zmemzero on all but the last entry, which is set first. */
  method ClearHash(s: State, ghost top: int)
    requires s.Shape() && top <= 2 * s.wSize
    modifies s`dict, s.head
    ensures s.dict == map[] && s.KeysOk() && s.ChainsBelow(top)
    ensures forall h :: 0 <= h < s.head.Length ==> s.head[h] == NIL
  {
    s.head[s.head.Length - 1] := NIL;
    forall h | 0 <= h < s.head.Length - 1 {
      s.head[h] := NIL;
    }
    s.dict := map[];
    ClearedChains(s.base, top, s.head[..], s.prev[..]);
  }
}
