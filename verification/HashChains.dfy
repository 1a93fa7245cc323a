/** The match finder's dictionary as a value: head[h] starts the chain of the strings filed
    under key h, and prev, one slot per string of the last window size, continues it. A
    position of the stream is absolute; a table entry q > 0 stands for position base + q.
    The ghost map dict says which positions are filed, and under which key. */
module HashChains {
  import opened Lz77
  import opened RollingHash

  /** ush: an index of the character window. */
  type Pos = n: nat | n < 0x1_0000

  /** Tail of a chain; window index 0 is never matched. */
  const NIL: Pos := 0

  /** str & w_mask for a window index, the window being twice wSize long. */
  function Slot(str: nat, wSize: nat): nat
    requires str < 2 * wSize
  {
    if str < wSize then str else str - wSize
  }

  /** The slot of a window index is str & w_mask, and its remainder by the window size, for each
      window size 1 << bits. */
  lemma SlotIsMasked(str: bv32, bits: nat)
    requires 9 <= bits <= 15
    ensures str as nat < 2 * HashSize(bits) ==>
      Slot(str as nat, HashSize(bits)) == And(str, Mask(bits)) as nat == str as nat % HashSize(bits)
  {
    hide And, Mask, HashSize, Slot, Folded;
    if str as nat < 2 * HashSize(bits) {
      MaskFolds(str, bits);
      SlotIsRemainder(str as nat, HashSize(bits));
    }
  }

  lemma SlotIsRemainder(str: nat, wSize: nat)
    requires str < 2 * wSize
    ensures Slot(str, wSize) == Folded(str, wSize) == str % wSize
  {
    if str >= wSize {
      assert str / wSize == 1;
    }
  }

  /** The key of the string at a. */
  function KeyOf(input: seq<byte>, a: int, bits: nat): nat
    requires 8 <= bits <= 16 && 0 <= a && a + 2 < |input|
  {
    KeyIndex(input[a], input[a + 1], input[a + 2], bits)
  }

  /** String a is complete, and filed under the hash of its three bytes. */
  ghost predicate TrueKey(input: seq<byte>, dict: map<int, nat>, a: int, bits: nat)
    requires 8 <= bits <= 16 && a in dict
  {
    0 <= a && a + 2 < |input| && dict[a] == KeyOf(input, a, bits)
  }

  /** The dictionary once the complete strings from lo to hi have been filed too. */
  ghost function FileAll(dict: map<int, nat>, input: seq<byte>, lo: int, hi: int, bits: nat): map<int, nat>
    requires 8 <= bits <= 16
  {
    dict + map a | lo <= a < hi && 0 <= a && a + 2 < |input| :: KeyOf(input, a, bits)
  }

  lemma FileOne(dict: map<int, nat>, input: seq<byte>, a: nat, bits: nat)
    requires 8 <= bits <= 16
    ensures FileAll(dict, input, a, a + 1, bits) == if a + 2 < |input| then dict[a := KeyOf(input, a, bits)] else dict
  {
    hide KeyOf;
  }

  lemma FileNone(dict: map<int, nat>, input: seq<byte>, a: int, bits: nat)
    requires 8 <= bits <= 16
    ensures FileAll(dict, input, a, a, bits) == dict
  {
  }

  /** Filing some more, possibly after more input has arrived. */
  lemma FileMore(dict: map<int, nat>, input: seq<byte>, input': seq<byte>, lo: int, mid: int, hi: int, bits: nat)
    requires 8 <= bits <= 16 && lo <= mid <= hi && input <= input'
    requires input == input' || lo == mid || mid + 1 < |input|
    ensures FileAll(FileAll(dict, input, lo, mid, bits), input', mid, hi, bits) == FileAll(dict, input', lo, hi, bits)
  {
    hide KeyOf;
    if input == input' {
      FileMoreSame(dict, input, lo, mid, hi, bits);
    } else if lo == mid {
      FileNone(dict, input, lo, bits);
    } else {
      FiledEarlier(dict, input, input', lo, mid, bits);
      FileMoreSame(dict, input', lo, mid, hi, bits);
    }
  }

  lemma FileMoreSame(dict: map<int, nat>, input: seq<byte>, lo: int, mid: int, hi: int, bits: nat)
    requires 8 <= bits <= 16 && lo <= mid <= hi
    ensures FileAll(FileAll(dict, input, lo, mid, bits), input, mid, hi, bits) == FileAll(dict, input, lo, hi, bits)
  {
    hide KeyOf;
  }

  /** Complete strings have the same keys when more input has arrived. */
  lemma FiledEarlier(dict: map<int, nat>, input: seq<byte>, input': seq<byte>, lo: int, mid: int, bits: nat)
    requires 8 <= bits <= 16 && input <= input' && mid + 1 < |input|
    ensures FileAll(dict, input, lo, mid, bits) == FileAll(dict, input', lo, mid, bits)
  {
    hide KeyOf;
    forall a | 0 <= a && a + 2 < |input| ensures KeyOf(input, a, bits) == KeyOf(input', a, bits) {
      SameKey(input, input', a, bits);
    }
  }

  lemma SameKey(input: seq<byte>, input': seq<byte>, a: nat, bits: nat)
    requires 8 <= bits <= 16 && a + 2 < |input| && input <= input'
    ensures KeyOf(input, a, bits) == KeyOf(input', a, bits)
  {
    hide KeyIndex;
  }

  ghost predicate KeysTrue(input: seq<byte>, dict: map<int, nat>, bits: nat)
    requires 8 <= bits <= 16
  {
    forall a {:trigger TrueKey(input, dict, a, bits)} :: a in dict ==> TrueKey(input, dict, a, bits)
  }

  lemma GrowKeepsKeys(input: seq<byte>, more: seq<byte>, dict: map<int, nat>, bits: nat)
    requires 8 <= bits <= 16 && KeysTrue(input, dict, bits)
    ensures KeysTrue(input + more, dict, bits)
  {
    forall a | a in dict ensures TrueKey(input + more, dict, a, bits) {
      assert TrueKey(input, dict, a, bits);
    }
  }

  lemma InsertKeepsKeys(input: seq<byte>, dict: map<int, nat>, bits: nat, a: nat)
    requires 8 <= bits <= 16 && KeysTrue(input, dict, bits) && a + 2 < |input|
    ensures KeysTrue(input, dict[a := KeyOf(input, a, bits)], bits)
  {
    var dict' := dict[a := KeyOf(input, a, bits)];
    forall x | x in dict' ensures TrueKey(input, dict', x, bits) {
      assert x in dict ==> TrueKey(input, dict, x, bits);
    }
  }

  /** No string strictly between lo and hi is filed under the key. */
  ghost predicate NoneBetween(dict: map<int, nat>, key: nat, lo: int, hi: int)
  {
    forall x {:trigger x in dict} :: lo < x < hi && x in dict ==> dict[x] != key
  }

  /** Among the strings before hi, q is the last one filed under the key; NIL if there is none at a
      window index above 0. */
  ghost predicate IsLatest(base: nat, dict: map<int, nat>, key: nat, q: Pos, hi: int)
  {
    && (q != NIL ==> base + q < hi && base + q in dict && dict[base + q] == key)
    && NoneBetween(dict, key, base + q, hi)
  }

  /** q links the filed string a to the last string before it with the same key. */
  ghost predicate LinkOk(base: nat, dict: map<int, nat>, q: Pos, a: int)
  {
    a in dict ==> IsLatest(base, dict, dict[a], q, a)
  }

  /** Every chain starts with the last string filed under its key. */
  ghost predicate HeadsOk(base: nat, dict: map<int, nat>, top: int, head: seq<Pos>)
  {
    forall h :: 0 <= h < |head| ==> IsLatest(base, dict, h, head[h], base + top)
  }

  /** Every filed string whose slot has not been reused (it lies less than |prev| before top) is
      linked. The slots of strings never filed are garbage. */
  ghost predicate LinksOk(base: nat, dict: map<int, nat>, top: int, prev: seq<Pos>)
  {
    forall p: nat {:trigger Slot(p, |prev|)} :: top - |prev| <= p < top <= 2 * |prev| ==>
      LinkOk(base, dict, prev[Slot(p, |prev|)], base + p)
  }

  /** The chain invariant; top bounds the window indices filed. */
  ghost predicate ChainsOk(base: nat, dict: map<int, nat>, top: int, head: seq<Pos>, prev: seq<Pos>)
  {
    && top <= 2 * |prev|
    && (forall a :: a in dict ==> a < base + top)
    && HeadsOk(base, dict, top, head)
    && LinksOk(base, dict, top, prev)
  }

  /** INSERT_STRING keeps the invariant: it overwrites the slot of a string that is |prev| back
      and files str at the front of its chain, behind the last string filed there before. */
  lemma InsertKeepsChains(base: nat, dict: map<int, nat>, top: int, head: seq<Pos>, prev: seq<Pos>,
                          str: Pos, key: nat)
    requires ChainsOk(base, dict, top, head, prev)
    requires 0 <= top <= str < 2 * |prev| && key < |head|
    ensures ChainsOk(base, dict[base + str := key], str + 1,
                     head[key := str], prev[Slot(str, |prev|) := head[key]])
    ensures LinkOk(base, dict[base + str := key], head[key], base + str)
    ensures IsLatest(base, dict, key, head[key], base + str)
  {
    hide IsLatest;
    var dict', head' := dict[base + str := key], head[key := str];
    var prev' := prev[Slot(str, |prev|) := head[key]];
    forall h | 0 <= h < |head| ensures IsLatest(base, dict', h, head'[h], base + str + 1) {
      LatestAfterInsert(base, dict, top, str, key, h, head[h]);
    }
    LatestStays(base, dict, key, head[key], base + top, base + str);
    LatestIgnores(base, dict, key, head[key], base + str, base + str, key);
    forall p: nat | str + 1 - |prev| <= p < str + 1
      ensures LinkOk(base, dict', prev'[Slot(p, |prev|)], base + p)
    {
      if p < str && base + p in dict' {
        assert LinkOk(base, dict, prev[Slot(p, |prev|)], base + p);
        LatestIgnores(base, dict, dict[base + p], prev[Slot(p, |prev|)], base + p, base + str, key);
      }
    }
  }

  /** Strings from hi on do not matter to the last one before hi. */
  lemma LatestIgnores(base: nat, dict: map<int, nat>, key: nat, q: Pos, hi: int, a: int, k: nat)
    requires IsLatest(base, dict, key, q, hi) && a >= hi
    ensures IsLatest(base, dict[a := k], key, q, hi)
  {
  }

  /** Nor does hi matter where nothing is filed. */
  lemma LatestStays(base: nat, dict: map<int, nat>, key: nat, q: Pos, hi: int, hi': int)
    requires IsLatest(base, dict, key, q, hi) && hi <= hi' && forall x :: x in dict ==> x < hi
    ensures IsLatest(base, dict, key, q, hi')
  {
  }

  lemma LatestAfterInsert(base: nat, dict: map<int, nat>, top: int, str: Pos, key: nat, h: nat, q: Pos)
    requires IsLatest(base, dict, h, q, base + top) && top <= str && forall x :: x in dict ==> x < base + top
    ensures IsLatest(base, dict[base + str := key], h, if h == key then str else q, base + str + 1)
  {
  }

  /** The entry slide_hash leaves for m. */
  function Slid(m: Pos, wSize: nat): Pos
  {
    if m >= wSize then m - wSize else NIL
  }

  /** slide_hash keeps the invariant when the window moves by its size; a chain entry at
      exactly wSize is cut off, because it becomes NIL. */
  lemma SlideKeepsChains(base: nat, dict: map<int, nat>, top: int, head: seq<Pos>, prev: seq<Pos>,
                         head': seq<Pos>, prev': seq<Pos>)
    requires ChainsOk(base, dict, top, head, prev)
    requires |head'| == |head| && forall h :: 0 <= h < |head| ==> head'[h] == Slid(head[h], |prev|)
    requires |prev'| == |prev| && forall i :: 0 <= i < |prev| ==> prev'[i] == Slid(prev[i], |prev|)
    ensures ChainsOk(base + |prev|, dict, top - |prev|, head', prev')
  {
    hide IsLatest, Slid;
    var w := |prev|;
    forall h | 0 <= h < |head| ensures IsLatest(base + w, dict, h, head'[h], base + top) {
      SlidLatest(base, dict, h, head[h], base + top, w);
    }
    forall p: nat | top - w - w <= p < top - w
      ensures LinkOk(base + w, dict, prev'[Slot(p, w)], base + w + p)
    {
      assert LinkOk(base, dict, prev[Slot(p + w, w)], base + (p + w));
      if base + w + p in dict {
        SlidLatest(base, dict, dict[base + w + p], prev[Slot(p + w, w)], base + w + p, w);
      }
    }
  }

  lemma SlidLatest(base: nat, dict: map<int, nat>, key: nat, q: Pos, hi: int, w: nat)
    requires IsLatest(base, dict, key, q, hi)
    ensures IsLatest(base + w, dict, key, Slid(q, w), hi)
  {
  }

  /** Moving top forward leaves the invariant alone. */
  lemma AdvanceKeepsChains(base: nat, dict: map<int, nat>, top: int, top': int, head: seq<Pos>, prev: seq<Pos>)
    requires ChainsOk(base, dict, top, head, prev) && top <= top' <= 2 * |prev|
    ensures ChainsOk(base, dict, top', head, prev)
  {
    hide IsLatest;
    forall h | 0 <= h < |head| ensures IsLatest(base, dict, h, head[h], base + top') {
      LatestStays(base, dict, h, head[h], base + top, base + top');
    }
  }

  /** CLEAR_HASH forgets every string, whatever prev holds. */
  lemma ClearedChains(base: nat, top: int, head: seq<Pos>, prev: seq<Pos>)
    requires top <= 2 * |prev| && forall h :: 0 <= h < |head| ==> head[h] == NIL
    ensures ChainsOk(base, map[], top, head, prev)
  {
  }
}
