/** The decoder's reading of a token log: what a literal and a (distance, length)
    copy mean (section 3.2.3 of RFC 1951). The compressor is judged against it. */
module Lz77 {
  import opened Wrappers

  type byte = bv8

  lemma ByteBack(b: byte)
    ensures (b as nat) as byte == b
  {
  }

  lemma NextByte(b: byte)
    requires b != 255
    ensures (b + 1) as nat == b as nat + 1
  {
  }

  /** Every number below 256 is the value of a byte. */
  lemma {:induction false} ByteWithValue(n: nat) returns (b: byte)
    requires n < 256
    ensures b as nat == n
  {
    if n == 0 {
      b := 0;
    } else {
      b := ByteWithValue(n - 1);
      NextByte(b);
      b := b + 1;
    }
  }

  /** A match length less MIN_MATCH survives being logged as a byte. */
  lemma ByteOfLength(n: nat)
    requires n < 256
    ensures (n as byte) as nat == n
  {
    var b := ByteWithValue(n);
    ByteBack(b);
  }

  const MIN_MATCH := 3
  const MAX_MATCH := 258

  datatype Token = Literal(b: byte) | Copy(dist: nat, len: nat)

  /** Appends len bytes, each one dist bytes behind the end of what is there by then
      (so a copy may overlap its own output). */
  function CopyBytes(out: seq<byte>, dist: nat, len: nat): seq<byte>
    requires 1 <= dist <= |out|
    decreases len
  {
    if len == 0 then out else CopyBytes(out + [out[|out| - dist]], dist, len - 1)
  }

  /** The bytes a token sequence stands for; None when a copy reaches back before the start. */
  function Expand(tokens: seq<Token>): Option<seq<byte>>
    decreases |tokens|
  {
    if tokens == [] then Some([]) else
      match Expand(tokens[..|tokens| - 1])
      case None => None
      case Some(out) =>
        match tokens[|tokens| - 1]
        case Literal(b) => Some(out + [b])
        case Copy(dist, len) => if 1 <= dist <= |out| then Some(CopyBytes(out, dist, len)) else None
  }

  /** The len bytes at position p of s repeat the ones dist positions earlier. */
  ghost predicate Repeats(s: seq<byte>, p: nat, dist: nat, len: nat)
  {
    1 <= dist <= p && p + len <= |s| && s[p..p + len] == s[p - dist..p - dist + len]
  }

  lemma RepeatsTail(s: seq<byte>, p: nat, dist: nat, len: nat)
    requires len > 0 && Repeats(s, p, dist, len)
    ensures Repeats(s, p + 1, dist, len - 1)
  {
    assert s[p + 1..p + len] == s[p..p + len][1..];
    assert s[p - dist + 1..p - dist + len] == s[p - dist..p - dist + len][1..];
  }

  lemma RepeatsGrows(s: seq<byte>, s': seq<byte>, p: nat, dist: nat, len: nat)
    requires s <= s' && Repeats(s, p, dist, len)
    ensures Repeats(s', p, dist, len)
  {
    assert s'[p..p + len] == s[p..p + len] && s'[p - dist..p - dist + len] == s[p - dist..p - dist + len];
  }

  lemma {:induction false} CopyReproduces(s: seq<byte>, p: nat, dist: nat, len: nat)
    requires Repeats(s, p, dist, len)
    ensures CopyBytes(s[..p], dist, len) == s[..p + len]
    decreases len
  {
    if len > 0 {
      assert s[p] == s[p..p + len][0] == s[p - dist..p - dist + len][0] == s[p - dist];
      RepeatsTail(s, p, dist, len);
      assert s[..p] + [s[..p][p - dist]] == s[..p + 1];
      CopyReproduces(s, p + 1, dist, len - 1);
    }
  }

  /** Logging the literal s[n] extends an expansion s[..n] by that byte. */
  lemma ExpandLiteral(tokens: seq<Token>, s: seq<byte>, n: nat)
    requires n < |s| && Expand(tokens) == Some(s[..n])
    ensures Expand(tokens + [Literal(s[n])]) == Some(s[..n + 1])
  {
    assert (tokens + [Literal(s[n])])[..|tokens|] == tokens;
    assert s[..n] + [s[n]] == s[..n + 1];
  }

  /** Logging a copy that names a true repetition extends an expansion s[..n] by its length. */
  lemma ExpandCopy(tokens: seq<Token>, s: seq<byte>, n: nat, dist: nat, len: nat)
    requires Repeats(s, n, dist, len) && Expand(tokens) == Some(s[..n])
    ensures Expand(tokens + [Copy(dist, len)]) == Some(s[..n + len])
  {
    assert (tokens + [Copy(dist, len)])[..|tokens|] == tokens;
    CopyReproduces(s, n, dist, len);
  }
}
