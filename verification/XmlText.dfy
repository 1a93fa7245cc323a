/** TinyXML's escaping of text and its reading back, outside UTF-8 mode. A text to read is what comes
    before the terminating NUL. */
module XmlText {
  import opened Bytes
  import opened Wrappers

  const QUOT: Byte := 34
  const HASH: Byte := 35
  const AMP: Byte := 38
  const APOS: Byte := 39
  const SEMI: Byte := 59
  const LT: Byte := 60
  const GT: Byte := 62
  const X: Byte := 120
  const AMP_TEXT: Text := [38, 97, 109, 112, 59]             // &amp;
  const LT_TEXT: Text := [38, 108, 116, 59]                  // &lt;
  const GT_TEXT: Text := [38, 103, 116, 59]                  // &gt;
  const QUOT_TEXT: Text := [38, 113, 117, 111, 116, 59]      // &quot;
  const APOS_TEXT: Text := [38, 97, 112, 111, 115, 59]       // &apos;
  const WORD := 0x1_0000_0000
  const LONG := 0x1_0000_0000_0000_0000

  // ---------- escaping ----------

  /** A hexadecimal character reference, or what looks like the beginning of one. */
  predicate HexRef(s: Text)
  {
    |s| > 2 && s[0] == AMP && s[1] == HASH && s[2] == X
  }

  function HexUpper(n: nat): Byte
    requires n < 16
  {
    if n < 10 then 48 + n else 55 + n
  }

  function EscapeByte(c: Byte): (r: Text)
    ensures |r| > 0
  {
    if c == AMP then AMP_TEXT
    else if c == LT then LT_TEXT
    else if c == GT then GT_TEXT
    else if c == QUOT then QUOT_TEXT
    else if c == APOS then APOS_TEXT
    else if c < 32 then [AMP, HASH, X, HexUpper(c / 16), HexUpper(c % 16), SEMI]
    else [c]
  }

  /** How many bytes of s are copied as they are: up to the semicolon, or all but the last. */
  function Passed(s: Text): (n: nat)
    ensures |s| > 0 ==> n < |s|
    ensures |s| > 2 && s[1] != SEMI ==> n >= 2
  {
    if |s| <= 1 then 0
    else if s[1] == SEMI then 1
    else 1 + Passed(s[1..])
  }

  function Encoded(s: Text): Text
    decreases |s|
  {
    if s == [] then []
    else if HexRef(s) then s[..Passed(s)] + Encoded(s[Passed(s)..])
    else EscapeByte(s[0]) + Encoded(s[1..])
  }

  lemma EncodedStep(s: Text, i: nat, r: Text)
    requires i < |s|
    ensures var u := s[i..]; var n := Passed(u);
      r + Encoded(u) ==
        if HexRef(u) then r + s[i..i + n] + Encoded(s[i + n..]) else r + EscapeByte(s[i]) + Encoded(s[i + 1..])
  {
    hide Passed, EscapeByte;
    var u, n := s[i..], Passed(s[i..]);
    assert u[..n] == s[i..i + n] && u[n..] == s[i + n..] && u[1..] == s[i + 1..];
  }

  method EncodeString(str: Text, out: Text) returns (r: Text)
    ensures r == out + Encoded(str)
  {
    hide Encoded, Passed, EscapeByte;
    r := out;
    var i := 0;
    assert str[0..] == str;
    while i < |str|
      invariant i <= |str| && r + Encoded(str[i..]) == out + Encoded(str)
      decreases |str| - i
    {
      EncodedStep(str, i, r);
      var c := str[i];
      if c == AMP && i < |str| - 2 && str[i + 1] == HASH && str[i + 2] == X {
        r, i := PassThrough(str, i, r);
      } else {
        r := r + EscapeByte(c);
        i := i + 1;
      }
    }
    assert r + Encoded(str[|str|..]) == r by { EncodedEnd(str, r); }
  }

  lemma EncodedEnd(s: Text, r: Text)
    ensures r + Encoded(s[|s|..]) == r
  {
  }

  /** The inner loop. */
  method PassThrough(str: Text, start: nat, out: Text) returns (r: Text, i: nat)
    requires start < |str|
    ensures i == start + Passed(str[start..]) && r == out + str[start..i]
  {
    r, i := out, start;
    while i < |str| - 1
      invariant start <= i < |str| && r == out + str[start..i]
      invariant i - start + Passed(str[i..]) == Passed(str[start..])
      decreases |str| - i
    {
      assert str[i..][1..] == str[i + 1..];
      r := r + [str[i]];
      i := i + 1;
      if str[i] == SEMI { break; }
    }
  }

  // ---------- reading ----------

  /** The bytes one step of reading yields and the text after it; NoChar is the null pointer. */
  datatype Char = NoChar | Char(value: Text, rest: Text)

  const ENTITIES: seq<(Text, Byte)> :=
    [(AMP_TEXT, AMP), (LT_TEXT, LT), (GT_TEXT, GT), (QUOT_TEXT, QUOT), (APOS_TEXT, APOS)]

  /** strchr: the first place of c from i on, the end of the text when there is none. */
  function Find(t: Text, i: nat, c: Byte): (r: nat)
    requires i <= |t|
    ensures i <= r <= |t| && (r < |t| ==> t[r] == c) && (forall j :: i <= j < r ==> t[j] != c)
    decreases |t| - i
  {
    if i == |t| || t[i] == c then i else Find(t, i + 1, c)
  }

  /** The digit a byte stands for in base 16 or 10, -1 if none. */
  function DigitOf(base: nat, c: Byte): (r: int)
    ensures -1 <= r < 16
  {
    if 48 <= c <= 57 then c - 48
    else if base == 16 && 97 <= c <= 102 then c - 87
    else if base == 16 && 65 <= c <= 70 then c - 55
    else -1
  }

  /** The digits up to place q, read backwards as far as the stop byte, which is at place low at the
      latest. The widths are the source's: weight and products have 32 bits, the sum 64. */
  function Backward(t: Text, low: nat, q: nat, base: nat, ucs: nat, mult: nat): Option<nat>
    requires low <= q < |t|
    decreases q
  {
    if t[q] == t[low] then Some(ucs)
    else if DigitOf(base, t[q]) == -1 then None
    else Backward(t, low, q - 1, base, (ucs + mult * DigitOf(base, t[q]) % WORD) % LONG, mult * base % WORD)
  }

  /** A character reference: the byte is the low one of the number between t[low] and the semicolon. */
  function Reference(t: Text, low: nat, base: nat): (r: Char)
    requires low + 1 < |t|
    ensures r.Char? ==> |r.rest| < |t| && |r.value| == 1
  {
    var q := Find(t, low + 1, SEMI);
    if q == |t| then NoChar
    else
      match Backward(t, low, q - 1, base, 0, 1)
      case None => NoChar
      case Some(ucs) => Char([ucs % 256], t[q + 1..])
  }

  /** The named entities from the i-th on. The byte of an unrecognized one is dropped. */
  function Named(t: Text, i: nat): (r: Char)
    requires t != [] && i <= |ENTITIES|
    ensures r.Char? && |r.rest| < |t| && |r.value| <= 1
    decreases |ENTITIES| - i
  {
    if i == |ENTITIES| then Char([], t[1..])
    else if ENTITIES[i].0 <= t then Char([ENTITIES[i].1], t[|ENTITIES[i].0|..])
    else Named(t, i + 1)
  }

  function Entity(t: Text): (r: Char)
    requires t != []
    ensures r.Char? ==> |r.rest| < |t| && |r.value| <= 1
  {
    if |t| > 2 && t[1] == HASH then
      if t[2] == X then (if |t| == 3 then NoChar else Reference(t, 2, 16)) else Reference(t, 1, 10)
    else Named(t, 0)
  }

  function NextChar(t: Text): (r: Char)
    requires t != []
    ensures r.Char? ==> |r.rest| < |t| && |r.value| <= 1
  {
    if t[0] == AMP then Entity(t) else Char([t[0]], t[1..])
  }

  /** Text with trimming off, up to the end tag: what was read, after acc, and what comes after the
      tag. None is the null pointer, also when nothing comes after the tag. */
  function Read(t: Text, end: Text, acc: Text): Option<(Text, Text)>
    decreases |t|
  {
    if t == [] then None
    else if end <= t then (if t == end then None else Some((acc, t[|end|..])))
    else
      match NextChar(t)
      case NoChar => None
      case Char(value, rest) => Read(rest, end, acc + value)
  }

  // ---------- the reader ----------

  /** The pointer into the text, and the bytes read. */
  datatype Step = Step(p: Option<nat>, value: Text)

  /** strchr, then the loop back from the semicolon. */
  method ReadReference(text: Text, p: nat, low: nat, base: nat) returns (r: Step)
    requires p + low + 1 < |text|
    ensures Agrees(text, r, Reference(text[p..], low, base))
  {
    hide Find, Backward;
    ghost var t := text[p..];
    var q := Strchr(text, p, low + 1, SEMI);
    if q == |text| { return Step(None, []); }
    var delta := q - p;
    q := q - 1;
    var ucs: nat, mult: nat := 0, 1;
    assert text[q] == t[q - p] && text[p + low] == t[low];
    while text[q] != text[p + low]
      invariant p + low <= q < |text|
      invariant Backward(t, low, q - p, base, ucs, mult) == Backward(t, low, delta - 1, base, 0, 1)
      decreases q
    {
      BackStep(t, low, q - p, base, ucs, mult);
      assert text[q] == t[q - p];
      var digit := DigitOf(base, text[q]);
      if digit == -1 { return Step(None, []); }
      ucs := (ucs + mult * digit % WORD) % LONG;
      mult := mult * base % WORD;
      q := q - 1;
    }
    BackStep(t, low, q - p, base, ucs, mult);
    return Step(Some(p + delta + 1), [ucs % 256]);
  }

  ghost predicate Agrees(text: Text, r: Step, c: Char)
  {
    match r.p
    case None => c.NoChar?
    case Some(p) => p <= |text| && c == Char(r.value, text[p..])
  }

  lemma BackStep(t: Text, low: nat, q: nat, base: nat, ucs: nat, mult: nat)
    requires low <= q < |t|
    ensures Backward(t, low, q, base, ucs, mult) ==
      if t[q] == t[low] then Some(ucs)
      else if DigitOf(base, t[q]) == -1 then None
      else Backward(t, low, q - 1, base, (ucs + mult * DigitOf(base, t[q]) % WORD) % LONG, mult * base % WORD)
  {
  }

  method Strchr(text: Text, p: nat, from: nat, c: Byte) returns (q: nat)
    requires p + from <= |text|
    ensures q == p + Find(text[p..], from, c)
  {
    q := p + from;
    while q < |text| && text[q] != c
      invariant p + from <= q <= |text| && Find(text[p..], q - p, c) == Find(text[p..], from, c)
    {
      q := q + 1;
    }
  }

  method GetEntity(text: Text, p: nat) returns (r: Step)
    requires p < |text| && text[p] == AMP
    ensures Agrees(text, r, Entity(text[p..]))
  {
    hide Reference, Named;
    ghost var t := text[p..];
    if p + 2 < |text| && text[p + 1] == HASH {
      if text[p + 2] == X {
        if p + 3 == |text| { return Step(None, []); }
        r := ReadReference(text, p, 2, 16);
      } else {
        r := ReadReference(text, p, 1, 10);
      }
      return;
    }
    var i := 0;
    while i < |ENTITIES|
      invariant i <= |ENTITIES| && Named(t, i) == Named(t, 0)
    {
      NamedStep(t, i);
      var name := ENTITIES[i].0;
      if name <= text[p..] {
        assert t[|name|..] == text[p + |name|..];
        return Step(Some(p + |name|), [ENTITIES[i].1]);
      }
      i := i + 1;
    }
    NamedStep(t, i);
    assert t[1..] == text[p + 1..];
    return Step(Some(p + 1), []);
  }

  lemma NamedStep(t: Text, i: nat)
    requires t != [] && i <= |ENTITIES|
    ensures i == |ENTITIES| ==> Named(t, i) == Char([], t[1..])
    ensures i < |ENTITIES| ==>
      Named(t, i) == if ENTITIES[i].0 <= t then Char([ENTITIES[i].1], t[|ENTITIES[i].0|..]) else Named(t, i + 1)
  {
  }

  method GetChar(text: Text, p: nat) returns (r: Step)
    requires p < |text|
    ensures Agrees(text, r, NextChar(text[p..]))
  {
    hide Entity;
    if text[p] == AMP {
      r := GetEntity(text, p);
    } else {
      assert text[p..][1..] == text[p + 1..];
      r := Step(Some(p + 1), [text[p]]);
    }
  }

  /** ReadText. The result is the pointer past the end tag, null on failure or at the end. */
  method ReadText(text: Text, start: nat, end: Text) returns (p: Option<nat>, value: Text)
    requires start <= |text|
    ensures p.Some? ==> p.value <= |text|
    ensures Read(text[start..], end, []) == if p.Some? then Some((value, text[p.value..])) else None
  {
    hide NextChar, Read;
    value := [];
    p := Some(start);
    while p.Some? && p.value < |text| && !(end <= text[p.value..])
      invariant p.Some? ==> p.value <= |text|
      invariant Read(text[start..], end, []) == if p.Some? then Read(text[p.value..], end, value) else None
      decreases if p.Some? then 1 + |text| - p.value else 0
    {
      ReadStep(text[p.value..], end, value);
      var r := GetChar(text, p.value);
      p := r.p;
      value := value + r.value;
    }
    if p.Some? {
      ReadStep(text[p.value..], end, value);
      if p.value < |text| {
        assert text[p.value..][|end|..] == text[p.value + |end|..];
        p := Some(p.value + |end|);
      }
      if p.value == |text| { p := None; }
    }
  }

  lemma ReadStep(t: Text, end: Text, acc: Text)
    ensures Read(t, end, acc) ==
      if t == [] then None
      else if end <= t then (if t == end then None else Some((acc, t[|end|..])))
      else if NextChar(t).NoChar? then None
      else Read(NextChar(t).rest, end, acc + NextChar(t).value)
  {
  }

  // ---------- the round trip ----------

  /** Somewhere in s there is something that looks like a hexadecimal reference. */
  predicate HasHexRef(s: Text)
  {
    s != [] && (HexRef(s) || HasHexRef(s[1..]))
  }

  /** The end tags of attribute values and of text. */
  predicate EndByte(q: Byte)
  {
    q in {LT, GT, QUOT, APOS}
  }

  lemma HexUpperValue(n: nat)
    requires n < 16
    ensures DigitOf(16, HexUpper(n)) == n && HexUpper(n) != X && HexUpper(n) != SEMI
  {
  }

  lemma ControlSemicolon(c: Byte, t: Text)
    requires c < 32
    ensures Find(EscapeByte(c) + t, 3, SEMI) == 5
  {
    var u := EscapeByte(c) + t;
    HexUpperValue(c / 16);
    HexUpperValue(c % 16);
    assert u[3] == HexUpper(c / 16) && u[4] == HexUpper(c % 16) && u[5] == SEMI;
    hide HexUpper;
  }

  /** Two digits between the x and the semicolon. */
  lemma TwoDigits(u: Text, a: nat, b: nat)
    requires |u| > 5 && u[2] == X && u[3] != X && u[4] != X && Find(u, 3, SEMI) == 5 && a < 16 && b < 16
    requires DigitOf(16, u[3]) == a && DigitOf(16, u[4]) == b
    ensures Reference(u, 2, 16) == Char([a * 16 + b], u[6..])
  {
    hide Find, DigitOf, Backward;
    BackStep(u, 2, 4, 16, 0, 1);
    BackStep(u, 2, 3, 16, b, 16);
    BackStep(u, 2, 2, 16, b + 16 * a, 256);
  }

  /** The reference written for a control byte is read as that byte. */
  lemma ControlRead(c: Byte, t: Text)
    requires c < 32
    ensures NextChar(EscapeByte(c) + t) == Char([c], t)
  {
    var u := EscapeByte(c) + t;
    HexUpperValue(c / 16);
    HexUpperValue(c % 16);
    ControlSemicolon(c, t);
    hide HexUpper, DigitOf, Find;
    assert u[3] == HexUpper(c / 16) && u[4] == HexUpper(c % 16);
    TwoDigits(u, c / 16, c % 16);
    assert u[6..] == t;
    hide Reference;
  }

  lemma NameRead(c: Byte, t: Text)
    requires c in {AMP, LT, GT, QUOT, APOS}
    ensures NextChar(EscapeByte(c) + t) == Char([c], t)
  {
    var i := if c == AMP then 0 else if c == LT then 1 else if c == GT then 2 else if c == QUOT then 3 else 4;
    var u := EscapeByte(c) + t;
    assert ENTITIES[i] == (EscapeByte(c), c);
    assert u[|EscapeByte(c)|..] == t;
    assert u[1] != HASH;
    NamedFound(u, i);
  }

  lemma NamedFound(u: Text, i: nat)
    requires u != [] && i < |ENTITIES| && ENTITIES[i].0 <= u
    ensures Named(u, 0) == Char([ENTITIES[i].1], u[|ENTITIES[i].0|..])
  {
    var e := ENTITIES[i].0;
    assert u[1] == e[1] && u[2] == e[2];
  }

  /** Every escaped byte is read as the byte, and shows the reader no end tag. */
  lemma EscapeRead(c: Byte, q: Byte, t: Text, acc: Text)
    requires EndByte(q)
    ensures Read(EscapeByte(c) + t, [q], acc) == Read(t, [q], acc + [c])
  {
    hide Entity, HexUpper;
    var u := EscapeByte(c) + t;
    assert u[0] != q;
    if c < 32 {
      ControlRead(c, t);
    } else if c in {AMP, LT, GT, QUOT, APOS} {
      NameRead(c, t);
    } else {
      assert u[1..] == t;
    }
    hide NextChar, EscapeByte;
  }

  /** Without such a place, reading gives back what was escaped, from the first byte to the last. */
  lemma {:induction false} PlainRoundTrip(v: Text, q: Byte, r: Text, acc: Text)
    requires EndByte(q) && !HasHexRef(v)
    ensures Read(Encoded(v) + ([q] + r), [q], acc) == if r == [] then None else Some((acc + v, r))
    decreases |v|
  {
    hide EscapeByte, NextChar;
    if v == [] {
      assert Encoded(v) + ([q] + r) == [q] + r && acc + v == acc;
      assert [q] <= [q] + r && ([q] + r)[1..] == r;
    } else {
      var rest := Encoded(v[1..]) + ([q] + r);
      assert Encoded(v) + ([q] + r) == EscapeByte(v[0]) + rest;
      EscapeRead(v[0], q, rest, acc);
      PlainRoundTrip(v[1..], q, r, acc + [v[0]]);
      assert acc + v == acc + [v[0]] + v[1..];
    }
  }

  lemma {:induction false} PassedUpTo(s: Text)
    requires |s| > 1
    ensures var n := Passed(s);
      && 0 < n < |s| && (s[n] == SEMI || n == |s| - 1) && forall k :: 0 < k < n ==> s[k] != SEMI
  {
    if s[1] != SEMI && |s| > 2 {
      PassedUpTo(s[1..]);
      forall k | 0 < k < Passed(s) ensures s[k] != SEMI {
        if k > 1 { assert s[1..][k - 1] == s[k]; }
      }
    }
  }

  /** What reading a hexadecimal reference can come to. */
  lemma RefStep(t: Text)
    requires HexRef(t) && |t| > 3
    ensures NextChar(t).NoChar? ||
      var j := Find(t, 3, SEMI); j < |t| && NextChar(t).rest == t[j + 1..] && |NextChar(t).value| == 1
  {
    hide Find, Backward;
  }

  lemma {:induction false} ReadShrinks(t: Text, end: Text, acc: Text)
    ensures Read(t, end, acc).Some? ==> |Read(t, end, acc).value.1| <= |t|
    decreases |t|
  {
    hide NextChar;
    if t != [] && !(end <= t) && NextChar(t).Char? {
      ReadShrinks(NextChar(t).rest, end, acc + NextChar(t).value);
    }
  }

  /** What reading escaped text can come to: failure, going past the end tag, or stopping at it with
      at most as many bytes as were escaped; with fewer when a reference-like place was among them. */
  ghost predicate FallsShort(read: Option<(Text, Text)>, most: int, r: Text)
  {
    read == None || |read.value.1| < |r| || (read.value.1 == r && |read.value.0| <= most)
  }

  lemma {:induction false} ReadFallsShort(v: Text, q: Byte, r: Text, acc: Text)
    requires EndByte(q)
    ensures FallsShort(Read(Encoded(v) + ([q] + r), [q], acc), |acc| + |v| - (if HasHexRef(v) then 1 else 0), r)
    decreases |v|
  {
    hide EscapeByte, NextChar, Passed, Read, HexRef;
    if !HasHexRef(v) {
      PlainRoundTrip(v, q, r, acc);
    } else if !HexRef(v) {
      var rest := Encoded(v[1..]) + ([q] + r);
      assert Encoded(v) == EscapeByte(v[0]) + Encoded(v[1..]);
      Join(EscapeByte(v[0]), Encoded(v[1..]), [q] + r);
      EscapeRead(v[0], q, rest, acc);
      ReadFallsShort(v[1..], q, r, acc + [v[0]]);
    } else {
      HexRefLong(v);
      var n := Passed(v);
      PassedUpTo(v);
      if v[n] == SEMI {
        ClosedRef(v, n, q, r, acc);
        var t := Encoded(v) + ([q] + r);
        if NextChar(t).Char? { ReadFallsShort(v[n + 1..], q, r, acc + NextChar(t).value); }
      } else {
        OpenRef(v, q, r, acc);
      }
    }
  }

  lemma HexRefLong(v: Text)
    requires HexRef(v)
    ensures |v| > 2
  {
  }

  /** A reference with its semicolon is read as one byte. */
  lemma ClosedRef(v: Text, n: nat, q: Byte, r: Text, acc: Text)
    requires HexRef(v) && n == Passed(v) < |v| && v[n] == SEMI && EndByte(q)
    requires forall k :: 0 < k < n ==> v[k] != SEMI
    ensures var t := Encoded(v) + ([q] + r);
      && n > 2 && t != [] && (NextChar(t).Char? ==> |NextChar(t).value| == 1)
      && Read(t, [q], acc) ==
        if NextChar(t).NoChar? then None
        else Read(Encoded(v[n + 1..]) + ([q] + r), [q], acc + NextChar(t).value)
  {
    hide Passed, NextChar;
    var t, rest := Encoded(v) + ([q] + r), Encoded(v[n + 1..]) + ([q] + r);
    assert v[n..][0] == SEMI && v[n..][1..] == v[n + 1..];
    assert Encoded(v[n..]) == [SEMI] + Encoded(v[n + 1..]);
    assert Encoded(v) == v[..n] + Encoded(v[n..]);
    hide Encoded;
    assert t == v[..n] + ([SEMI] + rest);
    assert t[n] == SEMI && t[n + 1..] == rest && forall k :: 0 < k < n ==> t[k] == v[k];
    assert t[0] == AMP && t[1] == HASH && t[2] == X;
    RefStep(t);
    assert Find(t, 3, SEMI) == n;
  }

  /** One without takes the escape of the last byte with it, or the end tag and more. */
  lemma OpenRef(v: Text, q: Byte, r: Text, acc: Text)
    requires HexRef(v) && EndByte(q) && Passed(v) == |v| - 1
    requires forall k :: 0 < k < |v| ==> v[k] != SEMI
    ensures FallsShort(Read(Encoded(v) + ([q] + r), [q], acc), |acc| + |v| - 1, r)
  {
    hide Passed, NextChar, Find, Encoded, EscapeByte, FallsShort, Read;
    var t := Encoded(v) + ([q] + r);
    OpenText(v, q, r);
    OpenPlace(v, v[|v| - 1], q, r, t);
    RefStep(t);
    OpenRead(t, q, r, acc, |acc| + |v| - 1);
  }

  lemma OpenText(v: Text, q: Byte, r: Text)
    requires HexRef(v) && Passed(v) == |v| - 1
    ensures Encoded(v) + ([q] + r) == v[..|v| - 1] + (EscapeByte(v[|v| - 1]) + ([q] + r))
  {
    hide Passed, EscapeByte;
    var n, c := |v| - 1, v[|v| - 1];
    assert v[n..] == [c] && [c][1..] == [];
    assert Encoded([c]) == EscapeByte(c) + Encoded([]);
    assert Encoded(v) == v[..n] + Encoded(v[n..]);
    hide Encoded;
    assert EscapeByte(c) + [] == EscapeByte(c);
    Join(v[..n], EscapeByte(c), [q] + r);
  }

  lemma OpenRead(t: Text, q: Byte, r: Text, acc: Text, most: int)
    requires HexRef(t) && EndByte(q) && most > |acc|
    requires NextChar(t).Char? ==> |NextChar(t).value| == 1
    requires NextChar(t).Char? ==> NextChar(t).rest == [q] + r || |NextChar(t).rest| < |r|
    ensures FallsShort(Read(t, [q], acc), most, r)
  {
    hide NextChar;
    if NextChar(t).Char? {
      ReadShrinks(NextChar(t).rest, [q], acc + NextChar(t).value);
      assert [q] <= [q] + r && ([q] + r)[1..] == r;
    }
  }

  lemma OpenPlace(v: Text, c: Byte, q: Byte, r: Text, t: Text)
    requires HexRef(v) && EndByte(q) && c == v[|v| - 1] && t == v[..|v| - 1] + (EscapeByte(c) + ([q] + r))
    requires forall k :: 0 < k < |v| ==> v[k] != SEMI
    ensures HexRef(t) && |t| > 3
    ensures var j := Find(t, 3, SEMI); j < |t| ==> t[j + 1..] == [q] + r || |t[j + 1..]| < |r|
  {
  }

  /** The round trip, exactly: for any text (without NUL) and anything after the end tag, reading what
      was written gives the text back and stops just past the tag if and only if there is anything
      after the tag at all and the text has no "&#x" in it. */
  lemma ReadWhatWasEncoded(v: Text, q: Byte, r: Text)
    requires EndByte(q) && 0 !in v && 0 !in r
    ensures Read(Encoded(v) + ([q] + r), [q], []) == Some((v, r)) <==> r != [] && !HasHexRef(v)
  {
    hide Encoded, Read, HasHexRef;
    if HasHexRef(v) {
      ReadFallsShort(v, q, r, []);
    } else {
      PlainRoundTrip(v, q, r, []);
      assert [] + v == v;
    }
  }
}
