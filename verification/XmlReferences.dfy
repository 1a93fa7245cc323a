/** What TinyXML makes of character references of any length, and the escapes byte by byte. */
module XmlReferences {
  import opened Bytes
  import opened Wrappers
  import opened XmlText

  predicate AllDecimal(ds: Text)
  {
    forall i :: 0 <= i < |ds| ==> 48 <= ds[i] <= 57
  }

  predicate AllHex(ds: Text)
  {
    forall i :: 0 <= i < |ds| ==> IsHex(ds[i])
  }

  /** The number that decimal digits stand for, most significant first. */
  function DecimalValue(ds: Text): nat
    requires AllDecimal(ds)
  {
    if ds == [] then 0 else 10 * DecimalValue(ds[..|ds| - 1]) + (ds[|ds| - 1] - 48)
  }

  /** 0 to 9, a to f, A to F. */
  predicate IsHex(c: Byte)
  {
    48 <= c <= 57 || 97 <= c <= 102 || 65 <= c <= 70
  }

  function HexDigitValue(c: Byte): nat
    requires IsHex(c)
  {
    if c <= 57 then c - 48 else if c >= 97 then c - 97 + 10 else c - 65 + 10
  }

  function HexadecimalValue(ds: Text): nat
    requires AllHex(ds)
  {
    if ds == [] then 0 else 16 * HexadecimalValue(ds[..|ds| - 1]) + HexDigitValue(ds[|ds| - 1])
  }

  /** The same low byte. */
  predicate Alike(x: int, y: int)
  {
    x % 256 == y % 256
  }

  lemma AlikeTrans(x: int, y: int, z: int)
    requires Alike(x, y) && Alike(y, z)
    ensures Alike(x, z)
  {
  }

  lemma AlikeSum(x: int, y: int, k: int)
    ensures y == x + 256 * k ==> Alike(x, y)
  {
  }

  lemma Quotient(x: int, y: int) returns (k: int)
    requires Alike(x, y)
    ensures y == x + 256 * k
  {
    k := y / 256 - x / 256;
  }

  lemma Dropped(a: nat, m: nat)
    requires m in {WORD, LONG}
    ensures Alike(a % m, a)
  {
    var q := a / m;
    assert a == q * m + a % m;
    if m == WORD {
      assert q * m == 256 * (q * 0x100_0000);
      AlikeSum(a % m, a, q * 0x100_0000);
    } else {
      assert q * m == 256 * (q * 0x100_0000_0000_0000);
      AlikeSum(a % m, a, q * 0x100_0000_0000_0000);
    }
  }

  lemma Combine(a: int, a': int, b: int, b': int, v: int)
    requires Alike(a, a') && Alike(b, b')
    ensures Alike(a + b * v, a' + b' * v)
  {
    var i := Quotient(a, a');
    var j := Quotient(b, b');
    assert b' * v == b * v + 256 * (j * v) by { Spread(b, j, v); }
    AlikeSum(a + b * v, a' + b' * v, i + j * v);
  }

  lemma Spread(b: int, j: int, v: int)
    ensures (b + 256 * j) * v == b * v + 256 * (j * v)
  {
  }

  function NextUcs(ucs: nat, mult: nat, d: nat): nat
  {
    (ucs + mult * d % WORD) % LONG
  }

  function NextMult(mult: nat, base: nat): nat
  {
    mult * base % WORD
  }

  function Sum(ucs: nat, mult: nat, v: nat): nat
  {
    ucs + mult * v
  }

  /** The overflow of the weights and of the sum does not matter to the low byte. */
  lemma LowByte(ucs: nat, mult: nat, d: nat, base: nat, v: nat, r: nat)
    requires Alike(r, Sum(NextUcs(ucs, mult, d), NextMult(mult, base), v))
    ensures Alike(r, Sum(ucs, mult, base * v + d))
  {
    hide Alike;
    var a, b := mult * d, mult * base;
    Dropped(a, WORD);
    Dropped(ucs + a % WORD, LONG);
    Dropped(b, WORD);
    Added(ucs, a % WORD, a);
    AlikeTrans((ucs + a % WORD) % LONG, ucs + a % WORD, ucs + a);
    Combine((ucs + a % WORD) % LONG, ucs + a, b % WORD, b, v);
    AlikeTrans(r, (ucs + a % WORD) % LONG + b % WORD * v, ucs + a + b * v);
    Weighted(mult, base, v, d);
  }

  /** One step back over a digit. */
  lemma StepBack(t: Text, low: nat, q: nat, base: nat, ucs: nat, mult: nat, d: nat)
    requires low < q < |t| && t[q] != t[low] && DigitOf(base, t[q]) == d
    ensures Backward(t, low, q, base, ucs, mult) ==
      Backward(t, low, q - 1, base, NextUcs(ucs, mult, d), NextMult(mult, base))
  {
    hide Backward;
    BackStep(t, low, q, base, ucs, mult);
  }

  lemma NoStep(t: Text, low: nat, base: nat, ucs: nat, mult: nat)
    requires low < |t|
    ensures Backward(t, low, low, base, ucs, mult) == Some(ucs) && Alike(ucs, Sum(ucs, mult, 0))
  {
  }

  lemma Added(u: int, x: int, y: int)
    requires Alike(x, y)
    ensures Alike(u + x, u + y)
  {
    var k := Quotient(x, y);
    AlikeSum(u + x, u + y, k);
  }

  lemma Weighted(mult: nat, base: nat, v: nat, d: nat)
    ensures mult * (base * v + d) == mult * base * v + mult * d
  {
  }

  lemma DecimalLast(ds: Text)
    requires ds != [] && AllDecimal(ds)
    ensures AllDecimal(ds[..|ds| - 1]) && 48 <= ds[|ds| - 1] <= 57
    ensures var c := ds[|ds| - 1];
      DigitOf(10, c) == c - 48 && c != 35 && DecimalValue(ds) == 10 * DecimalValue(ds[..|ds| - 1]) + (c - 48)
  {
  }

  lemma HexadecimalLast(ds: Text)
    requires ds != [] && AllHex(ds)
    ensures AllHex(ds[..|ds| - 1]) && IsHex(ds[|ds| - 1])
    ensures var c := ds[|ds| - 1];
      DigitOf(16, c) == HexDigitValue(c) && c != 120 &&
      HexadecimalValue(ds) == 16 * HexadecimalValue(ds[..|ds| - 1]) + HexDigitValue(c)
  {
  }

  lemma LastOf(t: Text, low: nat, ds: Text)
    requires ds != [] && low + |ds| < |t| && t[low + 1..low + 1 + |ds|] == ds
    ensures t[low + |ds|] == ds[|ds| - 1] && t[low + 1..low + |ds|] == ds[..|ds| - 1]
  {
    assert t[low + |ds|] == t[low + 1..low + 1 + |ds|][|ds| - 1];
    assert t[low + 1..low + |ds|] == t[low + 1..low + 1 + |ds|][..|ds| - 1];
  }

  lemma {:induction false} DecimalBackward(t: Text, low: nat, ds: Text, ucs: nat, mult: nat)
    requires low + |ds| < |t| && t[low] == 35 && t[low + 1..low + 1 + |ds|] == ds
    requires AllDecimal(ds)
    ensures var b := Backward(t, low, low + |ds|, 10, ucs, mult); b.Some? && Alike(b.value, Sum(ucs, mult, DecimalValue(ds)))
    decreases |ds|
  {
    if ds == [] {
      NoStep(t, low, 10, ucs, mult);
    } else {
      DecimalLast(ds);
      hide Alike, Backward, DecimalValue, AllDecimal, DigitOf, NextUcs, NextMult, Sum;
      var front, d := ds[..|ds| - 1], ds[|ds| - 1] - 48;
      LastOf(t, low, ds);
      StepBack(t, low, low + |ds|, 10, ucs, mult, d);
      DecimalBackward(t, low, front, NextUcs(ucs, mult, d), NextMult(mult, 10));
      LowByte(ucs, mult, d, 10, DecimalValue(front), Backward(t, low, low + |ds|, 10, ucs, mult).value);
    }
  }

  lemma {:induction false} HexadecimalBackward(t: Text, low: nat, ds: Text, ucs: nat, mult: nat)
    requires low + |ds| < |t| && t[low] == 120 && t[low + 1..low + 1 + |ds|] == ds
    requires AllHex(ds)
    ensures var b := Backward(t, low, low + |ds|, 16, ucs, mult);
      b.Some? && Alike(b.value, Sum(ucs, mult, HexadecimalValue(ds)))
    decreases |ds|
  {
    if ds == [] {
      NoStep(t, low, 16, ucs, mult);
    } else {
      HexadecimalLast(ds);
      hide Alike, Backward, HexadecimalValue, HexDigitValue, AllHex, DigitOf, IsHex, NextUcs, NextMult, Sum;
      var front, d := ds[..|ds| - 1], HexDigitValue(ds[|ds| - 1]);
      LastOf(t, low, ds);
      StepBack(t, low, low + |ds|, 16, ucs, mult, d);
      HexadecimalBackward(t, low, front, NextUcs(ucs, mult, d), NextMult(mult, 16));
      LowByte(ucs, mult, d, 16, HexadecimalValue(front), Backward(t, low, low + |ds|, 16, ucs, mult).value);
    }
  }

  /** The semicolon is found behind the digits. */
  lemma {:induction false} FindBehind(t: Text, i: nat, n: nat)
    requires i <= n < |t| && t[n] == 59 && forall j :: i <= j < n ==> t[j] != 59
    ensures Find(t, i, SEMI) == n
    decreases n - i
  {
    if i < n { FindBehind(t, i + 1, n); }
  }

  /** A reference: its opening, its digits, the semicolon and what follows. */
  function Ref(open: Text, ds: Text, r: Text): Text
  {
    open + ds + [59] + r
  }

  lemma RefParts(open: Text, ds: Text, r: Text)
    ensures var t, n := Ref(open, ds, r), |open| + |ds|;
      && |t| == n + 1 + |r| && t[n] == 59 && t[|open|..n] == ds && t[n + 1..] == r
      && forall i :: 0 <= i < |open| ==> t[i] == open[i]
  {
  }

  lemma SemicolonFound(open: Text, ds: Text, r: Text)
    requires Without(ds, 59)
    ensures Find(Ref(open, ds, r), |open|, SEMI) == |open| + |ds|
  {
    hide Find;
    var t, n := Ref(open, ds, r), |open| + |ds|;
    forall j | |open| <= j < n ensures t[j] != 59 {
      assert t[j] == ds[j - |open|];
    }
    FindBehind(t, |open|, n);
  }

  lemma NextIsReference(t: Text)
    requires |t| > 2 && t[0] == 38 && t[1] == 35
    ensures t[2] != 120 ==> NextChar(t) == Reference(t, 1, 10)
    ensures t[2] == 120 && |t| > 3 ==> NextChar(t) == Reference(t, 2, 16)
  {
    hide Reference;
  }

  /** &#...; stands for the low byte of the decimal number, however long it is. */
  lemma DecimalReference(ds: Text, r: Text)
    requires ds != [] && AllDecimal(ds)
    ensures NextChar(Ref([38, 35], ds, r)) == Char([DecimalValue(ds) % 256], r)
  {
    NoSemicolonIn(ds);
    hide Find, Backward, DecimalValue, Reference, NextChar, Alike, Ref, Sum, AllDecimal, Without;
    var t, n := Ref([38, 35], ds, r), 2 + |ds|;
    assert n < |t| && t[n + 1..] == r by { RefParts([38, 35], ds, r); }
    assert NextChar(t) == Reference(t, 1, 10) by {
      RefParts([38, 35], ds, r);
      assert t[2] == t[2..n][0] == ds[0];
      NextIsReference(t);
    }
    assert Find(t, 2, SEMI) == n by { SemicolonFound([38, 35], ds, r); }
    assert var b := Backward(t, 1, n - 1, 10, 0, 1); b.Some? && Alike(b.value, Sum(0, 1, DecimalValue(ds))) by {
      RefParts([38, 35], ds, r);
      DecimalBackward(t, 1, ds, 0, 1);
    }
    ReferenceIs(t, 1, 10, n, DecimalValue(ds));
  }

  lemma ReferenceIs(t: Text, low: nat, base: nat, n: nat, v: nat)
    requires low + 1 < |t| && n < |t| && n > low + 1 && Find(t, low + 1, SEMI) == n
    requires var b := Backward(t, low, n - 1, base, 0, 1); b.Some? && Alike(b.value, Sum(0, 1, v))
    ensures Reference(t, low, base) == Char([v % 256], t[n + 1..])
  {
    hide Find, Backward;
  }

  predicate Without(ds: Text, c: Byte)
  {
    forall i :: 0 <= i < |ds| ==> ds[i] != c
  }

  lemma NoSemicolon(ds: Text)
    requires AllHex(ds)
    ensures Without(ds, 59)
  {
  }

  lemma NoSemicolonIn(ds: Text)
    requires ds != [] && AllDecimal(ds)
    ensures Without(ds, 59) && ds[0] != 120
  {
  }

  /** &#x...; stands for the low byte of the hexadecimal number, however long it is. */
  lemma HexadecimalReference(ds: Text, r: Text)
    requires ds != [] && AllHex(ds)
    ensures NextChar(Ref([38, 35, 120], ds, r)) == Char([HexadecimalValue(ds) % 256], r)
  {
    NoSemicolon(ds);
    hide Find, Backward, HexadecimalValue, Reference, NextChar, Alike, Ref, Sum, IsHex, AllHex, Without;
    var t, n := Ref([38, 35, 120], ds, r), 3 + |ds|;
    assert n < |t| && t[n + 1..] == r by { RefParts([38, 35, 120], ds, r); }
    assert NextChar(t) == Reference(t, 2, 16) by {
      RefParts([38, 35, 120], ds, r);
      assert t[2] == 120;
      NextIsReference(t);
    }
    assert Find(t, 3, SEMI) == n by { SemicolonFound([38, 35, 120], ds, r); }
    assert var b := Backward(t, 2, n - 1, 16, 0, 1); b.Some? && Alike(b.value, Sum(0, 1, HexadecimalValue(ds))) by {
      RefParts([38, 35, 120], ds, r);
      HexadecimalBackward(t, 2, ds, 0, 1);
    }
    ReferenceIs(t, 2, 16, n, HexadecimalValue(ds));
  }

  /** The escapes: &amp; &lt; &gt; &quot; &apos;, and &#x01; to &#x1F; for control bytes. */
  lemma EscapesWritten()
    ensures EscapeByte(38) == [38, 97, 109, 112, 59] && EscapeByte(60) == [38, 108, 116, 59]
    ensures EscapeByte(62) == [38, 103, 116, 59] && EscapeByte(34) == [38, 113, 117, 111, 116, 59]
    ensures EscapeByte(39) == [38, 97, 112, 111, 115, 59] && EscapeByte(31) == [38, 35, 120, 49, 70, 59]
    ensures EscapeByte(1) == [38, 35, 120, 48, 49, 59] && EscapeByte(32) == [32] && EscapeByte(200) == [200]
  {
  }

  /** And the entities are read as the bytes. */
  lemma EntitiesRead(r: Text)
    ensures NextChar([38, 97, 109, 112, 59] + r) == Char([38], r) && NextChar([38, 108, 116, 59] + r) == Char([60], r)
    ensures NextChar([38, 103, 116, 59] + r) == Char([62], r)
    ensures NextChar([38, 113, 117, 111, 116, 59] + r) == Char([34], r)
    ensures NextChar([38, 97, 112, 111, 115, 59] + r) == Char([39], r)
  {
    OneEntity(0, [38, 97, 109, 112, 59], r);
    OneEntity(1, [38, 108, 116, 59], r);
    OneEntity(2, [38, 103, 116, 59], r);
    OneEntity(3, [38, 113, 117, 111, 116, 59], r);
    OneEntity(4, [38, 97, 112, 111, 115, 59], r);
  }

  /** The ampersand of anything else that is not a reference is dropped. */
  lemma UnknownDropped(t: Text)
    requires t != [] && t[0] == 38 && !(|t| > 2 && t[1] == 35)
    requires !([38, 97, 109, 112, 59] <= t) && !([38, 108, 116, 59] <= t) && !([38, 103, 116, 59] <= t)
    requires !([38, 113, 117, 111, 116, 59] <= t) && !([38, 97, 112, 111, 115, 59] <= t)
    ensures NextChar(t) == Char([], t[1..])
  {
    hide Named;
    NamedStep(t, 0);
    NamedStep(t, 1);
    NamedStep(t, 2);
    NamedStep(t, 3);
    NamedStep(t, 4);
    NamedStep(t, 5);
  }

  lemma OneEntity(i: nat, name: Text, r: Text)
    requires i < 5 && |name| > 2 && name[0] == 38 && name[1] != 35 && ENTITIES[i].0 == name
    requires forall j :: 0 <= j < i ==> |ENTITIES[j].0| > 2 && (ENTITIES[j].0[1] != name[1] || ENTITIES[j].0[2] != name[2])
    ensures NextChar(name + r) == Char([ENTITIES[i].1], r)
  {
    hide Named;
    var t := name + r;
    assert name <= t && t[|name|..] == r && t[1] == name[1] && t[2] == name[2];
    Later(t, i);
    NamedStep(t, i);
  }

  lemma {:induction false} Later(t: Text, i: nat)
    requires t != [] && i < 5 && forall j :: 0 <= j < i ==> !(ENTITIES[j].0 <= t)
    ensures Named(t, 0) == Named(t, i)
  {
    hide Named;
    if i > 0 {
      Later(t, i - 1);
      NamedStep(t, i - 1);
    }
  }
}
