/** Parsing a serialized value gives the value back, whatever follows it in the text. */
module JsonRoundTrip {
  import opened Bytes
  import opened JsonText
  import opened JsonGrammar

  // ---------- strings ----------

  lemma HexDigitValue(n: nat)
    requires n < 16
    ensures HexValue(HexDigit(n)) == n
  {
  }

  /** The parser takes an escaped byte for the byte. */
  lemma EscapeRead(c: Byte, t: Text, acc: Text)
    ensures StringRest(Escape(c) + t, acc) == StringRest(t, acc + [c])
  {
    hide StringRest, Codepoint, HexDigit;
    var e := Escape(c) + t;
    if Escape(c)[0] != BACKSLASH {
      assert e[1..] == t;
      PlainRead(e, acc);
    } else {
      assert e[2..] == Escape(c)[2..] + t;
      EscapedRead(e, acc);
      if |Escape(c)| == 2 {
        assert e[2..] == t;
      } else {
        HexRead(c, t);
      }
    }
  }

  lemma PlainRead(t: Text, acc: Text)
    requires t != [] && t[0] >= SPACE && t[0] !in {QUOTE, BACKSLASH}
    ensures StringRest(t, acc) == StringRest(t[1..], acc + [t[0]])
  {
  }

  lemma EscapedRead(t: Text, acc: Text)
    requires |t| > 1 && t[0] == BACKSLASH
    ensures Unescape(t[1]) != -1 ==> StringRest(t, acc) == StringRest(t[2..], acc + [Unescape(t[1])])
    ensures t[1] == LOWER_U && Codepoint(t[2..]).ok ==>
      StringRest(t, acc) == StringRest(Codepoint(t[2..]).rest, acc + Codepoint(t[2..]).text)
  {
    hide Codepoint;
  }

  /** Four hexadecimal digits, as "%04x" writes them. */
  function HexText(n: nat): Text
    requires n < 0x10000
  {
    [HexDigit(n / 4096), HexDigit(n / 256 % 16), HexDigit(n / 16 % 16), HexDigit(n % 16)]
  }

  lemma QuadRead(n: nat, t: Text)
    requires n < 0x10000
    ensures QuadHex(HexText(n) + t, 4, 0) == Hex(n, t)
  {
    var u := HexText(n) + t;
    var a, b, c, d := n / 4096, n / 256 % 16, n / 16 % 16, n % 16;
    HexDigitValue(a);
    HexDigitValue(b);
    HexDigitValue(c);
    HexDigitValue(d);
    assert n == ((a * 16 + b) * 16 + c) * 16 + d by { assert n / 256 == a * 16 + b && n / 16 == n / 256 * 16 + c; }
    hide HexDigit, HexValue;
    calc {
      QuadHex(u, 4, 0);
      QuadHex(u[1..], 3, a);
      { assert u[1..][0] == HexDigit(b) && u[1..][1..] == u[2..]; }
      QuadHex(u[2..], 2, a * 16 + b);
      { assert u[2..][0] == HexDigit(c) && u[2..][1..] == u[3..]; }
      QuadHex(u[3..], 1, (a * 16 + b) * 16 + c);
      { assert u[3..][0] == HexDigit(d) && u[3..][1..] == t; }
      QuadHex(t, 0, ((a * 16 + b) * 16 + c) * 16 + d);
      Hex(n, t);
    }
  }

  /** A control byte's four digits are read back as that byte. */
  lemma HexRead(c: Byte, t: Text)
    requires c < 0x80
    ensures Codepoint([ZERO, ZERO, HexDigit(c / 16), HexDigit(c % 16)] + t) == Scanned(true, [c], t)
  {
    QuadRead(c, t);
    assert HexText(c) == [ZERO, ZERO, HexDigit(c / 16), HexDigit(c % 16)];
    hide QuadHex, HexDigit;
  }

  /** The escape of any code point, a surrogate pair beyond the basic plane, without its \u. */
  function EscapeOf(u: nat): Text
    requires u < 0x110000
  {
    if u < 0x10000 then HexText(u)
    else HexText(0xd800 + (u - 0x10000) / 0x400) + [BACKSLASH, LOWER_U] + HexText(0xdc00 + (u - 0x10000) % 0x400)
  }

  /** Every code point but the surrogates themselves is read from its escape as its UTF-8 bytes. */
  lemma CodepointRead(u: nat, t: Text)
    requires u < 0x110000 && !(0xd800 <= u < 0xe000)
    ensures Codepoint(EscapeOf(u) + t) == Scanned(true, Encode(u), t)
  {
    hide QuadHex, Encode, HexText;
    if u < 0x10000 {
      QuadRead(u, t);
    } else {
      var high, low := 0xd800 + (u - 0x10000) / 0x400, 0xdc00 + (u - 0x10000) % 0x400;
      var rest := [BACKSLASH, LOWER_U] + (HexText(low) + t);
      assert EscapeOf(u) + t == HexText(high) + rest;
      assert rest[2..] == HexText(low) + t;
      QuadRead(high, rest);
      QuadRead(low, t);
    }
  }

  function Bits(c: Byte, n: nat): nat
    requires n > 0
  {
    c % n
  }

  /** The code point that UTF-8 bytes stand for (section 3 of RFC 3629). */
  function Decode(t: Text): nat
    requires |t| > 0
  {
    if |t| == 1 then Bits(t[0], 0x80)
    else if |t| == 2 then Bits(t[0], 0x20) * 0x40 + Bits(t[1], 0x40)
    else if |t| == 3 then Bits(t[0], 0x10) * 0x1000 + Bits(t[1], 0x40) * 0x40 + Bits(t[2], 0x40)
    else Bits(t[0], 8) * 0x40000 + Bits(t[1], 0x40) * 0x1000 + Bits(t[2], 0x40) * 0x40 + Bits(t[3], 0x40)
  }

  /** In base 64, with continuation bytes from 0x80 on. */
  lemma SixBits(n: nat)
    ensures n == n / 0x40 * 0x40 + n % 0x40 && Bits(0x80 + n % 0x40, 0x40) == n % 0x40
  {
  }

  lemma EncodeIsUtf8(u: nat)
    requires u < 0x110000
    ensures Decode(Encode(u)) == u && 1 <= |Encode(u)| <= 4
    ensures forall i :: 0 < i < |Encode(u)| ==> 0x80 <= Encode(u)[i] < 0xc0
  {
    SixBits(u);
    SixBits(u / 0x40);
    SixBits(u / 0x1000);
    assert u / 0x40 / 0x40 == u / 0x1000 && u / 0x1000 / 0x40 == u / 0x40000;
    if u >= 0x80 {
      if u < 0x800 { assert Bits(0xc0 + u / 0x40, 0x20) == u / 0x40; }
      else if u < 0x10000 { assert Bits(0xe0 + u / 0x1000, 0x10) == u / 0x1000; }
      else { assert Bits(0xf0 + u / 0x40000, 8) == u / 0x40000; }
    }
    hide Bits;
  }

  lemma {:induction false} StringRead(s: Text, acc: Text, r: Text)
    ensures StringRest(Escapes(s) + ([QUOTE] + r), acc) == Scanned(true, acc + s, r)
  {
    hide Escape;
    if s == [] {
      assert Escapes(s) + ([QUOTE] + r) == [QUOTE] + r && acc + s == acc;
    } else {
      var more := Escapes(s[1..]) + ([QUOTE] + r);
      assert Escapes(s) + ([QUOTE] + r) == Escape(s[0]) + more;
      EscapeRead(s[0], more, acc);
      StringRead(s[1..], acc + [s[0]], r);
      assert acc + s == acc + [s[0]] + s[1..];
    }
  }

  /** The string round trip: any bytes at all, with any text after the closing quote. */
  lemma QuotedRead(s: Text, r: Text)
    ensures Quoted(s) + r == [QUOTE] + (Escapes(s) + ([QUOTE] + r))
    ensures StringRest((Quoted(s) + r)[1..], []) == Scanned(true, s, r)
  {
    hide Escapes, StringRest;
    StringRead(s, [], r);
    assert (Quoted(s) + r)[1..] == Escapes(s) + ([QUOTE] + r);
    assert [] + s == s;
  }

  // ---------- white space, words and numbers ----------

  lemma {:induction false} SkipSpaces(n: nat, t: Text)
    ensures SkipWs(Spaces(n) + t) == SkipWs(t)
  {
    if n == 0 {
      assert Spaces(0) + t == t;
    } else {
      assert (Spaces(n) + t)[1..] == Spaces(n - 1) + t;
      SkipSpaces(n - 1, t);
    }
  }

  lemma SkipIndent(level: int, t: Text)
    requires level >= -1
    ensures SkipWs(Indent(level) + t) == SkipWs(t)
  {
    if level == -1 {
      assert Indent(level) + t == t;
    } else {
      assert (Indent(level) + t)[1..] == Spaces(2 * level) + t;
      SkipSpaces(2 * level, t);
    }
  }

  lemma {:induction false} MatchRead(pattern: Text, r: Text)
    ensures Match(pattern, pattern + r) == Scan(true, r)
  {
    if pattern == [] {
      assert pattern + r == r;
    } else {
      assert (pattern + r)[1..] == pattern[1..] + r;
      MatchRead(pattern[1..], r);
    }
  }

  /** Nothing in r could be taken for more of a number. */
  predicate Stops(r: Text)
  {
    r == [] || !NumberByte(r[0])
  }

  lemma {:induction false} PrefixRead(n: Text, r: Text)
    requires (forall i :: 0 <= i < |n| ==> NumberByte(n[i])) && Stops(r)
    ensures NumberPrefix(n + r) == n
  {
    if n == [] {
      assert n + r == r;
    } else {
      assert NumberByte(n[0]) && (n + r)[1..] == n[1..] + r;
      PrefixRead(n[1..], r);
    }
  }

  lemma NumberRead(lib: Library, x: real, r: Text)
    requires Faithful(lib, x) && Stops(r)
    ensures var t := NumberText(lib, x) + r;
      StartsNumber(t) && NumberAt(lib, Build, t) == Parsed(Good, Number(x), r)
  {
    hide NumberText, Strtod, NumberPrefix;
    NumberRoundTrip(lib, x);
    hide Faithful;
    var n := NumberText(lib, x);
    PrefixRead(n, r);
    assert (n + r)[|n|..] == r;
  }

  // ---------- values ----------

  lemma ItemsUnfold(lib: Library, items: seq<Value>, i: nat, level: int, z: Text)
    requires i < |items| && level >= -1
    ensures Items(lib, items, i, level) + z ==
      (if i > 0 then [COMMA] else []) +
      (Indent(level) + (Body(lib, items[i], level) + (Items(lib, items, i + 1, level) + z)))
  {
    hide Indent, Body;
    var c, n, b := if i > 0 then [COMMA] else [], Indent(level), Body(lib, items[i], level);
    var m := Items(lib, items, i + 1, level);
    assert Items(lib, items, i, level) == c + n + b + m;
    hide Items;
    Join(c + n + b, m, z);
    Join(c + n, b, m + z);
    Join(c, n, b + (m + z));
  }

  lemma EntriesUnfold(lib: Library, es: seq<Entry>, i: nat, level: int, z: Text)
    requires i < |es| && level >= -1
    ensures Entries(lib, es, i, level) + z == (if i > 0 then [COMMA] else []) + (Indent(level) + (Quoted(es[i].key) +
      (Colon(level) + (Body(lib, es[i].value, level) + (Entries(lib, es, i + 1, level) + z)))))
  {
    hide Indent, Body, Quoted, Colon;
    var c, n, k, o, b, m := if i > 0 then [COMMA] else [], Indent(level), Quoted(es[i].key), Colon(level),
      Body(lib, es[i].value, level), Entries(lib, es, i + 1, level);
    assert Entries(lib, es, i, level) == c + n + k + o + b + m;
    hide Entries;
    Join(c + n + k + o + b, m, z);
    Join(c + n + k + o, b, m + z);
    Join(c + n + k, o, b + (m + z));
    Join(c + n, k, o + (b + (m + z)));
    Join(c, n, k + (o + (b + (m + z))));
  }

  /** What follows an element never extends a number. */
  lemma AfterItems(lib: Library, items: seq<Value>, i: nat, level: int, deeper: int, r: Text)
    requires i <= |items| && level >= -1 && deeper >= -1 && i > 0
    ensures Stops(Items(lib, items, i, deeper) + (Indent(level) + ([RBRACKET] + r)))
    ensures i == |items| ==>
      Items(lib, items, i, deeper) + (Indent(level) + ([RBRACKET] + r)) == Indent(level) + ([RBRACKET] + r)
  {
    if i < |items| {
      ItemsUnfold(lib, items, i, deeper, Indent(level) + ([RBRACKET] + r));
    }
  }

  lemma AfterEntries(lib: Library, es: seq<Entry>, i: nat, level: int, deeper: int, r: Text)
    requires i <= |es| && level >= -1 && deeper >= -1 && i > 0
    ensures Stops(Entries(lib, es, i, deeper) + (Indent(level) + ([RBRACE] + r)))
    ensures i == |es| ==>
      Entries(lib, es, i, deeper) + (Indent(level) + ([RBRACE] + r)) == Indent(level) + ([RBRACE] + r)
  {
    if i < |es| {
      EntriesUnfold(lib, es, i, deeper, Indent(level) + ([RBRACE] + r));
    }
  }

  lemma ExpectMiss(c: Byte, d: Byte, level: int, t: Text)
    requires level >= -1 && !IsSpace(d) && c != d
    ensures Expect(c, Indent(level) + ([d] + t)) == Scan(false, [d] + t)
  {
    SkipIndent(level, [d] + t);
  }

  /** The first byte of anything that parses. */
  lemma FirstByte(lib: Library, k: Context, t: Text)
    requires ValueAt(lib, k, t).status.Good?
    ensures t != [] && !IsSpace(t[0]) && t[0] != RBRACKET && SkipWs(t) == t
  {
    hide ArrayAt, ObjectAt, NumberAt, StringAt, Keyword;
  }

  lemma LeafRead(lib: Library, v: Value, level: int, r: Text)
    requires !v.Arr? && !v.Obj? && Numbers(lib, v) && level >= -1 && (v.Number? ==> Stops(r))
    ensures ValueAt(lib, Build, Body(lib, v, level) + r) == Parsed(Good, v, r)
  {
    hide NumberText, NumberAt, StringRest, Match, Quoted, Faithful;
    var t := Body(lib, v, level) + r;
    match v {
      case Null =>
        assert t[1..] == NULL_TEXT[1..] + r;
        MatchRead(NULL_TEXT[1..], r);
      case Bool(b) =>
        var text := if b then TRUE_TEXT else FALSE_TEXT;
        assert t[1..] == text[1..] + r;
        MatchRead(text[1..], r);
      case Number(x) => NumberRead(lib, x, r);
      case Str(s) => QuotedRead(s, r);
    }
  }

  /** An array from item i on, t being the text from there. */
  lemma {:induction false} ItemsRead(lib: Library, items: seq<Value>, i: nat, level: int, deeper: int, t: Text, r: Text)
    requires i < |items| && level >= -1 && deeper >= -1
    requires forall j :: 0 <= j < |items| ==> Proper(items[j]) && Numbers(lib, items[j])
    requires SkipWs(t) ==
      Body(lib, items[i], deeper) + (Items(lib, items, i + 1, deeper) + (Indent(level) + ([RBRACKET] + r)))
    ensures ItemsAt(lib, Build, t, items[..i]) == Parsed(Good, Arr(items), r)
    decreases items, |items| - i
  {
    hide SkipWs, Indent, Body, Items, Numbers, Proper, ValueAt, Expect, Stops;
    var z := Indent(level) + ([RBRACKET] + r);
    var u := Items(lib, items, i + 1, deeper) + z;
    AfterItems(lib, items, i + 1, level, deeper, r);
    ValueRead(lib, items[i], deeper, u);
    assert items[..i] + [items[i]] == items[..i + 1];
    if i + 1 < |items| {
      ItemsUnfold(lib, items, i + 1, deeper, z);
      var t' := Indent(deeper) + (Body(lib, items[i + 1], deeper) + (Items(lib, items, i + 2, deeper) + z));
      assert u == [COMMA] + t';
      Comma(t');
      SkipIndent(deeper, Body(lib, items[i + 1], deeper) + (Items(lib, items, i + 2, deeper) + z));
      AfterItems(lib, items, i + 2, level, deeper, r);
      ValueRead(lib, items[i + 1], deeper, Items(lib, items, i + 2, deeper) + z);
      FirstByte(lib, Build, Body(lib, items[i + 1], deeper) + (Items(lib, items, i + 2, deeper) + z));
      ItemsRead(lib, items, i + 1, level, deeper, t', r);
    } else {
      ExpectMiss(COMMA, RBRACKET, level, r);
      Close(RBRACKET, r);
      assert items[..i + 1] == items;
    }
  }

  lemma Comma(t: Text)
    ensures Expect(COMMA, [COMMA] + t) == Scan(true, t)
  {
  }

  lemma Close(c: Byte, r: Text)
    requires !IsSpace(c)
    ensures Expect(c, [c] + r) == Scan(true, r)
  {
  }

  lemma {:induction false} ValueRead(lib: Library, v: Value, level: int, r: Text)
    requires Proper(v) && Numbers(lib, v) && level >= -1 && (v.Number? ==> Stops(r))
    ensures ValueAt(lib, Build, Body(lib, v, level) + r) == Parsed(Good, v, r)
    decreases v
  {
    hide Body, Items, Entries, ValueAt, Stops;
    match v
    case Arr(items) => ArrayRead(lib, items, level, r);
    case Obj(es) => ObjectRead(lib, es, level, r);
    case _ => LeafRead(lib, v, level, r);
  }

  lemma {:induction false} ArrayRead(lib: Library, items: seq<Value>, level: int, r: Text)
    requires level >= -1 && forall j :: 0 <= j < |items| ==> Proper(items[j]) && Numbers(lib, items[j])
    ensures ValueAt(lib, Build, Body(lib, Arr(items), level) + r) == Parsed(Good, Arr(items), r)
    decreases items
  {
    hide Items, Indent, ItemsAt, Expect, Numbers, Proper, SkipWs;
    var z := Indent(level) + ([RBRACKET] + r);
    var d := Deeper(level);
    ArrayText(lib, items, level, r);
    if items == [] {
      Close(RBRACKET, r);
    } else {
      var first := Body(lib, items[0], d) + (Items(lib, items, 1, d) + z);
      hide Body;
      ItemsUnfold(lib, items, 0, d, z);
      assert Items(lib, items, 0, d) + z == Indent(d) + first;
      SkipIndent(d, first);
      AfterItems(lib, items, 1, level, d, r);
      ValueRead(lib, items[0], d, Items(lib, items, 1, d) + z);
      FirstByte(lib, Build, first);
      NotYet(RBRACKET, Indent(d) + first, first);
      ItemsRead(lib, items, 0, level, d, first, r);
      assert items[..0] == [];
    }
  }

  /** The closing bracket is not there yet. */
  lemma NotYet(c: Byte, t: Text, first: Text)
    requires first != [] && first[0] != c && SkipWs(t) == first
    ensures Expect(c, t) == Scan(false, first)
  {
  }

  /** The text of an array, cut after the bracket. */
  lemma ArrayText(lib: Library, items: seq<Value>, level: int, r: Text)
    requires level >= -1
    ensures (Body(lib, Arr(items), level) + r)[0] == LBRACKET
    ensures (Body(lib, Arr(items), level) + r)[1..] ==
      if items == [] then [RBRACKET] + r else Items(lib, items, 0, Deeper(level)) + (Indent(level) + ([RBRACKET] + r))
  {
    hide Indent;
    var m, e := Items(lib, items, 0, Deeper(level)), if items == [] then [] else Indent(level);
    assert Body(lib, Arr(items), level) == [LBRACKET] + m + e + [RBRACKET];
    Cut(LBRACKET, m, e, RBRACKET, r);
    if items == [] { assert m + (e + ([RBRACKET] + r)) == [RBRACKET] + r; }
  }

  lemma ObjectText(lib: Library, es: seq<Entry>, level: int, r: Text)
    requires level >= -1
    ensures (Body(lib, Obj(es), level) + r)[0] == LBRACE
    ensures (Body(lib, Obj(es), level) + r)[1..] ==
      if es == [] then [RBRACE] + r else Entries(lib, es, 0, Deeper(level)) + (Indent(level) + ([RBRACE] + r))
  {
    hide Indent;
    var m, e := Entries(lib, es, 0, Deeper(level)), if es == [] then [] else Indent(level);
    assert Body(lib, Obj(es), level) == [LBRACE] + m + e + [RBRACE];
    Cut(LBRACE, m, e, RBRACE, r);
    if es == [] { assert m + (e + ([RBRACE] + r)) == [RBRACE] + r; }
  }

  lemma Cut(open: Byte, m: Text, e: Text, close: Byte, r: Text)
    ensures ([open] + m + e + [close] + r)[1..] == m + (e + ([close] + r))
  {
  }

  /** A member's key, its quotes and its colon. */
  lemma KeyRead(key: Text, level: int, deeper: int, t: Text, text: Text)
    requires level >= -1 && SkipWs(text) == Quoted(key) + (Colon(level) + t)
    ensures KeyAt(text).ok && KeyAt(text).text == key && SkipWs(KeyAt(text).rest) == SkipWs(t)
  {
    hide Escapes, StringRest, Quoted, SkipWs;
    QuotedRead(key, Colon(level) + t);
    assert Expect(QUOTE, text) == Scan(true, (Quoted(key) + (Colon(level) + t))[1..]);
    var rest := if level == -1 then t else [SPACE] + t;
    assert Colon(level) + t == [COLON] + rest;
    Close(COLON, rest);
    SkipStep(t);
  }

  lemma SkipStep(t: Text)
    ensures SkipWs([SPACE] + t) == SkipWs(t)
  {
    assert ([SPACE] + t)[1..] == t;
  }

  /** White space before a value makes no difference. */
  lemma Unspaced(lib: Library, k: Context, t: Text, u: Text)
    requires SkipWs(t) == SkipWs(u)
    ensures AnyValue(lib, k, t) == AnyValue(lib, k, u)
  {
    hide ValueAt, SkipWs;
  }

  /** The keys so far are below the next one, which therefore goes to the end of the map. */
  lemma NextKey(es: seq<Entry>, i: nat)
    requires Ordered(es) && i < |es|
    ensures Assign(es[..i], es[i].key, es[i].value) == es[..i + 1]
  {
    AssignLast(es[..i], es[i].key, es[i].value);
    assert es[..i + 1] == es[..i] + [Entry(es[i].key, es[i].value)];
  }

  /** An object from member i on, t being the text from there. */
  lemma {:induction false} MembersRead(lib: Library, es: seq<Entry>, i: nat, level: int, deeper: int, t: Text, r: Text)
    requires i < |es| && level >= -1 && deeper >= -1 && Ordered(es)
    requires forall j :: 0 <= j < |es| ==> Proper(es[j].value) && Numbers(lib, es[j].value)
    requires SkipWs(t) == Quoted(es[i].key) + (Colon(deeper) + (Body(lib, es[i].value, deeper) +
      (Entries(lib, es, i + 1, deeper) + (Indent(level) + ([RBRACE] + r)))))
    ensures MembersAt(lib, Build, t, es[..i]) == Parsed(Good, Obj(es), r)
    decreases es, |es| - i
  {
    hide SkipWs, Indent, Body, Entries, Numbers, Proper, ValueAt, Expect, Stops, KeyAt, Quoted, Colon, Assign, Ordered;
    var z := Indent(level) + ([RBRACE] + r);
    var u := Entries(lib, es, i + 1, deeper) + z;
    var b := Body(lib, es[i].value, deeper) + u;
    AfterEntries(lib, es, i + 1, level, deeper, r);
    KeyRead(es[i].key, deeper, deeper, b, t);
    ValueRead(lib, es[i].value, deeper, u);
    FirstByte(lib, Build, b);
    Unspaced(lib, Build, KeyAt(t).rest, b);
    NextKey(es, i);
    if i + 1 < |es| {
      EntriesUnfold(lib, es, i + 1, deeper, z);
      var q := Quoted(es[i + 1].key) +
        (Colon(deeper) + (Body(lib, es[i + 1].value, deeper) + (Entries(lib, es, i + 2, deeper) + z)));
      assert u == [COMMA] + (Indent(deeper) + q);
      Comma(Indent(deeper) + q);
      SkipIndent(deeper, q);
      QuoteFirst(es[i + 1].key, Colon(deeper) + (Body(lib, es[i + 1].value, deeper) + (Entries(lib, es, i + 2, deeper) + z)));
      MembersRead(lib, es, i + 1, level, deeper, Indent(deeper) + q, r);
    } else {
      ExpectMiss(COMMA, RBRACE, level, r);
      Close(RBRACE, r);
      assert es[..i + 1] == es;
    }
  }

  lemma QuoteFirst(key: Text, t: Text)
    ensures var q := Quoted(key) + t; q != [] && q[0] == QUOTE && SkipWs(q) == q
  {
    hide Escapes;
  }

  lemma {:induction false} ObjectRead(lib: Library, es: seq<Entry>, level: int, r: Text)
    requires level >= -1 && Ordered(es)
    requires forall j :: 0 <= j < |es| ==> Proper(es[j].value) && Numbers(lib, es[j].value)
    ensures ValueAt(lib, Build, Body(lib, Obj(es), level) + r) == Parsed(Good, Obj(es), r)
    decreases es
  {
    hide Entries, Indent, MembersAt, Expect, Numbers, Proper, SkipWs, Quoted, Ordered, Colon;
    var z := Indent(level) + ([RBRACE] + r);
    var d := Deeper(level);
    ObjectText(lib, es, level, r);
    if es == [] {
      Close(RBRACE, r);
    } else {
      hide Body;
      var first := Quoted(es[0].key) + (Colon(d) + (Body(lib, es[0].value, d) + (Entries(lib, es, 1, d) + z)));
      EntriesUnfold(lib, es, 0, d, z);
      assert Entries(lib, es, 0, d) + z == Indent(d) + first;
      SkipIndent(d, first);
      QuoteFirst(es[0].key, Colon(d) + (Body(lib, es[0].value, d) + (Entries(lib, es, 1, d) + z)));
      NotYet(RBRACE, Indent(d) + first, first);
      MembersRead(lib, es, 0, level, d, first, r);
      assert es[..0] == [];
    }
  }

  /** The round trip: for every value tree, compact or prettified, and any text after it that could
      not be more of a number, the parser builds the value and stops at the end of it. */
  lemma SerializeThenParse(lib: Library, v: Value, pretty: bool, r: Text)
    requires Proper(v) && Numbers(lib, v) && (v.Number? && !pretty ==> Stops(r))
    ensures AnyValue(lib, Build, Serialized(lib, v, if pretty then 0 else -1) + r)
      == Parsed(Good, v, if pretty then [LF] + r else r)
  {
    hide Body, ValueAt, SkipWs, Proper, Numbers;
    var level, rest := if pretty then 0 else -1, if pretty then [LF] + r else r;
    Join(Body(lib, v, level), if pretty then [LF] else [], r);
    assert (if pretty then [LF] else []) + r == rest;
    ValueRead(lib, v, level, rest);
    FirstByte(lib, Build, Body(lib, v, level) + rest);
  }
}
