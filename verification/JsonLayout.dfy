/** White space in JSON texts, and the reading of a value tree laid out in any way: with any white space
    between its tokens, and the members of its objects in any order. */
module JsonLayout {
  import opened Bytes
  import opened JsonText
  import opened JsonGrammar
  import opened JsonRoundTrip

  // ---------- white space ----------

  /** Tab, line feed, carriage return and space are skipped, and nothing else is. */
  lemma SkipsExactly(c: Byte, t: Text)
    ensures SkipWs([c] + t) == if c == 9 || c == 10 || c == 13 || c == 32 then SkipWs(t) else [c] + t
  {
    assert ([c] + t)[1..] == t;
  }

  predicate White(t: Text)
  {
    forall i :: 0 <= i < |t| ==> t[i] == 9 || t[i] == 10 || t[i] == 13 || t[i] == 32
  }

  lemma {:induction false} SkipsWhite(w: Text, t: Text)
    requires White(w)
    ensures SkipWs(w + t) == SkipWs(t)
  {
    hide SkipWs;
    if w == [] {
      assert w + t == t;
    } else {
      assert w + t == [w[0]] + (w[1..] + t);
      SkipsExactly(w[0], w[1..] + t);
      SkipsWhite(w[1..], t);
    }
  }

  /** A byte that is not white space is found behind white space. */
  lemma ExpectBehind(c: Byte, w: Text, d: Byte, t: Text)
    requires White(w) && d !in {9, 10, 13, 32}
    ensures Expect(c, w + ([d] + t)) == if c == d then Scan(true, t) else Scan(false, [d] + t)
  {
    hide SkipWs;
    SkipsWhite(w, [d] + t);
    SkipsExactly(d, t);
    assert ([d] + t)[1..] == t;
  }

  // ---------- which bytes begin what ----------

  /** A number is made of digits, + - . e and E. */
  lemma NumberBytesExactly(c: Byte, t: Text)
    ensures NumberPrefix([c] + t) ==
      if 48 <= c <= 57 || c == 43 || c == 45 || c == 46 || c == 69 || c == 101 then [c] + NumberPrefix(t) else []
  {
    assert ([c] + t)[1..] == t;
  }

  /** A value begins with n, f, t, a quote, a bracket, a brace, a minus sign or a digit. */
  lemma FirstBytesOnly(lib: Library, k: Context, c: Byte, t: Text)
    requires c !in {110, 102, 116, 34, 91, 123, 45} && !(48 <= c <= 57)
    ensures ValueAt(lib, k, [c] + t) == Parsed(Bad, Null, [c] + t)
  {
    hide StringAt, ArrayAt, ObjectAt, Keyword, NumberAt;
  }

  /** A string cannot hold a control byte. */
  lemma ControlRefused(c: Byte, t: Text, acc: Text)
    requires c < 32
    ensures StringRest([c] + t, acc) == Scanned(false, acc, [c] + t)
  {
  }

  /** A low surrogate is refused, and a high one unless an escaped low one follows. */
  lemma LoneSurrogateRefused(n: nat, t: Text)
    requires 0xd800 <= n <= 0xdfff
    ensures Codepoint(HexText(n) + t).ok <==>
      n <= 0xdbff && |t| > 1 && t[0] == 92 && t[1] == 117 && 0xdc00 <= QuadHex(t[2..], 4, 0).value <= 0xdfff
  {
    hide QuadHex, HexText, Encode;
    QuadRead(n, t);
  }

  // ---------- layouts ----------

  /** A value tree with the white space around its tokens. An empty array or object has one gap. */
  datatype Laid = Leaf(v: Value) | LaidArr(gap: Text, items: seq<Item>) | LaidObj(gap: Text, members: seq<Member>)
  datatype Item = Item(before: Text, value: Laid, after: Text)
  datatype Member = Member(before: Text, key: Text, afterKey: Text, beforeValue: Text, value: Laid, after: Text)

  predicate WellLaid(lib: Library, d: Laid)
  {
    match d
    case Leaf(v) => !v.Arr? && !v.Obj? && Numbers(lib, v)
    case LaidArr(gap, items) =>
      White(gap) && forall i :: 0 <= i < |items| ==>
        White(items[i].before) && White(items[i].after) && WellLaid(lib, items[i].value)
    case LaidObj(gap, ms) =>
      White(gap) && forall i :: 0 <= i < |ms| ==>
        White(ms[i].before) && White(ms[i].afterKey) && White(ms[i].beforeValue) && White(ms[i].after) &&
        WellLaid(lib, ms[i].value)
  }

  function LaidText(lib: Library, d: Laid): Text
    decreases d
  {
    match d
    case Leaf(v) => Body(lib, v, -1)
    case LaidArr(gap, items) => [LBRACKET] + ((if items == [] then gap else ItemsText(lib, items, 0)) + [RBRACKET])
    case LaidObj(gap, ms) => [LBRACE] + ((if ms == [] then gap else MembersText(lib, ms, 0)) + [RBRACE])
  }

  function ItemsText(lib: Library, items: seq<Item>, i: nat): Text
    requires i <= |items|
    decreases items, |items| - i
  {
    if i == |items| then [] else
      (if i > 0 then [COMMA] else []) +
      (items[i].before + (LaidText(lib, items[i].value) + (items[i].after + ItemsText(lib, items, i + 1))))
  }

  function MembersText(lib: Library, ms: seq<Member>, i: nat): Text
    requires i <= |ms|
    decreases ms, |ms| - i
  {
    if i == |ms| then [] else
      (if i > 0 then [COMMA] else []) + (ms[i].before + (Quoted(ms[i].key) + (ms[i].afterKey + ([COLON] +
      (ms[i].beforeValue + (LaidText(lib, ms[i].value) + (ms[i].after + MembersText(lib, ms, i + 1))))))))
  }

  /** The value laid out. A repeated key has the value given last. */
  function LaidValue(d: Laid): Value
    decreases d
  {
    match d
    case Leaf(v) => v
    case LaidArr(_, items) => Arr(ItemValues(items, |items|))
    case LaidObj(_, ms) => Obj(MemberValues(ms, |ms|))
  }

  /** The first i items. */
  function ItemValues(items: seq<Item>, i: nat): seq<Value>
    requires i <= |items|
    decreases items, i
  {
    if i == 0 then [] else ItemValues(items, i - 1) + [LaidValue(items[i - 1].value)]
  }

  function MemberValues(ms: seq<Member>, i: nat): seq<Entry>
    requires i <= |ms|
    decreases ms, i
  {
    if i == 0 then [] else Assign(MemberValues(ms, i - 1), ms[i - 1].key, LaidValue(ms[i - 1].value))
  }

  // ---------- reading them ----------

  /** White space or a byte that ends a value stops a number. */
  lemma StopsBehind(w: Text, c: Byte, t: Text)
    requires White(w) && c in {COMMA, RBRACKET, RBRACE}
    ensures Stops(w + ([c] + t))
  {
    if w != [] { assert (w + ([c] + t))[0] == w[0]; }
  }

  lemma ItemsCut(lib: Library, items: seq<Item>, i: nat, z: Text)
    requires i < |items|
    ensures ItemsText(lib, items, i) + z == (if i > 0 then [COMMA] else []) +
      (items[i].before + (LaidText(lib, items[i].value) + (items[i].after + (ItemsText(lib, items, i + 1) + z))))
  {
    hide LaidText;
    var it := items[i];
    var m := ItemsText(lib, items, i + 1);
    var v := LaidText(lib, it.value);
    Join(it.after, m, z);
    Join(v, it.after + m, z);
    Join(it.before, v + (it.after + m), z);
    Join(if i > 0 then [COMMA] else [], it.before + (v + (it.after + m)), z);
  }

  lemma MembersCut(lib: Library, ms: seq<Member>, i: nat, z: Text)
    requires i < |ms|
    ensures MembersText(lib, ms, i) + z == (if i > 0 then [COMMA] else []) + (ms[i].before + (Quoted(ms[i].key) +
      (ms[i].afterKey + ([COLON] + (ms[i].beforeValue + (LaidText(lib, ms[i].value) + (ms[i].after +
      (MembersText(lib, ms, i + 1) + z))))))))
  {
    hide LaidText, Quoted;
    var x := ms[i];
    var m, v := MembersText(lib, ms, i + 1), LaidText(lib, x.value);
    var a := x.after + m;
    var b := x.beforeValue + (v + a);
    Join(x.after, m, z);
    Join(v, a, z);
    Join(x.beforeValue, v + a, z);
    Join([COLON], b, z);
    Join(x.afterKey, [COLON] + b, z);
    Join(Quoted(x.key), x.afterKey + ([COLON] + b), z);
    Join(x.before, Quoted(x.key) + (x.afterKey + ([COLON] + b)), z);
    Join(if i > 0 then [COMMA] else [], x.before + (Quoted(x.key) + (x.afterKey + ([COLON] + b))), z);
  }

  /** What comes behind item i - 1: white space, then a comma and more, or the bracket. */
  lemma AfterItem(lib: Library, items: seq<Item>, i: nat, r: Text)
    requires 0 < i <= |items| && White(items[i - 1].after)
    ensures var u := items[i - 1].after + (ItemsText(lib, items, i) + ([RBRACKET] + r));
      && Stops(u)
      && (i == |items| ==> !Expect(COMMA, u).ok && Expect(RBRACKET, Expect(COMMA, u).rest) == Scan(true, r))
      && (i < |items| ==> Expect(COMMA, u) == Scan(true, items[i].before + (LaidText(lib, items[i].value) +
           (items[i].after + (ItemsText(lib, items, i + 1) + ([RBRACKET] + r))))))
  {
    hide LaidText, Expect, Stops;
    var w := items[i - 1].after;
    if i < |items| {
      ItemsCut(lib, items, i, [RBRACKET] + r);
      var t := items[i].before + (LaidText(lib, items[i].value) +
        (items[i].after + (ItemsText(lib, items, i + 1) + ([RBRACKET] + r))));
      hide ItemsText;
      StopsBehind(w, COMMA, t);
      ExpectBehind(COMMA, w, COMMA, t);
    } else {
      assert ItemsText(lib, items, i) + ([RBRACKET] + r) == [RBRACKET] + r;
      StopsBehind(w, RBRACKET, r);
      ExpectBehind(COMMA, w, RBRACKET, r);
      ExpectBehind(RBRACKET, [], RBRACKET, r);
      assert [] + ([RBRACKET] + r) == [RBRACKET] + r;
    }
  }

  lemma AfterMember(lib: Library, ms: seq<Member>, i: nat, r: Text)
    requires 0 < i <= |ms| && White(ms[i - 1].after)
    ensures var u := ms[i - 1].after + (MembersText(lib, ms, i) + ([RBRACE] + r));
      && Stops(u)
      && (i == |ms| ==> !Expect(COMMA, u).ok && Expect(RBRACE, Expect(COMMA, u).rest) == Scan(true, r))
      && (i < |ms| ==> Expect(COMMA, u) == Scan(true, ms[i].before + (Quoted(ms[i].key) + (ms[i].afterKey + ([COLON] +
           (ms[i].beforeValue + (LaidText(lib, ms[i].value) + (ms[i].after +
           (MembersText(lib, ms, i + 1) + ([RBRACE] + r))))))))))
  {
    hide LaidText, Expect, Stops, Quoted;
    var w := ms[i - 1].after;
    if i < |ms| {
      MembersCut(lib, ms, i, [RBRACE] + r);
      var t := ms[i].before + (Quoted(ms[i].key) + (ms[i].afterKey + ([COLON] + (ms[i].beforeValue +
        (LaidText(lib, ms[i].value) + (ms[i].after + (MembersText(lib, ms, i + 1) + ([RBRACE] + r))))))));
      hide MembersText;
      StopsBehind(w, COMMA, t);
      ExpectBehind(COMMA, w, COMMA, t);
    } else {
      assert MembersText(lib, ms, i) + ([RBRACE] + r) == [RBRACE] + r;
      StopsBehind(w, RBRACE, r);
      ExpectBehind(COMMA, w, RBRACE, r);
      ExpectBehind(RBRACE, [], RBRACE, r);
      assert [] + ([RBRACE] + r) == [RBRACE] + r;
    }
  }

  /** White space before a value that is there makes no difference. */
  lemma BehindWhite(lib: Library, w: Text, t: Text)
    requires White(w) && ValueAt(lib, Build, t).status.Good?
    ensures AnyValue(lib, Build, w + t) == ValueAt(lib, Build, t)
    ensures t != [] && t[0] != RBRACKET && SkipWs(w + t) == t
  {
    hide ValueAt, SkipWs;
    FirstByte(lib, Build, t);
    SkipsWhite(w, t);
  }

  /** The items from the i-th on, the bracket and what follows, read back. */
  lemma {:induction false} LaidItemsRead(lib: Library, items: seq<Item>, i: nat, r: Text)
    requires i < |items| && WellLaid(lib, LaidArr([], items))
    ensures var t := items[i].before + (LaidText(lib, items[i].value) +
        (items[i].after + (ItemsText(lib, items, i + 1) + ([RBRACKET] + r))));
      && ItemsAt(lib, Build, t, ItemValues(items, i)) == Parsed(Good, Arr(ItemValues(items, |items|)), r)
      && SkipWs(t) != [] && SkipWs(t)[0] != RBRACKET
    decreases items, |items| - i
  {
    hide LaidText, ItemsText, AnyValue, ValueAt, Expect, Stops, White, SkipWs;
    var u := items[i].after + (ItemsText(lib, items, i + 1) + ([RBRACKET] + r));
    AfterItem(lib, items, i + 1, r);
    LaidRead(lib, items[i].value, u);
    BehindWhite(lib, items[i].before, LaidText(lib, items[i].value) + u);
    if i + 1 < |items| { LaidItemsRead(lib, items, i + 1, r); }
  }

  lemma {:induction false} LaidMembersRead(lib: Library, ms: seq<Member>, i: nat, r: Text)
    requires i < |ms| && WellLaid(lib, LaidObj([], ms))
    ensures var t := ms[i].before + (Quoted(ms[i].key) + (ms[i].afterKey + ([COLON] + (ms[i].beforeValue +
        (LaidText(lib, ms[i].value) + (ms[i].after + (MembersText(lib, ms, i + 1) + ([RBRACE] + r))))))));
      && MembersAt(lib, Build, t, MemberValues(ms, i)) == Parsed(Good, Obj(MemberValues(ms, |ms|)), r)
      && SkipWs(t) != [] && SkipWs(t)[0] != RBRACE
    decreases ms, |ms| - i
  {
    hide LaidText, MembersText, AnyValue, ValueAt, Expect, Stops, White, SkipWs, KeyAt, Quoted, Assign;
    var u := ms[i].after + (MembersText(lib, ms, i + 1) + ([RBRACE] + r));
    var b := LaidText(lib, ms[i].value) + u;
    AfterMember(lib, ms, i + 1, r);
    LaidRead(lib, ms[i].value, u);
    BehindWhite(lib, ms[i].beforeValue, b);
    LaidKeyRead(ms[i].before, ms[i].key, ms[i].afterKey, ms[i].beforeValue + b);
    if i + 1 < |ms| { LaidMembersRead(lib, ms, i + 1, r); }
  }

  /** A key between white space, and the colon behind it. */
  lemma LaidKeyRead(before: Text, key: Text, after: Text, t: Text)
    requires White(before) && White(after)
    ensures var text := before + (Quoted(key) + (after + ([COLON] + t)));
      KeyAt(text) == Scanned(true, key, t) && SkipWs(text) != [] && SkipWs(text)[0] != RBRACE
  {
    hide Escapes, StringRest, Quoted, SkipWs, Expect, White;
    var q := Quoted(key) + (after + ([COLON] + t));
    QuotedRead(key, after + ([COLON] + t));
    QuoteFirst(key, after + ([COLON] + t));
    SkipsWhite(before, q);
    assert q == [QUOTE] + q[1..];
    QuoteBehind(before, q[1..]);
    ColonBehind(after, t);
  }

  lemma QuoteBehind(w: Text, t: Text)
    requires White(w)
    ensures Expect(QUOTE, w + ([QUOTE] + t)) == Scan(true, t)
  {
    ExpectBehind(QUOTE, w, QUOTE, t);
  }

  lemma ColonBehind(w: Text, t: Text)
    requires White(w)
    ensures Expect(COLON, w + ([COLON] + t)) == Scan(true, t)
  {
    ExpectBehind(COLON, w, COLON, t);
  }

  /** The law of the parser: any layout of a value tree is read as the value, whatever follows it. */
  lemma {:induction false} LaidRead(lib: Library, d: Laid, r: Text)
    requires WellLaid(lib, d) && (d.Leaf? && d.v.Number? ==> Stops(r))
    ensures ValueAt(lib, Build, LaidText(lib, d) + r) == Parsed(Good, LaidValue(d), r)
    decreases d
  {
    assert White([]);
    hide ItemsText, MembersText, ItemsAt, MembersAt, Expect, White, Numbers, Body, Stops;
    match d
    case Leaf(v) => LeafRead(lib, v, -1, r);
    case LaidArr(gap, items) =>
      var m := if items == [] then gap else ItemsText(lib, items, 0);
      Bracketed(LBRACKET, m, RBRACKET, r);
      if items == [] {
        ExpectBehind(RBRACKET, gap, RBRACKET, r);
      } else {
        LaidArrRead(lib, items, r);
      }
    case LaidObj(gap, ms) =>
      var m := if ms == [] then gap else MembersText(lib, ms, 0);
      Bracketed(LBRACE, m, RBRACE, r);
      if ms == [] {
        ExpectBehind(RBRACE, gap, RBRACE, r);
      } else {
        LaidObjRead(lib, ms, r);
      }
  }

  lemma Bracketed(open: Byte, m: Text, close: Byte, r: Text)
    ensures var t := [open] + (m + [close]) + r;
      t != [] && t[0] == open && t[1..] == m + ([close] + r)
  {
  }

  lemma {:induction false} LaidArrRead(lib: Library, items: seq<Item>, r: Text)
    requires items != [] && WellLaid(lib, LaidArr([], items))
    ensures ArrayAt(lib, Build, ItemsText(lib, items, 0) + ([RBRACKET] + r)) == Parsed(Good, LaidValue(LaidArr([], items)), r)
    decreases items, |items| + 1
  {
    hide LaidText, ItemsText, ItemsAt, SkipWs, AnyValue;
    var t := ItemsText(lib, items, 0) + ([RBRACKET] + r);
    ItemsCut(lib, items, 0, [RBRACKET] + r);
    assert t == items[0].before + (LaidText(lib, items[0].value) +
      (items[0].after + (ItemsText(lib, items, 1) + ([RBRACKET] + r))));
    LaidItemsRead(lib, items, 0, r);
    NotYet(RBRACKET, t, SkipWs(t));
    ItemsSkipped(lib, t, []);
  }

  /** The white space before an item may be skipped first. */
  lemma ItemsSkipped(lib: Library, t: Text, acc: seq<Value>)
    ensures ItemsAt(lib, Build, SkipWs(t), acc) == ItemsAt(lib, Build, t, acc)
  {
    hide ValueAt, Expect;
    SkippedTwice(t);
  }

  lemma {:induction false} SkippedTwice(t: Text)
    ensures SkipWs(SkipWs(t)) == SkipWs(t)
  {
    if t != [] && IsSpace(t[0]) { SkippedTwice(t[1..]); }
  }

  lemma {:induction false} LaidObjRead(lib: Library, ms: seq<Member>, r: Text)
    requires ms != [] && WellLaid(lib, LaidObj([], ms))
    ensures ObjectAt(lib, Build, MembersText(lib, ms, 0) + ([RBRACE] + r)) == Parsed(Good, LaidValue(LaidObj([], ms)), r)
    decreases ms, |ms| + 1
  {
    hide LaidText, MembersText, MembersAt, SkipWs, AnyValue, Quoted;
    var t := MembersText(lib, ms, 0) + ([RBRACE] + r);
    MembersCut(lib, ms, 0, [RBRACE] + r);
    assert t == ms[0].before + (Quoted(ms[0].key) + (ms[0].afterKey + ([COLON] + (ms[0].beforeValue +
      (LaidText(lib, ms[0].value) + (ms[0].after + (MembersText(lib, ms, 1) + ([RBRACE] + r))))))));
    LaidMembersRead(lib, ms, 0, r);
    NotYet(RBRACE, t, SkipWs(t));
    MembersSkipped(lib, t, []);
  }

  lemma MembersSkipped(lib: Library, t: Text, acc: seq<Entry>)
    ensures MembersAt(lib, Build, SkipWs(t), acc) == MembersAt(lib, Build, t, acc)
  {
    hide AnyValue, Assign, StringRest;
    SkippedTwice(t);
  }

  /** The same for a whole text, white space before the value included. */
  lemma AnyLayoutRead(lib: Library, w: Text, d: Laid, r: Text)
    requires White(w) && WellLaid(lib, d) && (d.Leaf? && d.v.Number? ==> Stops(r))
    ensures AnyValue(lib, Build, w + (LaidText(lib, d) + r)) == Parsed(Good, LaidValue(d), r)
  {
    hide LaidText, AnyValue, ValueAt, WellLaid, White, Stops;
    LaidRead(lib, d, r);
    BehindWhite(lib, w, LaidText(lib, d) + r);
  }
}
