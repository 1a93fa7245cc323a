/** picojson's values and their serialization. Text is a sequence of bytes. */
module JsonText {

  import opened Bytes

  const TAB: Byte := 9
  const LF: Byte := 10
  const CR: Byte := 13
  const SPACE: Byte := 32
  const QUOTE: Byte := 34
  const PLUS: Byte := 43
  const COMMA: Byte := 44
  const MINUS: Byte := 45
  const POINT: Byte := 46
  const SLASH: Byte := 47
  const ZERO: Byte := 48
  const COLON: Byte := 58
  const LBRACKET: Byte := 91
  const BACKSLASH: Byte := 92
  const RBRACKET: Byte := 93
  const LOWER_A: Byte := 97
  const LOWER_E: Byte := 101
  const LOWER_U: Byte := 117
  const UPPER_E: Byte := 69
  const LBRACE: Byte := 123
  const RBRACE: Byte := 125
  const NULL_TEXT: Text := [110, 117, 108, 108]         // null
  const TRUE_TEXT: Text := [116, 114, 117, 101]         // true
  const FALSE_TEXT: Text := [102, 97, 108, 115, 101]    // false
  const EXACT := 0x20_0000_0000_0000                    // 2^53

  datatype Entry = Entry(key: Text, value: Value)

  /** The entries of an object stand in the order of its std::map. */
  datatype Value =
    | Null
    | Bool(b: bool)
    | Number(x: real)
    | Str(s: Text)
    | Arr(items: seq<Value>)
    | Obj(entries: seq<Entry>)

  /** What strtod makes of a text: not all of it a number, too large, or a finite number. */
  datatype Read = Junk | Overflow | Finite(x: real)

  /** The two library calls: "%.17g" and strtod. */
  datatype Library = Library(format: real -> Text, strtod: Text -> Read)

  // ---------- keys ----------

  /** The order of std::string. */
  predicate Less(a: Text, b: Text)
  {
    if b == [] then false
    else if a == [] then true
    else a[0] < b[0] || (a[0] == b[0] && Less(a[1..], b[1..]))
  }

  lemma {:induction false} LessIsAnOrder(a: Text, b: Text)
    ensures !(Less(a, b) && Less(b, a)) && !Less(a, a)
    ensures Less(a, b) || a == b || Less(b, a)
  {
    if a != [] && b != [] {
      LessIsAnOrder(a[1..], b[1..]);
      assert a == [a[0]] + a[1..] && b == [b[0]] + b[1..];
      LessIsAnOrder(a[1..], a[1..]);
    } else if a != [] {
      LessIsAnOrder(a[1..], a[1..]);
    }
  }

  lemma {:induction false} LessIsTransitive(a: Text, b: Text, c: Text)
    requires Less(a, b) && Less(b, c)
    ensures Less(a, c)
  {
    if a != [] && a[0] == b[0] == c[0] {
      LessIsTransitive(a[1..], b[1..], c[1..]);
    }
  }

  predicate Ordered(es: seq<Entry>)
  {
    forall i, j :: 0 <= i < j < |es| ==> Less(es[i].key, es[j].key)
  }

  /** std::map's o[key] = v. */
  function Assign(es: seq<Entry>, key: Text, v: Value): seq<Entry>
  {
    if es == [] then [Entry(key, v)]
    else if key == es[0].key then [Entry(key, v)] + es[1..]
    else if Less(key, es[0].key) then [Entry(key, v)] + es
    else [es[0]] + Assign(es[1..], key, v)
  }

  /** The entry with the given key, Null when there is none. */
  function Lookup(es: seq<Entry>, key: Text): Value
  {
    if es == [] then Null
    else if es[0].key == key then es[0].value
    else Lookup(es[1..], key)
  }

  /** Assigning keeps the order and the uniqueness of the keys, and changes what one key finds. */
  lemma {:induction false} AssignIsMapUpdate(es: seq<Entry>, key: Text, v: Value, other: Text)
    requires Ordered(es)
    ensures Ordered(Assign(es, key, v))
    ensures Lookup(Assign(es, key, v), other) == if other == key then v else Lookup(es, other)
    ensures forall e {:trigger e in Assign(es, key, v)} :: e in Assign(es, key, v) ==> e in es || e == Entry(key, v)
  {
    if es != [] {
      LessIsAnOrder(key, es[0].key);
      var rest := es[1..];
      AssignIsMapUpdate(rest, key, v, other);
      if key == es[0].key {
      } else if Less(key, es[0].key) {
        forall j | 0 <= j < |es| ensures Less(key, es[j].key) {
          if j > 0 { LessIsTransitive(key, es[0].key, es[j].key); }
        }
      } else {
        var more := Assign(rest, key, v);
        forall j | 0 <= j < |more| ensures Less(es[0].key, more[j].key) {
          assert more[j] in more;
        }
      }
    }
  }

  /** A key above all others goes to the end. */
  lemma {:induction false} AssignLast(es: seq<Entry>, key: Text, v: Value)
    requires forall e :: e in es ==> Less(e.key, key)
    ensures Assign(es, key, v) == es + [Entry(key, v)]
  {
    if es != [] {
      LessIsAnOrder(es[0].key, key);
      assert es[0] in es;
      AssignLast(es[1..], key, v);
    }
  }

  /** Keys unique and in order throughout: what every object built through std::map satisfies. */
  predicate Proper(v: Value)
  {
    match v
    case Arr(items) => forall i :: 0 <= i < |items| ==> Proper(items[i])
    case Obj(entries) => Ordered(entries) && forall i :: 0 <= i < |entries| ==> Proper(entries[i].value)
    case _ => true
  }

  // ---------- numbers ----------

  function Digits(n: nat): (r: Text)
    ensures |r| > 0
  {
    if n < 10 then [ZERO + n] else Digits(n / 10) + [ZERO + n % 10]
  }

  function Decimal(n: int): Text
  {
    if n < 0 then [MINUS] + Digits(-n) else Digits(n)
  }

  predicate IsDigit(c: Byte)
  {
    ZERO <= c <= ZERO + 9
  }

  predicate AllDigits(t: Text)
  {
    forall i :: 0 <= i < |t| ==> IsDigit(t[i])
  }

  function DigitAt(t: Text, i: nat): nat
    requires AllDigits(t) && i < |t|
  {
    assert IsDigit(t[i]);
    t[i] - ZERO
  }

  function DigitsValue(t: Text): nat
    requires AllDigits(t)
  {
    if t == [] then 0 else DigitsValue(t[..|t| - 1]) * 10 + DigitAt(t, |t| - 1)
  }

  /** An optional minus sign and digits. */
  predicate IsInteger(t: Text)
  {
    t != [] && var u := if t[0] == MINUS then t[1..] else t; u != [] && AllDigits(u)
  }

  function IntegerValue(t: Text): int
    requires IsInteger(t)
  {
    var n: int := DigitsValue(if t[0] == MINUS then t[1..] else t);
    if t[0] == MINUS then -n else n
  }

  /** strtod is exact on integers below 2^53; beyond them it is the library's. */
  function Strtod(lib: Library, t: Text): Read
  {
    if IsInteger(t) && -EXACT < IntegerValue(t) < EXACT then Finite(IntegerValue(t) as real) else lib.strtod(t)
  }

  /** to_str for a number: "%.f" for an integer below 2^53, otherwise "%.17g". */
  predicate Whole(x: real)
  {
    -(EXACT as real) < x < EXACT as real && x == x.Floor as real
  }

  function NumberText(lib: Library, x: real): Text
  {
    if Whole(x) then Decimal(x.Floor) else lib.format(x)
  }

  predicate NumberByte(c: Byte)
  {
    IsDigit(c) || c == PLUS || c == MINUS || c == LOWER_E || c == UPPER_E || c == POINT
  }

  /** A text the parser takes for a number and whose bytes it collects all of. */
  predicate NumberLike(t: Text)
  {
    t != [] && (IsDigit(t[0]) || t[0] == MINUS) && forall i :: 0 <= i < |t| ==> NumberByte(t[i])
  }

  lemma {:induction false} DigitsRoundTrip(n: nat)
    ensures AllDigits(Digits(n)) && DigitsValue(Digits(n)) == n
    ensures n > 0 ==> Digits(n)[0] != 48
  {
    if n >= 10 {
      DigitsRoundTrip(n / 10);
      assert Digits(n)[..|Digits(n)| - 1] == Digits(n / 10);
    } else {
      assert Digits(n)[..0] == [];
    }
  }

  /** Reading back the decimal text of an integer below 2^53. */
  lemma DecimalRoundTrip(lib: Library, n: int)
    requires -9007199254740992 < n < 9007199254740992
    ensures NumberLike(Decimal(n)) && Strtod(lib, Decimal(n)) == Finite(n as real)
  {
    var m := if n < 0 then -n else n;
    DigitsRoundTrip(m);
    assert Digits(m)[0] != MINUS;
    if n < 0 { assert Decimal(n)[1..] == Digits(m); }
  }

  /** The library reads its own text of x back as x: no condition on integers below 2^53, and the
      promise of "%.17g" for other numbers. */
  predicate Faithful(lib: Library, x: real)
  {
    Whole(x) || (NumberLike(lib.format(x)) && Strtod(lib, lib.format(x)) == Finite(x))
  }

  lemma NumberRoundTrip(lib: Library, x: real)
    requires Faithful(lib, x)
    ensures NumberLike(NumberText(lib, x)) && Strtod(lib, NumberText(lib, x)) == Finite(x)
  {
    if Whole(x) { DecimalRoundTrip(lib, x.Floor); }
  }

  predicate Numbers(lib: Library, v: Value)
  {
    match v
    case Number(x) => Faithful(lib, x)
    case Arr(items) => forall i :: 0 <= i < |items| ==> Numbers(lib, items[i])
    case Obj(entries) => forall i :: 0 <= i < |entries| ==> Numbers(lib, entries[i].value)
    case _ => true
  }

  // ---------- serialization ----------

  function HexDigit(n: nat): Byte
    requires n < 16
  {
    if n < 10 then ZERO + n else LOWER_A + n - 10
  }

  function Escape(c: Byte): (r: Text)
    ensures |r| > 0
  {
    if c == QUOTE || c == BACKSLASH || c == SLASH then [BACKSLASH, c]
    else if c == 8 then [BACKSLASH, 98]       // b
    else if c == 12 then [BACKSLASH, 102]     // f
    else if c == LF then [BACKSLASH, 110]     // n
    else if c == CR then [BACKSLASH, 114]     // r
    else if c == TAB then [BACKSLASH, 116]    // t
    else if c < 0x20 || c == 0x7f then [BACKSLASH, LOWER_U, ZERO, ZERO, HexDigit(c / 16), HexDigit(c % 16)]
    else [c]
  }

  function Escapes(s: Text): Text
  {
    if s == [] then [] else Escape(s[0]) + Escapes(s[1..])
  }

  function Quoted(s: Text): Text
  {
    [QUOTE] + Escapes(s) + [QUOTE]
  }

  function Spaces(n: nat): Text
  {
    if n == 0 then [] else [SPACE] + Spaces(n - 1)
  }

  /** A line break and two spaces for each level; nothing in compact form, whose level is -1. */
  function Indent(level: int): Text
    requires level >= -1
  {
    if level == -1 then [] else [LF] + Spaces(2 * level)
  }

  /** A line feed and exactly two spaces for each level. */
  lemma IndentWidth(level: int)
    requires level >= -1
    ensures |Indent(level)| == if level == -1 then 0 else 1 + 2 * level
    ensures forall i :: 0 <= i < |Indent(level)| ==> Indent(level)[i] == if i == 0 then 10 else 32
  {
    if level >= 0 { SpacesWidth(2 * level); }
  }

  lemma {:induction false} SpacesWidth(n: nat)
    ensures |Spaces(n)| == n && forall i :: 0 <= i < n ==> Spaces(n)[i] == 32
  {
    if n > 0 { SpacesWidth(n - 1); }
  }

  function Deeper(level: int): (r: int)
    requires level >= -1
  {
    if level == -1 then -1 else level + 1
  }

  /** The text of a value without the line break that ends a prettified document. */
  function Body(lib: Library, v: Value, level: int): Text
    requires level >= -1
    decreases v
  {
    match v
    case Null => NULL_TEXT
    case Bool(b) => if b then TRUE_TEXT else FALSE_TEXT
    case Number(x) => NumberText(lib, x)
    case Str(s) => Quoted(s)
    case Arr(items) =>
      [LBRACKET] + Items(lib, items, 0, Deeper(level)) + (if items == [] then [] else Indent(level)) + [RBRACKET]
    case Obj(entries) =>
      [LBRACE] + Entries(lib, entries, 0, Deeper(level)) + (if entries == [] then [] else Indent(level)) + [RBRACE]
  }

  /** Items from the i-th on. */
  function Items(lib: Library, items: seq<Value>, i: nat, level: int): Text
    requires i <= |items| && level >= -1
    decreases items, |items| - i
  {
    if i == |items| then []
    else (if i > 0 then [COMMA] else []) + Indent(level) + Body(lib, items[i], level) + Items(lib, items, i + 1, level)
  }

  /** Entries from the i-th on. */
  function Entries(lib: Library, es: seq<Entry>, i: nat, level: int): Text
    requires i <= |es| && level >= -1
    decreases es, |es| - i
  {
    if i == |es| then []
    else
      (if i > 0 then [COMMA] else []) + Indent(level) + Quoted(es[i].key) + Colon(level) +
      Body(lib, es[i].value, level) + Entries(lib, es, i + 1, level)
  }

  function Colon(level: int): Text
  {
    if level == -1 then [COLON] else [COLON, SPACE]
  }

  /** The whole serialization: level -1 is compact, 0 prettified. */
  function Serialized(lib: Library, v: Value, level: int): Text
    requires level >= -1
  {
    Body(lib, v, level) + if level == 0 then [LF] else []
  }

  // ---------- the serializer ----------

  lemma ItemsStep(lib: Library, items: seq<Value>, i: nat, level: int, r: Text)
    requires i < |items| && level >= -1
    ensures r + Items(lib, items, i, level) ==
      r + (if i > 0 then [COMMA] else []) + Indent(level) + Body(lib, items[i], level) + Items(lib, items, i + 1, level)
  {
    hide Indent, Body;
    var c, n, b := if i > 0 then [COMMA] else [], Indent(level), Body(lib, items[i], level);
    var m := Items(lib, items, i + 1, level);
    hide Items;
    Join(r, c + n + b, m);
    Join(r, c + n, b);
    Join(r, c, n);
  }

  lemma EntriesStep(lib: Library, es: seq<Entry>, i: nat, level: int, r: Text)
    requires i < |es| && level >= -1
    ensures r + Entries(lib, es, i, level) ==
      r + (if i > 0 then [COMMA] else []) + Indent(level) + Quoted(es[i].key) + Colon(level) +
      Body(lib, es[i].value, level) + Entries(lib, es, i + 1, level)
  {
    hide Indent, Body, Quoted, Colon;
    var c, n, k, o, b, m := if i > 0 then [COMMA] else [], Indent(level), Quoted(es[i].key), Colon(level),
      Body(lib, es[i].value, level), Entries(lib, es, i + 1, level);
    hide Entries;
    Join(r, c + n + k + o + b, m);
    Join(r, c + n + k + o, b);
    Join(r, c + n + k, o);
    Join(r, c + n, k);
    Join(r, c, n);
  }

  lemma Bracketed(out: Text, open: Byte, a: Text, b: Text, close: Byte)
    ensures out + ([open] + a + b + [close]) == out + [open] + a + b + [close]
  {
    Join(out, [open] + a + b, [close]);
    Join(out, [open] + a, b);
    Join(out, [open], a);
  }

  method SerializeStr(s: Text, out: Text) returns (r: Text)
    ensures r == out + Quoted(s)
  {
    r := out + [QUOTE];
    var i := 0;
    while i < |s|
      invariant i <= |s| && r + Escapes(s[i..]) == out + [QUOTE] + Escapes(s)
    {
      assert s[i..][1..] == s[i + 1..];
      assert r + Escapes(s[i..]) == r + Escape(s[i]) + Escapes(s[i + 1..]);
      r := r + Escape(s[i]);
      i := i + 1;
    }
    assert r == r + Escapes(s[|s|..]);
    r := r + [QUOTE];
    assert r == out + Quoted(s);
  }

  method Indented(level: nat, out: Text) returns (r: Text)
    ensures r == out + Indent(level)
  {
    hide Spaces;
    r := out + [LF];
    var i := 0;
    while i < level * 2
      invariant i <= level * 2 && r + Spaces(level * 2 - i) == out + [LF] + Spaces(2 * level)
    {
      SpacesStep(level * 2 - i, r);
      r := r + [SPACE];
      i := i + 1;
    }
    SpacesStep(0, r);
    Join(out, [LF], Spaces(2 * level));
  }

  lemma SpacesStep(n: nat, r: Text)
    ensures r + Spaces(n) == if n == 0 then r else r + [SPACE] + Spaces(n - 1)
  {
    if n > 0 { Join(r, [SPACE], Spaces(n - 1)); }
  }

  method Serialize(lib: Library, v: Value, level: int, out: Text) returns (r: Text)
    requires level >= -1
    ensures r == out + Serialized(lib, v, level)
    decreases v
  {
    hide Quoted, NumberText, Items, Entries;
    match v {
      case Null => r := out + NULL_TEXT;
      case Bool(b) => r := out + if b then TRUE_TEXT else FALSE_TEXT;
      case Number(x) => r := out + NumberText(lib, x);
      case Str(s) => r := SerializeStr(s, out);
      case Arr(items) => r := SerializeArray(lib, items, level, out);
      case Obj(entries) => r := SerializeObject(lib, entries, level, out);
    }
    assert r == out + Body(lib, v, level);
    hide Body;
    Join(out, Body(lib, v, level), [LF]);
    if level == 0 { r := r + [LF]; }
  }

  method SerializeArray(lib: Library, items: seq<Value>, level: int, out: Text) returns (r: Text)
    requires level >= -1
    ensures r == out + Body(lib, Arr(items), level)
    decreases items
  {
    hide Items, Indent;
    r := out + [LBRACKET];
    var i, deeper := 0, Deeper(level);
    Bracketed(out, LBRACKET, Items(lib, items, 0, deeper), if items == [] then [] else Indent(level), RBRACKET);
    assert Body(lib, Arr(items), level) ==
      [LBRACKET] + Items(lib, items, 0, deeper) + (if items == [] then [] else Indent(level)) + [RBRACKET];
    hide Body;
    while i < |items|
      invariant i <= |items| && r + Items(lib, items, i, deeper) == out + [LBRACKET] + Items(lib, items, 0, deeper)
    {
      ItemsStep(lib, items, i, deeper, r);
      r := ArrayItem(lib, items, i, deeper, r);
      i := i + 1;
    }
    ItemsEnd(lib, items, deeper, r);
    if level != -1 && items != [] { r := Indented(level, r); }
    IndentNone(r);
    r := r + [RBRACKET];
  }

  /** One turn of the array loop. */
  method ArrayItem(lib: Library, items: seq<Value>, i: nat, level: int, out: Text) returns (r: Text)
    requires i < |items| && level >= -1 && level != 0
    ensures r == out + (if i > 0 then [COMMA] else []) + Indent(level) + Body(lib, items[i], level)
    decreases items, 0
  {
    hide Indent, Body;
    r := out;
    if i > 0 { r := r + [COMMA]; }
    assert r == out + (if i > 0 then [COMMA] else []);
    IndentNone(r);
    if level != -1 { r := Indented(level, r); }
    r := Serialize(lib, items[i], level, r);
  }

  lemma ItemsEnd(lib: Library, items: seq<Value>, level: int, r: Text)
    requires level >= -1
    ensures r + Items(lib, items, |items|, level) == r
  {
  }

  lemma EntriesEnd(lib: Library, es: seq<Entry>, level: int, r: Text)
    requires level >= -1
    ensures r + Entries(lib, es, |es|, level) == r
  {
  }

  lemma IndentNone(r: Text)
    ensures r + Indent(-1) == r && r + [] == r
  {
  }

  method SerializeObject(lib: Library, es: seq<Entry>, level: int, out: Text) returns (r: Text)
    requires level >= -1
    ensures r == out + Body(lib, Obj(es), level)
    decreases es
  {
    hide Entries, Indent;
    r := out + [LBRACE];
    var i, deeper := 0, Deeper(level);
    Bracketed(out, LBRACE, Entries(lib, es, 0, deeper), if es == [] then [] else Indent(level), RBRACE);
    assert Body(lib, Obj(es), level) ==
      [LBRACE] + Entries(lib, es, 0, deeper) + (if es == [] then [] else Indent(level)) + [RBRACE];
    hide Body;
    while i < |es|
      invariant i <= |es| && r + Entries(lib, es, i, deeper) == out + [LBRACE] + Entries(lib, es, 0, deeper)
    {
      EntriesStep(lib, es, i, deeper, r);
      r := ObjectEntry(lib, es, i, deeper, r);
      i := i + 1;
    }
    EntriesEnd(lib, es, deeper, r);
    if level != -1 && es != [] { r := Indented(level, r); }
    IndentNone(r);
    r := r + [RBRACE];
  }

  /** One turn of the object loop. */
  method ObjectEntry(lib: Library, es: seq<Entry>, i: nat, level: int, out: Text) returns (r: Text)
    requires i < |es| && level >= -1 && level != 0
    ensures r == out + (if i > 0 then [COMMA] else []) + Indent(level) + Quoted(es[i].key) + Colon(level) +
      Body(lib, es[i].value, level)
    decreases es, 0
  {
    hide Indent, Quoted, Body;
    r := out;
    if i > 0 { r := r + [COMMA]; }
    assert r == out + (if i > 0 then [COMMA] else []);
    IndentNone(r);
    if level != -1 { r := Indented(level, r); }
    r := SerializeStr(es[i].key, r);
    ghost var r0 := r;
    r := r + [COLON];
    if level != -1 { r := r + [SPACE]; }
    assert r == r0 + Colon(level);
    r := Serialize(lib, es[i].value, level, r);
  }
}
