/** What picojson's parser accepts, builds and leaves unread, as functions on the remaining text. */
module JsonGrammar {
  import opened Bytes
  import opened JsonText

  /** What is left unread, and whether the step succeeded. */
  datatype Scan = Scan(ok: bool, rest: Text)

  datatype Scanned = Scanned(ok: bool, text: Text, rest: Text)

  /** Four hexadecimal digits; the value is -1 on failure. */
  datatype Hex = Hex(value: int, rest: Text)

  /** Thrown is the overflow_error of a value made from an infinite number. */
  datatype Status = Good | Bad | Thrown

  datatype Parsed = Parsed(status: Status, value: Value, rest: Text)

  /** default_parse_context, null_parse_context and deny_parse_context. */
  datatype Context = Build | Validate | Deny

  predicate IsSpace(c: Byte)
  {
    c == SPACE || c == TAB || c == LF || c == CR
  }

  function SkipWs(t: Text): (r: Text)
    ensures |r| <= |t| && (r != [] ==> !IsSpace(r[0]))
  {
    if t != [] && IsSpace(t[0]) then SkipWs(t[1..]) else t
  }

  function Expect(c: Byte, t: Text): (r: Scan)
    ensures |r.rest| <= |t| && (r.ok ==> |r.rest| < |t|)
  {
    var u := SkipWs(t);
    if u != [] && u[0] == c then Scan(true, u[1..]) else Scan(false, u)
  }

  function Match(pattern: Text, t: Text): (r: Scan)
    ensures |r.rest| <= |t|
  {
    if pattern == [] then Scan(true, t)
    else if t != [] && t[0] == pattern[0] then Match(pattern[1..], t[1..])
    else Scan(false, t)
  }

  function HexValue(c: Byte): (r: int)
    ensures -1 <= r < 16
  {
    if IsDigit(c) then c - ZERO
    else if 65 <= c <= 70 then c - 55     // A to F
    else if 97 <= c <= 102 then c - 87    // a to f
    else -1
  }

  function Shift16(n: nat): (r: nat)
    requires n <= 4
    ensures r > 0
  {
    match n case 0 => 1 case 1 => 16 case 2 => 256 case 3 => 4096 case 4 => 65536
  }

  function QuadHex(t: Text, n: nat, acc: nat): (r: Hex)
    requires n <= 4
    ensures |r.rest| <= |t| && -1 <= r.value < (acc + 1) * Shift16(n)
    decreases n
  {
    if n == 0 then Hex(acc, t)
    else if t == [] then Hex(-1, [])
    else if HexValue(t[0]) == -1 then Hex(-1, t)
    else QuadHex(t[1..], n - 1, acc * 16 + HexValue(t[0]))
  }

  /** UTF-8. */
  function Encode(u: nat): Text
    requires u < 0x110000
  {
    if u < 0x80 then [u]
    else if u < 0x800 then [0xc0 + u / 0x40, 0x80 + u % 0x40]
    else if u < 0x10000 then [0xe0 + u / 0x1000, 0x80 + u / 0x40 % 0x40, 0x80 + u % 0x40]
    else [0xf0 + u / 0x40000, 0x80 + u / 0x1000 % 0x40, 0x80 + u / 0x40 % 0x40, 0x80 + u % 0x40]
  }

  /** What follows \u. */
  function Codepoint(t: Text): (r: Scanned)
    ensures |r.rest| <= |t|
  {
    var h := QuadHex(t, 4, 0);
    if h.value == -1 then Scanned(false, [], h.rest)
    else if h.value < 0xd800 || 0xdfff < h.value then Scanned(true, Encode(h.value), h.rest)
    else if 0xdc00 <= h.value then Scanned(false, [], h.rest)
    else if h.rest == [] || h.rest[0] != BACKSLASH then Scanned(false, [], h.rest)
    else if |h.rest| == 1 || h.rest[1] != LOWER_U then Scanned(false, [], h.rest[1..])
    else
      var l := QuadHex(h.rest[2..], 4, 0);
      if 0xdc00 <= l.value <= 0xdfff
      then Scanned(true, Encode((h.value - 0xd800) * 0x400 + (l.value - 0xdc00) + 0x10000), l.rest)
      else Scanned(false, [], l.rest)
  }

  /** The byte a one-letter escape stands for, -1 if there is none. */
  function Unescape(c: Byte): (r: int)
    ensures -1 <= r < 256
  {
    if c == QUOTE || c == BACKSLASH || c == SLASH then c
    else if c == 98 then 8
    else if c == 102 then 12
    else if c == 110 then LF
    else if c == 114 then CR
    else if c == 116 then TAB
    else -1
  }

  /** A string after its opening quote, acc being what has been read of it. */
  function StringRest(t: Text, acc: Text): (r: Scanned)
    ensures |r.rest| <= |t| && (r.ok ==> |r.rest| < |t|)
    decreases |t|
  {
    if t == [] || t[0] < SPACE then Scanned(false, acc, t)
    else if t[0] == QUOTE then Scanned(true, acc, t[1..])
    else if t[0] != BACKSLASH then StringRest(t[1..], acc + [t[0]])
    else if |t| == 1 then Scanned(false, acc, [])
    else if Unescape(t[1]) != -1 then StringRest(t[2..], acc + [Unescape(t[1])])
    else if t[1] != LOWER_U then Scanned(false, acc, t[2..])
    else
      var p := Codepoint(t[2..]);
      if p.ok then StringRest(p.rest, acc + p.text) else Scanned(false, acc, p.rest)
  }

  /** The bytes the parser collects for a number. */
  function NumberPrefix(t: Text): (r: Text)
    ensures |r| <= |t| && r == t[..|r|]
  {
    if t != [] && NumberByte(t[0]) then [t[0]] + NumberPrefix(t[1..]) else []
  }

  predicate StartsNumber(t: Text)
  {
    t != [] && (IsDigit(t[0]) || t[0] == MINUS)
  }

  /** set_number, whose result the parser ignores. */
  function Literal(k: Context, v: Value, rest: Text): Parsed
  {
    match k
    case Build => Parsed(Good, v, rest)
    case Validate => Parsed(Good, Null, rest)
    case Deny => Parsed(Bad, Null, rest)
  }

  function Keyword(k: Context, letters: Text, v: Value, t: Text): (r: Parsed)
    ensures |r.rest| <= |t|
    ensures r.status.Thrown? ==> k.Build?
  {
    var m := Match(letters, t);
    if m.ok then Literal(k, v, m.rest) else Parsed(Bad, Null, m.rest)
  }

  /** A number at the start of t. */
  function NumberAt(lib: Library, k: Context, t: Text): (r: Parsed)
    requires StartsNumber(t)
    ensures |r.rest| < |t|
    ensures r.status.Thrown? ==> k.Build?
  {
    var n := NumberPrefix(t);
    var rest := t[|n|..];
    match Strtod(lib, n)
    case Junk => Parsed(Bad, Null, rest)
    case Overflow => Parsed(if k.Build? then Thrown else Good, Null, rest)
    case Finite(x) => Parsed(Good, if k.Build? then Number(x) else Null, rest)
  }

  function AnyValue(lib: Library, k: Context, t: Text): (r: Parsed)
    ensures |r.rest| <= |t| && (r.status.Good? ==> |r.rest| < |t|)
    ensures r.status.Thrown? ==> k.Build?
    decreases |t|, 2
  {
    ValueAt(lib, k, SkipWs(t))
  }

  /** A value with no white space before it. */
  function ValueAt(lib: Library, k: Context, t: Text): (r: Parsed)
    ensures |r.rest| <= |t| && (r.status.Good? ==> |r.rest| < |t|)
    ensures r.status.Thrown? ==> k.Build?
    decreases |t|, 1
  {
    if t == [] then Parsed(Bad, Null, t)
    else if t[0] == 110 then Keyword(k, NULL_TEXT[1..], Null, t[1..])
    else if t[0] == 102 then Keyword(k, FALSE_TEXT[1..], Bool(false), t[1..])
    else if t[0] == 116 then Keyword(k, TRUE_TEXT[1..], Bool(true), t[1..])
    else if t[0] == QUOTE then StringAt(k, t[1..])
    else if t[0] == LBRACKET then ArrayAt(lib, k, t[1..])
    else if t[0] == LBRACE then ObjectAt(lib, k, t[1..])
    else if StartsNumber(t) then NumberAt(lib, k, t)
    else Parsed(Bad, Null, t)
  }

  function StringAt(k: Context, t: Text): (r: Parsed)
    ensures |r.rest| <= |t|
    ensures r.status.Thrown? ==> k.Build?
  {
    var s := StringRest(t, []);
    if k.Deny? then Parsed(Bad, Null, t)
    else if s.ok then Literal(k, Str(s.text), s.rest)
    else Parsed(Bad, Null, s.rest)
  }

  /** An array after its bracket. */
  function ArrayAt(lib: Library, k: Context, t: Text): (r: Parsed)
    ensures |r.rest| <= |t|
    ensures r.status.Thrown? ==> k.Build?
    decreases |t|, 4
  {
    var e := Expect(RBRACKET, t);
    if k.Deny? then Parsed(Bad, Null, t)
    else if e.ok then Literal(k, Arr([]), e.rest)
    else ItemsAt(lib, k, e.rest, [])
  }

  /** The rest of an array from an item on, acc being the items before it. */
  function ItemsAt(lib: Library, k: Context, t: Text, acc: seq<Value>): (r: Parsed)
    requires !k.Deny?
    ensures |r.rest| <= |t|
    ensures r.status.Thrown? ==> k.Build?
    decreases |t|, 3
  {
    var v := AnyValue(lib, k, t);
    if !v.status.Good? then v.(value := Null)
    else
      var items := if k.Build? then acc + [v.value] else acc;
      var c := Expect(COMMA, v.rest);
      if c.ok then ItemsAt(lib, k, c.rest, items)
      else
        var e := Expect(RBRACKET, c.rest);
        if e.ok then Literal(k, Arr(items), e.rest) else Parsed(Bad, Null, e.rest)
  }

  /** An object after its brace. */
  function ObjectAt(lib: Library, k: Context, t: Text): (r: Parsed)
    ensures |r.rest| <= |t|
    ensures r.status.Thrown? ==> k.Build?
    decreases |t|, 4
  {
    var e := Expect(RBRACE, t);
    if k.Deny? then Parsed(Bad, Null, t)
    else if e.ok then Literal(k, Obj([]), e.rest)
    else MembersAt(lib, k, e.rest, [])
  }

  /** A key with its quotes and the colon after it. */
  function KeyAt(t: Text): (r: Scanned)
    ensures |r.rest| <= |t| && (r.ok ==> |r.rest| < |t|)
  {
    var q := Expect(QUOTE, t);
    if !q.ok then Scanned(false, [], q.rest)
    else
      var s := StringRest(q.rest, []);
      if !s.ok then s
      else var c := Expect(COLON, s.rest); Scanned(c.ok, s.text, c.rest)
  }

  /** The rest of an object from a member on, acc being the members before it. */
  function MembersAt(lib: Library, k: Context, t: Text, acc: seq<Entry>): (r: Parsed)
    requires !k.Deny?
    ensures |r.rest| <= |t|
    ensures r.status.Thrown? ==> k.Build?
    decreases |t|, 3
  {
    var key := KeyAt(t);
    if !key.ok then Parsed(Bad, Null, key.rest)
    else
      var v := AnyValue(lib, k, key.rest);
      if !v.status.Good? then v.(value := Null)
      else
        var members := if k.Build? then Assign(acc, key.text, v.value) else acc;
        var c := Expect(COMMA, v.rest);
        if c.ok then MembersAt(lib, k, c.rest, members)
        else
          var e := Expect(RBRACE, c.rest);
          if e.ok then Literal(k, Obj(members), e.rest) else Parsed(Bad, Null, e.rest)
  }
}
