/** picojson's input, with its one byte of pushback, and the parser that reads from it. */
module JsonParser {
  import opened Bytes
  import opened JsonText
  import opened JsonGrammar
  import opened Wrappers

  /** The number of line breaks. */
  ghost function Lines(t: Text): nat
  {
    if t == [] then 0 else Lines(t[..|t| - 1]) + if t[|t| - 1] == LF then 1 else 0
  }

  /** Line feeds are what is counted. */
  lemma LinesCounted(t: Text, c: Byte)
    ensures Lines([]) == 0 && Lines(t + [c]) == Lines(t) + if c == 10 then 1 else 0
  {
    assert (t + [c])[..|t|] == t;
  }

  lemma LinesTo(t: Text, n: nat)
    requires 0 < n <= |t|
    ensures Lines(t[..n]) == Lines(t[..n - 1]) + if t[n - 1] == LF then 1 else 0
  {
    assert t[..n] == t[..n - 1] + [t[n - 1]];
    LinesCounted(t[..n - 1], t[n - 1]);
  }

  class Input {
    const text: Text      // from first to last
    var cur: nat
    var lastCh: int
    var ungot: bool
    var line: nat

    /** last_ch is the byte before cur; line counts the line breaks before that byte. */
    ghost predicate Valid()
      reads this
    {
      && cur <= |text|
      && (lastCh == -1 ==> !ungot && cur in {0, |text|})
      && (lastCh != -1 ==> cur > 0 && lastCh == text[cur - 1])
      && line == 1 + Lines(text[..if cur == 0 then 0 else cur - 1])
    }

    /** The text getc has still to deliver. */
    ghost function Rest(): (r: Text)
      requires Valid()
      reads this
    {
      if ungot then text[cur - 1..] else text[cur..]
    }

    constructor (text: Text)
      ensures Valid() && Rest() == text && this.text == text && !ungot
    {
      this.text := text;
      cur, lastCh, ungot, line := 0, -1, false, 1;
    }

    method Getc() returns (ch: int)
      requires Valid()
      modifies this
      ensures Valid() && !ungot && lastCh == ch
      ensures old(Rest()) == [] ==> ch == -1 && Rest() == []
      ensures old(Rest()) != [] ==> 0 <= ch < 256 && old(Rest()) == [ch] + Rest() && Rest() == old(Rest())[1..]
    {
      if ungot {
        ungot := false;
        return lastCh;
      }
      if cur == |text| {
        lastCh := -1;
        return -1;
      }
      if lastCh == LF {
        line := line + 1;
      }
      if cur > 0 { LinesTo(text, cur); }
      hide Lines;
      lastCh := text[cur];
      cur := cur + 1;
      return lastCh;
    }

    /** The first requires after Valid is the assertion in ungetc. */
    method Ungetc()
      requires Valid()
      requires lastCh != -1 ==> !ungot
      modifies this
      ensures Valid() && ungot == (lastCh != -1) && lastCh == old(lastCh)
      ensures Rest() == if lastCh == -1 then old(Rest()) else [lastCh] + old(Rest())
    {
      if lastCh != -1 {
        ungot := true;
      }
    }

    method SkipWs()
      requires Valid()
      modifies this
      ensures Valid() && Rest() == JsonGrammar.SkipWs(old(Rest()))
    {
      hide JsonGrammar.SkipWs, Valid;
      while true
        invariant Valid() && JsonGrammar.SkipWs(Rest()) == JsonGrammar.SkipWs(old(Rest()))
        decreases |Rest()|
      {
        ghost var t := Rest();
        var ch := Getc();
        SkipStep(t);
        if !(ch == SPACE || ch == TAB || ch == LF || ch == CR) {
          Ungetc();
          break;
        }
      }
    }

    method Expect(expected: Byte) returns (ok: bool)
      requires Valid()
      modifies this
      ensures Valid() && Scan(ok, Rest()) == JsonGrammar.Expect(expected, old(Rest())) && (ok ==> !ungot)
    {
      hide JsonGrammar.SkipWs, Valid;
      SkipWs();
      var ch := Getc();
      if ch != expected {
        Ungetc();
        return false;
      }
      return true;
    }

    method Match(pattern: Text) returns (ok: bool)
      requires Valid() && pattern != []
      modifies this
      ensures Valid() && Scan(ok, Rest()) == JsonGrammar.Match(pattern, old(Rest())) && (ok ==> !ungot)
    {
      hide Valid;
      var i := 0;
      while i < |pattern|
        invariant Valid() && i <= |pattern| && (i > 0 ==> !ungot)
        invariant JsonGrammar.Match(pattern[i..], Rest()) == JsonGrammar.Match(pattern, old(Rest()))
      {
        ghost var t := Rest();
        MatchStep(pattern, i, t);
        var ch := Getc();
        if ch != pattern[i] {
          Ungetc();
          return false;
        }
        i := i + 1;
      }
      return true;
    }
  }

  lemma SkipStep(t: Text)
    ensures t != [] && IsSpace(t[0]) ==> SkipWs(t) == SkipWs(t[1..])
    ensures t == [] || !IsSpace(t[0]) ==> SkipWs(t) == t
  {
  }

  lemma MatchStep(pattern: Text, i: nat, t: Text)
    requires i < |pattern|
    ensures Match(pattern[i..], t) ==
      if t != [] && t[0] == pattern[i] then Match(pattern[i + 1..], t[1..]) else Scan(false, t)
  {
    assert pattern[i..][1..] == pattern[i + 1..];
  }

  lemma QuadStep(t: Text, n: nat, acc: nat)
    requires 0 < n <= 4
    ensures t == [] ==> QuadHex(t, n, acc) == Hex(-1, [])
    ensures t != [] && HexValue(t[0]) == -1 ==> QuadHex(t, n, acc) == Hex(-1, t)
    ensures t != [] && HexValue(t[0]) != -1 ==> QuadHex(t, n, acc) == QuadHex(t[1..], n - 1, acc * 16 + HexValue(t[0]))
  {
  }

  method ParseQuadHex(input: Input) returns (value: int)
    requires input.Valid()
    modifies input
    ensures input.Valid() && Hex(value, input.Rest()) == QuadHex(old(input.Rest()), 4, 0)
    ensures value != -1 ==> !input.ungot
  {
    hide Input.Valid, Input.Rest, QuadHex, Shift16;
    value := 0;
    var i := 0;
    while i < 4
      invariant input.Valid() && 0 <= i <= 4 && value >= 0 && (i > 0 ==> !input.ungot)
      invariant QuadHex(input.Rest(), 4 - i, value) == QuadHex(old(input.Rest()), 4, 0)
    {
      QuadStep(input.Rest(), 4 - i, value);
      var hex := input.Getc();
      if hex == -1 {
        return -1;
      }
      if ZERO <= hex <= 57 {
        hex := hex - ZERO;
      } else if 65 <= hex <= 70 {
        hex := hex - 55;
      } else if 97 <= hex <= 102 {
        hex := hex - 87;
      } else {
        input.Ungetc();
        return -1;
      }
      value := value * 16 + hex;
      i := i + 1;
    }
    QuadDone(input.Rest(), value);
  }

  lemma QuadDone(t: Text, acc: nat)
    ensures QuadHex(t, 0, acc) == Hex(acc, t)
  {
  }

  /** The bytes of u, one push_back after the other. */
  method PushCodepoint(u: nat, out: Text) returns (r: Text)
    requires u < 0x110000
    ensures r == out + Encode(u)
  {
    r := out;
    if u < 0x80 {
      r := r + [u];
    } else {
      if u < 0x800 {
        r := r + [0xc0 + u / 0x40];
      } else {
        if u < 0x10000 {
          r := r + [0xe0 + u / 0x1000];
        } else {
          r := r + [0xf0 + u / 0x40000];
          r := r + [0x80 + u / 0x1000 % 0x40];
        }
        r := r + [0x80 + u / 0x40 % 0x40];
      }
      r := r + [0x80 + u % 0x40];
    }
  }

  method ParseCodepoint(input: Input, out: Text) returns (ok: bool, r: Text)
    requires input.Valid()
    modifies input
    ensures input.Valid() && var p := Codepoint(old(input.Rest()));
      ok == p.ok && input.Rest() == p.rest && (ok ==> r == out + p.text && !input.ungot)
  {
    hide Input.Valid, Input.Rest, QuadHex, Encode;
    r := out;
    ghost var t := input.Rest();
    var u := ParseQuadHex(input);
    if u == -1 {
      return false, r;
    }
    if 0xd800 <= u <= 0xdfff {
      if 0xdc00 <= u {
        return false, r;
      }
      var c := input.Getc();
      if c == BACKSLASH {
        c := input.Getc();
        if c != LOWER_U {
          input.Ungetc();
          return false, r;
        }
      } else {
        input.Ungetc();
        return false, r;
      }
      var second := ParseQuadHex(input);
      if !(0xdc00 <= second <= 0xdfff) {
        return false, r;
      }
      u := (u - 0xd800) * 0x400 + (second - 0xdc00) + 0x10000;
    }
    r := PushCodepoint(u, r);
    return true, r;
  }

  method ParseString(input: Input) returns (ok: bool, out: Text)
    requires input.Valid()
    modifies input
    ensures input.Valid() && Scanned(ok, out, input.Rest()) == StringRest(old(input.Rest()), [])
    ensures ok ==> !input.ungot
  {
    hide Input.Valid, Input.Rest, StringRest, Codepoint;
    out := [];
    while true
      invariant input.Valid()
      invariant StringRest(input.Rest(), out) == StringRest(old(input.Rest()), [])
      decreases |input.Rest()|
    {
      StringStep(input.Rest(), out);
      var ch := input.Getc();
      if ch < SPACE {
        input.Ungetc();
        return false, out;
      } else if ch == QUOTE {
        return true, out;
      } else if ch == BACKSLASH {
        ch := input.Getc();
        if ch == -1 {
          return false, out;
        }
        if Unescape(ch) != -1 {
          out := out + [Unescape(ch)];
        } else if ch == LOWER_U {
          var good, more := ParseCodepoint(input, out);
          if !good {
            return false, out;
          }
          out := more;
        } else {
          return false, out;
        }
      } else {
        out := out + [ch];
      }
    }
  }

  /** A string from an escape on: a backslash, e and u. */
  function Escaped(e: Byte, u: Text, acc: Text): Scanned
  {
    if Unescape(e) != -1 then StringRest(u, acc + [Unescape(e)])
    else if e != LOWER_U then Scanned(false, acc, u)
    else if Codepoint(u).ok then StringRest(Codepoint(u).rest, acc + Codepoint(u).text)
    else Scanned(false, acc, Codepoint(u).rest)
  }

  /** One turn of the string loop. */
  lemma StringStep(t: Text, acc: Text)
    ensures t == [] || t[0] < SPACE ==> StringRest(t, acc) == Scanned(false, acc, t)
    ensures t != [] && t[0] == QUOTE ==> StringRest(t, acc) == Scanned(true, acc, t[1..])
    ensures t != [] && SPACE <= t[0] && t[0] !in {QUOTE, BACKSLASH} ==>
      StringRest(t, acc) == StringRest(t[1..], acc + [t[0]])
    ensures |t| > 0 && t[0] == BACKSLASH && t[1..] == [] ==> StringRest(t, acc) == Scanned(false, acc, [])
    ensures |t| > 1 && t[0] == BACKSLASH ==> StringRest(t, acc) == Escaped(t[1..][0], t[1..][1..], acc)
  {
    hide Codepoint;
    if |t| > 1 { assert t[1..][1..] == t[2..] && t[1..][0] == t[1]; }
  }

  method ParseNumber(input: Input) returns (num: Text)
    requires input.Valid()
    modifies input
    ensures input.Valid() && num == NumberPrefix(old(input.Rest())) && input.Rest() == old(input.Rest())[|num|..]
    ensures input.ungot == (input.Rest() != [])
  {
    hide Input.Valid, Input.Rest, NumberPrefix;
    num := [];
    ghost var t := input.Rest();
    while true
      invariant input.Valid() && |num| <= |t| && input.Rest() == t[|num|..]
      invariant num + NumberPrefix(input.Rest()) == NumberPrefix(t)
      decreases |input.Rest()|
    {
      NumberStep(input.Rest(), num);
      var ch := input.Getc();
      if ZERO <= ch <= 57 || ch == PLUS || ch == MINUS || ch == LOWER_E || ch == UPPER_E {
        num := num + [ch];
      } else if ch == POINT {
        num := num + [POINT];
      } else {
        input.Ungetc();
        break;
      }
    }
  }

  lemma NumberStep(t: Text, num: Text)
    ensures t != [] && NumberByte(t[0]) ==> num + NumberPrefix(t) == num + [t[0]] + NumberPrefix(t[1..])
    ensures t == [] || !NumberByte(t[0]) ==> num + NumberPrefix(t) == num
  {
  }

  /** _parse. The value a context builds is the second result; only the building one has any. */
  method Parse(lib: Library, k: Context, input: Input) returns (status: Status, value: Value)
    requires input.Valid()
    modifies input
    ensures input.Valid() && Parsed(status, value, input.Rest()) == AnyValue(lib, k, old(input.Rest()))
    ensures status.Good? ==> input.ungot == (StartsNumber(SkipWs(old(input.Rest()))) && input.Rest() != [])
    decreases |input.Rest()|, 2
  {
    hide Input.Valid, Input.Rest, StringAt, ArrayAt, ObjectAt, NumberAt, Keyword, SkipWs;
    input.SkipWs();
    ghost var t := input.Rest();
    var ch := input.Getc();
    if ch == 110 {
      status, value := ParseKeyword(k, input, NULL_TEXT[1..], Null);
    } else if ch == 102 {
      status, value := ParseKeyword(k, input, FALSE_TEXT[1..], Bool(false));
    } else if ch == 116 {
      status, value := ParseKeyword(k, input, TRUE_TEXT[1..], Bool(true));
    } else if ch == QUOTE {
      status, value := ParseStr(k, input);
    } else if ch == LBRACKET {
      status, value := ParseArray(lib, k, input);
    } else if ch == LBRACE {
      status, value := ParseObject(lib, k, input);
    } else if ZERO <= ch <= 57 || ch == MINUS {
      input.Ungetc();
      status, value := ParseNumeric(lib, k, input);
    } else {
      input.Ungetc();
      status, value := Bad, Null;
    }
  }

  method ParseKeyword(k: Context, input: Input, letters: Text, v: Value)
    returns (status: Status, value: Value)
    requires input.Valid() && letters != []
    modifies input
    ensures input.Valid() && Parsed(status, value, input.Rest()) == Keyword(k, letters, v, old(input.Rest()))
    ensures status.Good? ==> !input.ungot
  {
    hide Input.Valid, Input.Rest, JsonGrammar.Match;
    var ok := input.Match(letters);
    if !ok { return Bad, Null; }
    status := if k.Deny? then Bad else Good;
    value := if k.Build? then v else Null;
  }

  method ParseStr(k: Context, input: Input) returns (status: Status, value: Value)
    requires input.Valid()
    modifies input
    ensures input.Valid() && Parsed(status, value, input.Rest()) == StringAt(k, old(input.Rest()))
    ensures status.Good? ==> !input.ungot
  {
    hide Input.Valid, Input.Rest, StringRest;
    if k.Deny? { return Bad, Null; }
    var ok, s := ParseString(input);
    if !ok { return Bad, Null; }
    return Good, if k.Build? then Str(s) else Null;
  }

  method ParseNumeric(lib: Library, k: Context, input: Input) returns (status: Status, value: Value)
    requires input.Valid() && StartsNumber(input.Rest())
    modifies input
    ensures input.Valid() && Parsed(status, value, input.Rest()) == NumberAt(lib, k, old(input.Rest()))
    ensures status.Good? ==> input.ungot == (input.Rest() != [])
  {
    hide Input.Valid, Input.Rest, Strtod;
    var num := ParseNumber(input);
    if num == [] { return Bad, Null; }
    match Strtod(lib, num) {
      case Junk => return Bad, Null;
      case Overflow => return if k.Build? then Thrown else Good, Null;
      case Finite(x) => return Good, if k.Build? then Number(x) else Null;
    }
  }

  method ParseArray(lib: Library, k: Context, input: Input) returns (status: Status, value: Value)
    requires input.Valid()
    modifies input
    ensures input.Valid() && Parsed(status, value, input.Rest()) == ArrayAt(lib, k, old(input.Rest()))
    ensures status.Good? ==> !input.ungot
    decreases |input.Rest()|, 4
  {
    hide Input.Valid, Input.Rest, ItemsAt, JsonGrammar.Expect;
    if k.Deny? { return Bad, Null; }
    var empty := input.Expect(RBRACKET);
    if empty { return Good, if k.Build? then Arr([]) else Null; }
    status, value := ParseItems(lib, k, input);
  }

  method ParseItems(lib: Library, k: Context, input: Input) returns (status: Status, value: Value)
    requires input.Valid() && !k.Deny?
    modifies input
    ensures input.Valid() && Parsed(status, value, input.Rest()) == ItemsAt(lib, k, old(input.Rest()), [])
    ensures status.Good? ==> !input.ungot
    decreases |input.Rest()|, 3
  {
    hide Input.Valid, Input.Rest, ItemsAt, JsonGrammar.Expect, AnyValue;
    var items: seq<Value> := [];
    var more := true;
    while more
      invariant input.Valid() && |input.Rest()| <= |old(input.Rest())|
      invariant more ==> ItemsAt(lib, k, input.Rest(), items) == ItemsAt(lib, k, old(input.Rest()), [])
      invariant !more ==> ItemsAt(lib, k, old(input.Rest()), []) == Closed(k, RBRACKET, Arr(items), input.Rest())
      decreases |input.Rest()|, more
    {
      ItemsStep(lib, k, input.Rest(), items);
      var v;
      status, v := Parse(lib, k, input);
      if !status.Good? { return status, Null; }
      if k.Build? { items := items + [v]; }
      more := input.Expect(COMMA);
    }
    var ok := input.Expect(RBRACKET);
    if !ok { return Bad, Null; }
    return Good, if k.Build? then Arr(items) else Null;
  }

  /** The end of a container whose last element has been read. */
  function Closed(k: Context, close: Byte, v: Value, t: Text): Parsed
  {
    var e := Expect(close, t);
    if e.ok then Literal(k, v, e.rest) else Parsed(Bad, Null, e.rest)
  }

  lemma ItemsStep(lib: Library, k: Context, t: Text, acc: seq<Value>)
    requires !k.Deny?
    ensures var v := AnyValue(lib, k, t);
      var items := if k.Build? then acc + [v.value] else acc;
      var c := Expect(COMMA, v.rest);
      ItemsAt(lib, k, t, acc) ==
        if !v.status.Good? then v.(value := Null)
        else if c.ok then ItemsAt(lib, k, c.rest, items)
        else Closed(k, RBRACKET, Arr(items), c.rest)
  {
    hide AnyValue, Expect;
  }

  method ParseObject(lib: Library, k: Context, input: Input) returns (status: Status, value: Value)
    requires input.Valid()
    modifies input
    ensures input.Valid() && Parsed(status, value, input.Rest()) == ObjectAt(lib, k, old(input.Rest()))
    ensures status.Good? ==> !input.ungot
    decreases |input.Rest()|, 4
  {
    hide Input.Valid, Input.Rest, MembersAt, JsonGrammar.Expect;
    if k.Deny? { return Bad, Null; }
    var empty := input.Expect(RBRACE);
    if empty { return Good, if k.Build? then Obj([]) else Null; }
    status, value := ParseMembers(lib, k, input);
  }

  method ParseKey(input: Input) returns (ok: bool, key: Text)
    requires input.Valid()
    modifies input
    ensures input.Valid() && var s := KeyAt(old(input.Rest()));
      ok == s.ok && input.Rest() == s.rest && (ok ==> key == s.text)
  {
    hide Input.Valid, Input.Rest, JsonGrammar.Expect, StringRest;
    key := [];
    ok := input.Expect(QUOTE);
    if !ok { return; }
    ok, key := ParseString(input);
    if !ok { return; }
    ok := input.Expect(COLON);
  }

  method ParseMembers(lib: Library, k: Context, input: Input) returns (status: Status, value: Value)
    requires input.Valid() && !k.Deny?
    modifies input
    ensures input.Valid() && Parsed(status, value, input.Rest()) == MembersAt(lib, k, old(input.Rest()), [])
    ensures status.Good? ==> !input.ungot
    decreases |input.Rest()|, 3
  {
    hide Input.Valid, Input.Rest, MembersAt, JsonGrammar.Expect, AnyValue, KeyAt, Assign;
    var members: seq<Entry> := [];
    var more := true;
    while more
      invariant input.Valid() && |input.Rest()| <= |old(input.Rest())|
      invariant more ==> MembersAt(lib, k, input.Rest(), members) == MembersAt(lib, k, old(input.Rest()), [])
      invariant !more ==> MembersAt(lib, k, old(input.Rest()), []) == Closed(k, RBRACE, Obj(members), input.Rest())
      decreases |input.Rest()|, more
    {
      MembersStep(lib, k, input.Rest(), members);
      var ok, key := ParseKey(input);
      if !ok { return Bad, Null; }
      var v;
      status, v := Parse(lib, k, input);
      if !status.Good? { return status, Null; }
      if k.Build? { members := Assign(members, key, v); }
      more := input.Expect(COMMA);
    }
    var ok := input.Expect(RBRACE);
    if !ok { return Bad, Null; }
    return Good, if k.Build? then Obj(members) else Null;
  }

  lemma MembersStep(lib: Library, k: Context, t: Text, acc: seq<Entry>)
    requires !k.Deny?
    ensures var key := KeyAt(t);
      var v := AnyValue(lib, k, key.rest);
      var members := if k.Build? then Assign(acc, key.text, v.value) else acc;
      var c := Expect(COMMA, v.rest);
      MembersAt(lib, k, t, acc) ==
        if !key.ok then Parsed(Bad, Null, key.rest)
        else if !v.status.Good? then v.(value := Null)
        else if c.ok then MembersAt(lib, k, c.rest, members)
        else Closed(k, RBRACE, Obj(members), c.rest)
  {
    hide AnyValue, Expect, KeyAt, Assign;
  }

  /** The text the error message quotes: up to the line's end, without control bytes. */
  function Near(t: Text): Text
    decreases |t|
  {
    if t == [] || t[0] == LF then []
    else if t[0] >= SPACE then [t[0]] + Near(t[1..])
    else Near(t[1..])
  }

  lemma NearStep(t: Text, s: Text)
    ensures t == [] || t[0] == LF ==> s + Near(t) == s
    ensures t != [] && t[0] != LF && t[0] >= SPACE ==> s + Near(t) == s + [t[0]] + Near(t[1..])
    ensures t != [] && t[0] < SPACE && t[0] != LF ==> Near(t) == Near(t[1..])
    ensures AfterLine(t) == if t == [] then [] else if t[0] == LF then t[1..] else AfterLine(t[1..])
  {
  }

  /** What follows the rest of the line, nothing if there is no other line. */
  function AfterLine(t: Text): (r: Text)
    ensures |r| <= |t|
  {
    if t == [] then [] else if t[0] == LF then t[1..] else AfterLine(t[1..])
  }

  datatype SyntaxError = SyntaxError(line: nat, near: Text)

  /** Where the text that the parser has consumed ends. */
  function Consumed(text: Text, rest: Text): int
  {
    |text| - |rest|
  }

  /** The text is a number with something after its last byte. */
  predicate NumberGoesOn(text: Text)
  {
    var u := SkipWs(text);
    StartsNumber(u) && NumberPrefix(u) != u
  }

  function ReturnedAt(text: Text, rest: Text): int
  {
    Consumed(text, rest) + if NumberGoesOn(text) then 1 else 0
  }

  lemma NumberEndsEarly(lib: Library, k: Context, text: Text)
    requires AnyValue(lib, k, text).status.Good?
    ensures NumberGoesOn(text) <==> StartsNumber(SkipWs(text)) && AnyValue(lib, k, text).rest != []
  {
    var u := SkipWs(text);
    hide SkipWs, StringAt, ArrayAt, ObjectAt, Keyword, Strtod, NumberPrefix;
    if StartsNumber(u) {
      assert AnyValue(lib, k, text) == NumberAt(lib, k, u);
    }
  }

  /** The byte too many, on a digit and a space: the value ends at 1 and 2 is returned. */
  lemma OneByteTooFar(lib: Library, k: Context)
    ensures AnyValue(lib, k, [ZERO + 1, SPACE]).status.Good?
    ensures AnyValue(lib, k, [ZERO + 1, SPACE]).rest == [SPACE]
    ensures ReturnedAt([ZERO + 1, SPACE], [SPACE]) == 2
  {
    var t: Text := [ZERO + 1, SPACE];
    assert SkipWs(t) == t;
    assert t[1..] == [SPACE] && NumberPrefix(t[1..]) == [];
    var n := NumberPrefix(t);
    assert n == [ZERO + 1] && n[..0] == [] && DigitsValue(n[..0]) == 0;
    assert IsInteger(n) && IntegerValue(n) == 1;
  }

  /** The line of position n or of the byte before it. */
  ghost predicate LineOf(line: nat, text: Text, n: int)
  {
    && 0 <= n <= |text|
    && (line == 1 + Lines(text[..n]) || (n > 0 && line == 1 + Lines(text[..n - 1])))
  }

  /** parse(): the returned position is the end of the value, or one byte further when the value is a
      number that the text goes on after, because the byte given back is not taken off the position.
      On an error the message has the line the parser stopped in and the rest of that line, and the
      returned position is the end of that line. */
  method ParseText(lib: Library, k: Context, text: Text)
    returns (status: Status, value: Value, pos: nat, error: Option<SyntaxError>)
    ensures var p := AnyValue(lib, k, text); status == p.status && value == p.value
    ensures status.Good? ==> pos == ReturnedAt(text, AnyValue(lib, k, text).rest)
    ensures status.Bad? ==> pos == Consumed(text, AfterLine(AnyValue(lib, k, text).rest))
    ensures status.Bad? <==> error.Some?
    ensures status.Bad? ==> error.value.near == Near(AnyValue(lib, k, text).rest)
    ensures status.Bad? ==> LineOf(error.value.line, text, Consumed(text, AnyValue(lib, k, text).rest))
  {
    hide Input.Rest, Input.Valid, AnyValue, SkipWs, Near, AfterLine, LineOf, NumberPrefix;
    var input := new Input(text);
    status, value := Parse(lib, k, input);
    error := None;
    ghost var rest := input.Rest();
    if status.Bad? {
      var near: Text, line := [], input.line;
      Position(input);
      while true
        invariant input.Valid() && near + Near(input.Rest()) == Near(rest)
        invariant AfterLine(input.Rest()) == AfterLine(rest)
        decreases |input.Rest()|
      {
        NearStep(input.Rest(), near);
        var ch := input.Getc();
        if ch == -1 || ch == LF {
          break;
        } else if ch >= SPACE {
          near := near + [ch];
        }
      }
      error := Some(SyntaxError(line, near));
    } else if status.Good? {
      NumberEndsEarly(lib, k, text);
    }
    Position(input);
    pos := input.cur;
  }

  /** cur is one byte ahead of the unread text when a byte has been given back. */
  lemma Position(input: Input)
    requires input.Valid()
    ensures input.cur == Consumed(input.text, input.Rest()) + if input.ungot then 1 else 0
    ensures LineOf(input.line, input.text, Consumed(input.text, input.Rest()))
  {
  }
}
