/** A document and its texts byte by byte, and the escapes of strings byte by byte: what the serializer
    writes and the parser reads, with no constant of theirs in between. */
module JsonKnownAnswers {
  import opened Bytes
  import opened JsonText
  import opened JsonGrammar
  import opened JsonRoundTrip
  import opened JsonLayout

  /** The document {"a":[null,-12],"b":{}}. */
  const LIST: Value := Arr([Null, Number(-12.0)])
  const DOCUMENT: Value := Obj([Entry([97], LIST), Entry([98], Obj([]))])

  lemma MinusTwelve(lib: Library)
    ensures NumberText(lib, -12.0) == [45, 49, 50]
  {
    assert (-12.0).Floor == -12;
    assert Digits(12) == Digits(1) + [50];
  }

  lemma ListItems(lib: Library, level: int)
    requires level >= -1
    ensures Items(lib, LIST.items, 0, level) == Indent(level) + [110, 117, 108, 108] + [44] + Indent(level) + [45, 49, 50]
  {
    hide Indent, NumberText;
    MinusTwelve(lib);
    var items := LIST.items;
    assert Items(lib, items, 2, level) == [];
    assert Items(lib, items, 1, level) == [44] + Indent(level) + [45, 49, 50];
    assert Items(lib, items, 0, level) == Indent(level) + [110, 117, 108, 108] + Items(lib, items, 1, level);
  }

  lemma Members(lib: Library, list: Text, level: int)
    requires level >= -1 && list == Body(lib, LIST, level)
    ensures Entries(lib, DOCUMENT.entries, 0, level) ==
      Indent(level) + [34, 97, 34] + Colon(level) + list + [44] + Indent(level) + [34, 98, 34] + Colon(level) + [123, 125]
  {
    hide Indent, Colon, Items;
    var es := DOCUMENT.entries;
    assert Quoted([97]) == [34, 97, 34] && Quoted([98]) == [34, 98, 34] by { Letters(); }
    hide Quoted;
    assert Body(lib, Obj([]), level) == [123, 125];
    assert Entries(lib, es, 2, level) == [];
    assert Entries(lib, es, 1, level) == [44] + Indent(level) + [34, 98, 34] + Colon(level) + [123, 125];
    assert Entries(lib, es, 0, level) ==
      Indent(level) + [34, 97, 34] + Colon(level) + list + Entries(lib, es, 1, level);
  }

  lemma Letters()
    ensures Quoted([97]) == [34, 97, 34] && Quoted([98]) == [34, 98, 34]
  {
    assert Escapes([97]) == [97] + Escapes([]);
    assert Escapes([98]) == [98] + Escapes([]);
  }

  /** The compact text: {"a":[null,-12],"b":{}}. */
  lemma CompactText(lib: Library)
    ensures Serialized(lib, DOCUMENT, -1) ==
      [123, 34, 97, 34, 58, 91, 110, 117, 108, 108, 44, 45, 49, 50, 93, 44, 34, 98, 34, 58, 123, 125, 125]
  {
    hide Items, Entries, NumberText, Quoted;
    ListItems(lib, -1);
    var list := Body(lib, LIST, -1);
    assert list == [91, 110, 117, 108, 108, 44, 45, 49, 50, 93];
    Members(lib, list, -1);
  }

  lemma Indents()
    ensures Indent(-1) == [] && Indent(0) == [10] && Indent(1) == [10, 32, 32] && Indent(2) == [10, 32, 32, 32, 32]
  {
    assert Spaces(4) == [32] + Spaces(3) && Spaces(3) == [32] + Spaces(2) && Spaces(2) == [32] + Spaces(1);
    assert Spaces(1) == [32] + Spaces(0) && Spaces(0) == [];
    assert [10] + [] == [10];
  }

  /** The prettified text: a line for every item and member, two spaces for every level, a space behind
      every colon, and a line break at the end. */
  lemma PrettyText(lib: Library)
    ensures Serialized(lib, DOCUMENT, 0) ==
      [123, 10] +
      [32, 32, 34, 97, 34, 58, 32] + Body(lib, LIST, 1) + [44, 10] +
      [32, 32, 34, 98, 34, 58, 32, 123, 125, 10] +
      [125, 10]
    ensures Body(lib, LIST, 1) ==
      [91, 10] +
      [32, 32, 32, 32, 110, 117, 108, 108, 44, 10] +
      [32, 32, 32, 32, 45, 49, 50, 10] +
      [32, 32, 93]
  {
    Indents();
    ListPretty(lib);
    hide Items, Entries, NumberText, Quoted, Indent;
    var list := Body(lib, LIST, 1);
    Members(lib, list, 1);
    hide Body;
    assert Colon(1) == [58, 32] && Indent(1) == [10, 32, 32];
    hide Colon;
    DocumentPretty(lib);
    Lines(list);
  }

  lemma Lines(list: Text)
    ensures [123] + ([10, 32, 32] + [34, 97, 34] + [58, 32] + list + [44] + [10, 32, 32] + [34, 98, 34] + [58, 32] +
      [123, 125]) + [10] + [125] + [10] == [123, 10] + [32, 32, 34, 97, 34, 58, 32] + list + [44, 10] +
      [32, 32, 34, 98, 34, 58, 32, 123, 125, 10] + [125, 10]
  {
    assert [10, 32, 32] + [34, 97, 34] + [58, 32] == [10, 32, 32, 34, 97, 34, 58, 32];
    assert [123, 10] + [32, 32, 34, 97, 34, 58, 32] == [123] + [10, 32, 32, 34, 97, 34, 58, 32];
    var tail: Text := [44] + [10, 32, 32] + [34, 98, 34] + [58, 32] + [123, 125] + [10] + [125] + [10];
    assert tail == [44, 10] + [32, 32, 34, 98, 34, 58, 32, 123, 125, 10] + [125, 10];
  }

  lemma DocumentPretty(lib: Library)
    ensures Serialized(lib, DOCUMENT, 0) == [123] + Entries(lib, DOCUMENT.entries, 0, 1) + [10] + [125] + [10]
  {
    hide Entries;
    Indents();
  }

  lemma ListPretty(lib: Library)
    ensures Body(lib, LIST, 1) ==
      [91, 10] +
      [32, 32, 32, 32, 110, 117, 108, 108, 44, 10] +
      [32, 32, 32, 32, 45, 49, 50, 10] +
      [32, 32, 93]
  {
    Indents();
    ListItems(lib, 2);
    hide Items, NumberText, Indent;
  }

  /** And the compact text is read as the document. */
  lemma CompactRead(lib: Library)
    ensures AnyValue(lib, Build,
      [123, 34, 97, 34, 58, 91, 110, 117, 108, 108, 44, 45, 49, 50, 93, 44, 34, 98, 34, 58, 123, 125, 125])
      == Parsed(Good, DOCUMENT, [])
  {
    CompactText(lib);
    DocumentProper(lib);
    hide Serialized, AnyValue, Proper, Numbers;
    SerializeThenParse(lib, DOCUMENT, false, []);
    assert Serialized(lib, DOCUMENT, -1) + [] == Serialized(lib, DOCUMENT, -1);
  }

  lemma DocumentProper(lib: Library)
    ensures Proper(DOCUMENT) && Numbers(lib, DOCUMENT)
  {
    assert Proper(LIST) && Numbers(lib, LIST);
    assert Less([97], [98]) && Ordered(DOCUMENT.entries);
  }

  lemma KeywordsWritten(lib: Library)
    ensures Body(lib, Null, -1) == [110, 117, 108, 108]
    ensures Body(lib, Bool(true), -1) == [116, 114, 117, 101] && Body(lib, Bool(false), -1) == [102, 97, 108, 115, 101]
  {
  }

  /** The escapes: quote, backslash, slash, \b \f \n \r \t, and \u00 for other control bytes and DEL. */
  lemma EscapesWritten()
    ensures Escape(34) == [92, 34] && Escape(92) == [92, 92] && Escape(47) == [92, 47]
    ensures Escape(8) == [92, 98] && Escape(12) == [92, 102] && Escape(10) == [92, 110]
    ensures Escape(13) == [92, 114] && Escape(9) == [92, 116]
    ensures Escape(0) == [92, 117, 48, 48, 48, 48] && Escape(31) == [92, 117, 48, 48, 49, 102]
    ensures Escape(127) == [92, 117, 48, 48, 55, 102] && Escape(65) == [65] && Escape(200) == [200]
  {
  }

  /** A string with every one-letter escape, é, and a surrogate pair, read from its text. */
  lemma EscapesRead(r: Text)
    ensures StringRest([92, 34, 92, 92, 92, 47, 92, 98, 92, 102, 92, 110, 92, 114, 92, 116, 34] + r, []) ==
      Scanned(true, [34, 92, 47, 8, 12, 10, 13, 9], r)
    ensures Codepoint([48, 48, 69, 57] + r) == Scanned(true, [0xc3, 0xa9], r)
    ensures Codepoint([100, 56, 51, 100, 92, 117, 100, 101, 48, 48] + r) == Scanned(true, [0xf0, 0x9f, 0x98, 0x80], r)
  {
    EightEscapes(r);
    Acute(r);
    Emoji(r);
  }

  lemma EightEscapes(r: Text)
    ensures StringRest([92, 34, 92, 92, 92, 47, 92, 98, 92, 102, 92, 110, 92, 114, 92, 116, 34] + r, []) ==
      Scanned(true, [34, 92, 47, 8, 12, 10, 13, 9], r)
  {
    var t: Text := [92, 34, 92, 92, 92, 47, 92, 98, 92, 102, 92, 110, 92, 114, 92, 116, 34];
    EscapesFrom(t, [34, 92, 47, 8, 12, 10, 13, 9], 0, r);
    assert t[0..] == t;
  }

  /** A text of one-letter escapes from the k-th on. */
  lemma {:induction false} EscapesFrom(t: Text, out: Text, k: nat, r: Text)
    requires |t| == 2 * |out| + 1 && t[2 * |out|] == 34 && k <= |out|
    requires forall i :: 0 <= i < |out| ==> t[2 * i] == 92 && Unescape(t[2 * i + 1]) == out[i]
    ensures StringRest(t[2 * k..] + r, out[..k]) == Scanned(true, out, r)
    decreases |out| - k
  {
    hide StringRest, Unescape;
    if k == |out| {
      assert t[2 * k..] == [34] && out[..k] == out;
      LastQuote(r, out);
    } else {
      OneEscape(t, r, 2 * k, out[..k], out[k]);
      assert out[..k] + [out[k]] == out[..k + 1];
      EscapesFrom(t, out, k + 1, r);
    }
  }

  lemma OneEscape(t: Text, r: Text, i: nat, acc: Text, c: Byte)
    requires i + 2 < |t| && t[i] == 92 && Unescape(t[i + 1]) == c
    ensures StringRest(t[i..] + r, acc) == StringRest(t[i + 2..] + r, acc + [c])
  {
    hide StringRest;
    EscapedRead(t[i..] + r, acc);
    assert (t[i..] + r)[2..] == t[i + 2..] + r;
  }

  lemma LastQuote(r: Text, acc: Text)
    ensures StringRest([34] + r, acc) == Scanned(true, acc, r)
  {
    assert ([34] + r)[1..] == r;
  }

  lemma FourHex(a: Byte, b: Byte, c: Byte, d: Byte, r: Text)
    requires HexValue(a) >= 0 && HexValue(b) >= 0 && HexValue(c) >= 0 && HexValue(d) >= 0
    ensures QuadHex([a, b, c, d] + r, 4, 0) ==
      Hex(HexValue(a) * 4096 + HexValue(b) * 256 + HexValue(c) * 16 + HexValue(d), r)
  {
    hide HexValue;
    assert ([a, b, c, d] + r)[1..] == [b, c, d] + r;
    assert ([b, c, d] + r)[1..] == [c, d] + r;
    assert ([c, d] + r)[1..] == [d] + r;
    assert ([d] + r)[1..] == r;
  }

  lemma Acute(r: Text)
    ensures Codepoint([48, 48, 69, 57] + r) == Scanned(true, [0xc3, 0xa9], r)
  {
    hide QuadHex;
    FourHex(48, 48, 69, 57, r);
  }

  lemma Emoji(r: Text)
    ensures Codepoint([100, 56, 51, 100, 92, 117, 100, 101, 48, 48] + r) == Scanned(true, [0xf0, 0x9f, 0x98, 0x80], r)
  {
    hide QuadHex;
    var low := [92, 117, 100, 101, 48, 48] + r;
    assert [100, 56, 51, 100, 92, 117, 100, 101, 48, 48] + r == [100, 56, 51, 100] + low;
    FourHex(100, 56, 51, 100, low);
    assert low[2..] == [100, 101, 48, 48] + r;
    FourHex(100, 101, 48, 48, r);
  }
}
