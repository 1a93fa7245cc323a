/** The three parse contexts compared, and what the building one builds, on every text. */
module JsonContexts {
  import opened Bytes
  import opened JsonText
  import opened JsonGrammar
  import opened JsonRoundTrip

  /** Two outcomes that a caller interested in acceptance and position cannot tell apart. */
  predicate Alike(r: Parsed, q: Parsed)
  {
    !q.status.Thrown? && (r.status.Thrown? || (r.status == q.status && r.rest == q.rest))
  }

  /** null_parse_context accepts the same texts as default_parse_context and stops at the same place,
      unless the latter throws; it never throws itself. */
  lemma {:induction false} ContextsAgree(lib: Library, t: Text)
    ensures Alike(AnyValue(lib, Build, t), AnyValue(lib, Validate, t))
    decreases |t|, 2
  {
    hide ValueAt;
    ContextsAgreeAt(lib, SkipWs(t));
  }

  lemma {:induction false} ContextsAgreeAt(lib: Library, t: Text)
    ensures Alike(ValueAt(lib, Build, t), ValueAt(lib, Validate, t))
    decreases |t|, 1
  {
    hide StringRest, ItemsAt, MembersAt, Match, Strtod, Expect;
    if t != [] && t[0] == LBRACKET {
      var e := Expect(RBRACKET, t[1..]);
      if !e.ok { ItemsAgree(lib, e.rest, [], []); }
    } else if t != [] && t[0] == LBRACE {
      var e := Expect(RBRACE, t[1..]);
      if !e.ok { MembersAgree(lib, e.rest, [], []); }
    }
  }

  lemma {:induction false} ItemsAgree(lib: Library, t: Text, acc: seq<Value>, acc': seq<Value>)
    ensures Alike(ItemsAt(lib, Build, t, acc), ItemsAt(lib, Validate, t, acc'))
    decreases |t|, 3
  {
    hide AnyValue, Expect;
    ContextsAgree(lib, t);
    var v := AnyValue(lib, Build, t);
    var c := Expect(COMMA, v.rest);
    if v.status.Good? && c.ok { ItemsAgree(lib, c.rest, acc + [v.value], acc'); }
  }

  lemma {:induction false} MembersAgree(lib: Library, t: Text, acc: seq<Entry>, acc': seq<Entry>)
    ensures Alike(MembersAt(lib, Build, t, acc), MembersAt(lib, Validate, t, acc'))
    decreases |t|, 3
  {
    hide AnyValue, Expect, KeyAt, Assign;
    var key := KeyAt(t);
    if key.ok {
      ContextsAgree(lib, key.rest);
      var v := AnyValue(lib, Build, key.rest);
      var c := Expect(COMMA, v.rest);
      if v.status.Good? && c.ok { MembersAgree(lib, c.rest, Assign(acc, key.text, v.value), acc'); }
    }
  }

  // ---------- numbers that overflow ----------

  /** Validating the text comes to a number that strtod reports as too large. */
  predicate MeetsOverflow(lib: Library, t: Text)
    decreases |t|, 2
  {
    MeetsOverflowAt(lib, SkipWs(t))
  }

  predicate MeetsOverflowAt(lib: Library, t: Text)
    decreases |t|, 1
  {
    if t == [] then false
    else if t[0] == LBRACKET then
      var e := Expect(RBRACKET, t[1..]); !e.ok && ItemsMeetOverflow(lib, e.rest)
    else if t[0] == LBRACE then
      var e := Expect(RBRACE, t[1..]); !e.ok && MembersMeetOverflow(lib, e.rest)
    else StartsNumber(t) && Strtod(lib, NumberPrefix(t)).Overflow?
  }

  predicate ItemsMeetOverflow(lib: Library, t: Text)
    decreases |t|, 3
  {
    MeetsOverflow(lib, t) ||
    var v := AnyValue(lib, Validate, t);
    v.status.Good? && var c := Expect(COMMA, v.rest); c.ok && ItemsMeetOverflow(lib, c.rest)
  }

  predicate MembersMeetOverflow(lib: Library, t: Text)
    decreases |t|, 3
  {
    var key := KeyAt(t);
    key.ok && (MeetsOverflow(lib, key.rest) ||
      var v := AnyValue(lib, Validate, key.rest);
      v.status.Good? && var c := Expect(COMMA, v.rest); c.ok && MembersMeetOverflow(lib, c.rest))
  }

  /** The building context throws exactly when the validating one comes to such a number. */
  lemma {:induction false} ThrownExactly(lib: Library, t: Text)
    ensures AnyValue(lib, Build, t).status.Thrown? <==> MeetsOverflow(lib, t)
    decreases |t|, 2
  {
    hide ValueAt, MeetsOverflowAt;
    ThrownExactlyAt(lib, SkipWs(t));
  }

  lemma {:induction false} ThrownExactlyAt(lib: Library, t: Text)
    ensures ValueAt(lib, Build, t).status.Thrown? <==> MeetsOverflowAt(lib, t)
    decreases |t|, 1
  {
    hide StringRest, ItemsAt, MembersAt, Match, Strtod, Expect, NumberPrefix, ItemsMeetOverflow, MembersMeetOverflow;
    if t != [] && t[0] == LBRACKET {
      var e := Expect(RBRACKET, t[1..]);
      if !e.ok { ItemsThrownExactly(lib, e.rest, []); }
    } else if t != [] && t[0] == LBRACE {
      var e := Expect(RBRACE, t[1..]);
      if !e.ok { MembersThrownExactly(lib, e.rest, []); }
    }
  }

  lemma {:induction false} ItemsThrownExactly(lib: Library, t: Text, acc: seq<Value>)
    ensures ItemsAt(lib, Build, t, acc).status.Thrown? <==> ItemsMeetOverflow(lib, t)
    decreases |t|, 3
  {
    hide AnyValue, Expect, MeetsOverflow;
    ThrownExactly(lib, t);
    ContextsAgree(lib, t);
    var v := AnyValue(lib, Build, t);
    var c := Expect(COMMA, v.rest);
    if v.status.Good? && c.ok { ItemsThrownExactly(lib, c.rest, acc + [v.value]); }
  }

  lemma {:induction false} MembersThrownExactly(lib: Library, t: Text, acc: seq<Entry>)
    ensures MembersAt(lib, Build, t, acc).status.Thrown? <==> MembersMeetOverflow(lib, t)
    decreases |t|, 3
  {
    hide AnyValue, Expect, KeyAt, Assign, MeetsOverflow;
    var key := KeyAt(t);
    if key.ok {
      ThrownExactly(lib, key.rest);
      ContextsAgree(lib, key.rest);
      var v := AnyValue(lib, Build, key.rest);
      var c := Expect(COMMA, v.rest);
      if v.status.Good? && c.ok { MembersThrownExactly(lib, c.rest, Assign(acc, key.text, v.value)); }
    }
  }

  /** The two contexts accept alike and stop at the same place if and only if no number met
      overflows. */
  lemma ContextsAgreeExactly(lib: Library, t: Text)
    ensures var r, q := AnyValue(lib, Build, t), AnyValue(lib, Validate, t);
      r.status == q.status && r.rest == q.rest <==> !MeetsOverflow(lib, t)
  {
    hide AnyValue, MeetsOverflow;
    ThrownExactly(lib, t);
    ContextsAgree(lib, t);
  }

  /** The bytes 1e999. */
  const HUGE: Text := [49, 101, 57, 57, 57]

  /** Where they differ: a strtod that finds 1e999 too large, as any for doubles does. */
  lemma OverflowSeparates(lib: Library)
    requires lib.strtod(HUGE).Overflow?
    ensures MeetsOverflow(lib, HUGE)
    ensures AnyValue(lib, Build, HUGE) == Parsed(Thrown, Null, [])
    ensures AnyValue(lib, Validate, HUGE) == Parsed(Good, Null, [])
  {
    assert HUGE + [] == HUGE && SkipWs(HUGE) == HUGE;
    PrefixRead(HUGE, []);
    assert HUGE[|HUGE|..] == [];
    assert !IsDigit(HUGE[1]) && !IsInteger(HUGE);
    hide NumberPrefix;
  }

  // ---------- every number in the text ----------

  predicate Suffix(u: Text, t: Text)
  {
    |u| <= |t| && u == t[|t| - |u|..]
  }

  lemma SuffixTrans(u: Text, v: Text, t: Text)
    requires Suffix(u, v) && Suffix(v, t)
    ensures Suffix(u, t)
  {
  }

  lemma Dropped(t: Text, n: nat)
    requires n <= |t|
    ensures Suffix(t[n..], t)
  {
  }

  lemma {:induction false} SkipWsSuffix(t: Text)
    ensures Suffix(SkipWs(t), t)
  {
    if t != [] && IsSpace(t[0]) {
      SkipWsSuffix(t[1..]);
    }
  }

  lemma ExpectSuffix(c: Byte, t: Text)
    ensures Suffix(Expect(c, t).rest, t)
  {
    SkipWsSuffix(t);
    var u := SkipWs(t);
    if u != [] && u[0] == c { SuffixTrans(u[1..], u, t); }
  }

  lemma {:induction false} MatchSuffix(pattern: Text, t: Text)
    ensures Suffix(Match(pattern, t).rest, t)
  {
    if pattern != [] && t != [] && t[0] == pattern[0] {
      MatchSuffix(pattern[1..], t[1..]);
    }
  }

  lemma {:induction false} QuadHexSuffix(t: Text, n: nat, acc: nat)
    requires n <= 4
    ensures Suffix(QuadHex(t, n, acc).rest, t)
    decreases n
  {
    hide HexValue, Shift16;
    if n > 0 && t != [] && HexValue(t[0]) != -1 {
      QuadHexSuffix(t[1..], n - 1, acc * 16 + HexValue(t[0]));
    }
  }

  lemma CodepointSuffix(t: Text)
    ensures Suffix(Codepoint(t).rest, t)
  {
    hide QuadHex, Encode;
    QuadHexSuffix(t, 4, 0);
    var h := QuadHex(t, 4, 0).rest;
    if |h| > 1 {
      QuadHexSuffix(h[2..], 4, 0);
      SuffixTrans(QuadHex(h[2..], 4, 0).rest, h[2..], h);
      SuffixTrans(QuadHex(h[2..], 4, 0).rest, h, t);
    }
  }

  lemma {:induction false} StringSuffix(t: Text, acc: Text)
    ensures Suffix(StringRest(t, acc).rest, t)
    decreases |t|
  {
    hide Codepoint;
    if t != [] && t[0] >= SPACE && t[0] != QUOTE {
      if t[0] != BACKSLASH {
        StringSuffix(t[1..], acc + [t[0]]);
      } else if |t| > 1 && Unescape(t[1]) != -1 {
        StringSuffix(t[2..], acc + [Unescape(t[1])]);
      } else if |t| > 1 && t[1] == LOWER_U {
        var p := Codepoint(t[2..]);
        CodepointSuffix(t[2..]);
        SuffixTrans(p.rest, t[2..], t);
        if p.ok {
          StringSuffix(p.rest, acc + p.text);
          SuffixTrans(StringRest(p.rest, acc + p.text).rest, p.rest, t);
        }
      }
    }
  }

  lemma KeySuffix(t: Text)
    ensures Suffix(KeyAt(t).rest, t)
  {
    hide Expect, StringRest, Suffix;
    ExpectSuffix(QUOTE, t);
    var q := Expect(QUOTE, t).rest;
    StringSuffix(q, []);
    var s := StringRest(q, []).rest;
    SuffixTrans(s, q, t);
    ExpectSuffix(COLON, s);
    SuffixTrans(Expect(COLON, s).rest, s, t);
  }

  /** What a value leaves unread is the end of the text. */
  lemma {:induction false} ValueSuffix(lib: Library, t: Text)
    ensures Suffix(AnyValue(lib, Validate, t).rest, t)
    decreases |t|, 2
  {
    hide ValueAt, Suffix;
    SkipWsSuffix(t);
    ValueSuffixAt(lib, SkipWs(t));
    SuffixTrans(AnyValue(lib, Validate, t).rest, SkipWs(t), t);
  }

  lemma {:induction false} ValueSuffixAt(lib: Library, t: Text)
    ensures Suffix(ValueAt(lib, Validate, t).rest, t)
    decreases |t|, 1
  {
    hide StringRest, ItemsAt, MembersAt, Match, Strtod, Expect, NumberPrefix, Suffix;
    if t != [] {
      var u, rest := t[1..], ValueAt(lib, Validate, t).rest;
      Dropped(t, 1);
      Dropped(t, |NumberPrefix(t)|);
      Dropped(t, 0);
      assert t[0..] == t;
      if t[0] == 110 { MatchSuffix(NULL_TEXT[1..], u); SuffixTrans(rest, u, t); }
      else if t[0] == 102 { MatchSuffix(FALSE_TEXT[1..], u); SuffixTrans(rest, u, t); }
      else if t[0] == 116 { MatchSuffix(TRUE_TEXT[1..], u); SuffixTrans(rest, u, t); }
      else if t[0] == QUOTE { StringSuffix(u, []); SuffixTrans(rest, u, t); }
      else if t[0] == LBRACKET || t[0] == LBRACE {
        var c := if t[0] == LBRACKET then RBRACKET else RBRACE;
        var e := Expect(c, u);
        ExpectSuffix(c, u);
        SuffixTrans(e.rest, u, t);
        if !e.ok {
          if t[0] == LBRACKET {
            ItemsSuffix(lib, e.rest);
            SuffixTrans(ItemsAt(lib, Validate, e.rest, []).rest, e.rest, t);
          } else {
            MembersSuffix(lib, e.rest);
            SuffixTrans(MembersAt(lib, Validate, e.rest, []).rest, e.rest, t);
          }
        }
      }
    } else {
      assert Suffix(t, t) by { Dropped(t, 0); }
    }
  }

  lemma {:induction false} ItemsSuffix(lib: Library, t: Text)
    ensures Suffix(ItemsAt(lib, Validate, t, []).rest, t)
    decreases |t|, 3
  {
    hide AnyValue, Expect, Suffix;
    ValueSuffix(lib, t);
    var v := AnyValue(lib, Validate, t);
    var c := Expect(COMMA, v.rest);
    ExpectSuffix(COMMA, v.rest);
    SuffixTrans(c.rest, v.rest, t);
    ExpectSuffix(RBRACKET, c.rest);
    SuffixTrans(Expect(RBRACKET, c.rest).rest, c.rest, t);
    if v.status.Good? && c.ok {
      ItemsSuffix(lib, c.rest);
      SuffixTrans(ItemsAt(lib, Validate, c.rest, []).rest, c.rest, t);
    }
  }

  lemma {:induction false} MembersSuffix(lib: Library, t: Text)
    ensures Suffix(MembersAt(lib, Validate, t, []).rest, t)
    decreases |t|, 3
  {
    hide AnyValue, Expect, KeyAt, Suffix;
    var key := KeyAt(t);
    KeySuffix(t);
    if key.ok {
      ValueSuffix(lib, key.rest);
      var v := AnyValue(lib, Validate, key.rest);
      var c := Expect(COMMA, v.rest);
      SuffixTrans(v.rest, key.rest, t);
      ExpectSuffix(COMMA, v.rest);
      SuffixTrans(c.rest, v.rest, t);
      ExpectSuffix(RBRACE, c.rest);
      SuffixTrans(Expect(RBRACE, c.rest).rest, c.rest, t);
      if v.status.Good? && c.ok {
        MembersSuffix(lib, c.rest);
        SuffixTrans(MembersAt(lib, Validate, c.rest, []).rest, c.rest, t);
      }
    }
  }

  /** No number that starts anywhere in the text overflows. */
  ghost predicate AllFinite(lib: Library, t: Text)
  {
    forall u: Text {:trigger Suffix(u, t)} :: Suffix(u, t) && StartsNumber(u) ==> !Strtod(lib, NumberPrefix(u)).Overflow?
  }

  lemma FiniteEnd(lib: Library, u: Text, t: Text)
    requires AllFinite(lib, t) && Suffix(u, t)
    ensures AllFinite(lib, u)
  {
    hide Strtod, NumberPrefix;
    forall v: Text | Suffix(v, u) && StartsNumber(v) ensures !Strtod(lib, NumberPrefix(v)).Overflow? {
      SuffixTrans(v, u, t);
    }
  }

  lemma {:induction false} FiniteMeetsNone(lib: Library, t: Text)
    requires AllFinite(lib, t)
    ensures !MeetsOverflow(lib, t)
    decreases |t|, 2
  {
    hide AllFinite, Suffix, MeetsOverflowAt;
    SkipWsSuffix(t);
    FiniteEnd(lib, SkipWs(t), t);
    FiniteMeetsNoneAt(lib, SkipWs(t));
  }

  lemma {:induction false} FiniteMeetsNoneAt(lib: Library, t: Text)
    requires AllFinite(lib, t)
    ensures !MeetsOverflowAt(lib, t)
    decreases |t|, 1
  {
    hide Strtod, NumberPrefix, Expect, Suffix, ItemsMeetOverflow, MembersMeetOverflow;
    if t != [] {
      Dropped(t, 0);
      Dropped(t, 1);
      assert t[0..] == t;
      hide AllFinite;
      if t[0] == LBRACKET || t[0] == LBRACE {
        var c := if t[0] == LBRACKET then RBRACKET else RBRACE;
        var e := Expect(c, t[1..]).rest;
        ExpectSuffix(c, t[1..]);
        SuffixTrans(e, t[1..], t);
        FiniteEnd(lib, e, t);
        if !Expect(c, t[1..]).ok {
          if t[0] == LBRACKET { ItemsFinite(lib, e); } else { MembersFinite(lib, e); }
        }
      }
    }
  }

  lemma {:induction false} ItemsFinite(lib: Library, t: Text)
    requires AllFinite(lib, t)
    ensures !ItemsMeetOverflow(lib, t)
    decreases |t|, 3
  {
    hide AnyValue, Expect, Suffix, AllFinite, MeetsOverflow;
    FiniteMeetsNone(lib, t);
    ValueSuffix(lib, t);
    var v := AnyValue(lib, Validate, t);
    var c := Expect(COMMA, v.rest);
    ExpectSuffix(COMMA, v.rest);
    SuffixTrans(c.rest, v.rest, t);
    FiniteEnd(lib, c.rest, t);
    if v.status.Good? && c.ok { ItemsFinite(lib, c.rest); }
  }

  lemma {:induction false} MembersFinite(lib: Library, t: Text)
    requires AllFinite(lib, t)
    ensures !MembersMeetOverflow(lib, t)
    decreases |t|, 3
  {
    hide AnyValue, Expect, KeyAt, Suffix, AllFinite, MeetsOverflow;
    var key := KeyAt(t);
    KeySuffix(t);
    FiniteEnd(lib, key.rest, t);
    if key.ok {
      FiniteMeetsNone(lib, key.rest);
      ValueSuffix(lib, key.rest);
      var v := AnyValue(lib, Validate, key.rest);
      var c := Expect(COMMA, v.rest);
      SuffixTrans(v.rest, key.rest, t);
      ExpectSuffix(COMMA, v.rest);
      SuffixTrans(c.rest, v.rest, t);
      FiniteEnd(lib, c.rest, t);
      if v.status.Good? && c.ok { MembersFinite(lib, c.rest); }
    }
  }

  /** On a text whose numbers are finite the two contexts agree, and nothing is thrown. */
  lemma FiniteNumbersAgree(lib: Library, t: Text)
    requires AllFinite(lib, t)
    ensures AnyValue(lib, Build, t).status == AnyValue(lib, Validate, t).status
    ensures AnyValue(lib, Build, t).rest == AnyValue(lib, Validate, t).rest
  {
    hide AnyValue, MeetsOverflow, AllFinite;
    FiniteMeetsNone(lib, t);
    ContextsAgreeExactly(lib, t);
  }

  /** deny_parse_context refuses everything but a number: the parser ignores what set_number says. */
  lemma DenyAcceptsNumbersOnly(lib: Library, t: Text)
    ensures AnyValue(lib, Deny, t).status.Good? <==>
      StartsNumber(SkipWs(t)) && !Strtod(lib, NumberPrefix(SkipWs(t))).Junk?
  {
    var u := SkipWs(t);
    hide SkipWs, StringRest, Match, Strtod, Expect, NumberPrefix;
    assert AnyValue(lib, Deny, t) == ValueAt(lib, Deny, u);
    if StartsNumber(u) {
      assert ValueAt(lib, Deny, u) == NumberAt(lib, Deny, u);
    } else {
      assert !ValueAt(lib, Deny, u).status.Good?;
    }
  }

  // ---------- what is built ----------

  /** Whatever the text, the objects built have their keys in order and once each. */
  lemma {:induction false} BuiltIsProper(lib: Library, t: Text)
    requires AnyValue(lib, Build, t).status.Good?
    ensures Proper(AnyValue(lib, Build, t).value)
    decreases |t|, 2
  {
    hide ValueAt;
    BuiltIsProperAt(lib, SkipWs(t));
  }

  lemma {:induction false} BuiltIsProperAt(lib: Library, t: Text)
    requires ValueAt(lib, Build, t).status.Good?
    ensures Proper(ValueAt(lib, Build, t).value)
    decreases |t|, 1
  {
    hide StringRest, ItemsAt, MembersAt, Match, Strtod, Expect;
    if t[0] == LBRACKET {
      var e := Expect(RBRACKET, t[1..]);
      if !e.ok { ItemsProper(lib, e.rest, []); }
    } else if t[0] == LBRACE {
      var e := Expect(RBRACE, t[1..]);
      if !e.ok { MembersProper(lib, e.rest, []); }
    }
  }

  lemma {:induction false} ItemsProper(lib: Library, t: Text, acc: seq<Value>)
    requires Proper(Arr(acc)) && ItemsAt(lib, Build, t, acc).status.Good?
    ensures Proper(ItemsAt(lib, Build, t, acc).value)
    decreases |t|, 3
  {
    hide AnyValue, Expect;
    BuiltIsProper(lib, t);
    var v := AnyValue(lib, Build, t);
    var c := Expect(COMMA, v.rest);
    assert Proper(Arr(acc + [v.value]));
    if c.ok { ItemsProper(lib, c.rest, acc + [v.value]); }
  }

  lemma {:induction false} MembersProper(lib: Library, t: Text, acc: seq<Entry>)
    requires Proper(Obj(acc)) && MembersAt(lib, Build, t, acc).status.Good?
    ensures Proper(MembersAt(lib, Build, t, acc).value)
    decreases |t|, 3
  {
    hide AnyValue, Expect, KeyAt, Assign, Ordered;
    var key := KeyAt(t);
    BuiltIsProper(lib, key.rest);
    var v := AnyValue(lib, Build, key.rest);
    var c := Expect(COMMA, v.rest);
    var more := Assign(acc, key.text, v.value);
    AssignIsMapUpdate(acc, key.text, v.value, []);
    forall i | 0 <= i < |more| ensures Proper(more[i].value) {
      assert more[i] in more;
    }
    assert Proper(Obj(more));
    if c.ok { MembersProper(lib, c.rest, more); }
  }

  /** Writing out what was read from any text, and reading that, changes nothing more. */
  lemma ParseSerializeParse(lib: Library, t: Text, pretty: bool)
    requires var p := AnyValue(lib, Build, t); p.status.Good? && Numbers(lib, p.value)
    ensures var v := AnyValue(lib, Build, t).value;
      AnyValue(lib, Build, Serialized(lib, v, if pretty then 0 else -1)) == Parsed(Good, v, if pretty then [LF] else [])
  {
    hide AnyValue, Serialized;
    var v := AnyValue(lib, Build, t).value;
    BuiltIsProper(lib, t);
    SerializeThenParse(lib, v, pretty, []);
    var s := Serialized(lib, v, if pretty then 0 else -1);
    assert s + [] == s && [LF] + [] == [LF];
  }

  /** Two proper values with the same text are the same value. */
  lemma SerializeIsInjective(lib: Library, v: Value, w: Value, pretty: bool)
    requires Proper(v) && Numbers(lib, v) && Proper(w) && Numbers(lib, w)
    requires var level := if pretty then 0 else -1; Serialized(lib, v, level) == Serialized(lib, w, level)
    ensures v == w
  {
    hide AnyValue, Serialized, Proper, Numbers;
    SerializeThenParse(lib, v, pretty, []);
    SerializeThenParse(lib, w, pretty, []);
  }
}
