/** What the type letters, flags and alignments of fmt's integers mean, on the numbers 255 and 42. */
module IntFormatSamples {
  import opened IntFormat

  function Plain(kind: char, hash: bool): Spec
  {
    Spec(0, DefaultAlign, ' ', false, false, hash, kind)
  }

  function Wide(align: Align): Spec
  {
    Spec(6, align, ' ', false, false, false, 'd')
  }

  lemma PlainOutput(value: nat, kind: char, hash: bool)
    requires Base(kind) != 0
    ensures Output(value, Plain(kind, hash)) == Prefix(Plain(kind, hash)) + Digits(value, Base(kind), kind == 'X')
  {
    hide Digits, Prefix;
    LayoutLength(Plain(kind, hash), "", Prefix(Plain(kind, hash)) + Digits(value, Base(kind), kind == 'X'));
  }

  lemma Digits255()
    ensures Digits(255, 10, false) == "255" && Digits(255, 16, false) == "ff" && Digits(255, 16, true) == "FF"
    ensures Digits(255, 8, false) == "377" && Digits(255, 2, false) == "11111111"
  {
    assert Digits(25, 10, false) == "25" && Digits(31, 8, false) == "37";
    assert Digits(1, 2, false) == "1" && Digits(3, 2, false) == "11" && Digits(7, 2, false) == "111";
    assert Digits(15, 2, false) == "1111" && Digits(31, 2, false) == "11111" && Digits(63, 2, false) == "111111";
    assert Digits(127, 2, false) == "1111111";
  }

  /** Decimal for d and for no letter, hexadecimal for x and X, octal for o, binary for b and B. */
  lemma TypeLetters()
    ensures Output(255, Plain('d', false)) == "255" && Output(255, Plain('\0', false)) == "255"
    ensures Output(255, Plain('x', false)) == "ff" && Output(255, Plain('X', false)) == "FF"
    ensures Output(255, Plain('o', false)) == "377"
    ensures Output(255, Plain('b', false)) == "11111111" && Output(255, Plain('B', false)) == "11111111"
    ensures forall c: char ::
      Base(c) != 0 <==> c == '\0' || c == 'd' || c == 'x' || c == 'X' || c == 'o' || c == 'b' || c == 'B'
  {
    hide Output, Digits;
    Digits255();
    PlainOutput(255, 'd', false);
    PlainOutput(255, '\0', false);
    PlainOutput(255, 'x', false);
    PlainOutput(255, 'X', false);
    PlainOutput(255, 'o', false);
    PlainOutput(255, 'b', false);
    PlainOutput(255, 'B', false);
  }

  /** The prefixes that the number sign asks for. */
  lemma Prefixes()
    ensures Output(255, Plain('d', true)) == "255" && Output(255, Plain('o', true)) == "0377"
    ensures Output(255, Plain('x', true)) == "0xff" && Output(255, Plain('X', true)) == "0XFF"
    ensures Output(255, Plain('b', true)) == "0b11111111" && Output(255, Plain('B', true)) == "0B11111111"
  {
    hide Output, Digits;
    Digits255();
    PlainOutput(255, 'd', true);
    PlainOutput(255, 'o', true);
    PlainOutput(255, 'x', true);
    PlainOutput(255, 'X', true);
    PlainOutput(255, 'b', true);
    PlainOutput(255, 'B', true);
  }

  lemma Digits42()
    ensures Digits(42, 10, false) == "42"
  {
    assert Digits(4, 10, false) == "4";
  }

  /** A minus sign always, a plus sign or a space for other numbers on request. */
  lemma Signs()
    ensures Output(-42, Plain('d', false)) == "-42"
    ensures Output(42, Spec(0, DefaultAlign, ' ', true, true, false, 'd')) == "+42"
    ensures Output(42, Spec(0, DefaultAlign, ' ', true, false, false, 'd')) == " 42"
  {
    Digits42();
    hide Digits;
  }

  lemma WideOutput(align: Align)
    ensures Output(-42, Wide(align)) == Layout(Wide(align), "-", "42")
  {
    Digits42();
    hide Digits, Layout;
    assert Prefix(Wide(align)) + "42" == "42";
  }

  /** Numbers stand on the right unless asked otherwise; = pads behind the sign. */
  lemma Alignments()
    ensures Output(-42, Wide(DefaultAlign)) == "   -42" && Output(-42, Wide(Right)) == "   -42"
    ensures Output(-42, Wide(Left)) == "-42   " && Output(-42, Wide(Center)) == " -42  "
    ensures Output(-42, Wide(Numeric)) == "-   42"
  {
    hide Output;
    WideOutput(DefaultAlign);
    WideOutput(Right);
    WideOutput(Left);
    WideOutput(Center);
    WideOutput(Numeric);
    assert Fill(' ', 3) == "   " && Fill(' ', 1) == " " && Fill(' ', 2) == "  ";
    hide Fill;
  }
}
