/** Which documented format strings are accepted, and as what. */
module FormatGrammar {
  import opened Words
  import opened NumberText
  import opened FormatStrings

  function WidthText(width: nat): seq<byte> {
    if width == 0 then [] else Digits(width, 10, false)
  }

  function FlagText(given: bool, c: byte): seq<byte> {
    if given then [c] else []
  }

  /** What follows the flags: a width without leading zero, some l's, the conversion, the suffix. */
  function Directive(width: nat, ells: nat, conversion: byte, suffix: seq<byte>): seq<byte> {
    WidthText(width) + (Repeated(LETTER_L, ells) + [conversion] + suffix)
  }

  /** The scan for letters goes on after the conversion, so that some suffixes are taken for part of
      the directive. */
  predicate Clashes(conversion: byte, suffix: seq<byte>) {
    suffix != [] &&
    (|| suffix[0] == LETTER_S
     || (suffix[0] == LETTER_UPPER_X && conversion != LETTER_UPPER_X)
     || (suffix[0] == LETTER_X && conversion in {LETTER_U, LETTER_D})
     || (suffix[0] == LETTER_D && conversion == LETTER_U))
  }

  lemma {:induction false} PercentFound(prefix: seq<byte>, rest: seq<byte>)
    requires PERCENT !in prefix
    ensures PercentAt(prefix + [PERCENT] + rest) == |prefix|
    ensures (prefix + [PERCENT] + rest)[..|prefix|] == prefix
    ensures (prefix + [PERCENT] + rest)[|prefix| + 1..] == rest
  {
    var f := prefix + [PERCENT] + rest;
    assert f[|prefix|] == PERCENT;
    assert forall i | 0 <= i < |prefix| :: f[i] == prefix[i];
  }

  lemma NoWidthReads(tail: seq<byte>)
    requires tail != [] && !IsDigit(tail[0], 10) && !IsSpace(tail[0]) && tail[0] !in {PLUS, MINUS}
    ensures ReadWidth(tail) == Width(0, tail)
  {
    assert tail[0..] == tail;
    assert SpaceRun(tail) == 0 && DigitRun(tail, 10) == 0;
    hide DigitRun, SpaceRun, DigitsValue, IsDigit, IsSpace;
  }

  lemma StrtolReads(digits: seq<byte>, width: nat, tail: seq<byte>)
    requires 0 < width < 0x8000_0000_0000_0000 && digits != []
    requires ReadInteger(digits + tail, 10) == Reading(width, |digits|)
    ensures ReadWidth(digits + tail) == Width(width, tail)
  {
    hide ReadInteger;
    assert (digits + tail)[|digits|..] == tail;
  }

  lemma NothingBefore(digits: seq<byte>, tail: seq<byte>)
    ensures Repeated(SPACE, 0) + [] + digits + tail == digits + tail
  {
  }

  lemma Positive(v: nat)
    ensures SignedBy([], v) == v
  {
  }

  lemma SomeWidthReads(width: nat, tail: seq<byte>)
    requires 0 < width < 0x8000_0000_0000_0000
    requires tail != [] && !IsDigit(tail[0], 10)
    ensures ReadWidth(Digits(width, 10, false) + tail) == Width(width, tail)
  {
    hide *;
    var digits := Digits(width, 10, false);
    DigitsReadBack(width, 10, false);
    ReadPadded(0, [], digits, tail, 10);
    NothingBefore(digits, tail);
    Positive(width);
    StrtolReads(digits, width, tail);
  }

  lemma WidthReads(width: nat, tail: seq<byte>)
    requires width < 0x8000_0000_0000_0000
    requires tail != [] && !IsDigit(tail[0], 10) && !IsSpace(tail[0]) && tail[0] !in {PLUS, MINUS}
    ensures ReadWidth(WidthText(width) + tail) == Width(width, tail)
  {
    hide ReadWidth, IsDigit, IsSpace, Digits;
    if width == 0 {
      assert WidthText(width) + tail == tail;
      NoWidthReads(tail);
    } else {
      SomeWidthReads(width, tail);
    }
  }

  lemma SkipL(ells: nat, rest: seq<byte>)
    requires ells > 0
    ensures Starts(Repeated(LETTER_L, ells) + rest, LETTER_L)
    ensures Skip(Repeated(LETTER_L, ells) + rest, LETTER_L) == Repeated(LETTER_L, ells - 1) + rest
  {
    assert (Repeated(LETTER_L, ells) + rest)[1..] == Repeated(LETTER_L, ells - 1) + rest;
  }

  lemma NoL(rest: seq<byte>)
    ensures Repeated(LETTER_L, 0) + rest == rest
  {
  }

  /** The number of l's taken is capped at three. */
  lemma EllsRead(ells: nat, rest: seq<byte>)
    requires !Starts(rest, LETTER_L)
    ensures var s := Repeated(LETTER_L, ells) + rest;
            var s1 := Skip(s, LETTER_L); var s2 := Skip(s1, LETTER_L); var s3 := Skip(s2, LETTER_L);
            && Taken(s, LETTER_L) + Taken(s1, LETTER_L) + Taken(s2, LETTER_L) == (if ells > 3 then 3 else ells)
            && s3 == (if ells > 3 then Repeated(LETTER_L, ells - 3) + rest else rest)
  {
    NoL(rest);
    if ells > 0 {
      SkipL(ells, rest);
    }
    if ells > 1 {
      SkipL(ells - 1, rest);
    }
    if ells > 2 {
      SkipL(ells - 2, rest);
    }
    hide Repeated;
  }

  /** What the letters t of a directive say about it. */
  ghost predicate Spells(t: Letters, ells: nat, conversion: byte, suffix: seq<byte>) {
    && (ells <= 3 ==>
          && t.l == ells
          && t.Conversions() >= 1
          && (t.Conversions() > 1 || Starts(t.rest, LETTER_S) <==> Clashes(conversion, suffix))
          && (t.Conversions() == 1 && !Starts(t.rest, LETTER_S) ==>
                && t.rest == suffix
                && (t.u == 1 <==> conversion == LETTER_U)
                && (t.d == 1 <==> conversion == LETTER_D)
                && (t.x == 1 <==> conversion == LETTER_X)))
    && (ells > 3 ==> t.Conversions() == 0 && !Starts(t.rest, LETTER_S))
  }

  lemma LettersRead(ells: nat, conversion: byte, suffix: seq<byte>)
    requires conversion in {LETTER_U, LETTER_D, LETTER_X, LETTER_UPPER_X}
    ensures Spells(ReadLetters(Repeated(LETTER_L, ells) + [conversion] + suffix), ells, conversion, suffix)
  {
    var rest := [conversion] + suffix;
    assert Repeated(LETTER_L, ells) + [conversion] + suffix == Repeated(LETTER_L, ells) + rest;
    EllsRead(ells, rest);
    assert rest[1..] == suffix;
    if ells > 3 {
      SkipL(ells - 3, rest);
    }
  }

  lemma DirectiveStart(width: nat, ells: nat, conversion: byte, suffix: seq<byte>)
    requires conversion in {LETTER_U, LETTER_D, LETTER_X, LETTER_UPPER_X}
    ensures var d := Directive(width, ells, conversion, suffix);
            d != [] && d[0] !in {SPACE, PLUS, MINUS, ZERO}
    ensures var tail := Repeated(LETTER_L, ells) + [conversion] + suffix;
            && tail != [] && !IsDigit(tail[0], 10) && !IsSpace(tail[0]) && tail[0] !in {PLUS, MINUS, ZERO}
  {
    var tail := Repeated(LETTER_L, ells) + [conversion] + suffix;
    assert tail[0] == if ells > 0 then LETTER_L else conversion;
    if width > 0 {
      NoLeadingZero(width, 10, false);
      DigitsReadBack(width, 10, false);
      assert Directive(width, ells, conversion, suffix)[0] == Digits(width, 10, false)[0];
      assert IsDigit(Digits(width, 10, false)[0], 10);
    } else {
      assert Directive(width, ells, conversion, suffix) == tail;
    }
  }

  lemma FlagSkipped(given: bool, c: byte, rest: seq<byte>)
    requires !Starts(rest, c)
    ensures Skip(FlagText(given, c) + rest, c) == rest
    ensures Starts(FlagText(given, c) + rest, c) <==> given
  {
    assert FlagText(given, c) + rest == if given then [c] + rest else rest;
  }

  lemma DecidedByU(prefix: seq<byte>, zero: bool, width: nat, t: Letters, ells: nat, conversion: byte,
                   suffix: seq<byte>)
    requires conversion in {LETTER_U, LETTER_D, LETTER_X, LETTER_UPPER_X}
    requires Spells(t, ells, conversion, suffix)
    ensures var f := DecideU(prefix, zero, width, t);
            && (f.Number? <==> ells <= 2 && conversion != LETTER_D && !Clashes(conversion, suffix))
            && (f.Number? ==> f == Number(prefix, false, zero, width, conversion, suffix))
            && (ells > 3 ==> f == Rejected(prefix, MissingInU))
            && (ells == 3 && !Clashes(conversion, suffix) ==> f == Rejected(prefix, TooLongInU))
            && (ells < 3 && conversion == LETTER_D && !Clashes(conversion, suffix) ==>
                  f == Rejected(prefix, DecimalInU))
  {
    hide Clashes, Starts;
  }

  lemma DirectiveAcceptedByU(prefix: seq<byte>, zero: bool, width: nat, ells: nat, conversion: byte, suffix: seq<byte>)
    requires width < 0x8000_0000_0000_0000
    requires conversion in {LETTER_U, LETTER_D, LETTER_X, LETTER_UPPER_X}
    ensures var f := DirectiveU(prefix, FlagText(zero, ZERO) + Directive(width, ells, conversion, suffix));
            && (f.Number? <==> ells <= 2 && conversion != LETTER_D && !Clashes(conversion, suffix))
            && (f.Number? ==> f == Number(prefix, false, zero, width, conversion, suffix))
            && (ells > 3 ==> f == Rejected(prefix, MissingInU))
            && (ells == 3 && !Clashes(conversion, suffix) ==> f == Rejected(prefix, TooLongInU))
            && (ells < 3 && conversion == LETTER_D && !Clashes(conversion, suffix) ==>
                  f == Rejected(prefix, DecimalInU))
  {
    var directive := Directive(width, ells, conversion, suffix);
    var tail := Repeated(LETTER_L, ells) + [conversion] + suffix;
    DirectiveStart(width, ells, conversion, suffix);
    WidthReads(width, tail);
    assert directive == WidthText(width) + tail;
    LettersRead(ells, conversion, suffix);
    DecidedByU(prefix, zero, width, ReadLetters(tail), ells, conversion, suffix);
    FlagsThenWidth(prefix, zero, directive, Width(width, tail));
    hide *;
  }

  lemma FlagsThenWidth(prefix: seq<byte>, zero: bool, directive: seq<byte>, w: Width)
    requires directive != [] && directive[0] !in {SPACE, MINUS, ZERO}
    requires ReadWidth(directive) == w
    ensures DirectiveU(prefix, FlagText(zero, ZERO) + directive) == DecideU(prefix, zero, w.value, ReadLetters(w.rest))
  {
    hide ReadWidth, DecideU, ReadLetters;
    FlagSkipped(zero, ZERO, directive);
    assert (FlagText(zero, ZERO) + directive)[0] == if zero then ZERO else directive[0];
  }

  /** append_printf_u accepts a documented directive exactly when it has at most two l's, converts
      with u, x or X, and is not followed by a letter it goes on to swallow; it then takes every
      part as written. */
  lemma AcceptedByU(prefix: seq<byte>, zero: bool, width: nat, ells: nat, conversion: byte, suffix: seq<byte>)
    requires PERCENT !in prefix && width < 0x8000_0000_0000_0000
    requires conversion in {LETTER_U, LETTER_D, LETTER_X, LETTER_UPPER_X}
    ensures var f := ParseU(prefix + [PERCENT] + (FlagText(zero, ZERO) + Directive(width, ells, conversion, suffix)));
            && (f.Number? <==> ells <= 2 && conversion != LETTER_D && !Clashes(conversion, suffix))
            && (f.Number? ==> f == Number(prefix, false, zero, width, conversion, suffix))
            && (ells > 3 ==> f == Rejected(prefix, MissingInU))
            && (ells == 3 && !Clashes(conversion, suffix) ==> f == Rejected(prefix, TooLongInU))
            && (ells < 3 && conversion == LETTER_D && !Clashes(conversion, suffix) ==>
                  f == Rejected(prefix, DecimalInU))
  {
    PercentFound(prefix, FlagText(zero, ZERO) + Directive(width, ells, conversion, suffix));
    DirectiveAcceptedByU(prefix, zero, width, ells, conversion, suffix);
    hide PercentAt, FlagText, Directive, DirectiveU, Clashes;
  }

  lemma DecidedByI(prefix: seq<byte>, minus: bool, plus: bool, zero: bool, width: nat, t: Letters, ells: nat,
                   suffix: seq<byte>)
    requires Spells(t, ells, LETTER_D, suffix)
    ensures var f := DecideI(prefix, minus, plus, zero, width, t);
            && (f.Number? <==> ells <= 2 && !(plus && minus) && !Clashes(LETTER_D, suffix))
            && (f.Number? ==> f == Number(prefix, plus, zero, width, LETTER_D, suffix))
            && (ells > 3 || (ells == 3 && !Clashes(LETTER_D, suffix)) ==> f == Rejected(prefix, TooManyInI))
            && (ells < 3 && plus && minus && !Clashes(LETTER_D, suffix) ==> f == Rejected(prefix, PlusMinusInI))
  {
    hide Clashes, Starts;
  }

  lemma DirectiveAcceptedByI(prefix: seq<byte>, minus: bool, plus: bool, zero: bool, width: nat, ells: nat,
                             suffix: seq<byte>)
    requires width < 0x8000_0000_0000_0000
    ensures var f := DirectiveI(prefix, FlagText(minus, MINUS) + (FlagText(plus, PLUS)
                                + (FlagText(zero, ZERO) + Directive(width, ells, LETTER_D, suffix))));
            && (f.Number? <==> ells <= 2 && !(plus && minus) && !Clashes(LETTER_D, suffix))
            && (f.Number? ==> f == Number(prefix, plus, zero, width, LETTER_D, suffix))
            && (ells > 3 || (ells == 3 && !Clashes(LETTER_D, suffix)) ==> f == Rejected(prefix, TooManyInI))
            && (ells < 3 && plus && minus && !Clashes(LETTER_D, suffix) ==> f == Rejected(prefix, PlusMinusInI))
  {
    var directive := Directive(width, ells, LETTER_D, suffix);
    var tail := Repeated(LETTER_L, ells) + [LETTER_D] + suffix;
    DirectiveStart(width, ells, LETTER_D, suffix);
    WidthReads(width, tail);
    assert directive == WidthText(width) + tail;
    LettersRead(ells, LETTER_D, suffix);
    DecidedByI(prefix, minus, plus, zero, width, ReadLetters(tail), ells, suffix);
    SignsThenWidth(prefix, minus, plus, zero, directive, Width(width, tail));
    hide *;
  }

  lemma SignsThenWidth(prefix: seq<byte>, minus: bool, plus: bool, zero: bool, directive: seq<byte>, w: Width)
    requires directive != [] && directive[0] !in {SPACE, PLUS, MINUS, ZERO}
    requires ReadWidth(directive) == w
    ensures DirectiveI(prefix, FlagText(minus, MINUS) + (FlagText(plus, PLUS) + (FlagText(zero, ZERO) + directive)))
            == DecideI(prefix, minus, plus, zero, w.value, ReadLetters(w.rest))
  {
    FlagSkipped(zero, ZERO, directive);
    var f3 := FlagText(zero, ZERO) + directive;
    assert f3[0] == if zero then ZERO else directive[0];
    SignsSkipped(minus, plus, f3);
    hide ReadWidth, DecideI, ReadLetters, FlagText, Skip, Starts;
  }

  lemma SignsSkipped(minus: bool, plus: bool, f3: seq<byte>)
    requires f3 != [] && f3[0] !in {SPACE, MINUS, PLUS}
    ensures var f0 := FlagText(minus, MINUS) + (FlagText(plus, PLUS) + f3);
            var f1 := Skip(f0, MINUS); var f2 := Skip(f1, PLUS);
            && f0 != [] && f0[0] != SPACE
            && Skip(f2, MINUS) == f3 && !Starts(f2, MINUS)
            && (Starts(f0, MINUS) <==> minus) && (Starts(f1, PLUS) <==> plus)
  {
    var f1 := FlagText(plus, PLUS) + f3;
    assert f1[0] == if plus then PLUS else f3[0];
    FlagSkipped(plus, PLUS, f3);
    FlagSkipped(minus, MINUS, f1);
    assert (FlagText(minus, MINUS) + f1)[0] == if minus then MINUS else f1[0];
  }

  lemma RefusedByI(prefix: seq<byte>, minus: bool, plus: bool, zero: bool, width: nat, t: Letters, ells: nat,
                   conversion: byte, suffix: seq<byte>)
    requires conversion in {LETTER_U, LETTER_X, LETTER_UPPER_X} && ells <= 3 && !Clashes(conversion, suffix)
    requires Spells(t, ells, conversion, suffix)
    ensures DecideI(prefix, minus, plus, zero, width, t)
            == Rejected(prefix, if conversion == LETTER_U then TooManyInI else HexInI)
  {
    hide Clashes, Starts;
  }

  lemma NoFlags(directive: seq<byte>)
    ensures FlagText(false, MINUS) + (FlagText(false, PLUS) + (FlagText(false, ZERO) + directive)) == directive
  {
  }

  lemma ParseIFrom(format: seq<byte>, prefix: seq<byte>, flags: seq<byte>)
    requires PercentAt(format) == |prefix| < |format|
    requires format[..|prefix|] == prefix && format[|prefix| + 1..] == flags
    ensures ParseI(format) == DirectiveI(prefix, flags)
  {
    hide DirectiveI, PercentAt;
  }

  /** The letters of the other conversions: hexadecimal ones are refused as such, and so is %u for want of a d. */
  lemma OthersRefusedByI(prefix: seq<byte>, width: nat, ells: nat, conversion: byte, suffix: seq<byte>)
    requires PERCENT !in prefix && width < 0x8000_0000_0000_0000
    requires conversion in {LETTER_U, LETTER_X, LETTER_UPPER_X} && ells <= 3 && !Clashes(conversion, suffix)
    ensures ParseI(prefix + [PERCENT] + Directive(width, ells, conversion, suffix))
            == Rejected(prefix, if conversion == LETTER_U then TooManyInI else HexInI)
  {
    var directive := Directive(width, ells, conversion, suffix);
    var tail := Repeated(LETTER_L, ells) + [conversion] + suffix;
    DirectiveStart(width, ells, conversion, suffix);
    WidthReads(width, tail);
    assert directive == WidthText(width) + tail;
    LettersRead(ells, conversion, suffix);
    PercentFound(prefix, directive);
    RefusedByI(prefix, false, false, false, width, ReadLetters(tail), ells, conversion, suffix);
    SignsThenWidth(prefix, false, false, false, directive, Width(width, tail));
    NoFlags(directive);
    hide *;
    ParseIFrom(prefix + [PERCENT] + directive, prefix, directive);
  }

  /** append_printf_i accepts a documented %d directive exactly when it has at most two l's, does not
      ask for both + and -, and is not followed by a letter it goes on to swallow. A minus sign
      changes nothing else: the number is not left-justified. */
  lemma AcceptedByI(prefix: seq<byte>, minus: bool, plus: bool, zero: bool, width: nat, ells: nat, suffix: seq<byte>)
    requires PERCENT !in prefix && width < 0x8000_0000_0000_0000
    ensures var f := ParseI(prefix + [PERCENT] + (FlagText(minus, MINUS) + (FlagText(plus, PLUS)
                              + (FlagText(zero, ZERO) + Directive(width, ells, LETTER_D, suffix)))));
            && (f.Number? <==> ells <= 2 && !(plus && minus) && !Clashes(LETTER_D, suffix))
            && (f.Number? ==> f == Number(prefix, plus, zero, width, LETTER_D, suffix))
            && (ells > 3 || (ells == 3 && !Clashes(LETTER_D, suffix)) ==> f == Rejected(prefix, TooManyInI))
            && (ells < 3 && plus && minus && !Clashes(LETTER_D, suffix) ==> f == Rejected(prefix, PlusMinusInI))
  {
    PercentFound(prefix, FlagText(minus, MINUS) + (FlagText(plus, PLUS)
                           + (FlagText(zero, ZERO) + Directive(width, ells, LETTER_D, suffix))));
    DirectiveAcceptedByI(prefix, minus, plus, zero, width, ells, suffix);
    hide PercentAt, FlagText, Directive, DirectiveI, Clashes;
  }

  lemma OneDigit(d: nat)
    requires d < 10
    ensures Digits(d, 10, false) == [ZERO + d]
  {
  }

  lemma FiveWideDirective(format: seq<byte>)
    requires format == [PERCENT, MINUS, ZERO + 5, LETTER_D]
    ensures [] + [PERCENT] + (FlagText(true, MINUS) + (FlagText(false, PLUS)
              + (FlagText(false, ZERO) + Directive(5, 0, LETTER_D, [])))) == format
  {
    OneDigit(5);
    hide Digits;
    assert Directive(5, 0, LETTER_D, []) == [ZERO + 5, LETTER_D];
    hide Directive;
  }

  lemma NothingClashes()
    ensures !Clashes(LETTER_D, []) && !Clashes(LETTER_X, []) && !Clashes(LETTER_X, [59])
  {
  }

  lemma FiveWide(format: seq<byte>)
    requires format == [PERCENT, MINUS, ZERO + 5, LETTER_D]
    ensures ParseI(format) == Number([], false, false, 5, LETTER_D, [])
  {
    hide *;
    NothingClashes();
    AcceptedByI([], true, false, false, 5, 0, []);
    FiveWideDirective(format);
  }

  lemma OneInFive(c: byte, spaces: seq<byte>)
    requires spaces == [SPACE, SPACE, SPACE, SPACE]
    ensures Justified([c], false, 5) == spaces + [c]
    ensures Justified([c], true, 5) == [c] + spaces
  {
    assert spaces == Repeated(SPACE, 4);
  }

  /** For one: %-5d puts 7 on the right of its field, not on the left as a minus sign asks. */
  lemma MinusDoesNotJustify(format: seq<byte>, v: int, spaces: seq<byte>)
    requires format == [PERCENT, MINUS, ZERO + 5, LETTER_D] && v == 7
    requires spaces == [SPACE, SPACE, SPACE, SPACE]
    ensures ParseI(format).Number?
    ensures NumberFor(ParseI(format), v) == spaces + [ZERO + 7]
    ensures Justified(Bare(ParseI(format), v), true, 5) == [ZERO + 7] + spaces
  {
    hide ParseI, Digits, Justified, NumberFor;
    FiveWide(format);
    var f := ParseI(format);
    OneDigit(7);
    assert Bare(f, v) == [ZERO + 7];
    SpacesJustifyRight(f, v);
    OneInFive(ZERO + 7, spaces);
  }

  lemma TextDirectiveStart(width: nat, suffix: seq<byte>)
    ensures var d := WidthText(width) + ([LETTER_S] + suffix); d != [] && d[0] !in {SPACE, MINUS}
  {
    if width > 0 {
      DigitsReadBack(width, 10, false);
      assert (WidthText(width) + ([LETTER_S] + suffix))[0] == Digits(width, 10, false)[0];
      assert IsDigit(Digits(width, 10, false)[0], 10);
    }
  }

  lemma DirectiveAcceptedByS(prefix: seq<byte>, left: bool, width: nat, suffix: seq<byte>)
    requires width < 0x8000_0000_0000_0000
    ensures DirectiveS(prefix, FlagText(left, MINUS) + (WidthText(width) + ([LETTER_S] + suffix)))
            == Text(prefix, left, width, suffix)
  {
    var tail := [LETTER_S] + suffix;
    var directive := WidthText(width) + tail;
    TextDirectiveStart(width, suffix);
    WidthReads(width, tail);
    hide ReadWidth, WidthText;
    FlagSkipped(left, MINUS, directive);
    assert (FlagText(left, MINUS) + directive)[0] == if left then MINUS else directive[0];
    assert tail[1..] == suffix;
  }

  /** append_printf_s accepts every %s directive with an optional minus and width. */
  lemma AcceptedByS(prefix: seq<byte>, left: bool, width: nat, suffix: seq<byte>)
    requires PERCENT !in prefix && width < 0x8000_0000_0000_0000
    ensures ParseS(prefix + [PERCENT] + (FlagText(left, MINUS) + (WidthText(width) + ([LETTER_S] + suffix))))
            == Text(prefix, left, width, suffix)
  {
    PercentFound(prefix, FlagText(left, MINUS) + (WidthText(width) + ([LETTER_S] + suffix)));
    DirectiveAcceptedByS(prefix, left, width, suffix);
    hide PercentAt, FlagText, WidthText, DirectiveS;
  }

  // ---------------------------------------------------------------- what takes the place of a directive

  /** An accepted directive is replaced by the number; the text before and after it stays. */
  lemma DirectiveReplacedByU(prefix: seq<byte>, zero: bool, width: nat, ells: nat, conversion: byte,
                             suffix: seq<byte>, v: nat)
    requires PERCENT !in prefix && width < 0x8000_0000_0000_0000
    requires conversion in {LETTER_U, LETTER_X, LETTER_UPPER_X} && ells <= 2 && !Clashes(conversion, suffix)
    ensures NumberResult(ParseU(prefix + [PERCENT] + (FlagText(zero, ZERO)
                                + Directive(width, ells, conversion, suffix))), v)
            == prefix + Padded(width, zero, [], Digits(v, Base(conversion), conversion == LETTER_UPPER_X)) + suffix
  {
    AcceptedByU(prefix, zero, width, ells, conversion, suffix);
    hide ParseU, Directive, Clashes, FlagText, Padded, Digits;
  }

  lemma DirectiveReplacedByI(prefix: seq<byte>, minus: bool, plus: bool, zero: bool, width: nat, ells: nat,
                             suffix: seq<byte>, v: int)
    requires PERCENT !in prefix && width < 0x8000_0000_0000_0000
    requires ells <= 2 && !(plus && minus) && !Clashes(LETTER_D, suffix)
    ensures NumberResult(ParseI(prefix + [PERCENT] + (FlagText(minus, MINUS) + (FlagText(plus, PLUS)
                                + (FlagText(zero, ZERO) + Directive(width, ells, LETTER_D, suffix))))), v)
            == prefix + Padded(width, zero, SignOf(v, plus), Digits(Magnitude(v), 10, false)) + suffix
  {
    AcceptedByI(prefix, minus, plus, zero, width, ells, suffix);
    hide ParseI, Directive, Clashes, FlagText, Padded, Digits, SignOf;
  }

  lemma DirectiveReplacedByS(prefix: seq<byte>, left: bool, width: nat, suffix: seq<byte>, s: seq<byte>)
    requires PERCENT !in prefix && width < 0x8000_0000_0000_0000
    ensures TextResult(ParseS(prefix + [PERCENT] + (FlagText(left, MINUS)
                              + (WidthText(width) + ([LETTER_S] + suffix)))), s)
            == prefix + Justified(s, left, width) + suffix
  {
    AcceptedByS(prefix, left, width, suffix);
    hide ParseS, FlagText, WidthText, Justified;
  }

  // ---------------------------------------------------------------- the common formats

  lemma PlainDirective(conversion: byte)
    ensures [] + [PERCENT] + (FlagText(false, ZERO) + Directive(0, 0, conversion, [])) == [PERCENT, conversion]
    ensures [] + [PERCENT] + (FlagText(false, MINUS) + (FlagText(false, PLUS)
              + (FlagText(false, ZERO) + Directive(0, 0, conversion, [])))) == [PERCENT, conversion]
    ensures [] + [PERCENT] + (FlagText(false, MINUS) + (FlagText(true, PLUS)
              + (FlagText(false, ZERO) + Directive(0, 0, conversion, [])))) == [PERCENT, PLUS, conversion]
    ensures !Clashes(conversion, [])
  {
  }

  lemma PlainU(conversion: byte, v: nat)
    requires conversion in {LETTER_U, LETTER_X, LETTER_UPPER_X}
    ensures NumberResult(ParseU([PERCENT, conversion]), v)
            == Digits(v, Base(conversion), conversion == LETTER_UPPER_X)
  {
    hide Digits, ParseU, Directive, Clashes, FlagText;
    PlainDirective(conversion);
    AcceptedByU([], false, 0, 0, conversion, []);
    var digits := Digits(v, Base(conversion), conversion == LETTER_UPPER_X);
    assert [] + ([] + digits) + [] == digits;
  }

  /** What %u, %x and %X append, all of it written out: decimal digits, and hexadecimal ones in small or
      capital letters. */
  lemma UnsignedFormats(v: nat)
    ensures NumberResult(ParseU([37, 117]), v) == Digits(v, 10, false)
    ensures NumberResult(ParseU([37, 120]), v) == Digits(v, 16, false)
    ensures NumberResult(ParseU([37, 88]), v) == Digits(v, 16, true)
    ensures forall c | c in NumberResult(ParseU([37, 117]), v) :: 48 <= c <= 57
    ensures forall c | c in NumberResult(ParseU([37, 120]), v) :: 48 <= c <= 57 || 97 <= c <= 102
    ensures forall c | c in NumberResult(ParseU([37, 88]), v) :: 48 <= c <= 57 || 65 <= c <= 70
  {
    hide Digits, ParseU, NumberResult;
    PlainU(LETTER_U, v);
    PlainU(LETTER_X, v);
    PlainU(LETTER_UPPER_X, v);
    DigitsKeepCase(v, 10, false);
    DigitsKeepCase(v, 16, false);
    DigitsKeepCase(v, 16, true);
  }

  lemma NoPadding(digits: seq<byte>)
    ensures [] + Padded(0, false, [], digits) + [] == digits
  {
  }

  lemma XIsHexadecimal()
    ensures Base(LETTER_X) == 16 && LETTER_X != LETTER_UPPER_X && PERCENT !in {48, 120}
  {
  }

  lemma LongDirective()
    ensures [] + [PERCENT] + (FlagText(false, ZERO) + Directive(0, 2, LETTER_X, [])) == [37, 108, 108, 120]
  {
    assert Repeated(LETTER_L, 2) == [108, 108];
  }

  lemma LongDirectiveWithText()
    ensures [48, 120] + [PERCENT] + (FlagText(true, ZERO) + Directive(8, 2, LETTER_X, [59]))
            == [48, 120, 37, 48, 56, 108, 108, 120, 59]
  {
    OneDigit(8);
    hide Digits;
    assert Repeated(LETTER_L, 2) == [108, 108];
  }

  /** The longest documented form, and one with text around it: %llx, and %08llx between 0x and a semicolon. */
  lemma LongFormats(v: nat)
    ensures NumberResult(ParseU([37, 108, 108, 120]), v) == Digits(v, 16, false)
    ensures NumberResult(ParseU([48, 120, 37, 48, 56, 108, 108, 120, 59]), v)
            == [48, 120] + Padded(8, true, [], Digits(v, 16, false)) + [59]
  {
    hide *;
    LongDirective();
    LongDirectiveWithText();
    NothingClashes();
    XIsHexadecimal();
    DirectiveReplacedByU([], false, 0, 2, LETTER_X, [], v);
    DirectiveReplacedByU([48, 120], true, 8, 2, LETTER_X, [59], v);
    NoPadding(Digits(v, 16, false));
  }

  lemma PlainI(plus: bool, v: int)
    ensures NumberResult(ParseI(if plus then [PERCENT, PLUS, LETTER_D] else [PERCENT, LETTER_D]), v)
            == SignOf(v, plus) + Digits(Magnitude(v), 10, false)
  {
    hide Digits, ParseI, Directive, Clashes, FlagText;
    PlainDirective(LETTER_D);
    AcceptedByI([], false, plus, false, 0, 0, []);
    var text := SignOf(v, plus) + Digits(Magnitude(v), 10, false);
    assert [] + text + [] == text;
  }

  /** What %d and %+d append: the decimal digits, after a minus (45) for a negative number, and under %+d after a
      plus (43) for any other. */
  lemma SignedFormats(v: int)
    ensures NumberResult(ParseI([37, 100]), v) == if v < 0 then [45] + Digits(-v, 10, false) else Digits(v, 10, false)
    ensures NumberResult(ParseI([37, 43, 100]), v) == [if v < 0 then 45 else 43] + Digits(Magnitude(v), 10, false)
  {
    hide Digits, ParseI, NumberResult;
    PlainI(false, v);
    PlainI(true, v);
    assert [] + Digits(Magnitude(v), 10, false) == Digits(Magnitude(v), 10, false);
  }

  lemma NotJustified(s: seq<byte>)
    ensures Justified(s, false, 0) == s
  {
  }

  /** %s appends the string, and %-3s and %3s justify it. */
  lemma TextFormats(s: seq<byte>)
    ensures TextResult(ParseS([37, 115]), s) == s
    ensures TextResult(ParseS([37, 51, 115]), s) == Justified(s, false, 3)
    ensures TextResult(ParseS([37, 45, 51, 115]), s) == Justified(s, true, 3)
  {
    hide Digits, ParseS, Justified;
    OneDigit(3);
    AcceptedByS([], false, 0, []);
    AcceptedByS([], false, 3, []);
    AcceptedByS([], true, 3, []);
    assert [] + [PERCENT] + (FlagText(false, MINUS) + (WidthText(0) + ([LETTER_S] + []))) == [37, 115];
    assert [] + [PERCENT] + (FlagText(false, MINUS) + (WidthText(3) + ([LETTER_S] + []))) == [37, 51, 115];
    assert [] + [PERCENT] + (FlagText(true, MINUS) + (WidthText(3) + ([LETTER_S] + []))) == [37, 45, 51, 115];
    NotJustified(s);
    assert forall t: seq<byte> :: [] + t + [] == t;
  }
}
