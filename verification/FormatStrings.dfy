/** What the printf-like appenders are meant to add: format strings taken apart, and padded text. */
module FormatStrings {
  import opened Words
  import opened StringBuffer
  import opened NumberText

  const LETTER_UPPER_X: byte := 88
  const LETTER_D: byte := 100
  const LETTER_L: byte := 108
  const LETTER_S: byte := 115
  const LETTER_U: byte := 117
  const LETTER_X: byte := 120

  predicate Starts(s: seq<byte>, c: byte) {
    s != [] && s[0] == c
  }

  function Skip(s: seq<byte>, c: byte): seq<byte> {
    if Starts(s, c) then s[1..] else s
  }

  /** The position of the first percent sign, or the length when there is none. */
  function PercentAt(format: seq<byte>): (n: nat)
    ensures n <= |format| && PERCENT !in format[..n]
    ensures n < |format| ==> format[n] == PERCENT
  {
    if format == [] || format[0] == PERCENT then 0
    else
      assert format[..1 + PercentAt(format[1..])] == [format[0]] + format[1..][..PercentAt(format[1..])];
      1 + PercentAt(format[1..])
  }

  /** The letters after the width: how many of each were taken, in the fixed order l l l u d x X, and
      what is left. */
  datatype Letters = Letters(l: nat, u: nat, d: nat, x: nat, upperX: nat, rest: seq<byte>) {
    function Conversions(): nat {
      u + d + x + upperX
    }
  }

  function Taken(s: seq<byte>, c: byte): nat {
    if Starts(s, c) then 1 else 0
  }

  function ReadLetters(s: seq<byte>): Letters {
    var s1 := Skip(s, LETTER_L);
    var s2 := Skip(s1, LETTER_L);
    var s3 := Skip(s2, LETTER_L);
    var s4 := Skip(s3, LETTER_U);
    var s5 := Skip(s4, LETTER_D);
    var s6 := Skip(s5, LETTER_X);
    Letters(Taken(s, LETTER_L) + Taken(s1, LETTER_L) + Taken(s2, LETTER_L),
            Taken(s3, LETTER_U), Taken(s4, LETTER_D), Taken(s5, LETTER_X), Taken(s6, LETTER_UPPER_X),
            Skip(s6, LETTER_UPPER_X))
  }

  /** A width field: strtol's value kept in a size_t, and what follows it. */
  datatype Width = Width(value: nat, rest: seq<byte>)

  function ReadWidth(s: seq<byte>): Width {
    var num := Strtol(s);
    Width(if num.used > 0 then Wrap(num.value) else 0, s[num.used..])
  }

  /** The ways in which the appenders refuse a format, and what they append instead. */
  datatype Complaint =
    | StringInU | RepeatsInU | MissingInU | TooLongInU | DecimalInU | EmptyInU | MinusInU | NoPercentInU | NullFormatInU
    | StringInI | HexInI | TooManyInI | PlusMinusInI | EmptyInI | NoPercentInI | NullFormatInI
    | EmptyInS | NoStringInS | NoPercentInS | NullFormatInS | NullStringInS

  function Complain(c: Complaint): seq<byte> {
    Ascii(
      match c
      case StringInU => "<DWARFSTRINGERR: format percent-s passed to dwarfstring_append_printf_u cannot be handled>"
      case RepeatsInU =>
        "<DWARFSTRINGERR: format  percent -x X d u repeats to dwarfstring_append_printf_u cannot be handled>"
      case MissingInU =>
        "<DWARFSTRINGERR: format percent x X d u missing to dwarfstring_append_printf_u cannot be handled>"
      case TooLongInU => "<DWARFSTRINGERR: format percent lll to dwarfstring_append_printf_u cannot be handled>"
      case DecimalInU => "<DWARFSTRINGERR: format  percent-d to dwarfstring_append_printf_u cannot be handled>"
      case EmptyInU => "<DWARFSTRINGERR: empty percent  to dwarfstring_append_printf_u>"
      case MinusInU => "<DWARFSTRINGERR: format - passed to dwarfstring_append_printf_u cannot be handled>"
      case NoPercentInU => "<DWARFSTRINGERR: no percent passed to dwarfstring_append_printf_u>"
      case StringInI => "<DWARFSTRINGERR: format percent s passed to dwarfstring_append_printf_i>"
      case HexInI => "<DWARFSTRINGERR: format %x or %X passed to dwarfstring_append_printf_i>"
      case TooManyInI => "<DWARFSTRINGERR: format has too many percent x/d/u/l passed to dwarfstring_append_printf_i>"
      case PlusMinusInI => "<DWARFSTRINGERR: format disallowed. +- passed to dwarfstring_append_printf_i>"
      case EmptyInI => "<DWARFSTRINGERR: empty percent  to dwarfstring_append_printf_i>"
      case NoPercentInI => "<DWARFSTRINGERR: no percent passed to dwarfstring_append_printf_i>"
      case EmptyInS => "<DWARFSTRINGERR: empty percent  to dwarfstring_append_printf_s>"
      case NoStringInS => "<DWARFSTRINGERR: no percent-s to dwarfstring_append_printf_s>"
      case NoPercentInS => "<DWARFSTRINGERR: no percent passed to dwarfstring_append_printf_s>"
      case NullFormatInU => "<DWARFSTRINGERR: null format pointer to dwarfstring_append_printf_u>"
      case NullFormatInI => "<DWARFSTRINGERR: null format pointer to dwarfstring_append_printf_i>"
      case NullFormatInS => "<DWARFSTRINGERR: null format pointer to dwarfstring_append_printf_s>"
      case NullStringInS => "<DWARFSTRINGERR: null string pointer to dwarfstring_append_printf_s>"
    )
  }

  datatype Format =
    | Rejected(prefix: seq<byte>, complaint: Complaint)
    | Number(prefix: seq<byte>, plus: bool, zero: bool, width: nat, conversion: byte, suffix: seq<byte>)
    | Text(prefix: seq<byte>, left: bool, width: nat, suffix: seq<byte>)

  /** append_printf_u: what the letters after the width make of a directive. */
  function DecideU(prefix: seq<byte>, zero: bool, width: nat, t: Letters): Format {
    if Starts(t.rest, LETTER_S) then
      Rejected(prefix, StringInU)
    else if t.Conversions() > 1 then
      Rejected(prefix, RepeatsInU)
    else if t.Conversions() == 0 then
      Rejected(prefix, MissingInU)
    else if t.l > 2 then
      Rejected(prefix, TooLongInU)
    else if t.d > 0 then
      Rejected(prefix, DecimalInU)
    else
      Number(prefix, false, zero, width,
             if t.u > 0 then LETTER_U else if t.x > 0 then LETTER_X else LETTER_UPPER_X, t.rest)
  }

  /** append_printf_u: the directive after the percent sign. */
  function DirectiveU(prefix: seq<byte>, flags: seq<byte>): Format {
    if flags == [] || flags[0] == SPACE then
      Rejected(prefix, EmptyInU)
    else if flags[0] == MINUS then
      Rejected(prefix, MinusInU)
    else
      var w := ReadWidth(Skip(flags, ZERO));
      DecideU(prefix, Starts(flags, ZERO), w.value, ReadLetters(w.rest))
  }

  function ParseU(format: seq<byte>): Format {
    var n := PercentAt(format);
    if n == |format| then
      Rejected(format, NoPercentInU)
    else
      DirectiveU(format[..n], format[n + 1..])
  }

  /** append_printf_i: what the letters after the width make of a directive. */
  function DecideI(prefix: seq<byte>, minus: bool, plus: bool, zero: bool, width: nat, t: Letters): Format {
    if Starts(t.rest, LETTER_S) then
      Rejected(prefix, StringInI)
    else if t.x > 0 || t.upperX > 0 then
      Rejected(prefix, HexInI)
    else if t.d == 0 || t.l > 2 || t.Conversions() > 1 then
      Rejected(prefix, TooManyInI)
    else if plus && minus then
      Rejected(prefix, PlusMinusInI)
    else
      Number(prefix, plus, zero, width, LETTER_D, t.rest)
  }

  /** append_printf_i: the directive after the percent sign. A minus sign on either side of the plus
      is taken but justifies nothing. */
  function DirectiveI(prefix: seq<byte>, flags: seq<byte>): Format {
    if flags == [] || flags[0] == SPACE then
      Rejected(prefix, EmptyInI)
    else
      var f1 := Skip(flags, MINUS);
      var f2 := Skip(f1, PLUS);
      var f3 := Skip(f2, MINUS);
      var w := ReadWidth(Skip(f3, ZERO));
      DecideI(prefix, Starts(flags, MINUS) || Starts(f2, MINUS), Starts(f1, PLUS), Starts(f3, ZERO),
              w.value, ReadLetters(w.rest))
  }

  function ParseI(format: seq<byte>): Format {
    var n := PercentAt(format);
    if n == |format| then
      Rejected(format, NoPercentInI)
    else
      DirectiveI(format[..n], format[n + 1..])
  }

  /** append_printf_s: the directive after the percent sign. */
  function DirectiveS(prefix: seq<byte>, flags: seq<byte>): Format {
    if flags == [] || flags[0] == SPACE then
      Rejected(prefix, EmptyInS)
    else
      var w := ReadWidth(Skip(flags, MINUS));
      if !Starts(w.rest, LETTER_S) then
        Rejected(prefix, NoStringInS)
      else
        Text(prefix, Starts(flags, MINUS), w.value, w.rest[1..])
  }

  function ParseS(format: seq<byte>): Format {
    var n := PercentAt(format);
    if n == |format| then
      Rejected(format, NoPercentInS)
    else
      DirectiveS(format[..n], format[n + 1..])
  }

  // ---------------------------------------------------------------- the text added

  function Base(conversion: byte): nat {
    if conversion == LETTER_X || conversion == LETTER_UPPER_X then 16 else 10
  }

  /** Sign and digits filled up to the width: with zeros after the sign, or with spaces before it. */
  function Padded(width: nat, zero: bool, sign: seq<byte>, digits: seq<byte>): seq<byte> {
    var natural := |sign| + |digits|;
    if width <= natural then sign + digits
    else if zero then sign + Repeated(ZERO, width - natural) + digits
    else Repeated(SPACE, width - natural) + sign + digits
  }

  function SignOf(v: int, plus: bool): seq<byte> {
    if v < 0 then [MINUS] else if plus then [PLUS] else []
  }

  function Magnitude(v: int): nat {
    if v < 0 then -v else v
  }

  /** The text for one number under an accepted format. */
  function NumberFor(f: Format, v: int): seq<byte>
    requires f.Number?
  {
    Padded(f.width, f.zero, SignOf(v, f.plus), Digits(Magnitude(v), Base(f.conversion), f.conversion == LETTER_UPPER_X))
  }

  function Justified(s: seq<byte>, left: bool, width: nat): seq<byte> {
    if width <= |s| then s
    else if left then s + Repeated(SPACE, width - |s|)
    else Repeated(SPACE, width - |s|) + s
  }

  function NumberResult(f: Format, v: int): seq<byte> {
    match f
    case Rejected(prefix, complaint) => prefix + Complain(complaint)
    case Number(prefix, _, _, _, _, suffix) => prefix + NumberFor(f, v) + suffix
    case Text(_, _, _, _) => []
  }

  function TextResult(f: Format, s: seq<byte>): seq<byte> {
    match f
    case Rejected(prefix, complaint) => prefix + Complain(complaint)
    case Text(prefix, left, width, suffix) => prefix + Justified(s, left, width) + suffix
    case Number(_, _, _, _, _, _) => []
  }

  /** The padded text is exactly as long as the wider of the width and the bare number. */
  lemma PaddedLength(width: nat, zero: bool, sign: seq<byte>, digits: seq<byte>)
    ensures |Padded(width, zero, sign, digits)|
            == if width > |sign| + |digits| then width else |sign| + |digits|
  {
  }

  /** Whatever the flags, the number reads back from the text, all of which is used up. */
  lemma NumberReadsBack(f: Format, v: int, rest: seq<byte>)
    requires f.Number?
    requires rest != [] ==> !IsDigit(rest[0], Base(f.conversion))
    ensures ReadInteger(NumberFor(f, v) + rest, Base(f.conversion)) == Reading(v, |NumberFor(f, v)|)
  {
    var base := Base(f.conversion);
    var sign, digits := SignOf(v, f.plus), Digits(Magnitude(v), base, f.conversion == LETTER_UPPER_X);
    DigitsReadBack(Magnitude(v), base, f.conversion == LETTER_UPPER_X);
    PaddedReadsBack(f.width, f.zero, sign, digits, rest, base);
  }

  lemma PaddedReadsBack(width: nat, zero: bool, sign: seq<byte>, digits: seq<byte>, rest: seq<byte>, base: nat)
    requires 2 <= base <= 16 && sign in {[], [PLUS], [MINUS]}
    requires digits != [] && forall i | 0 <= i < |digits| :: IsDigit(digits[i], base)
    requires rest != [] ==> !IsDigit(rest[0], base)
    ensures ReadInteger(Padded(width, zero, sign, digits) + rest, base)
            == Reading(SignedBy(sign, DigitsValue(digits, base)), |Padded(width, zero, sign, digits)|)
  {
    hide ReadInteger, DigitsValue, IsDigit, SignedBy;
    var natural := |sign| + |digits|;
    if width <= natural {
      ReadPadded(0, sign, digits, rest, base);
      assert Repeated(SPACE, 0) + sign + digits + rest == sign + digits + rest;
    } else if zero {
      var zeros := Repeated(ZERO, width - natural);
      ZeroIsDigit(base);
      ReadPadded(0, sign, zeros + digits, rest, base);
      LeadingZerosReadAsNothing(width - natural, digits, base);
      assert Repeated(SPACE, 0) + sign + (zeros + digits) + rest == sign + zeros + digits + rest;
    } else {
      ReadPadded(width - natural, sign, digits, rest, base);
    }
  }

  lemma ZeroIsDigit(base: nat)
    requires base > 0
    ensures IsDigit(ZERO, base)
  {
  }

  /** For every signed 64-bit value, the most negative one included, strtol returns the value from
      the decimal text. */
  lemma StrtolInvertsFormatting(f: Format, v: int)
    requires f.Number? && Base(f.conversion) == 10
    requires -0x8000_0000_0000_0000 <= v < 0x8000_0000_0000_0000
    ensures Strtol(NumberFor(f, v)) == Reading(v, |NumberFor(f, v)|)
  {
    NumberReadsBack(f, v, []);
    assert NumberFor(f, v) + [] == NumberFor(f, v);
    hide NumberFor, ReadInteger;
  }

  /** The sign and digits of a number, before any padding. */
  function Bare(f: Format, v: int): seq<byte>
    requires f.Number?
  {
    SignOf(v, f.plus) + Digits(Magnitude(v), Base(f.conversion), f.conversion == LETTER_UPPER_X)
  }

  /** Filled with spaces or with zeros, the text is the left-justified number only when there is nothing to
      fill. */
  lemma LeftJustifiedOnlyWhenFull(f: Format, v: int)
    requires f.Number?
    ensures NumberFor(f, v) == Justified(Bare(f, v), true, f.width) <==> f.width <= |Bare(f, v)|
  {
    var text, left := NumberFor(f, v), Justified(Bare(f, v), true, f.width);
    DigitsReadBack(Magnitude(v), Base(f.conversion), f.conversion == LETTER_UPPER_X);
    hide Digits, DigitsValue;
    if f.width > |Bare(f, v)| {
      assert IsDigit(text[|text| - 1], Base(f.conversion));
      assert left[|left| - 1] == SPACE;
    }
  }

  /** Filled with spaces it always is the right-justified number. */
  lemma SpacesJustifyRight(f: Format, v: int)
    requires f.Number? && !f.zero
    ensures NumberFor(f, v) == Justified(Bare(f, v), false, f.width)
  {
    hide Digits;
    assert forall p: seq<byte>, q: seq<byte>, r: seq<byte> :: p + q + r == p + (q + r);
  }

  /** The sign: 45 in front of a negative number, 43 in front of any other that asks for it, and otherwise the
      text starts with a digit. */
  lemma SignShows(f: Format, v: int)
    requires f.Number?
    ensures v < 0 ==> Bare(f, v)[0] == 45
    ensures v >= 0 && f.plus ==> Bare(f, v)[0] == 43
    ensures v >= 0 && !f.plus ==> Bare(f, v) == Digits(v, Base(f.conversion), f.conversion == LETTER_UPPER_X)
    ensures |Bare(f, v)| == |Digits(Magnitude(v), Base(f.conversion), f.conversion == LETTER_UPPER_X)|
                            + if v < 0 || f.plus then 1 else 0
  {
    hide Digits;
  }

  /** The characters the text of a number is made of: digits, capital letters under %X (88) and small ones under
      %x (120), a sign, and spaces (32) only without zero fill. */
  lemma NumberAlphabet(f: Format, v: int)
    requires f.Number?
    ensures forall c | c in NumberFor(f, v) ::
              || 48 <= c <= 57
              || (f.conversion == 88 && 65 <= c <= 70) || (f.conversion == 120 && 97 <= c <= 102)
              || c in {43, 45} || (c == 32 && !f.zero)
  {
    DigitsKeepCase(Magnitude(v), Base(f.conversion), f.conversion == LETTER_UPPER_X);
    hide Digits;
  }

  /** Zero fill goes between sign and digits. */
  lemma ZerosFillAfterSign(f: Format, v: int)
    requires f.Number? && f.zero && f.width > |Bare(f, v)|
    ensures var text, bare := NumberFor(f, v), Bare(f, v);
            var signed, pad := if v < 0 || f.plus then 1 else 0, f.width - |bare|;
            && |text| == f.width && signed <= |bare|
            && text[..signed] == bare[..signed] && text[signed + pad..] == bare[signed..]
            && forall i | signed <= i < signed + pad :: text[i] == 48
  {
    hide Digits;
  }

  lemma SpacesAfter(s: seq<byte>, text: seq<byte>, n: nat)
    requires |text| == |s| + n
    ensures text == s + Repeated(SPACE, n) <==> text[..|s|] == s && forall i | |s| <= i < |text| :: text[i] == 32
    ensures s + Repeated(SPACE, 0) == s
  {
    assert text == text[..|s|] + text[|s|..];
  }

  lemma SpacesBefore(s: seq<byte>, text: seq<byte>, n: nat)
    requires |text| == |s| + n
    ensures text == Repeated(SPACE, n) + s
            <==> text[|text| - |s|..] == s && forall i | 0 <= i < |text| - |s| :: text[i] == 32
    ensures Repeated(SPACE, 0) + s == s
  {
    assert text == text[..n] + text[n..];
  }

  /** Justified text is as wide as asked, if not wider, with the string at its beginning or at its end and only
      spaces besides. */
  lemma JustifiedExactly(s: seq<byte>, left: bool, width: nat, text: seq<byte>)
    ensures text == Justified(s, left, width) <==>
            && |text| == (if width > |s| then width else |s|)
            && (if left then text[..|s|] == s && forall i | |s| <= i < |text| :: text[i] == 32
                else text[|text| - |s|..] == s && forall i | 0 <= i < |text| - |s| :: text[i] == 32)
  {
    var wide := if width > |s| then width else |s|;
    if |text| == wide {
      var n := wide - |s|;
      if left {
        SpacesAfter(s, text, n);
      } else {
        SpacesBefore(s, text, n);
      }
    }
  }
}
