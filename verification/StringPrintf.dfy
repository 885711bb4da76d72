/** The appenders that print: digits built backwards in a buffer, padding in blocks, and the three
    printf-like entry points. */
module StringPrintf {
  import opened Arithmetic
  import opened Words
  import opened Outcomes
  import opened StringBuffer
  import opened NumberText
  import opened FormatStrings

  const DIGBUF_SIZE := 36
  const SPACEBUF_LENGTH := 39
  const ZEROS_LENGTH := 40

  lemma RepeatedSplits(c: byte, m: nat, n: nat)
    ensures Repeated(c, m) + Repeated(c, n) == Repeated(c, m + n)
  {
  }

  lemma Regroup(a: seq<byte>, b: seq<byte>, c: seq<byte>, d: seq<byte>)
    ensures a + b + c == a + (b + c)
    ensures a + b + (c + d) == a + (b + c + d)
    ensures c == [] ==> a + b + c == a + b
  {
  }

  /** Appends count copies of c, at most block of them at a time. looped is the result of the last append
      made in the loop, or false when there was none, and last that of the last append of all. */
  method AppendRepeated(data: DwarfString, c: byte, block: nat, count: nat) returns (looped: bool, last: bool)
    requires data.Valid() && block > 0
    modifies data, data.data
    ensures data.Valid() && (data.data == old(data.data) || fresh(data.data))
    ensures old(data.exhausted) ==> data.exhausted
    ensures !data.exhausted ==> data.Contents() == old(data.Contents()) + Repeated(c, count)
    ensures !data.exhausted ==> last && (looped <==> count > block)
  {
    assert data.Contents() == data.Contents() + Repeated(c, 0);
    hide *;
    looped := false;
    var l: nat := count;
    ghost var done: nat := 0;
    while l > block
      invariant data.Valid() && (data.data == old(data.data) || fresh(data.data))
      invariant done + l == count
      invariant old(data.exhausted) ==> data.exhausted
      invariant !data.exhausted ==> data.Contents() == old(data.Contents()) + Repeated(c, done)
      invariant (looped <==> done > 0) && (done > 0 ==> count > block)
    {
      RepeatedSplits(c, done, block);
      Regroup(old(data.Contents()), Repeated(c, done), Repeated(c, block), []);
      looped := data.AppendLength(Repeated(c, block));
      l := l - block;
      done := done + block;
      if !looped {
        return false, false;
      }
    }
    RepeatedSplits(c, done, l);
    Regroup(old(data.Contents()), Repeated(c, done), Repeated(c, l), []);
    last := data.AppendLength(Repeated(c, l));
  }

  method AppendSpaces(data: DwarfString, count: nat) returns (res: bool)
    requires data.Valid()
    modifies data, data.data
    ensures data.Valid() && (data.data == old(data.data) || fresh(data.data))
    ensures old(data.exhausted) ==> data.exhausted
    ensures !data.exhausted ==> res && data.Contents() == old(data.Contents()) + Repeated(SPACE, count)
  {
    var looped;
    looped, res := AppendRepeated(data, SPACE, SPACEBUF_LENGTH, count);
  }

  /** The code returns what the loop left in its result, and so false unless it went around. */
  method AppendZeros(data: DwarfString, count: nat) returns (res: bool)
    requires data.Valid()
    modifies data, data.data
    ensures data.Valid() && (data.data == old(data.data) || fresh(data.data))
    ensures old(data.exhausted) ==> data.exhausted
    ensures !data.exhausted ==> data.Contents() == old(data.Contents()) + Repeated(ZERO, count)
    ensures !data.exhausted ==> (res <==> count > 40)
  {
    var last;
    res, last := AppendRepeated(data, ZERO, ZEROS_LENGTH, count);
  }

  lemma BufferSize()
    ensures DIGBUF_SIZE == 36
  {
  }

  lemma NoneWritten(digits: seq<byte>)
    ensures digits + [] == digits
  {
  }

  lemma LastDigit(v: nat, base: nat, upper: bool)
    requires 2 <= base <= 16
    ensures Digits(v, base, upper)
            == (if v / base == 0 then [] else Digits(v / base, base, upper)) + [DigitChar(v % base, upper)]
    ensures v / base == 0 ==> v < base
    ensures v / base <= v
  {
    if v >= base {
      QuotientShrinks(v, base);
    } else {
      DivModUnique(v, base, 0, v);
    }
    hide DigitChar;
  }

  lemma OneFirst(a: seq<byte>, c: byte, b: seq<byte>)
    ensures (a + [c]) + b == a + ([c] + b)
    ensures [] + ([c] + b) == [c] + b
  {
  }

  /** The last digit of a number, and what is left of it. */
  method SplitOff(remaining: nat, base: nat, upper: bool) returns (dig: nat, rest: nat)
    requires base in {10, 16}
    ensures dig < base && (rest == 0 || rest < remaining)
    ensures Digits(remaining, base, upper)
            == (if rest == 0 then [] else Digits(rest, base, upper)) + [DigitChar(dig, upper)]
  {
    LastDigit(remaining, base, upper);
    hide Digits, DigitChar;
    if remaining >= base {
      QuotientShrinks(remaining, base);
    }
    return remaining % base, remaining / base;
  }

  /** One more digit in front of those that are there. */
  method StoreDigit(digbuf: array<byte>, digptr: nat, end: nat, c: byte)
    requires digptr < end <= digbuf.Length
    modifies digbuf
    ensures digbuf[digptr..end] == [c] + old(digbuf[digptr + 1..end])
  {
    digbuf[digptr] := c;
  }

  /** Fills the digit buffer backwards from its end; the digits never reach its start. */
  method FillDigits(v: u64, base: nat, upper: bool) returns (digbuf: array<byte>, digptr: nat, digcharlen: nat)
    requires base in {10, 16}
    ensures fresh(digbuf) && digbuf.Length == DIGBUF_SIZE
    ensures 10 <= digptr && digptr + digcharlen <= DIGBUF_SIZE
    ensures digbuf[digptr..digptr + digcharlen] == Digits(v, base, upper)
  {
    hide *;
    BufferSize();
    digbuf := new byte[DIGBUF_SIZE](_ => NUL);
    var end := if base == 16 then DIGBUF_SIZE else DIGBUF_SIZE - 1;
    digptr, digcharlen := end - 1, 0;
    var remaining: nat := v;
    SixtyFourBitDigits(v, upper);
    NoneWritten(Digits(v, base, upper));
    ghost var written: seq<byte> := [];
    while true
      invariant digptr + digcharlen + 1 == end && 35 <= end <= digbuf.Length == 36 && fresh(digbuf)
      invariant written == digbuf[digptr + 1..end]
      invariant Digits(v, base, upper) == Digits(remaining, base, upper) + written
      invariant |Digits(v, base, upper)| <= 20
      decreases remaining
    {
      var dig, rest := SplitOff(remaining, base, upper);
      StoreDigit(digbuf, digptr, end, DigitChar(dig, upper));
      digcharlen := digcharlen + 1;
      OneFirst(if rest == 0 then [] else Digits(rest, base, upper), DigitChar(dig, upper), written);
      written := [DigitChar(dig, upper)] + written;
      if rest == 0 {
        break;
      }
      remaining := rest;
      digptr := digptr - 1;
    }
  }

  /** Appends sign and digits, padded as the format asks. */
  method AppendPadded(data: DwarfString, f: Format, sign: seq<byte>, digits: seq<byte>) returns (res: bool)
    requires data.Valid() && f.Number? && sign in {[], [PLUS], [MINUS]}
    modifies data, data.data
    ensures data.Valid() && (data.data == old(data.data) || fresh(data.data))
    ensures old(data.exhausted) ==> data.exhausted
    ensures !data.exhausted ==>
              res && data.Contents() == old(data.Contents()) + Padded(f.width, f.zero, sign, digits)
  {
    PaddedParts(data.Contents(), f.width, f.zero, sign, digits);
    hide *;
    var digcharlen := |sign| + |digits|;
    if f.width <= digcharlen {
      res := data.AppendLength(sign + digits);
    } else {
      var prefixcount := f.width - digcharlen;
      if !f.zero {
        res := AppendSpaces(data, prefixcount);
        res := data.AppendLength(sign + digits);
      } else {
        res := data.AppendLength(sign);
        res := AppendZeros(data, prefixcount);
        res := data.AppendLength(digits);
      }
    }
  }

  lemma FourInARow(a: seq<byte>, b: seq<byte>, c: seq<byte>, d: seq<byte>)
    ensures a + (b + c + d) == a + b + c + d
    ensures a + (b + c + d) == a + b + (c + d)
  {
  }

  lemma PaddedParts(before: seq<byte>, width: nat, zero: bool, sign: seq<byte>, digits: seq<byte>)
    ensures var n := |sign| + |digits|;
            before + Padded(width, zero, sign, digits)
            == if width <= n then before + (sign + digits)
               else if zero then before + sign + Repeated(ZERO, width - n) + digits
               else before + Repeated(SPACE, width - n) + (sign + digits)
  {
    hide Repeated;
    var n := |sign| + |digits|;
    if width > n {
      var pad := Repeated(if zero then ZERO else SPACE, width - n);
      FourInARow(before, sign, pad, digits);
      FourInARow(before, pad, sign, digits);
    }
  }

  /** The scan for the percent sign. */
  method ScanPrefix(format: seq<byte>) returns (next: nat)
    ensures next == PercentAt(format)
  {
    next := 0;
    while next < |format| && format[next] != PERCENT
      invariant next <= |format| && PercentAt(format) == next + PercentAt(format[next..])
    {
      assert format[next..][1..] == format[next + 1..];
      next := next + 1;
    }
  }

  function ResultU(format: Option<seq<byte>>, v: u64): seq<byte> {
    if format.None? then Complain(NullFormatInU)
    else NumberResult(ParseU(format.value), v)
  }

  function ResultI(format: Option<seq<byte>>, v: int): seq<byte> {
    if format.None? then Complain(NullFormatInI)
    else NumberResult(ParseI(format.value), v)
  }

  function ResultS(format: Option<seq<byte>>, s: Option<seq<byte>>): seq<byte> {
    if s.None? then Complain(NullStringInS)
    else if format.None? then Complain(NullFormatInS)
    else TextResult(ParseS(format.value), s.value)
  }

  /** What is added for a format, part by part. */
  lemma PartsOfU(format: seq<byte>, v: u64)
    ensures var f := ParseU(format);
            && !f.Text? && f.prefix == format[..PercentAt(format)]
            && (f.Rejected? ==> NumberResult(f, v) == f.prefix + Complain(f.complaint))
            && (f.Number? ==> Base(f.conversion) in {10, 16})
            && (f.Number? ==>
                  NumberResult(f, v)
                  == f.prefix
                     + Padded(f.width, f.zero, [], Digits(v, Base(f.conversion), f.conversion == LETTER_UPPER_X))
                     + f.suffix)
  {
    hide ReadWidth, ReadLetters, PercentAt, Padded, Digits, Complain;
    assert format[..|format|] == format;
  }

  lemma PartsOfI(format: seq<byte>, v: int)
    ensures var f := ParseI(format);
            && !f.Text? && f.prefix == format[..PercentAt(format)]
            && (f.Rejected? ==> NumberResult(f, v) == f.prefix + Complain(f.complaint))
            && (f.Number? ==>
                  NumberResult(f, v)
                  == f.prefix + Padded(f.width, f.zero, SignOf(v, f.plus), Digits(Magnitude(v), 10, false)) + f.suffix)
            && SignOf(v, f.Number? && f.plus) in {[], [PLUS], [MINUS]}
  {
    hide ReadWidth, ReadLetters, PercentAt, Padded, Digits, Complain;
    assert format[..|format|] == format;
  }

  lemma PartsOfS(format: seq<byte>, s: seq<byte>)
    ensures var f := ParseS(format);
            && !f.Number? && f.prefix == format[..PercentAt(format)]
            && (f.Rejected? ==> TextResult(f, s) == f.prefix + Complain(f.complaint))
            && (f.Text? ==> TextResult(f, s) == f.prefix + Justified(s, f.left, f.width) + f.suffix)
  {
    hide ReadWidth, PercentAt, Justified, Complain;
    assert format[..|format|] == format;
  }

  /** Appends the padded number and then whatever follows the directive. */
  method FinishNumber(data: DwarfString, f: Format, sign: seq<byte>, digits: seq<byte>) returns (res: bool)
    requires data.Valid() && f.Number? && sign in {[], [PLUS], [MINUS]}
    modifies data, data.data
    ensures data.Valid() && (data.data == old(data.data) || fresh(data.data))
    ensures old(data.exhausted) ==> data.exhausted
    ensures !data.exhausted ==>
              res && data.Contents() == old(data.Contents()) + (Padded(f.width, f.zero, sign, digits) + f.suffix)
  {
    hide *;
    Regroup(data.Contents(), Padded(f.width, f.zero, sign, digits), f.suffix, []);
    res := AppendPadded(data, f, sign, digits);
    res := true;
    if f.suffix != [] {
      res := data.AppendLength(f.suffix);
    }
  }

  /** Appends an unsigned number; the code returns false even when it succeeds. */
  method AppendPrintfU(data: DwarfString, format: Option<seq<byte>>, v: u64) returns (ret: bool)
    requires data.Valid()
    modifies data, data.data
    ensures data.Valid() && (data.data == old(data.data) || fresh(data.data))
    ensures old(data.exhausted) ==> data.exhausted
    ensures !data.exhausted ==> data.Contents() == old(data.Contents()) + ResultU(format, v)
    ensures !ret
  {
    if format.None? {
      var res := data.AppendLength(Complain(NullFormatInU));
      return false;
    }
    var res := PrintUnsigned(data, format.value, v);
    return false;
  }

  method PrintUnsigned(data: DwarfString, format: seq<byte>, v: u64) returns (res: bool)
    requires data.Valid()
    modifies data, data.data
    ensures data.Valid() && (data.data == old(data.data) || fresh(data.data))
    ensures old(data.exhausted) ==> data.exhausted
    ensures !data.exhausted ==> data.Contents() == old(data.Contents()) + NumberResult(ParseU(format), v)
  {
    PartsOfU(format, v);
    hide *;
    ghost var before := data.Contents();
    var next := ScanPrefix(format);
    res := data.AppendLength(format[..next]);
    var f := ParseU(format);
    if f.Rejected? {
      res := data.AppendLength(Complain(f.complaint));
      Regroup(before, f.prefix, Complain(f.complaint), []);
      return;
    }
    var digbuf, digptr, digcharlen := FillDigits(v, Base(f.conversion), f.conversion == LETTER_UPPER_X);
    ghost var digits := digbuf[digptr..digptr + digcharlen];
    res := FinishNumber(data, f, [], digbuf[digptr..digptr + digcharlen]);
    Regroup(before, f.prefix, Padded(f.width, f.zero, [], digits), f.suffix);
  }

  /** The digits of a signed value; the most negative one has no positive counterpart and is spelled
      out by the code. */
  method SignedDigits(v: int, plus: bool) returns (sign: seq<byte>, digits: seq<byte>)
    requires -0x8000_0000_0000_0000 <= v < 0x8000_0000_0000_0000
    ensures sign == SignOf(v, plus) && digits == Digits(Magnitude(v), 10, false)
  {
    if v == -0x8000_0000_0000_0000 {
      MostNegative();
      return [MINUS], MOST_NEGATIVE_DIGITS;
    }
    var remaining := if v < 0 then -v else v;
    var digbuf, digptr, digcharlen := FillDigits(remaining, 10, false);
    sign := if v < 0 then [MINUS] else if plus then [PLUS] else [];
    digits := digbuf[digptr..digptr + digcharlen];
  }

  /** One more decimal digit. */
  lemma OneMoreDigit(q: nat, d: nat)
    requires q > 0 && d < 10
    ensures Digits(10 * q + d, 10, false) == Digits(q, 10, false) + [ZERO + d]
  {
    assert (10 * q + d) / 10 == q && (10 * q + d) % 10 == d;
  }

  /** The digits 9223372036854775808. */
  const MOST_NEGATIVE_DIGITS: seq<byte> := [57, 50, 50, 51, 51, 55, 50, 48, 51, 54, 56, 53, 52, 55, 55, 53, 56, 48, 56]

  lemma FirstDigit()
    ensures Digits(9, 10, false) == [57]
  {
  }

  lemma MoreDigits(q: nat, text: seq<byte>, a: nat, b: nat, c: nat, d: nat)
    requires q > 0 && a < 10 && b < 10 && c < 10 && d < 10
    requires Digits(q, 10, false) == text
    ensures Digits(10000 * q + 1000 * a + 100 * b + 10 * c + d, 10, false)
            == text + [ZERO + a, ZERO + b, ZERO + c, ZERO + d]
  {
    hide Digits;
    OneMoreDigit(q, a);
    OneMoreDigit(10 * q + a, b);
    OneMoreDigit(100 * q + 10 * a + b, c);
    OneMoreDigit(1000 * q + 100 * a + 10 * b + c, d);
    assert text + [ZERO + a] + [ZERO + b] + [ZERO + c] + [ZERO + d] == text + [ZERO + a, ZERO + b, ZERO + c, ZERO + d];
  }

  lemma MostNegative()
    ensures Digits(0x8000_0000_0000_0000, 10, false) == MOST_NEGATIVE_DIGITS
  {
    FirstDigit();
    hide Digits;
    MoreDigits(9, [57], 2, 2, 3, 3);
    MoreDigits(92233, [57, 50, 50, 51, 51], 7, 2, 0, 3);
    MoreDigits(922337203, [57, 50, 50, 51, 51, 55, 50, 48, 51], 6, 8, 5, 4);
    MoreDigits(9223372036854, [57, 50, 50, 51, 51, 55, 50, 48, 51, 54, 56, 53, 52], 7, 7, 5, 8);
    OneMoreDigit(92233720368547758, 0);
    OneMoreDigit(922337203685477580, 8);
    assert [57, 50, 50, 51, 51, 55, 50, 48, 51, 54, 56, 53, 52, 55, 55, 53, 56] + [48] + [56] == MOST_NEGATIVE_DIGITS;
  }

  /** Appends a signed number. */
  method AppendPrintfI(data: DwarfString, format: Option<seq<byte>>, v: int) returns (ret: bool)
    requires data.Valid() && -0x8000_0000_0000_0000 <= v < 0x8000_0000_0000_0000
    modifies data, data.data
    ensures data.Valid() && (data.data == old(data.data) || fresh(data.data))
    ensures old(data.exhausted) ==> data.exhausted
    ensures !data.exhausted ==> data.Contents() == old(data.Contents()) + ResultI(format, v)
    ensures !data.exhausted ==> (ret <==> format.Some? && ParseI(format.value).Number?)
  {
    if format.None? {
      var res := data.AppendLength(Complain(NullFormatInI));
      return false;
    }
    ret := PrintSigned(data, format.value, v);
  }

  method PrintSigned(data: DwarfString, format: seq<byte>, v: int) returns (ret: bool)
    requires data.Valid() && -0x8000_0000_0000_0000 <= v < 0x8000_0000_0000_0000
    modifies data, data.data
    ensures data.Valid() && (data.data == old(data.data) || fresh(data.data))
    ensures old(data.exhausted) ==> data.exhausted
    ensures !data.exhausted ==> data.Contents() == old(data.Contents()) + NumberResult(ParseI(format), v)
    ensures !data.exhausted ==> (ret <==> ParseI(format).Number?)
  {
    PartsOfI(format, v);
    hide *;
    ghost var before := data.Contents();
    var next := ScanPrefix(format);
    var res := data.AppendLength(format[..next]);
    var f := ParseI(format);
    if f.Rejected? {
      res := data.AppendLength(Complain(f.complaint));
      Regroup(before, f.prefix, Complain(f.complaint), []);
      return false;
    }
    var sign, digits := SignedDigits(v, f.plus);
    ret := FinishNumber(data, f, sign, digits);
    Regroup(before, f.prefix, Padded(f.width, f.zero, sign, digits), f.suffix);
  }

  /** Appends a string, justified to a width. */
  method AppendPrintfS(data: DwarfString, format: Option<seq<byte>>, s: Option<seq<byte>>) returns (ret: bool)
    requires data.Valid()
    modifies data, data.data
    ensures data.Valid() && (data.data == old(data.data) || fresh(data.data))
    ensures old(data.exhausted) ==> data.exhausted
    ensures !data.exhausted ==> data.Contents() == old(data.Contents()) + ResultS(format, s)
    ensures !data.exhausted ==> (ret <==> s.Some? && format.Some? && ParseS(format.value).Text?)
  {
    if s.None? {
      var res := data.AppendLength(Complain(NullStringInS));
      return false;
    }
    if format.None? {
      var res := data.AppendLength(Complain(NullFormatInS));
      return false;
    }
    ret := PrintText(data, format.value, s.value);
  }

  method PrintText(data: DwarfString, format: seq<byte>, s: seq<byte>) returns (ret: bool)
    requires data.Valid()
    modifies data, data.data
    ensures data.Valid() && (data.data == old(data.data) || fresh(data.data))
    ensures old(data.exhausted) ==> data.exhausted
    ensures !data.exhausted ==> data.Contents() == old(data.Contents()) + TextResult(ParseS(format), s)
    ensures !data.exhausted ==> (ret <==> ParseS(format).Text?)
  {
    PartsOfS(format, s);
    hide *;
    ghost var before := data.Contents();
    var next := ScanPrefix(format);
    var res;
    if next > 0 {
      res := data.AppendLength(format[..next]);
    }
    var f := ParseS(format);
    if f.Rejected? {
      res := data.AppendLength(Complain(f.complaint));
      Regroup(before, f.prefix, Complain(f.complaint), []);
      return false;
    }
    ret := FinishText(data, f, s);
    Regroup(before, f.prefix, Justified(s, f.left, f.width), f.suffix);
  }

  /** Appends the justified text and then whatever follows the directive. */
  method FinishText(data: DwarfString, f: Format, s: seq<byte>) returns (res: bool)
    requires data.Valid() && f.Text?
    modifies data, data.data
    ensures data.Valid() && (data.data == old(data.data) || fresh(data.data))
    ensures old(data.exhausted) ==> data.exhausted
    ensures !data.exhausted ==>
              res && data.Contents() == old(data.Contents()) + (Justified(s, f.left, f.width) + f.suffix)
  {
    hide *;
    Regroup(data.Contents(), Justified(s, f.left, f.width), f.suffix, []);
    res := AppendJustified(data, s, f.left, f.width);
    if !res {
      return false;
    }
    if f.suffix != [] {
      res := data.AppendLength(f.suffix);
    }
  }

  /** res is false only when the text itself could not be appended on the right. */
  method AppendJustified(data: DwarfString, s: seq<byte>, left: bool, width: nat) returns (res: bool)
    requires data.Valid()
    modifies data, data.data
    ensures data.Valid() && (data.data == old(data.data) || fresh(data.data))
    ensures old(data.exhausted) ==> data.exhausted
    ensures !res ==> data.exhausted
    ensures !data.exhausted ==> data.Contents() == old(data.Contents()) + Justified(s, left, width)
  {
    ghost var before := data.Contents();
    JustifiedParts(before, s, left, width);
    assert before == before + Repeated(SPACE, 0);
    hide *;
    var leftjustify := left;
    if width > 0 && |s| >= width {
      leftjustify := false;
    }
    if leftjustify {
      var ok := data.AppendLength(s);
      if width > 0 {
        ok := AppendSpaces(data, width - |s|);
      }
      return true;
    }
    if width > 0 && width < |s| {
      var ok := data.AppendLength(s);
      return true;
    }
    if width > 0 {
      var leadingspaces := width - |s|;
      for k := 0 to leadingspaces
        invariant data.Valid() && (data.data == old(data.data) || fresh(data.data))
        invariant old(data.exhausted) ==> data.exhausted
        invariant !data.exhausted ==> data.Contents() == before + Repeated(SPACE, k)
      {
        OneMoreSpace(before, k);
        var ok := data.AppendLength([SPACE]);
      }
    }
    res := data.AppendLength(s);
  }

  lemma OneMoreSpace(before: seq<byte>, k: nat)
    ensures before + Repeated(SPACE, k) + [SPACE] == before + Repeated(SPACE, k + 1)
  {
  }

  lemma JustifiedParts(before: seq<byte>, s: seq<byte>, left: bool, width: nat)
    ensures before + Justified(s, left, width)
            == if width <= |s| then before + s
               else if left then before + s + Repeated(SPACE, width - |s|)
               else before + Repeated(SPACE, width - |s|) + s
  {
    if width > |s| {
      Regroup(before, s, Repeated(SPACE, width - |s|), []);
      Regroup(before, Repeated(SPACE, width - |s|), s, []);
    }
  }
}
