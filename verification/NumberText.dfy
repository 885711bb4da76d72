/** Numbers as text: digits, padding, and reading a number back the way strtol does. */
module NumberText {
  import opened Arithmetic
  import opened Words

  const SPACE: byte := 32
  const PERCENT: byte := 37
  const PLUS: byte := 43
  const MINUS: byte := 45
  const ZERO: byte := 48
  const UPPER_A: byte := 65
  const LOWER_A: byte := 97

  function DigitChar(d: nat, upper: bool): byte
    requires d < 16
  {
    if d < 10 then ZERO + d else (if upper then UPPER_A else LOWER_A) + (d - 10)
  }

  const LOWER_DIGITS := "0123456789abcdef"
  const UPPER_DIGITS := "0123456789ABCDEF"

  lemma DigitCharIs(d: nat, upper: bool)
    requires d < 16
    ensures DigitChar(d, upper) == (if upper then UPPER_DIGITS else LOWER_DIGITS)[d] as int
  {
  }

  /** The characters of a number: decimal digits, and letters in the case asked for. */
  predicate DigitsOfCase(text: seq<byte>, base: nat, upper: bool) {
    forall i | 0 <= i < |text| ::
      || 48 <= text[i] <= 57
      || (base == 16 && upper && 65 <= text[i] <= 70)
      || (base == 16 && !upper && 97 <= text[i] <= 102)
  }

  /** The digits of v, most significant first. */
  function Digits(v: nat, base: nat, upper: bool): (text: seq<byte>)
    requires 2 <= base <= 16
    ensures |text| > 0
    decreases v
  {
    if v < base then [DigitChar(v, upper)]
    else
      QuotientShrinks(v, base);
      Digits(v / base, base, upper) + [DigitChar(v % base, upper)]
  }

  lemma QuotientShrinks(v: nat, base: nat)
    requires base >= 2 && v >= base
    ensures 0 < v / base < v
  {
    var q := v / base;
    assert v == q * base + v % base;
    if q <= 0 {
      ScaleMonotone(q, 0, base);
    }
    ScaleMonotone(2, base, q);
  }

  function Repeated(c: byte, n: nat): (text: seq<byte>)
    ensures |text| == n && forall i | 0 <= i < n :: text[i] == c
  {
    seq(n, i => c)
  }

  // ---------------------------------------------------------------- how many digits

  function Pow(base: nat, n: nat): nat {
    if n == 0 then 1 else base * Pow(base, n - 1)
  }

  lemma PowOne(base: nat)
    ensures Pow(base, 1) == base
  {
    assert Pow(base, 1) == base * Pow(base, 0);
  }

  lemma {:induction false} DigitsAtMost(v: nat, base: nat, upper: bool, n: nat)
    requires 2 <= base <= 16 && n >= 1 && v < Pow(base, n)
    ensures |Digits(v, base, upper)| <= n
    decreases n
  {
    PowOne(base);
    if v >= base && n > 1 {
      QuotientBelow(v, base, Pow(base, n - 1));
      DigitsAtMost(v / base, base, upper, n - 1);
    }
  }

  lemma QuotientBelow(v: nat, base: nat, bound: nat)
    requires base >= 1 && v < base * bound
    ensures v / base < bound
  {
    var q := v / base;
    assert v == q * base + v % base;
    if q >= bound {
      ScaleMonotone(bound, q, base);
    }
  }

  lemma SixtyFourBitDigits(v: u64, upper: bool)
    ensures |Digits(v, 10, upper)| <= 20
    ensures |Digits(v, 16, upper)| <= 16
  {
    PowersOfTen();
    DigitsAtMost(v, 10, upper, 20);
    PowersOfSixteen();
    DigitsAtMost(v, 16, upper, 16);
  }

  lemma PowersOfTen()
    ensures Pow(10, 20) == 100_000_000_000_000_000_000
  {
    assert Pow(10, 4) == 10 * Pow(10, 3) == 100 * Pow(10, 2) == 1000 * Pow(10, 1) == 10_000;
    assert Pow(10, 8) == 10 * Pow(10, 7) == 100 * Pow(10, 6) == 1000 * Pow(10, 5) == 10_000 * Pow(10, 4);
    assert Pow(10, 12) == 10 * Pow(10, 11) == 100 * Pow(10, 10) == 1000 * Pow(10, 9) == 10_000 * Pow(10, 8);
    assert Pow(10, 16) == 10 * Pow(10, 15) == 100 * Pow(10, 14) == 1000 * Pow(10, 13) == 10_000 * Pow(10, 12);
    assert Pow(10, 20) == 10 * Pow(10, 19) == 100 * Pow(10, 18) == 1000 * Pow(10, 17) == 10_000 * Pow(10, 16);
  }

  lemma PowersOfSixteen()
    ensures Pow(16, 16) == 0x1_0000_0000_0000_0000
  {
    assert Pow(16, 4) == 16 * Pow(16, 3) == 0x100 * Pow(16, 2) == 0x1000 * Pow(16, 1) == 0x1_0000;
    assert Pow(16, 8) == 16 * Pow(16, 7) == 0x100 * Pow(16, 6) == 0x1000 * Pow(16, 5) == 0x1_0000 * Pow(16, 4);
    assert Pow(16, 12) == 16 * Pow(16, 11) == 0x100 * Pow(16, 10) == 0x1000 * Pow(16, 9) == 0x1_0000 * Pow(16, 8);
    assert Pow(16, 16) == 16 * Pow(16, 15) == 0x100 * Pow(16, 14) == 0x1000 * Pow(16, 13) == 0x1_0000 * Pow(16, 12);
  }

  /** No shorter text would do: the digits do not start with a zero unless the value is zero. */
  lemma {:induction false} NoLeadingZero(v: nat, base: nat, upper: bool)
    requires 2 <= base <= 16
    ensures Digits(v, base, upper)[0] == ZERO <==> v == 0
    decreases v
  {
    if v >= base {
      QuotientShrinks(v, base);
      NoLeadingZero(v / base, base, upper);
    }
  }

  /** Hexadecimal digits are small or capital letters as asked, and decimal ones no letters. */
  lemma {:induction false} DigitsKeepCase(v: nat, base: nat, upper: bool)
    requires base in {10, 16}
    ensures DigitsOfCase(Digits(v, base, upper), base, upper)
    decreases v
  {
    if v >= base {
      QuotientShrinks(v, base);
      DigitsKeepCase(v / base, base, upper);
    }
  }

  // ---------------------------------------------------------------- reading back

  predicate IsSpace(c: byte) {
    c == SPACE || 9 <= c <= 13
  }

  predicate IsDigit(c: byte, base: nat) {
    DigitOf(c) < base
  }

  /** The value of a digit in either case, or something no base accepts. */
  function DigitOf(c: byte): nat {
    if ZERO <= c <= ZERO + 9 then c - ZERO
    else if UPPER_A <= c <= UPPER_A + 5 then c - UPPER_A + 10
    else if LOWER_A <= c <= LOWER_A + 5 then c - LOWER_A + 10
    else 100
  }

  /** The digits of the two bases, as bytes. */
  lemma DigitsAre(c: byte)
    ensures IsDigit(c, 10) <==> 48 <= c <= 57
    ensures IsDigit(c, 16) <==> 48 <= c <= 57 || 65 <= c <= 70 || 97 <= c <= 102
    ensures IsSpace(c) <==> c in {9, 10, 11, 12, 13, 32}
  {
  }

  /** The length of the longest prefix of digits. */
  function DigitRun(s: seq<byte>, base: nat): (n: nat)
    ensures n <= |s|
    ensures forall i | 0 <= i < n :: IsDigit(s[i], base)
    ensures n < |s| ==> !IsDigit(s[n], base)
  {
    if s == [] || !IsDigit(s[0], base) then 0 else 1 + DigitRun(s[1..], base)
  }

  function SpaceRun(s: seq<byte>): (n: nat)
    ensures n <= |s|
    ensures forall i | 0 <= i < n :: IsSpace(s[i])
    ensures n < |s| ==> !IsSpace(s[n])
  {
    if s == [] || !IsSpace(s[0]) then 0 else 1 + SpaceRun(s[1..])
  }

  function DigitsValue(s: seq<byte>, base: nat): nat {
    if s == [] then 0 else DigitsValue(s[..|s| - 1], base) * base + DigitOf(s[|s| - 1])
  }

  datatype Reading = Reading(value: int, used: nat)

  /** What strtol reads at the start of s before clamping: white space, a sign, digits. Nothing is
      used up when there is no digit. */
  function ReadInteger(s: seq<byte>, base: nat): (r: Reading)
    ensures r.used <= |s|
  {
    var start := SpaceRun(s);
    var signed := start < |s| && (s[start] == MINUS || s[start] == PLUS);
    var from := if signed then start + 1 else start;
    var n := DigitRun(s[from..], base);
    if n == 0 then Reading(0, 0)
    else
      var v := DigitsValue(s[from..from + n], base);
      Reading(if signed && s[start] == MINUS then 0 - v else v, from + n)
  }

  function Strtol(s: seq<byte>): (r: Reading)
    ensures r.used <= |s| && -0x8000_0000_0000_0000 <= r.value < 0x8000_0000_0000_0000
  {
    var r := ReadInteger(s, 10);
    if r.value < -0x8000_0000_0000_0000 then r.(value := -0x8000_0000_0000_0000)
    else if r.value >= 0x8000_0000_0000_0000 then r.(value := 0x7fff_ffff_ffff_ffff)
    else r
  }

  lemma DigitCharReads(d: nat, upper: bool)
    requires d < 16
    ensures DigitOf(DigitChar(d, upper)) == d
  {
  }

  lemma ValueOfOneMore(front: seq<byte>, c: byte, base: nat)
    ensures DigitsValue(front + [c], base) == DigitsValue(front, base) * base + DigitOf(c)
  {
    assert (front + [c])[..|front|] == front;
  }

  lemma QuotientAndRemainder(v: nat, base: nat)
    requires base > 0
    ensures v / base * base + v % base == v
  {
  }

  lemma OneMoreReadsBack(front: seq<byte>, q: nat, d: nat, base: nat, upper: bool)
    requires 2 <= base <= 16 && d < base
    requires DigitsValue(front, base) == q && forall i | 0 <= i < |front| :: IsDigit(front[i], base)
    ensures var text := front + [DigitChar(d, upper)];
            && DigitsValue(text, base) == q * base + d
            && forall i | 0 <= i < |text| :: IsDigit(text[i], base)
  {
    DigitCharReads(d, upper);
    ValueOfOneMore(front, DigitChar(d, upper), base);
    hide DigitsValue, DigitOf, DigitChar;
  }

  lemma DigitsStep(v: nat, base: nat, upper: bool)
    requires 2 <= base <= 16 && v >= base
    ensures 0 < v / base < v && v % base < base && v / base * base + v % base == v
    ensures Digits(v, base, upper) == Digits(v / base, base, upper) + [DigitChar(v % base, upper)]
  {
    QuotientShrinks(v, base);
    QuotientAndRemainder(v, base);
    hide DigitChar;
  }

  lemma {:induction false} DigitsReadBack(v: nat, base: nat, upper: bool)
    requires 2 <= base <= 16
    ensures DigitsValue(Digits(v, base, upper), base) == v
    ensures forall i | 0 <= i < |Digits(v, base, upper)| :: IsDigit(Digits(v, base, upper)[i], base)
    decreases v
  {
    hide DigitsValue, IsDigit, DigitChar, Digits;
    if v < base {
      NoDigits(base);
      OneMoreReadsBack([], 0, v, base, upper);
      OnlyDigit(v, base, upper);
    } else {
      DigitsStep(v, base, upper);
      DigitsReadBack(v / base, base, upper);
      OneMoreReadsBack(Digits(v / base, base, upper), v / base, v % base, base, upper);
    }
  }

  lemma NoDigits(base: nat)
    ensures DigitsValue([], base) == 0
  {
  }

  lemma OnlyDigit(v: nat, base: nat, upper: bool)
    requires 2 <= base <= 16 && v < base
    ensures Digits(v, base, upper) == [] + [DigitChar(v, upper)]
  {
  }

  lemma {:induction false} LeadingZerosReadAsNothing(n: nat, digits: seq<byte>, base: nat)
    requires base >= 2
    ensures DigitsValue(Repeated(ZERO, n) + digits, base) == DigitsValue(digits, base)
    decreases |digits|, n
  {
    var all := Repeated(ZERO, n) + digits;
    if digits != [] {
      LeadingZerosReadAsNothing(n, digits[..|digits| - 1], base);
      assert all[..|all| - 1] == Repeated(ZERO, n) + digits[..|digits| - 1];
    } else if n > 0 {
      LeadingZerosReadAsNothing(n - 1, [], base);
      assert all[..|all| - 1] == Repeated(ZERO, n - 1) + [];
    }
  }

  lemma {:induction false} DigitRunOf(digits: seq<byte>, rest: seq<byte>, base: nat)
    requires forall i | 0 <= i < |digits| :: IsDigit(digits[i], base)
    requires rest != [] ==> !IsDigit(rest[0], base)
    ensures DigitRun(digits + rest, base) == |digits|
  {
    var n := DigitRun(digits + rest, base);
    assert rest != [] ==> (digits + rest)[|digits|] == rest[0];
  }

  lemma SpaceRunOf(n: nat, rest: seq<byte>)
    requires rest != [] ==> !IsSpace(rest[0])
    ensures SpaceRun(Repeated(SPACE, n) + rest) == n
  {
    var s := Repeated(SPACE, n) + rest;
    var k := SpaceRun(s);
    assert rest != [] ==> s[n] == rest[0];
  }

  function SignedBy(sign: seq<byte>, v: nat): int {
    if sign == [MINUS] then 0 - v else v
  }

  /** Spaces, an optional sign and digits read back as the number they spell, all of them used up
      when no further digit follows. */
  lemma ReadPadded(spaces: nat, sign: seq<byte>, digits: seq<byte>, rest: seq<byte>, base: nat)
    requires 2 <= base <= 16 && sign in {[], [PLUS], [MINUS]}
    requires digits != [] && forall i | 0 <= i < |digits| :: IsDigit(digits[i], base)
    requires rest != [] ==> !IsDigit(rest[0], base)
    ensures ReadInteger(Repeated(SPACE, spaces) + sign + digits + rest, base)
            == Reading(SignedBy(sign, DigitsValue(digits, base)), spaces + |sign| + |digits|)
  {
    SignThenDigits(sign, digits, rest, base);
    SpaceRunOf(spaces, sign + digits + rest);
    DigitRunOf(digits, rest, base);
    Pieces(Repeated(SPACE, spaces), sign, digits, rest);
    hide *;
    ReadParts(Repeated(SPACE, spaces) + sign + digits + rest, base, spaces, sign, digits);
  }

  lemma SignThenDigits(sign: seq<byte>, digits: seq<byte>, rest: seq<byte>, base: nat)
    requires sign in {[], [PLUS], [MINUS]} && base <= 16
    requires digits != [] && IsDigit(digits[0], base)
    ensures var c := (sign + digits + rest)[0];
            && !IsSpace(c)
            && (if sign == [] then c !in {PLUS, MINUS} else sign == [c] && c in {PLUS, MINUS})
  {
    assert (sign + digits + rest)[0] == if sign == [] then digits[0] else sign[0];
  }

  lemma Pieces(spaces: seq<byte>, sign: seq<byte>, digits: seq<byte>, rest: seq<byte>)
    requires digits != []
    ensures var s, from := spaces + sign + digits + rest, |spaces| + |sign|;
            && s == spaces + (sign + digits + rest)
            && s[|spaces|] == (sign + digits + rest)[0]
            && s[from..] == digits + rest
            && s[from..from + |digits|] == digits
  {
    var s := spaces + sign + digits + rest;
    assert s == spaces + (sign + digits + rest);
  }

  lemma ReadParts(s: seq<byte>, base: nat, spaces: nat, sign: seq<byte>, digits: seq<byte>)
    requires spaces < |s| && SpaceRun(s) == spaces && digits != []
    requires if sign == [] then s[spaces] !in {PLUS, MINUS} else sign == [s[spaces]] && s[spaces] in {PLUS, MINUS}
    requires spaces + |sign| + |digits| <= |s|
    requires DigitRun(s[spaces + |sign|..], base) == |digits|
    requires s[spaces + |sign|..spaces + |sign| + |digits|] == digits
    ensures ReadInteger(s, base) == Reading(SignedBy(sign, DigitsValue(digits, base)), spaces + |sign| + |digits|)
  {
    hide DigitsValue, DigitRun, SpaceRun;
  }
}
