/** The nibble-table bit counter for section flags. */
module BitsOn {
  import opened Words

  /** nibblecounts, as it stands in the code: the entry for 8 is 2. */
  const NIBBLE_COUNTS: seq<nat> := [0, 1, 1, 2, 1, 2, 2, 3, 2, 2, 2, 3, 2, 3, 3, 4]

  function PopulationCount(v: nat): nat {
    if v == 0 then 0 else v % 2 + PopulationCount(v / 2)
  }

  /** How many hexadecimal digits of v are 8. */
  function EightDigits(v: nat): nat {
    if v == 0 then 0 else (if v % 16 == 8 then 1 else 0) + EightDigits(v / 16)
  }

  lemma OneMoreBit(x: nat, b: nat)
    requires b < 2
    ensures PopulationCount(2 * x + b) == b + PopulationCount(x)
  {
    assert (2 * x + b) % 2 == b && (2 * x + b) / 2 == x;
  }

  lemma FourMoreBits(x: nat, b3: nat, b2: nat, b1: nat, b0: nat)
    requires b3 < 2 && b2 < 2 && b1 < 2 && b0 < 2
    ensures PopulationCount(16 * x + 8 * b3 + 4 * b2 + 2 * b1 + b0) == b3 + b2 + b1 + b0 + PopulationCount(x)
  {
    hide PopulationCount;
    OneMoreBit(x, b3);
    OneMoreBit(2 * x + b3, b2);
    OneMoreBit(2 * (2 * x + b3) + b2, b1);
    OneMoreBit(2 * (2 * (2 * x + b3) + b2) + b1, b0);
  }

  /** The count of a value is that of its last hexadecimal digit and of the rest, and the table is
      right about the digit unless it is 8. */
  lemma CountByNibbles(v: nat)
    ensures PopulationCount(v) + (if v % 16 == 8 then 1 else 0) == NIBBLE_COUNTS[v % 16] + PopulationCount(v / 16)
  {
    hide PopulationCount;
    var n := v % 16;
    var b3, b2, b1, b0 := n / 8, n / 4 % 2, n / 2 % 2, n % 2;
    FourBits(n);
    assert v == 16 * (v / 16) + n;
    FourMoreBits(v / 16, b3, b2, b1, b0);
    TableIsNearlyRight(n);
    hide *;
  }

  lemma FourBits(n: nat)
    requires n < 16
    ensures n == 8 * (n / 8) + 4 * (n / 4 % 2) + 2 * (n / 2 % 2) + n % 2 && n / 8 < 2
  {
  }

  lemma TableIsNearlyRight(n: nat)
    requires n < 16
    ensures NIBBLE_COUNTS[n] == n / 8 + n / 4 % 2 + n / 2 % 2 + n % 2 + (if n == 8 then 1 else 0)
  {
  }

  /** The count is too large by one for every digit 8, and never too small. */
  method GetBitsOnCount(v_in: u64) returns (bitscount: nat)
    ensures bitscount == PopulationCount(v_in) + EightDigits(v_in)
  {
    bitscount := 0;
    var v: nat := v_in;
    while v != 0
      invariant bitscount + PopulationCount(v) + EightDigits(v) == PopulationCount(v_in) + EightDigits(v_in)
      decreases v
    {
      var nibble := v % 16;
      CountByNibbles(v);
      bitscount := bitscount + NIBBLE_COUNTS[nibble];
      v := v / 16;
    }
  }

  /** Hexadecimal digit i of v, counted from the last. */
  function DigitAt(v: nat, i: nat): nat {
    if i == 0 then v % 16 else DigitAt(v / 16, i - 1)
  }

  lemma {:induction false} ZeroDigits(i: nat)
    ensures DigitAt(0, i) == 0
  {
    if i > 0 {
      ZeroDigits(i - 1);
    }
  }

  lemma DigitStep(v: nat, i: nat)
    ensures DigitAt(v, i) == if i == 0 then v % 16 else DigitAt(v / 16, i - 1)
    ensures v > 0 ==> EightDigits(v) == (if v % 16 == 8 then 1 else 0) + EightDigits(v / 16)
    ensures v > 0 ==> v / 16 < v
    ensures EightDigits(0) == 0
  {
  }

  lemma {:induction false} NoEights(v: nat)
    ensures EightDigits(v) == 0 <==> forall i: nat :: DigitAt(v, i) != 8
    decreases v
  {
    hide *;
    DigitStep(v, 0);
    if v == 0 {
      forall i: nat ensures DigitAt(0, i) != 8 {
        ZeroDigits(i);
      }
    } else {
      NoEights(v / 16);
      if EightDigits(v) == 0 {
        forall i: nat ensures DigitAt(v, i) != 8 {
          DigitStep(v, i);
        }
      } else if v % 16 != 8 {
        var i: nat :| DigitAt(v / 16, i) == 8;
        DigitStep(v, i + 1);
      }
    }
  }

  /** So the count is the population count exactly for the values none of whose hexadecimal digits is 8. */
  lemma ExactWithoutEights(v: u64)
    ensures PopulationCount(v) + EightDigits(v) == PopulationCount(v) <==> forall i: nat :: DigitAt(v, i) != 8
  {
    NoEights(v);
  }
}
