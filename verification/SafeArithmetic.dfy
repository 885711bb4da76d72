/** The overflow-checking 64-bit multiply and add. */
module SafeArithmetic {
  import opened Arithmetic
  import opened Words

  /** The stored result, and whether an overflow was reported. */
  datatype Checked = Checked(result: u64, error: bool)

  function Larger(x: nat, y: nat): nat {
    if x > y then x else y
  }

  /** An error means an overflow; a product that fits is never refused. */
  function Mult(x: u64, y: u64): (r: Checked)
    ensures r.error ==> x * y >= TWO_64
    ensures x * y < TWO_64 ==> !r.error && r.result == x * y
  {
    var computed := Wrap(x * y);
    SmallProduct(x, y);
    Checked(computed, computed != 0 && computed < Larger(x, y))
  }

  lemma SmallProduct(x: u64, y: u64)
    ensures x * y >= 0
    ensures x * y != 0 ==> x * y >= Larger(x, y)
  {
    ScaleMonotone(0, x, y);
    if x > 0 && y > 0 {
      ScaleMonotone(1, x, y);
      ScaleMonotone(1, y, x);
    }
  }

  /** The report of an overflow is right, in both directions, exactly for the products that fit and for
      those whose truncation is neither zero nor as large as the larger factor. */
  lemma MultIsExactOnlyWhenSmaller(x: u64, y: u64)
    ensures (Mult(x, y).error <==> x * y >= TWO_64) <==> x * y < TWO_64 || 0 < Wrap(x * y) < Larger(x, y)
  {
    SmallProduct(x, y);
  }

  /** Doubling is reported right for every number but 2^63, whose double truncates to zero. */
  lemma DoublingIsExactButForOneNumber(x: u64)
    ensures (Mult(x, 2).error <==> x * 2 >= TWO_64) <==> x != TWO_63
  {
  }

  /** The sizes of the tables that are computed with it: a table of 32-bit count, and a section table that
      was bounded by the file before it grew by another 32-bit count. */
  lemma TableSizesAreExact(segments: nat, sections: nat, more: nat, filesize: nat)
    requires segments < TWO_32 && more < TWO_32 && filesize < TWO_63
    requires sections <= TWO_32 || 160 * sections <= filesize
    ensures Mult(segments, 120) == Checked(120 * segments, false)
    ensures sections + more < TWO_64
    ensures Mult(sections + more, 160) == Checked(160 * (sections + more), false)
  {
    assert 120 * segments < 0x1_0000_0000_0000_0000;
    assert 160 * (sections + more) < 0x1_0000_0000_0000_0000;
  }

  /** Not every overflow is noticed: the truncated product may still be the larger number. */
  lemma MultMissesAnOverflow()
    ensures 0x1_0000_0001 * 0x1_0000_0001 >= TWO_64
    ensures Mult(0x1_0000_0001, 0x1_0000_0001) == Checked(0x2_0000_0001, false)
  {
    assert 0x1_0000_0001 * 0x1_0000_0001 == 0x1_0000_0000_0000_0000 + 0x2_0000_0001;
  }

  /** The error is reported exactly for sums above 2^64. */
  function Add(x: u64, y: u64): (r: Checked)
    ensures r.result == Wrap(x + y)
    ensures r.error <==> x + y > TWO_64
  {
    var computed := Wrap(x + y);
    if x == 0 || y == 0 then Checked(computed, false)
    else Checked(computed, computed != 0 && computed < Larger(x, y))
  }

  /** So the check on the sum is right, in both directions, unless the sum is exactly 2^64. */
  lemma AddIsExactButForOneSum(x: u64, y: u64)
    ensures (Add(x, y).error <==> x + y >= TWO_64) <==> x + y != TWO_64
  {
  }
}
