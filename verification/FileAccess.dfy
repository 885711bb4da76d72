/** Reading from the object file, with the bounds checks made before every read. */
module FileAccess {
  import opened Words
  import opened Outcomes

  /** The value an off_t takes when assigned an unsigned 64-bit value: the same modulo 2^64. */
  function Signed(x: u64): (v: int)
    ensures -TWO_63 <= v < TWO_63 && (v == x || v == x - TWO_64)
  {
    if x < TWO_63 then x else x - TWO_64
  }

  /** size bytes at loc of a file whose size is taken to be filesize. Both checks are made on signed
      values, so an enormous size slips past them and is only stopped by the read itself. */
  function ReadRandom(file: seq<byte>, loc: u64, size: u64, filesize: u64): (r: Result<seq<byte>>)
    ensures r.Ok? ==> loc + size <= |file| && r.value == file[loc..loc + size]
    ensures r.Ok? && filesize < TWO_63 ==> loc < filesize && loc + size <= filesize
    ensures loc < filesize < TWO_63 && loc + size <= filesize && loc + size <= |file| ==> r.Ok?
    ensures !r.NoEntry?
  {
    if Signed(loc) >= Signed(filesize) then Failed(SeekOffEnd)
    else if Signed(Wrap(loc + size)) > Signed(filesize) then Failed(ReadOffEnd)
    else if Signed(loc) < 0 then Failed(SeekFailed)
    else if loc + size > |file| || loc + size >= TWO_63 then Failed(ReadFailed)
    else Ok(file[loc..loc + size])
  }

  /** Which error a read of a complete file reports, for a length that is not enormous: the first check refuses
      a start at or past the end, the second a length that reaches past it. */
  lemma ReadErrors(file: seq<byte>, loc: u64, size: u64)
    requires |file| < TWO_63 && loc + size < TWO_63
    ensures ReadRandom(file, loc, size, |file|)
            == if loc >= |file| then Failed(SeekOffEnd)
               else if loc + size > |file| then Failed(ReadOffEnd)
               else Ok(file[loc..loc + size])
  {
  }
}
