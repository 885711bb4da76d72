/** The test whether a gap holds only zero bytes. */
module ZeroCheck {
  import opened Words
  import opened Outcomes
  import opened FileAccess

  const MAXWBLOCK := 100000

  predicate AllZero(bytes: seq<byte>) {
    forall i | 0 <= i < |bytes| :: bytes[i] == 0
  }

  function FirstBlock(length: u64): u64 {
    if length > MAXWBLOCK then MAXWBLOCK else length
  }

  lemma AllZeroAt(file: seq<byte>, offset: nat, n: nat)
    requires offset + n <= |file|
    ensures AllZero(file[offset..offset + n]) <==> forall i | offset <= i < offset + n :: file[i] == 0
  {
    var block := file[offset..offset + n];
    assert forall i | offset <= i < offset + n :: file[i] == block[i - offset];
    assert forall i | 0 <= i < n :: block[i] == file[offset + i];
  }

  /** Reads block after block, but always at the same offset: what it decides is whether the first
      block is zero. */
  method IsWastedSpaceZero(memory: Memory, file: seq<byte>, filesize: u64, offset: u64, length: u64)
    returns (r: Result<bool>)
    requires filesize < TWO_63
    ensures r.Ok? && length > 0 ==>
              && ReadRandom(file, offset, FirstBlock(length), filesize).Ok?
              && r.value == AllZero(file[offset..offset + FirstBlock(length)])
              && (r.value <==> forall i | offset <= i < offset + FirstBlock(length) :: file[i] == 0)
    ensures r.Ok? && length == 0 ==> r.value
    ensures r.Failed? && r.error != OutOfMemory ==>
              ReadRandom(file, offset, FirstBlock(length), filesize) == Failed(r.error)
    ensures memory.Plentiful? ==> r != Failed(OutOfMemory)
    ensures !r.NoEntry?
  {
    if offset + FirstBlock(length) <= |file| {
      AllZeroAt(file, offset, FirstBlock(length));
    }
    var remaining: u64 := length;
    var checklen: u64 := FirstBlock(length);
    var ok := Malloc(memory);
    if !ok {
      return Failed(OutOfMemory);
    }
    while remaining != 0
      invariant remaining <= length && checklen <= FirstBlock(length)
      invariant remaining != 0 ==> checklen == FirstBlock(length)
      invariant remaining != length ==>
                  && ReadRandom(file, offset, FirstBlock(length), filesize).Ok?
                  && AllZero(file[offset..offset + FirstBlock(length)])
    {
      if remaining < checklen {
        checklen := remaining;
      }
      var block := ReadRandom(file, offset, checklen, filesize);
      if block.Failed? {
        return Failed(block.error);
      }
      for i := 0 to checklen
        invariant AllZero(block.value[..i])
      {
        if block.value[i] != 0 {
          assert file[offset..offset + FirstBlock(length)][i] == block.value[i];
          return Ok(false);
        }
      }
      assert block.value[..checklen] == block.value;
      remaining := remaining - checklen;
    }
    return Ok(true);
  }

  /** The test answers for the whole gap, whatever the file holds, exactly up to one block. */
  lemma ExactUpToOneBlock(offset: nat, length: u64)
    ensures length <= 100_000 <==>
            forall file: seq<byte> | offset + length <= |file| ::
              AllZero(file[offset..offset + FirstBlock(length)]) == AllZero(file[offset..offset + length])
  {
    if length > MAXWBLOCK {
      var file: seq<byte> := seq(offset + length, i => if i == offset + MAXWBLOCK then 1 else 0);
      assert AllZero(file[offset..offset + FirstBlock(length)]);
      assert file[offset..offset + length][MAXWBLOCK] == 1;
      assert !AllZero(file[offset..offset + length]);
    }
  }
}
