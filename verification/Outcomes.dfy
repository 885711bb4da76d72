/** Results of fallible operations, and whether malloc finds room. */
module Outcomes {
  datatype Option<+T> = None | Some(value: T)

  /** The error numbers the modelled code stores through its errcode argument. */
  datatype Error =
    | SeekOffEnd | ReadOffEnd | SeekFailed | ReadFailed
    | OutOfMemory
    | TooSmall | BadTypeSize | GroupError
    | BadOffsetSize | LoadSegOffsetBad | FileOffsetBad
    | MachoCorruptHeader | MachoCorruptSegmentName | MachoCorruptSectionDetails
    | ErrcodeUnset
    | RelSectionSize | RelCountMismatch
    | BadString | CorruptDebuglink

  datatype Result<+T> = Ok(value: T) | NoEntry | Failed(error: Error)

  /** What the process can expect of malloc: always room, or nothing in particular. */
  datatype Memory = Plentiful | Scarce

  /** The outcome of one malloc or calloc call. With scarce memory callers cannot predict it. */
  method Malloc(memory: Memory) returns (ok: bool)
    ensures memory.Plentiful? ==> ok
  {
    ok := *;
    if memory.Plentiful? {
      ok := true;
    }
  }

  const HALF_MEMORY := 0x8000_0000_0000_0000

  /** The address malloc returns for a block of the given size, which fits the address space. Even plentiful
      memory has no room for half of all there can be. */
  method MallocAt(memory: Memory, size: nat) returns (address: Option<nat>)
    ensures address.Some? ==> 0 < address.value && address.value + size < 0x1_0000_0000_0000_0000
    ensures memory.Plentiful? && size < HALF_MEMORY ==> address.Some?
  {
    address := None;
    var a: nat := *;
    if 0 < a && a + size < 0x1_0000_0000_0000_0000 {
      address := Some(a);
    } else if memory.Plentiful? && size < HALF_MEMORY {
      address := Some(1);
    }
  }
}
