/** The growable NUL-terminated buffer behind all string building. */
module StringBuffer {
  import opened Words
  import opened Outcomes

  const MINIMUM_NEW_LENGTH := 30

  /** The bytes of a literal. */
  function Ascii(s: string): (bytes: seq<byte>)
    ensures |bytes| == |s|
  {
    seq(|s|, i requires 0 <= i < |s| => s[i] as int % 0x100)
  }

  /** Every character of an ASCII literal is its own byte. */
  lemma AsciiKeeps(s: string)
    ensures forall i | 0 <= i < |s| && s[i] < 256 as char :: Ascii(s)[i] == s[i] as int
  {
  }

  class DwarfString {
    const memory: Memory
    var data: array<byte>
    var size: nat
    var avail: nat
    var malloced: bool

    /** Some allocation made for this string has failed. */
    ghost var exhausted: bool

    /** The text ends inside the storage with a NUL right after it, and a buffer that was ever given
        room always has room left. */
    ghost predicate Valid()
      reads this, data
    {
      && avail <= size
      && (size == 0 || (avail >= 1 && size <= data.Length))
      && (malloced ==> size < data.Length)
      && size - avail < data.Length
      && data[size - avail] == NUL
      && (memory.Plentiful? ==> !exhausted)
    }

    ghost function Contents(): (s: seq<byte>)
      requires Valid()
      reads this, data
    {
      data[..size - avail]
    }

    /** data points to the one-byte literal "", which nothing may write to. */
    constructor (memory: Memory)
      ensures Valid() && Contents() == [] && size == 0 && !exhausted
      ensures fresh(data) && this.memory == memory
    {
      this.memory := memory;
      data := new byte[1](_ => NUL);
      size, avail, malloced := 0, 0, false;
      exhausted := false;
    }

    /** dwarfstring_constructor, on storage that exists already. */
    method Reconstruct()
      requires memory.Plentiful? ==> !exhausted
      modifies this
      ensures Valid() && Contents() == [] && size == 0
      ensures fresh(data) && exhausted == old(exhausted)
    {
      data := new byte[1](_ => NUL);
      size, avail, malloced := 0, 0, false;
    }

    method ConstructFixed(len: nat) returns (ok: bool)
      requires memory.Plentiful? ==> !exhausted
      modifies this
      ensures memory.Plentiful? ==> ok
      ensures Valid() && Contents() == [] && fresh(data)
      ensures ok ==> size == len && exhausted == old(exhausted)
      ensures !ok ==> size == 0 && exhausted
    {
      Reconstruct();
      if len == 0 {
        return true;
      }
      ok := AddTo(len);
    }

    /** Starts out in storage the caller provides. */
    method ConstructStatic(space: array<byte>, len: nat)
      requires 1 <= len <= space.Length
      requires memory.Plentiful? ==> !exhausted
      modifies this, space
      ensures Valid() && Contents() == [] && data == space && size == len && !malloced
      ensures exhausted == old(exhausted)
    {
      space[0] := NUL;
      data := space;
      size, avail, malloced := len, len, false;
    }

    /** Moves the text to a larger block; the only place where memory is asked for. */
    method AddTo(newlen: nat) returns (ok: bool)
      requires Valid() && newlen > size
      modifies this
      ensures memory.Plentiful? ==> ok
      ensures Valid() && Contents() == old(Contents())
      ensures ok ==> size == newlen && malloced && fresh(data) && exhausted == old(exhausted)
      ensures !ok ==> exhausted && data == old(data) && size == old(size) && avail == old(avail)
                      && malloced == old(malloced)
    {
      var lastpos := size - avail;
      var malloclen := newlen + 1;
      if malloclen < MINIMUM_NEW_LENGTH {
        malloclen := MINIMUM_NEW_LENGTH;
      }
      ok := Malloc(memory);
      if !ok {
        exhausted := true;
        return;
      }
      var b := new byte[malloclen];
      forall i | 0 <= i < lastpos {
        b[i] := data[i];
      }
      data := b;
      data[lastpos] := NUL;
      size := newlen;
      avail := newlen - lastpos;
      malloced := true;
      assert data[..lastpos] == old(data[..lastpos]);
    }

    method Reset() returns (ok: bool)
      requires Valid()
      modifies this`avail, data
      ensures ok && Valid() && Contents() == []
      ensures size == old(size)
    {
      if size == 0 {
        return true;
      }
      avail := size;
      data[0] := NUL;
      return true;
    }

    method Destruct()
      requires Valid()
      modifies this
      ensures Valid() && Contents() == [] && size == 0 && fresh(data) && exhausted == old(exhausted)
    {
      Reconstruct();
    }

    /** Copies bytes for which there is room. */
    method Place(str: seq<byte>)
      requires Valid() && |str| < avail
      modifies this`avail, data
      ensures Valid() && Contents() == old(Contents()) + str
    {
      var lastpos := size - avail;
      forall i | 0 <= i < |str| {
        data[lastpos + i] := str[i];
      }
      avail := avail - |str|;
      data[size - avail] := NUL;
      assert data[..lastpos] == old(data[..lastpos]);
      assert data[lastpos..lastpos + |str|] == str;
      assert data[..lastpos + |str|] == data[..lastpos] + data[lastpos..lastpos + |str|];
    }

    /** Appends the given bytes, or, when memory runs out, nothing at all. */
    method AppendLength(str: seq<byte>) returns (ok: bool)
      requires Valid()
      modifies this, data
      ensures Valid() && (data == old(data) || fresh(data))
      ensures ok ==> Contents() == old(Contents()) + str && exhausted == old(exhausted)
      ensures !ok ==> Contents() == old(Contents()) && data == old(data) && size == old(size) && exhausted
      ensures memory.Plentiful? ==> ok
      ensures |str| < old(avail) ==> ok && data == old(data)
    {
      var slen := |str|;
      if slen == 0 {
        return true;
      }
      if slen >= avail {
        var newlen := size + slen + 2;
        var r := AddTo(newlen);
        if !r {
          return false;
        }
      }
      Place(str);
      return true;
    }

    /** Appends a C string; a null pointer appends nothing. */
    method Append(str: Option<seq<byte>>) returns (ok: bool)
      requires Valid()
      modifies this, data
      ensures Valid() && (data == old(data) || fresh(data))
      ensures ok ==> Contents() == old(Contents()) + (if str.Some? then str.value else [])
                     && exhausted == old(exhausted)
      ensures memory.Plentiful? ==> ok
      ensures !ok ==> Contents() == old(Contents()) && data == old(data) && size == old(size) && exhausted
    {
      if str.None? {
        return true;
      }
      ok := AppendLength(str.value);
    }

    lemma NotExhausted()
      requires Valid()
      ensures memory.Plentiful? ==> !exhausted
    {
    }

    /** What the C string holds, for reading. */
    method Text() returns (text: seq<byte>)
      requires Valid()
      ensures text == Contents()
    {
      return data[..size - avail];
    }

    /** The text as any reader of the C string sees it, when it holds no NUL itself. */
    method Strlen() returns (len: nat)
      requires Valid()
      ensures len == |Contents()|
      ensures NUL !in Contents() ==> len < data.Length && data[len] == NUL && NUL !in data[..len]
    {
      return size - avail;
    }
  }

  // ---------------------------------------------------------------- sequences of operations

  datatype Operation = Append(str: seq<byte>) | Reset | Destruct

  /** What a string should hold after the given operations on one that held before. */
  function Effect(before: seq<byte>, ops: seq<Operation>): seq<byte> {
    if ops == [] then before
    else
      var s := Effect(before, ops[..|ops| - 1]);
      match ops[|ops| - 1]
      case Append(str) => s + str
      case Reset => []
      case Destruct => []
  }

  /** The operations that succeeded. */
  function Done(ops: seq<Operation>, outcomes: seq<bool>): seq<Operation>
    requires |ops| == |outcomes|
  {
    if ops == [] then []
    else
      var n := |ops| - 1;
      Done(ops[..n], outcomes[..n]) + if outcomes[n] then [ops[n]] else []
  }

  lemma DoneNext(before: seq<byte>, ops: seq<Operation>, outcomes: seq<bool>, op: Operation, ok: bool)
    requires |ops| == |outcomes|
    ensures var s := Effect(before, Done(ops, outcomes));
            Effect(before, Done(ops + [op], outcomes + [ok])) == if ok then Effect(s, [op]) else s
  {
    var done := Done(ops, outcomes);
    assert (ops + [op])[..|ops|] == ops && (outcomes + [ok])[..|ops|] == outcomes;
    if ok {
      assert (done + [op])[..|done|] == done;
      assert [op][..0] == [];
    } else {
      assert done + [] == done;
    }
  }

  lemma {:induction false} AllDone(ops: seq<Operation>, outcomes: seq<bool>)
    requires |ops| == |outcomes| && forall i | 0 <= i < |outcomes| :: outcomes[i]
    ensures Done(ops, outcomes) == ops
  {
    if ops != [] {
      var n := |ops| - 1;
      AllDone(ops[..n], outcomes[..n]);
      assert ops == ops[..n] + [ops[n]];
    }
  }

  lemma EffectOfOne(text: seq<byte>, op: Operation)
    ensures Effect(text, [op]) == match op case Append(str) => text + str case Reset => [] case Destruct => []
  {
    assert [op][..0] == [];
    assert Effect(text, []) == text;
  }

  method PerformOne(s: DwarfString, op: Operation) returns (ok: bool)
    requires s.Valid()
    modifies s, s.data
    ensures s.Valid() && (s.data == old(s.data) || fresh(s.data))
    ensures s.Contents() == if ok then Effect(old(s.Contents()), [op]) else old(s.Contents())
    ensures !ok ==> op.Append? && s.exhausted
    ensures old(s.exhausted) ==> s.exhausted
  {
    EffectOfOne(s.Contents(), op);
    hide Effect, DwarfString.Valid, DwarfString.Contents;
    ok := true;
    match op {
      case Append(str) => ok := s.AppendLength(str);
      case Reset => ok := s.Reset();
      case Destruct => s.Destruct();
    }
  }

  /** Any sequence of operations leaves a valid buffer holding exactly what the successful ones say. Only
      appends can fail, and only when memory ran out. */
  method Perform(s: DwarfString, ops: seq<Operation>) returns (ghost outcomes: seq<bool>)
    requires s.Valid()
    modifies s, s.data
    ensures s.Valid() && (s.data == old(s.data) || fresh(s.data))
    ensures |outcomes| == |ops|
    ensures s.Contents() == Effect(old(s.Contents()), Done(ops, outcomes))
    ensures forall i | 0 <= i < |ops| && !outcomes[i] :: ops[i].Append? && s.exhausted
    ensures s.memory.Plentiful? ==> s.Contents() == Effect(old(s.Contents()), ops)
    ensures !s.exhausted ==> s.Contents() == Effect(old(s.Contents()), ops)
  {
    hide *;
    outcomes := [];
    ghost var before := s.Contents();
    NothingDone(before);
    for i := 0 to |ops|
      invariant s.Valid() && (s.data == old(s.data) || fresh(s.data))
      invariant |outcomes| == i
      invariant s.Contents() == Effect(before, Done(ops[..i], outcomes))
      invariant forall k | 0 <= k < i && !outcomes[k] :: ops[k].Append? && s.exhausted
    {
      assert ops[..i + 1] == ops[..i] + [ops[i]];
      var ok := PerformOne(s, ops[i]);
      DoneNext(before, ops[..i], outcomes, ops[i], ok);
      outcomes := outcomes + [ok];
    }
    assert ops[..|ops|] == ops;
    s.NotExhausted();
    if !s.exhausted {
      AllDone(ops, outcomes);
    }
  }

  lemma NothingDone(before: seq<byte>)
    ensures Effect(before, Done([], [])) == before
  {
  }
}
