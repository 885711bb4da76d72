/** A pointer array and the strings it points to, in one block of memory. */
module PathBlock {
  import opened Words
  import opened Outcomes
  import opened StringBuffer
  import opened ByteOrder

  function PointerAt(host: Order, block: seq<byte>, i: nat): nat
    requires 8 * i + 8 <= |block|
  {
    Value(host, block[8 * i..8 * i + 8])
  }

  /** The C string a reader finds there. */
  function CString(block: seq<byte>, at: nat): (s: seq<byte>)
    requires at <= |block|
    decreases |block| - at
  {
    if at == |block| || block[at] == NUL then [] else [block[at]] + CString(block, at + 1)
  }

  lemma {:induction false} CStringReads(block: seq<byte>, at: nat, s: seq<byte>)
    requires at + |s| < |block| && block[at..at + |s|] == s && NUL !in s && block[at + |s|] == NUL
    ensures CString(block, at) == s
    decreases |s|
  {
    if s != [] {
      assert block[at] == s[0] && block[at + 1..at + |s|] == s[1..];
      CStringReads(block, at + 1, s[1..]);
    }
  }

  /** Pointer i leads to string i, which with its NUL lies inside the block and past the pointers. */
  ghost predicate LeadsTo(host: Order, base: nat, block: seq<byte>, slots: nat, i: nat, s: seq<byte>)
    requires i < slots && 8 * slots + 8 <= |block|
  {
    && base + 8 * slots + 8 <= PointerAt(host, block, i)
    && PointerAt(host, block, i) + |s| < base + |block|
    && CString(block, PointerAt(host, block, i) - base) == s
  }

  /** The block at address base reads back as the given strings: pointer after pointer leads to them,
      none overlaps another, and the slot after the last pointer is null. */
  ghost predicate Holds(host: Order, base: nat, block: seq<byte>, strings: seq<seq<byte>>) {
    && 8 * |strings| + 8 <= |block|
    && (forall i | 0 <= i < |strings| :: LeadsTo(host, base, block, |strings|, i, strings[i]))
    && (forall i, j | 0 <= i < j < |strings| ::
          PointerAt(host, block, i) + |strings[i]| < PointerAt(host, block, j))
    && PointerAt(host, block, |strings|) == 0
  }

  // ---------------------------------------------------------------- the layout

  /** The first n strings, each followed by a NUL. */
  function Texts(strings: seq<seq<byte>>, n: nat): seq<byte>
    requires n <= |strings|
  {
    if n == 0 then [] else Texts(strings, n - 1) + strings[n - 1] + [NUL]
  }

  /** Where string i starts. */
  function Offset(strings: seq<seq<byte>>, i: nat): nat
    requires i <= |strings|
  {
    8 * |strings| + 8 + |Texts(strings, i)|
  }

  function BlockSize(strings: seq<seq<byte>>): nat {
    Offset(strings, |strings|) + 8
  }

  function Pointers(host: Order, base: nat, strings: seq<seq<byte>>, n: nat): (p: seq<byte>)
    requires n <= |strings|
    ensures |p| == 8 * n
  {
    if n == 0 then [] else Pointers(host, base, strings, n - 1) + Stored(host, base + Offset(strings, n - 1), 8)
  }

  lemma {:induction false} TextsGrow(strings: seq<seq<byte>>, n: nat, m: nat)
    requires n <= m <= |strings|
    ensures |Texts(strings, n)| <= |Texts(strings, m)|
    ensures n < m ==> |Texts(strings, n)| + |strings[n]| + 1 <= |Texts(strings, m)|
  {
    if n < m {
      TextsGrow(strings, n, m - 1);
    }
  }

  /** What is left of the block when n strings are in place. */
  function Rest(strings: seq<seq<byte>>, n: nat): nat
    requires n <= |strings|
  {
    TextsGrow(strings, n, |strings|);
    |Texts(strings, |strings|)| - |Texts(strings, n)| + 8
  }

  /** The zeroed block once n pointers and strings are in place. */
  function Image(host: Order, base: nat, strings: seq<seq<byte>>, n: nat): (image: seq<byte>)
    requires n <= |strings|
    ensures |image| == BlockSize(strings)
  {
    Pointers(host, base, strings, n) + Zeros(8 * (|strings| - n) + 8)
    + Texts(strings, n) + Zeros(Rest(strings, n))
  }

  function Overwritten(s: seq<byte>, at: nat, bytes: seq<byte>): (r: seq<byte>)
    requires at + |bytes| <= |s|
    ensures |r| == |s|
  {
    s[..at] + bytes + s[at + |bytes|..]
  }

  lemma OverwriteInside(a: seq<byte>, b: seq<byte>, c: seq<byte>, bytes: seq<byte>)
    requires |b| == |bytes|
    ensures Overwritten(a + b + c, |a|, bytes) == a + bytes + c
  {
  }

  lemma TwoWrites(p: seq<byte>, b: seq<byte>, z: seq<byte>, t: seq<byte>, c: seq<byte>, y: seq<byte>,
                  pointer: seq<byte>, text: seq<byte>)
    requires |b| == |pointer| && |c| == |text|
    ensures Overwritten(Overwritten(p + (b + z) + t + (c + y), |p| + |b| + |z| + |t|, text), |p|, pointer)
            == (p + pointer) + z + (t + text) + y
  {
    var front, back := p + b + z + t, z + t + text + y;
    assert p + (b + z) + t + (c + y) == front + c + y;
    OverwriteInside(front, c, y, text);
    assert front + text + y == p + b + back;
    OverwriteInside(p, b, back, pointer);
    assert p + pointer + back == (p + pointer) + z + (t + text) + y;
    hide *;
  }

  lemma ZerosSplit(m: nat, n: nat)
    ensures Zeros(m + n) == Zeros(m) + Zeros(n)
  {
  }

  lemma OneMoreString(host: Order, base: nat, strings: seq<seq<byte>>, n: nat)
    requires n < |strings|
    ensures |Texts(strings, 0)| == 0
    ensures Texts(strings, n + 1) == Texts(strings, n) + (strings[n] + [NUL])
    ensures Rest(strings, n) == |strings[n]| + 1 + Rest(strings, n + 1)
    ensures Offset(strings, n) + |strings[n]| + 1 <= BlockSize(strings)
    ensures Pointers(host, base, strings, n + 1)
            == Pointers(host, base, strings, n) + Stored(host, base + Offset(strings, n), 8)
  {
    TextsGrow(strings, n, |strings|);
    assert Texts(strings, n) + strings[n] + [NUL] == Texts(strings, n) + (strings[n] + [NUL]);
  }

  lemma ImageIs(host: Order, base: nat, strings: seq<seq<byte>>, n: nat)
    requires n <= |strings|
    ensures Image(host, base, strings, n)
            == Pointers(host, base, strings, n) + Zeros(8 * (|strings| - n) + 8)
               + Texts(strings, n) + Zeros(Rest(strings, n))
    ensures n == |strings| ==> Rest(strings, n) == 8
    ensures Offset(strings, n) == 8 * |strings| + 8 + |Texts(strings, n)|
    ensures |Pointers(host, base, strings, n)| == 8 * n
  {
  }

  /** Copying string n and its NUL to where it belongs, then storing its pointer, gives the next image. */
  lemma ImageStep(host: Order, base: nat, strings: seq<seq<byte>>, n: nat)
    requires n < |strings|
    ensures Offset(strings, n) + |strings[n]| + 1 <= BlockSize(strings)
    ensures Overwritten(Overwritten(Image(host, base, strings, n), Offset(strings, n), strings[n] + [NUL]),
                        8 * n, Stored(host, base + Offset(strings, n), 8))
            == Image(host, base, strings, n + 1)
  {
    hide *;
    var left := 8 * (|strings| - n - 1) + 8;
    var text, pointer := strings[n] + [NUL], Stored(host, base + Offset(strings, n), 8);
    ImageIs(host, base, strings, n);
    ImageIs(host, base, strings, n + 1);
    OneMoreString(host, base, strings, n);
    ZerosSplit(8, left);
    ZerosSplit(|text|, Rest(strings, n + 1));
    TwoWrites(Pointers(host, base, strings, n), Zeros(8), Zeros(left), Texts(strings, n),
              Zeros(|text|), Zeros(Rest(strings, n + 1)), pointer, text);
  }

  lemma Inside<T>(a: seq<T>, b: seq<T>, c: seq<T>, i: nat, j: nat)
    requires i <= j <= |b|
    ensures (a + b + c)[|a| + i..|a| + j] == b[i..j]
  {
  }

  lemma {:induction false} PointerInPlace(host: Order, base: nat, strings: seq<seq<byte>>, i: nat, n: nat)
    requires i < n <= |strings|
    ensures Pointers(host, base, strings, n)[8 * i..8 * i + 8] == Stored(host, base + Offset(strings, i), 8)
  {
    hide Texts, Stored, Offset;
    var front, last := Pointers(host, base, strings, n - 1), Stored(host, base + Offset(strings, n - 1), 8);
    assert Pointers(host, base, strings, n) == front + last;
    if i < n - 1 {
      PointerInPlace(host, base, strings, i, n - 1);
      assert (front + last)[8 * i..8 * i + 8] == front[8 * i..8 * i + 8];
    }
  }

  lemma {:induction false} TextInPlace(strings: seq<seq<byte>>, i: nat, n: nat)
    requires i < n <= |strings|
    ensures |Texts(strings, i)| + |strings[i]| + 1 <= |Texts(strings, n)|
    ensures Texts(strings, n)[|Texts(strings, i)|..|Texts(strings, i)| + |strings[i]| + 1] == strings[i] + [NUL]
  {
    if i < n - 1 {
      TextInPlace(strings, i, n - 1);
    }
  }

  lemma OffsetsInOrder(strings: seq<seq<byte>>, i: nat)
    requires i < |strings|
    ensures 8 * |strings| + 8 <= Offset(strings, i)
    ensures Offset(strings, i) + |strings[i]| + 1 < BlockSize(strings)
    ensures forall j | i < j < |strings| :: Offset(strings, i) + |strings[i]| < Offset(strings, j)
  {
    TextsGrow(strings, i, |strings|);
    forall j | i < j < |strings|
      ensures |Texts(strings, i)| + |strings[i]| + 1 <= |Texts(strings, j)|
    {
      TextsGrow(strings, i, j);
    }
    hide Texts;
  }

  lemma PointerBytes(host: Order, base: nat, strings: seq<seq<byte>>, i: nat)
    requires i < |strings|
    ensures 8 * i + 8 <= BlockSize(strings)
    ensures Image(host, base, strings, |strings|)[8 * i..8 * i + 8] == Stored(host, base + Offset(strings, i), 8)
  {
    hide Texts, Pointers, Stored, Zeros, Image;
    var n := |strings|;
    var p, rest := Pointers(host, base, strings, n), Zeros(8) + Texts(strings, n) + Zeros(8);
    PointerInPlace(host, base, strings, i, n);
    ImageIs(host, base, strings, n);
    assert p + Zeros(8) + Texts(strings, n) + Zeros(8) == [] + p + rest;
    Inside([], p, rest, 8 * i, 8 * i + 8);
  }

  lemma PointerReadsBack(host: Order, base: nat, strings: seq<seq<byte>>, i: nat)
    requires i < |strings|
    requires base + BlockSize(strings) < TWO_64
    ensures 8 * i + 8 <= BlockSize(strings)
    ensures PointerAt(host, Image(host, base, strings, |strings|), i) == base + Offset(strings, i)
  {
    hide Texts, Pointers, Value, Stored, Pow256, Image, Offset, BlockSize;
    PointerBytes(host, base, strings, i);
    OffsetsInOrder(strings, i);
    Pow256Constants();
    StoredRoundTrip(host, base + Offset(strings, i), 8);
  }

  lemma TextReadsBack(host: Order, base: nat, strings: seq<seq<byte>>, i: nat)
    requires i < |strings| && NUL !in strings[i]
    ensures Offset(strings, i) <= BlockSize(strings)
    ensures CString(Image(host, base, strings, |strings|), Offset(strings, i)) == strings[i]
  {
    hide Texts, Pointers, Zeros, CString, Image, Offset, BlockSize;
    var n := |strings|;
    var p, z, t := Pointers(host, base, strings, n), Zeros(8), Texts(strings, n);
    var before, text := |Texts(strings, i)|, strings[i] + [NUL];
    OffsetsInOrder(strings, i);
    TextInPlace(strings, i, n);
    ImageIs(host, base, strings, n);
    ImageIs(host, base, strings, i);
    Inside(p + z, t, Zeros(8), before, before + |text|);
    ReadsText(Image(host, base, strings, n), Offset(strings, i), strings[i]);
  }

  lemma ReadsText(block: seq<byte>, at: nat, s: seq<byte>)
    requires at + |s| < |block| && NUL !in s
    requires block[at..at + |s| + 1] == s + [NUL]
    ensures CString(block, at) == s
  {
    assert block[at..at + |s|] == block[at..at + |s| + 1][..|s|];
    assert block[at + |s|] == block[at..at + |s| + 1][|s|];
    CStringReads(block, at, s);
  }

  lemma NullAfterLast(host: Order, base: nat, strings: seq<seq<byte>>)
    ensures 8 * |strings| + 8 <= BlockSize(strings)
    ensures PointerAt(host, Image(host, base, strings, |strings|), |strings|) == 0
  {
    var n := |strings|;
    assert Image(host, base, strings, n)[8 * n..8 * n + 8] == Zeros(8);
    LittleValueOfZeros(8);
    ReversedZeros(8);
  }

  lemma ImageHolds(host: Order, base: nat, strings: seq<seq<byte>>)
    requires forall s :: s in strings ==> NUL !in s
    requires base + BlockSize(strings) < TWO_64
    ensures Holds(host, base, Image(host, base, strings, |strings|), strings)
  {
    hide Image, PointerAt, CString, Offset, BlockSize;
    NullAfterLast(host, base, strings);
    var block := Image(host, base, strings, |strings|);
    forall i | 0 <= i < |strings|
      ensures PointerAt(host, block, i) == base + Offset(strings, i)
      ensures LeadsTo(host, base, block, |strings|, i, strings[i])
    {
      OffsetsInOrder(strings, i);
      PointerReadsBack(host, base, strings, i);
      TextReadsBack(host, base, strings, i);
    }
    forall i, j | 0 <= i < j < |strings|
      ensures Offset(strings, i) + |strings[i]| < Offset(strings, j)
    {
      OffsetsInOrder(strings, i);
    }
  }

  // ---------------------------------------------------------------- packing

  method Put(block: array<byte>, at: nat, bytes: seq<byte>)
    requires at + |bytes| <= block.Length
    modifies block
    ensures block[..] == Overwritten(old(block[..]), at, bytes)
  {
    forall i | 0 <= i < |bytes| {
      block[at + i] := bytes[i];
    }
    assert block[..at] == old(block[..at]) && block[at..at + |bytes|] == bytes;
    assert block[at + |bytes|..] == old(block[at + |bytes|..]);
  }

  method Measure(strings: seq<seq<byte>>) returns (count: nat, pointerarraysize: nat, totalareasize: nat)
    ensures count == |strings| && pointerarraysize == 8 * |strings| + 8
    ensures totalareasize == BlockSize(strings)
  {
    var sumstringlengths := 0;
    count, pointerarraysize := 0, 0;
    while count < |strings|
      invariant count <= |strings| && pointerarraysize == 8 * count
      invariant sumstringlengths == |Texts(strings, count)|
    {
      pointerarraysize := pointerarraysize + 8;
      sumstringlengths := sumstringlengths + |strings[count]| + 1;
      count := count + 1;
    }
    pointerarraysize := pointerarraysize + 8;
    totalareasize := pointerarraysize + sumstringlengths + 8;
  }

  lemma ImageOfNothing(host: Order, base: nat, strings: seq<seq<byte>>)
    ensures Image(host, base, strings, 0) == Zeros(BlockSize(strings))
    ensures Offset(strings, 0) == 8 * |strings| + 8
  {
    TextsGrow(strings, 0, |strings|);
  }

  lemma NextOffset(strings: seq<seq<byte>>, n: nat)
    requires n < |strings|
    ensures Offset(strings, n + 1) == Offset(strings, n) + |strings[n]| + 1
    ensures 8 * n + 8 <= BlockSize(strings)
  {
  }

  /** The end of _dwarf_construct_linkedto_path: sizes first, then one zeroed block, then the strings
      with their pointers. base is the address of the block. */
  method Pack(host: Order, memory: Memory, strings: seq<seq<byte>>)
    returns (r: Result<array<byte>>, base: nat, count: nat)
    requires forall s :: s in strings ==> NUL !in s
    ensures r.Ok? ==> fresh(r.value) && Holds(host, base, r.value[..], strings) && count == |strings|
    ensures !r.Ok? ==> r == Failed(OutOfMemory) && (memory.Scarce? || BlockSize(strings) >= HALF_MEMORY)
  {
    hide Image, Overwritten, Offset, BlockSize, Holds, Stored, Texts;
    var pointerarraysize, totalareasize;
    count, pointerarraysize, totalareasize := Measure(strings);
    var address := MallocAt(memory, totalareasize);
    if address.None? {
      return Failed(OutOfMemory), 0, 0;
    }
    base := address.value;
    var resultfullstring := new byte[totalareasize](_ => 0);
    ImageOfNothing(host, base, strings);
    assert resultfullstring[..] == Zeros(totalareasize);
    var setptrindex, setstrindex: nat := 0, pointerarraysize;
    while setptrindex < |strings|
      invariant setptrindex <= |strings| && setstrindex == Offset(strings, setptrindex)
      invariant fresh(resultfullstring) && resultfullstring.Length == BlockSize(strings)
      invariant resultfullstring[..] == Image(host, base, strings, setptrindex)
    {
      ImageStep(host, base, strings, setptrindex);
      NextOffset(strings, setptrindex);
      var sptr := base + setstrindex;
      Put(resultfullstring, setstrindex, strings[setptrindex] + [NUL]);
      Put(resultfullstring, 8 * setptrindex, Stored(host, sptr, 8));
      setstrindex := setstrindex + |strings[setptrindex]| + 1;
      setptrindex := setptrindex + 1;
    }
    ImageHolds(host, base, strings);
    return Ok(resultfullstring), base, count;
  }
}
