/** Multi-byte fields: byte order of file and host, byte reversal, and the field load that hides
    both. */
module ByteOrder {
  import opened Words

  datatype Order = Little | Big

  function Other(o: Order): Order {
    if o.Little? then Big else Little
  }

  function LittleValue(bytes: seq<byte>): nat {
    if bytes == [] then 0 else bytes[0] + 0x100 * LittleValue(bytes[1..])
  }

  function Reversed<T>(s: seq<T>): (r: seq<T>)
    ensures |r| == |s|
    ensures forall i | 0 <= i < |s| :: r[i] == s[|s| - 1 - i]
  {
    if s == [] then [] else Reversed(s[1..]) + [s[0]]
  }

  /** The unsigned value of a field stored in the given order. */
  function Value(o: Order, bytes: seq<byte>): nat {
    if o.Little? then LittleValue(bytes) else LittleValue(Reversed(bytes))
  }

  lemma ReversedConcat<T>(a: seq<T>, b: seq<T>)
    ensures Reversed(a + b) == Reversed(b) + Reversed(a)
  {
  }

  /** What the orders mean: the first byte is the least significant in one, the last byte in the other. */
  lemma ValueByteByByte(bytes: seq<byte>, b: byte)
    ensures Value(Little, [b] + bytes) == b + 0x100 * Value(Little, bytes)
    ensures Value(Big, bytes + [b]) == b + 0x100 * Value(Big, bytes)
    ensures Value(Little, []) == 0 && Value(Big, []) == 0
  {
    ReversedConcat(bytes, [b]);
    assert Reversed(bytes + [b]) == [b] + Reversed(bytes);
    assert ([b] + bytes)[1..] == bytes && ([b] + Reversed(bytes))[1..] == Reversed(bytes);
  }

  function LittleBytes(v: nat, n: nat): (bytes: seq<byte>)
    ensures |bytes| == n
  {
    if n == 0 then [] else [v % 0x100] + LittleBytes(v / 0x100, n - 1)
  }

  /** How v is stored in a field of n bytes. */
  function Stored(o: Order, v: nat, n: nat): (bytes: seq<byte>)
    ensures |bytes| == n
  {
    if o.Little? then LittleBytes(v, n) else Reversed(LittleBytes(v, n))
  }

  function Pow256(n: nat): nat {
    if n == 0 then 1 else 0x100 * Pow256(n - 1)
  }

  lemma {:induction false} LittleValueFits(bytes: seq<byte>)
    ensures LittleValue(bytes) < Pow256(|bytes|)
  {
    if bytes != [] {
      LittleValueFits(bytes[1..]);
    }
  }

  lemma ValueFits(o: Order, bytes: seq<byte>)
    ensures Value(o, bytes) < Pow256(|bytes|)
  {
    LittleValueFits(bytes);
    LittleValueFits(Reversed(bytes));
  }

  lemma {:induction false} LittleRoundTrip(v: nat, n: nat)
    requires v < Pow256(n)
    ensures LittleValue(LittleBytes(v, n)) == v
  {
    if n > 0 {
      LittleRoundTrip(v / 0x100, n - 1);
      assert LittleBytes(v, n)[1..] == LittleBytes(v / 0x100, n - 1);
    }
  }

  lemma ReversedTwice<T>(s: seq<T>)
    ensures Reversed(Reversed(s)) == s
  {
  }

  /** A value stored in a field in some order reads back in that order. */
  lemma StoredRoundTrip(o: Order, v: nat, n: nat)
    requires v < Pow256(n)
    ensures Value(o, Stored(o, v, n)) == v
  {
    LittleRoundTrip(v, n);
    ReversedTwice(LittleBytes(v, n));
  }

  lemma LittleValueStep(bytes: seq<byte>, b: seq<byte>)
    requires bytes != []
    ensures LittleValue(bytes) == bytes[0] + 0x100 * LittleValue(bytes[1..])
    ensures LittleValue(bytes + b) == bytes[0] + 0x100 * LittleValue(bytes[1..] + b)
    ensures Pow256(|bytes|) == 0x100 * Pow256(|bytes[1..]|)
  {
    assert (bytes + b)[1..] == bytes[1..] + b;
  }

  lemma ScaleBy256(p: nat, x: nat)
    ensures 0x100 * p * x == 0x100 * (p * x)
  {
  }

  lemma {:induction false} LittleValueConcat(a: seq<byte>, b: seq<byte>)
    ensures LittleValue(a + b) == LittleValue(a) + Pow256(|a|) * LittleValue(b)
  {
    if a == [] {
      assert a + b == b;
    } else {
      LittleValueStep(a, b);
      hide LittleValue, Pow256;
      LittleValueConcat(a[1..], b);
      ScaleBy256(Pow256(|a[1..]|), LittleValue(b));
    }
  }

  lemma {:induction false} LittleValueOfZeros(n: nat)
    ensures LittleValue(Zeros(n)) == 0
  {
    if n > 0 {
      LittleValueOfZeros(n - 1);
      assert Zeros(n)[1..] == Zeros(n - 1);
    }
  }

  function Zeros(n: nat): (z: seq<byte>)
    ensures |z| == n && forall i | 0 <= i < n :: z[i] == 0
  {
    seq(n, i => 0)
  }

  // ---------------------------------------------------------------- copying

  /** memcpy, or its byte-swapping twin; only the lengths 2, 4 and 8 are swapped. */
  function CopyBytes(swap: bool, source: seq<byte>): (target: seq<byte>)
    ensures |target| == |source|
  {
    if swap && |source| in {2, 4, 8} then Reversed(source) else source
  }

  /** dwarf_ro_memcpy_swap_bytes writes exactly the reversed source over the first len bytes of the
      target when len is 2, 4 or 8, and a plain copy otherwise. */
  method MemcpySwapBytes(targ: array<byte>, at: nat, src: seq<byte>)
    requires at + |src| <= targ.Length
    modifies targ
    ensures forall i | 0 <= i < |src| ::
              targ[at + i] == if |src| in {2, 4, 8} then src[|src| - 1 - i] else src[i]
    ensures forall k | 0 <= k < targ.Length && !(at <= k < at + |src|) :: targ[k] == old(targ[k])
  {
    var len := |src|;
    if len == 4 {
      targ[at + 3], targ[at + 2], targ[at + 1], targ[at] := src[0], src[1], src[2], src[3];
    } else if len == 8 {
      targ[at + 7], targ[at + 6], targ[at + 5], targ[at + 4] := src[0], src[1], src[2], src[3];
      targ[at + 3], targ[at + 2], targ[at + 1], targ[at] := src[4], src[5], src[6], src[7];
    } else if len == 2 {
      targ[at + 1], targ[at] := src[0], src[1];
    } else {
      forall i | 0 <= i < len {
        targ[at + i] := src[i];
      }
    }
  }

  /** The eight bytes of a zeroed 64-bit variable of the host after a field of up to eight bytes was
      copied, swapped or not, to its least significant end. */
  function LoadMemory(host: Order, swap: bool, field: seq<byte>): (memory: seq<byte>)
    requires |field| <= 8
    ensures |memory| == 8
  {
    var copied := CopyBytes(swap, field);
    var pad := Zeros(8 - |field|);
    if host.Little? then copied + pad else pad + copied
  }

  /** Loading a field into a 64-bit variable. */
  function FieldLoad(host: Order, swap: bool, field: seq<byte>): (v: nat)
    requires |field| <= 8
  {
    Value(host, LoadMemory(host, swap, field))
  }

  /** When a file in the given order needs its words swapped on the host. */
  function NeedsSwap(host: Order, file: Order): bool {
    host != file
  }

  lemma ReversedZeros(n: nat)
    ensures Reversed(Zeros(n)) == Zeros(n)
  {
  }

  lemma PaddingChangesNothing(bytes: seq<byte>, n: nat)
    ensures LittleValue(bytes + Zeros(n)) == LittleValue(bytes)
  {
    LittleValueConcat(bytes, Zeros(n));
    LittleValueOfZeros(n);
  }

  /** The load is endian-neutral: without a swap it reads the field in the host's order and with a
      swap in the other order, whichever the host's order is. */
  lemma FieldLoadReadsOrder(host: Order, swap: bool, field: seq<byte>)
    requires |field| in {2, 4, 8}
    ensures FieldLoad(host, swap, field) == Value(if swap then Other(host) else host, field)
  {
    var copied := CopyBytes(swap, field);
    var n := 8 - |field|;
    ReversedTwice(field);
    if host.Little? {
      PaddingChangesNothing(copied, n);
    } else {
      ReversedConcat(Zeros(n), copied);
      ReversedZeros(n);
      PaddingChangesNothing(Reversed(copied), n);
    }
  }

  /** So a file's fields come out right on either kind of host. */
  lemma FieldLoadIsEndianNeutral(host: Order, file: Order, field: seq<byte>)
    requires |field| in {2, 4, 8}
    ensures FieldLoad(host, NeedsSwap(host, file), field) == Value(file, field)
  {
    FieldLoadReadsOrder(host, NeedsSwap(host, file), field);
  }

  lemma Pow256Constants()
    ensures Pow256(1) == 0x100
    ensures Pow256(2) == 0x1_0000
    ensures Pow256(4) == TWO_32
    ensures Pow256(8) == TWO_64
  {
    assert Pow256(3) == 0x100 * Pow256(2);
    assert Pow256(4) == 0x100 * Pow256(3);
    assert Pow256(5) == 0x100 * Pow256(4);
    assert Pow256(6) == 0x100 * Pow256(5);
    assert Pow256(7) == 0x100 * Pow256(6);
    assert Pow256(8) == 0x100 * Pow256(7);
  }
}
