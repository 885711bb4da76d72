/** The words of an SHT_GROUP section, read without knowing their byte order. */
module GroupWords {
  import opened Words
  import opened ByteOrder


  datatype Pair = Pair(lesser: nat, greater: nat)

  function SmallerOf(a: nat, b: nat): Pair {
    if a <= b then Pair(a, b) else Pair(b, a)
  }

  function ByteSwap32(v: nat): nat {
    LittleValue(Reversed(LittleBytes(v, 4)))
  }

  /** A group entry: the smaller of the word read natively and read swapped. */
  function GroupEntry(host: Order, word: seq<byte>): (v: u64)
    requires |word| == 4
    ensures v == SmallerOf(Value(Little, word), Value(Big, word)).lesser < TWO_32
  {
    FieldLoadReadsOrder(host, false, word);
    FieldLoadReadsOrder(host, true, word);
    ValueFits(Little, word);
    ValueFits(Big, word);
    Pow256Constants();
    SmallerOf(FieldLoad(host, false, word), FieldLoad(host, true, word)).lesser
  }

  /** The leading flag word may only be 1, in either byte order. */
  predicate IsComdat(host: Order, word: seq<byte>)
    requires |word| == 4
  {
    FieldLoad(host, false, word) in {1, 0x1000000}
  }

  function WordAt(data: seq<byte>, i: nat): (word: seq<byte>)
    requires 4 * i + 4 <= |data|
    ensures |word| == 4
  {
    data[4 * i..4 * i + 4]
  }

  function Quad(b0: nat, b1: nat, b2: nat, b3: nat): nat {
    b0 + 0x100 * b1 + 0x1_0000 * b2 + 0x100_0000 * b3
  }

  lemma WordBytes(v: nat)
    requires v < TWO_32
    ensures var b := LittleBytes(v, 4);
            v == Quad(b[0], b[1], b[2], b[3]) && ByteSwap32(v) == Quad(b[3], b[2], b[1], b[0])
  {
    var b := LittleBytes(v, 4);
    var r := Reversed(b);
    Pow256Constants();
    LittleRoundTrip(v, 4);
    FourBytes(b);
    FourBytes(r);
  }

  lemma FourBytes(b: seq<byte>)
    requires |b| == 4
    ensures LittleValue(b) == Quad(b[0], b[1], b[2], b[3])
  {
    assert b[1..][1..] == b[2..] && b[2..][1..] == b[3..] && b[3..][1..] == [];
    assert LittleValue(b[3..]) == b[3];
    assert LittleValue(b[2..]) == b[2] + 0x100 * LittleValue(b[3..]);
    assert LittleValue(b[1..]) == b[1] + 0x100 * LittleValue(b[2..]);
  }

  lemma BothReadings(order: Order, v: nat)
    requires v < TWO_32
    ensures var word := Stored(order, v, 4);
            Value(order, word) == v && Value(Other(order), word) == ByteSwap32(v)
  {
    Pow256Constants();
    LittleRoundTrip(v, 4);
    ReversedTwice(LittleBytes(v, 4));
  }

  lemma SmallIndexSwapsUp(v: nat)
    requires v < 0x1_0000
    ensures v <= ByteSwap32(v)
  {
    WordBytes(v);
    var b := LittleBytes(v, 4);
    assert b[3] == 0 && b[2] == 0;
  }

  /** The guess at the byte order is right exactly for the indices no greater than their own
      byte-swapped value, and so for every section index below 65536. */
  lemma GuessIsExact(host: Order, order: Order, v: nat)
    requires v < TWO_32
    ensures GroupEntry(host, Stored(order, v, 4)) == v <==> v <= ByteSwap32(v)
    ensures v < 0x1_0000 ==> GroupEntry(host, Stored(order, v, 4)) == v
  {
    BothReadings(order, v);
    if v < 0x1_0000 {
      SmallIndexSwapsUp(v);
    }
  }

  /** The flag test accepts exactly a 1 stored in one order or the other, on any host. */
  lemma ComdatInEitherOrder(host: Order, word: seq<byte>)
    requires |word| == 4
    ensures IsComdat(host, word) <==> Value(Little, word) == 1 || Value(Big, word) == 1
  {
    hide FieldLoad, LittleValue;
    FieldLoadReadsOrder(host, false, word);
    FourBytes(word);
    FourBytes(Reversed(word));
  }
}
