/** Relocation records with addends: how the tables of an object file are decoded. */
module Relocations {
  import opened Words
  import opened Outcomes
  import opened ByteOrder

  const EM_MIPS := 8
  const EM_SPARCV9 := 43

  /** generic_rela. A fresh one is all zero. */
  datatype GenericRela = GenericRela(isrela: bool, offset: u64, info: u64, sym: u64, kind: u64, addend: int,
                                     kind2: byte, kind3: byte)

  /** What the decoding depends on: the host, the order of the file, the machine the file is for, and
      whether a plain char of the host's compiler is signed. */
  datatype Context = Context(host: Order, file: Order, machine: nat, charSigned: bool)

  function Load(c: Context, field: seq<byte>): (v: u64)
    requires |field| in {4, 8}
    ensures v == Value(c.file, field)
  {
    FieldLoadIsEndianNeutral(c.host, c.file, field);
    ValueFits(c.file, field);
    Pow256Constants();
    FieldLoad(c.host, NeedsSwap(c.host, c.file), field)
  }

  // ---------------------------------------------------------------- signed fields

  const ONES: seq<byte> := [0xff, 0xff, 0xff, 0xff]

  /** Filling the upper half of a host variable from the sign of its lower half. */
  function SignExtend(host: Order, memory: seq<byte>): (r: seq<byte>)
    requires |memory| == 8
    ensures |r| == 8
  {
    if host.Little? then (if memory[3] >= 0x80 then memory[..4] + ONES else memory)
    else (if memory[4] >= 0x80 then ONES + memory[4..] else memory)
  }

  /** The value of a 64-bit pattern as a signed variable. */
  function AsSigned(v: u64): int {
    if v >= 0x8000_0000_0000_0000 then v - 0x1_0000_0000_0000_0000 else v
  }

  function TwosComplement32(v: nat): int {
    if v >= 0x8000_0000 then v - 0x1_0000_0000 else v
  }

  function LoadSigned32(c: Context, field: seq<byte>): int
    requires |field| == 4
  {
    var memory := SignExtend(c.host, LoadMemory(c.host, NeedsSwap(c.host, c.file), field));
    ValueFits(c.host, memory);
    Pow256Constants();
    AsSigned(Value(c.host, memory))
  }

  lemma {:induction false} TopByteIsSign(bytes: seq<byte>)
    requires |bytes| == 4
    ensures bytes[3] >= 0x80 <==> LittleValue(bytes) >= 0x8000_0000
  {
    LittleValueConcat(bytes[..3], bytes[3..]);
    LittleValueFits(bytes[..3]);
    assert bytes == bytes[..3] + bytes[3..];
    assert bytes[3..][1..] == [];
    assert Pow256(3) == 0x100 * Pow256(2) == 0x1_0000 * Pow256(1) == 0x100_0000;
  }

  lemma OnesValue()
    ensures LittleValue(ONES) == 0xffff_ffff
  {
    assert ONES[1..][1..][1..][1..] == [];
    assert LittleValue(ONES[1..][1..][1..]) == 0xff;
    assert LittleValue(ONES[1..][1..]) == 0xffff;
    assert LittleValue(ONES[1..]) == 0xff_ffff;
  }

  /** Extending a 32-bit pattern of either sign. low is the pattern, least significant byte first. */
  lemma ExtendedValue(low: seq<byte>)
    requires |low| == 4
    ensures LittleValue(low + ONES) == LittleValue(low) + 0xffff_ffff_0000_0000
    ensures LittleValue(low + Zeros(4)) == LittleValue(low)
  {
    OnesValue();
    LittleValueConcat(low, ONES);
    PaddingChangesNothing(low, 4);
    Pow256Constants();
  }

  /** The sign extension, seen from the least significant byte of the host variable. */
  lemma ExtendedMemory(host: Order, copied: seq<byte>)
    requires |copied| == 4
    ensures var low := if host.Little? then copied else Reversed(copied);
            var memory := if host.Little? then copied + Zeros(4) else Zeros(4) + copied;
            Value(host, SignExtend(host, memory))
            == if low[3] >= 0x80 then LittleValue(low + ONES) else LittleValue(low + Zeros(4))
  {
    hide LittleValue;
    var memory := if host.Little? then copied + Zeros(4) else Zeros(4) + copied;
    if host.Little? {
      assert memory[..4] == copied;
    } else {
      assert memory[4..] == copied;
      ReversedConcat(Zeros(4), copied);
      ReversedConcat(ONES, copied);
      ReversedZeros(4);
      assert Reversed(ONES) == ONES;
    }
  }

  lemma ExtendedLow(low: seq<byte>)
    requires |low| == 4
    ensures var v := if low[3] >= 0x80 then LittleValue(low + ONES) else LittleValue(low + Zeros(4));
            0 <= v < 0x1_0000_0000_0000_0000 && AsSigned(v) == TwosComplement32(LittleValue(low))
  {
    TopByteIsSign(low);
    ExtendedValue(low);
    LittleValueFits(low);
    Pow256Constants();
    hide LittleValue, Pow256;
  }

  /** On either host the loaded addend is the two's complement value of the field. */
  lemma LoadSigned32IsTwosComplement(c: Context, field: seq<byte>)
    requires |field| == 4
    ensures LoadSigned32(c, field) == TwosComplement32(Value(c.file, field))
  {
    var copied := CopyBytes(NeedsSwap(c.host, c.file), field);
    var low := if c.host.Little? then copied else Reversed(copied);
    ReversedTwice(field);
    assert LittleValue(low) == Value(c.file, field);
    ExtendedMemory(c.host, copied);
    ExtendedLow(low);
    hide LittleValue, Reversed, SignExtend, Zeros, CopyBytes, TwosComplement32;
  }

  // ---------------------------------------------------------------- one record

  function DecodeRela32(c: Context, record: seq<byte>): GenericRela
    requires |record| == 12
  {
    var info := Load(c, record[4..8]);
    GenericRela(true, Load(c, record[0..4]), info, info / 0x100, info % 0x100, LoadSigned32(c, record[8..12]), 0, 0)
  }

  /** A plain char assigned to an unsigned 64-bit field. */
  function CharValue(c: Context, b: byte): u64 {
    if c.charSigned && b >= 0x80 then 0x1_0000_0000_0000_0000 - 0x100 + b else b
  }

  /** Little-endian MIPS and SPARCV9 store the symbol and the types in their own order. The SPARCV9
      branch leaves the rela flag as it was, which is clear. */
  function DecodeRela64(c: Context, record: seq<byte>): GenericRela
    requires |record| == 24
  {
    var offset := Load(c, record[0..8]);
    var infoBytes := record[8..16];
    var info := Load(c, infoBytes);
    var addend := AsSigned(Load(c, record[16..24]));
    if c.machine == EM_MIPS && c.file.Little? then
      GenericRela(true, offset, info, Load(c, infoBytes[..4]), CharValue(c, infoBytes[7]), addend,
                  infoBytes[6], infoBytes[5])
    else if c.machine == EM_SPARCV9 then
      GenericRela(false, offset, info, Load(c, infoBytes[..4]), CharValue(c, infoBytes[7]), addend, 0, 0)
    else
      GenericRela(true, offset, info, info / 0x1_0000_0000, info % 0x1_0000_0000, addend, 0, 0)
  }

  // ---------------------------------------------------------------- how records are written

  /** A relocation with its addend, as the compiler means it. */
  datatype Rela = Rela(offset: nat, sym: nat, kind: nat, addend: int)

  predicate Fits32(r: Rela) {
    r.offset < 0x1_0000_0000 && r.sym < 0x100_0000 && r.kind < 0x100 && -0x8000_0000 <= r.addend < 0x8000_0000
  }

  predicate Fits64(r: Rela) {
    && r.offset < 0x1_0000_0000_0000_0000 && r.sym < 0x1_0000_0000 && r.kind < 0x1_0000_0000
    && -0x8000_0000_0000_0000 <= r.addend < 0x8000_0000_0000_0000
  }

  function EncodeRela32(file: Order, r: Rela): (record: seq<byte>)
    ensures |record| == 12
  {
    Stored(file, r.offset, 4) + Stored(file, 0x100 * r.sym + r.kind, 4) + Stored(file, r.addend % 0x1_0000_0000, 4)
  }

  function EncodeRela64(file: Order, r: Rela): (record: seq<byte>)
    ensures |record| == 24
  {
    Stored(file, r.offset, 8) + Stored(file, 0x1_0000_0000 * r.sym + r.kind, 8)
    + Stored(file, r.addend % 0x1_0000_0000_0000_0000, 8)
  }

  /** The record layout of little-endian MIPS: symbol, special symbol, then the types backwards. */
  function EncodeMips64(r: Rela, special: byte, kind3: byte, kind2: byte): (record: seq<byte>)
    requires r.kind < 0x100
    ensures |record| == 24
  {
    Stored(Little, r.offset, 8) + (Stored(Little, r.sym, 4) + [special, kind3, kind2, r.kind])
    + Stored(Little, r.addend % 0x1_0000_0000_0000_0000, 8)
  }

  lemma DecodeParts32(c: Context, a: seq<byte>, b: seq<byte>, d: seq<byte>)
    requires |a| == |b| == |d| == 4
    ensures DecodeRela32(c, a + b + d)
            == GenericRela(true, Load(c, a), Load(c, b), Load(c, b) / 0x100, Load(c, b) % 0x100,
                           LoadSigned32(c, d), 0, 0)
  {
    hide Load, LoadSigned32;
    var record := a + b + d;
    assert record[0..4] == a && record[4..8] == b && record[8..12] == d;
  }

  lemma DecodeParts64(c: Context, a: seq<byte>, b: seq<byte>, d: seq<byte>)
    requires |a| == |b| == |d| == 8
    requires !(c.machine == EM_MIPS && c.file.Little?) && c.machine != EM_SPARCV9
    ensures DecodeRela64(c, a + b + d)
            == GenericRela(true, Load(c, a), Load(c, b), Load(c, b) / 0x1_0000_0000, Load(c, b) % 0x1_0000_0000,
                           AsSigned(Load(c, d)), 0, 0)
  {
    hide Load, AsSigned;
    var record := a + b + d;
    assert record[0..8] == a && record[8..16] == b && record[16..24] == d;
  }

  lemma DecodePartsMips(c: Context, a: seq<byte>, sym: seq<byte>, types: seq<byte>, d: seq<byte>)
    requires |a| == |d| == 8 && |sym| == |types| == 4
    requires c.machine == EM_MIPS && c.file.Little?
    ensures DecodeRela64(c, a + (sym + types) + d)
            == GenericRela(true, Load(c, a), Load(c, sym + types), Load(c, sym), CharValue(c, types[3]),
                           AsSigned(Load(c, d)), types[2], types[1])
  {
    hide Load, AsSigned, CharValue;
    var record := a + (sym + types) + d;
    assert record[0..8] == a && record[8..16] == sym + types && record[16..24] == d;
    assert (sym + types)[..4] == sym;
  }

  lemma LoadOfStored(c: Context, v: nat, n: nat)
    requires n in {4, 8} && v < Pow256(n)
    ensures Load(c, Stored(c.file, v, n)) == v
  {
    StoredRoundTrip(c.file, v, n);
    hide Stored, Value;
  }

  lemma Unpacked32(sym: nat, kind: nat)
    requires sym < 0x100_0000 && kind < 0x100
    ensures (0x100 * sym + kind) / 0x100 == sym && (0x100 * sym + kind) % 0x100 == kind
    ensures 0x100 * sym + kind < 0x1_0000_0000
  {
  }

  lemma Unpacked64(sym: nat, kind: nat)
    requires sym < 0x1_0000_0000 && kind < 0x1_0000_0000
    ensures (0x1_0000_0000 * sym + kind) / 0x1_0000_0000 == sym
    ensures (0x1_0000_0000 * sym + kind) % 0x1_0000_0000 == kind
    ensures 0x1_0000_0000 * sym + kind < 0x1_0000_0000_0000_0000
  {
  }

  lemma SignComesBack32(v: int)
    requires -0x8000_0000 <= v < 0x8000_0000
    ensures TwosComplement32(v % 0x1_0000_0000) == v
  {
  }

  lemma SignComesBack64(v: int)
    requires -0x8000_0000_0000_0000 <= v < 0x8000_0000_0000_0000
    ensures AsSigned(v % 0x1_0000_0000_0000_0000) == v
  {
  }

  lemma Rela32RoundTrip(c: Context, r: Rela)
    requires Fits32(r)
    ensures DecodeRela32(c, EncodeRela32(c.file, r))
            == GenericRela(true, r.offset, 0x100 * r.sym + r.kind, r.sym, r.kind, r.addend, 0, 0)
  {
    hide Stored, LittleBytes, Value, LoadSigned32, Load, DecodeRela32, Pow256, TwosComplement32;
    var info, addend := 0x100 * r.sym + r.kind, r.addend % 0x1_0000_0000;
    Pow256Constants();
    Unpacked32(r.sym, r.kind);
    SignComesBack32(r.addend);
    LoadOfStored(c, r.offset, 4);
    LoadOfStored(c, info, 4);
    StoredRoundTrip(c.file, addend, 4);
    LoadSigned32IsTwosComplement(c, Stored(c.file, addend, 4));
    DecodeParts32(c, Stored(c.file, r.offset, 4), Stored(c.file, info, 4), Stored(c.file, addend, 4));
  }

  /** For every machine but the two with layouts of their own. */
  lemma Rela64RoundTrip(c: Context, r: Rela)
    requires Fits64(r)
    requires !(c.machine == 8 && c.file.Little?) && c.machine != 43
    ensures DecodeRela64(c, EncodeRela64(c.file, r))
            == GenericRela(true, r.offset, 0x1_0000_0000 * r.sym + r.kind, r.sym, r.kind, r.addend, 0, 0)
  {
    hide Stored, LittleBytes, Value, Load, DecodeRela64, Pow256, AsSigned;
    var info, addend := 0x1_0000_0000 * r.sym + r.kind, r.addend % 0x1_0000_0000_0000_0000;
    Pow256Constants();
    Unpacked64(r.sym, r.kind);
    SignComesBack64(r.addend);
    LoadOfStored(c, r.offset, 8);
    LoadOfStored(c, info, 8);
    LoadOfStored(c, addend, 8);
    DecodeParts64(c, Stored(c.file, r.offset, 8), Stored(c.file, info, 8), Stored(c.file, addend, 8));
  }

  /** On little-endian MIPS everything comes back but possibly the first type: that is right exactly
      when it is below 128 or plain chars are unsigned. */
  lemma Mips64RoundTrip(c: Context, r: Rela, special: byte, kind3: byte, kind2: byte)
    requires Fits64(r) && r.kind < 0x100
    requires c.machine == 8 && c.file.Little?
    ensures var d := DecodeRela64(c, EncodeMips64(r, special, kind3, kind2));
            && d.isrela && d.offset == r.offset && d.sym == r.sym && d.addend == r.addend
            && d.kind2 == kind2 && d.kind3 == kind3
            && (d.kind == r.kind <==> r.kind < 0x80 || !c.charSigned)
  {
    hide Stored, LittleBytes, Value, Load, DecodeRela64, Pow256, AsSigned;
    Pow256Constants();
    var addend := r.addend % 0x1_0000_0000_0000_0000;
    SignComesBack64(r.addend);
    LoadOfStored(c, r.offset, 8);
    LoadOfStored(c, r.sym, 4);
    LoadOfStored(c, addend, 8);
    DecodePartsMips(c, Stored(Little, r.offset, 8), Stored(Little, r.sym, 4), [special, kind3, kind2, r.kind],
                    Stored(Little, addend, 8));
  }

  /** A SPARCV9 record has the symbol at the start of the info field and the type in its last byte. */
  function EncodeSparc64(file: Order, r: Rela, middle: seq<byte>): (record: seq<byte>)
    requires r.kind < 0x100 && |middle| == 3
    ensures |record| == 24
  {
    Stored(file, r.offset, 8) + (Stored(file, r.sym, 4) + (middle + [r.kind]))
    + Stored(file, r.addend % 0x1_0000_0000_0000_0000, 8)
  }

  lemma DecodePartsSparc(c: Context, a: seq<byte>, sym: seq<byte>, types: seq<byte>, d: seq<byte>)
    requires |a| == |d| == 8 && |sym| == |types| == 4
    requires c.machine == EM_SPARCV9
    ensures DecodeRela64(c, a + (sym + types) + d)
            == GenericRela(false, Load(c, a), Load(c, sym + types), Load(c, sym), CharValue(c, types[3]),
                           AsSigned(Load(c, d)), 0, 0)
  {
    hide Load, AsSigned, CharValue;
    var record := a + (sym + types) + d;
    assert record[0..8] == a && record[8..16] == sym + types && record[16..24] == d;
    assert (sym + types)[..4] == sym;
  }

  /** There, in either byte order, everything comes back but the flag that the entry has an addend, which stays
      clear, and a type of 128 or more where plain chars are signed. */
  lemma Sparc64RoundTrip(c: Context, r: Rela, middle: seq<byte>)
    requires Fits64(r) && r.kind < 0x100 && |middle| == 3
    requires c.machine == 43
    ensures var d := DecodeRela64(c, EncodeSparc64(c.file, r, middle));
            && !d.isrela && d.offset == r.offset && d.sym == r.sym && d.addend == r.addend
            && d.kind2 == 0 && d.kind3 == 0
            && (d.kind == r.kind <==> r.kind < 0x80 || !c.charSigned)
  {
    hide Stored, LittleBytes, Value, Load, DecodeRela64, Pow256, AsSigned;
    Pow256Constants();
    var addend := r.addend % 0x1_0000_0000_0000_0000;
    SignComesBack64(r.addend);
    LoadOfStored(c, r.offset, 8);
    LoadOfStored(c, r.sym, 4);
    LoadOfStored(c, addend, 8);
    DecodePartsSparc(c, Stored(c.file, r.offset, 8), Stored(c.file, r.sym, 4), middle + [r.kind],
                     Stored(c.file, addend, 8));
  }

  // ---------------------------------------------------------------- tables

  function Record32(data: seq<byte>, i: nat): (r: seq<byte>)
    requires 12 * i + 12 <= |data|
    ensures |r| == 12
  {
    data[12 * i..12 * i + 12]
  }

  function Record64(data: seq<byte>, i: nat): (r: seq<byte>)
    requires 24 * i + 24 <= |data|
    ensures |r| == 24
  {
    data[24 * i..24 * i + 24]
  }

  function EncodeTable32(file: Order, table: seq<Rela>): (data: seq<byte>)
    ensures |data| == 12 * |table|
  {
    if table == [] then [] else EncodeTable32(file, table[..|table| - 1]) + EncodeRela32(file, table[|table| - 1])
  }

  function EncodeTable64(file: Order, table: seq<Rela>): (data: seq<byte>)
    ensures |data| == 24 * |table|
  {
    if table == [] then [] else EncodeTable64(file, table[..|table| - 1]) + EncodeRela64(file, table[|table| - 1])
  }

  lemma {:induction false} RecordOfTable32(file: Order, table: seq<Rela>, i: nat)
    requires i < |table|
    ensures Record32(EncodeTable32(file, table), i) == EncodeRela32(file, table[i])
  {
    hide EncodeRela32;
    var front, data := EncodeTable32(file, table[..|table| - 1]), EncodeTable32(file, table);
    if i == |table| - 1 {
      assert Record32(data, i) == EncodeRela32(file, table[i]);
    } else {
      RecordOfTable32(file, table[..|table| - 1], i);
      assert Record32(data, i) == Record32(front, i);
    }
  }

  lemma {:induction false} RecordOfTable64(file: Order, table: seq<Rela>, i: nat)
    requires i < |table|
    ensures Record64(EncodeTable64(file, table), i) == EncodeRela64(file, table[i])
  {
    hide EncodeRela64;
    var front, data := EncodeTable64(file, table[..|table| - 1]), EncodeTable64(file, table);
    if i == |table| - 1 {
      assert Record64(data, i) == EncodeRela64(file, table[i]);
    } else {
      RecordOfTable64(file, table[..|table| - 1], i);
      assert Record64(data, i) == Record64(front, i);
    }
  }

  method DecodeAll32(c: Context, relp: seq<byte>, ecount: nat, grel: array<GenericRela>)
    requires 12 * ecount <= |relp| && ecount <= grel.Length
    modifies grel
    ensures forall i | 0 <= i < ecount :: grel[i] == DecodeRela32(c, Record32(relp, i))
    ensures grel[ecount..] == old(grel[ecount..])
  {
    hide DecodeRela32, Record32;
    for i := 0 to ecount
      invariant forall k | 0 <= k < i :: grel[k] == DecodeRela32(c, Record32(relp, k))
      invariant grel[ecount..] == old(grel[ecount..])
    {
      grel[i] := DecodeRela32(c, Record32(relp, i));
    }
  }

  /** Decodes a table of 32-bit records; the section has to be made of whole records and be smaller
      than the file. */
  method GenericRelFromRela32(c: Context, filesize: u64, relp: seq<byte>, grel: array<GenericRela>)
    returns (r: Result<()>)
    requires |relp| < TWO_64 && |relp| / 12 <= grel.Length
    modifies grel
    ensures r.Ok? <==> |relp| % 12 == 0 && |relp| < filesize
    ensures !r.Ok? ==> r == Failed(RelSectionSize) && grel[..] == old(grel[..])
    ensures r.Ok? ==> forall i | 0 <= i < |relp| / 12 :: grel[i] == DecodeRela32(c, Record32(relp, i))
    ensures grel[|relp| / 12..] == old(grel[|relp| / 12..])
  {
    hide DecodeRela32, Record32;
    var size := |relp|;
    var ecount := size / 12;
    var size2 := ecount * 12;
    if size != size2 {
      return Failed(RelSectionSize);
    }
    if size >= filesize {
      return Failed(RelSectionSize);
    }
    DecodeAll32(c, relp, ecount, grel);
    return Ok(());
  }

  method DecodeAll64(c: Context, relp: seq<byte>, ecount: nat, grel: array<GenericRela>)
    requires 24 * ecount <= |relp| && ecount <= grel.Length
    modifies grel
    ensures forall i | 0 <= i < ecount :: grel[i] == DecodeRela64(c, Record64(relp, i))
    ensures grel[ecount..] == old(grel[ecount..])
  {
    hide DecodeRela64, Record64;
    for i := 0 to ecount
      invariant forall k | 0 <= k < i :: grel[k] == DecodeRela64(c, Record64(relp, k))
      invariant grel[ecount..] == old(grel[ecount..])
    {
      grel[i] := DecodeRela64(c, Record64(relp, i));
    }
  }

  method GenericRelFromRela64(c: Context, filesize: u64, relp: seq<byte>, grel: array<GenericRela>)
    returns (r: Result<()>)
    requires |relp| < TWO_64 && |relp| / 24 <= grel.Length
    modifies grel
    ensures r.Ok? <==> |relp| % 24 == 0 && |relp| < filesize
    ensures !r.Ok? ==> r == Failed(RelSectionSize) && grel[..] == old(grel[..])
    ensures r.Ok? ==> forall i | 0 <= i < |relp| / 24 :: grel[i] == DecodeRela64(c, Record64(relp, i))
    ensures grel[|relp| / 24..] == old(grel[|relp| / 24..])
  {
    hide DecodeRela64, Record64;
    var size := |relp|;
    var ecount := size / 24;
    var size2 := ecount * 24;
    if size != size2 {
      return Failed(RelSectionSize);
    }
    if size >= filesize {
      return Failed(RelSectionSize);
    }
    DecodeAll64(c, relp, ecount, grel);
    return Ok(());
  }

  /** Entry i of an encoded 32-bit table decodes to entry i, on any host and in either byte order. */
  lemma Table32RoundTrip(c: Context, table: seq<Rela>, i: nat)
    requires i < |table| && Fits32(table[i])
    ensures var d := DecodeRela32(c, Record32(EncodeTable32(c.file, table), i));
            && d.isrela && d.offset == table[i].offset && d.sym == table[i].sym
            && d.kind == table[i].kind && d.addend == table[i].addend
  {
    RecordOfTable32(c.file, table, i);
    Rela32RoundTrip(c, table[i]);
  }

  lemma Table64RoundTrip(c: Context, table: seq<Rela>, i: nat)
    requires i < |table| && Fits64(table[i])
    requires !(c.machine == EM_MIPS && c.file.Little?) && c.machine != EM_SPARCV9
    ensures var d := DecodeRela64(c, Record64(EncodeTable64(c.file, table), i));
            && d.isrela && d.offset == table[i].offset && d.sym == table[i].sym
            && d.kind == table[i].kind && d.addend == table[i].addend
  {
    RecordOfTable64(c.file, table, i);
    Rela64RoundTrip(c, table[i]);
  }
}
