/** Writing Mach-O records: what a linker puts in the file, and that the reader gets it back. */
module MachoLayout {
  import opened Words
  import opened FileAccess
  import opened StringBuffer
  import opened ByteOrder
  import opened PathBlock
  import opened MachoRecords
  import opened MachoTables

  /** A record is a list of sixteen-byte names and of numbers of four or eight bytes. */
  datatype Field = Name(text: seq<byte>) | Number(value: nat, width: nat)
  {
    predicate Fits() {
      match this
      case Name(text) => |text| <= 16 && NUL !in text
      case Number(value, width) => (width == 4 && value < TWO_32) || (width == 8 && value < TWO_64)
    }

    function Size(): nat {
      if Name? then 16 else width
    }

    function Bytes(order: Order): (b: seq<byte>)
      requires Fits()
      ensures |b| == Size()
    {
      match this
      case Name(text) => text + Zeros(16 - |text|)
      case Number(value, width) => Stored(order, value, width)
    }
  }

  predicate AllFit(fields: seq<Field>) {
    forall i | 0 <= i < |fields| :: fields[i].Fits()
  }

  /** Where field i starts. */
  function At(fields: seq<Field>, i: nat): nat
    requires i <= |fields|
  {
    if i == 0 then 0 else At(fields, i - 1) + fields[i - 1].Size()
  }

  function Written(order: Order, fields: seq<Field>, n: nat): (b: seq<byte>)
    requires n <= |fields| && AllFit(fields)
    ensures |b| == At(fields, n)
  {
    if n == 0 then [] else Written(order, fields, n - 1) + fields[n - 1].Bytes(order)
  }

  lemma {:induction false} FieldInPlace(order: Order, fields: seq<Field>, i: nat, n: nat)
    requires i < n <= |fields| && AllFit(fields)
    ensures At(fields, i) + fields[i].Size() <= At(fields, n)
    ensures Written(order, fields, n)[At(fields, i)..At(fields, i) + fields[i].Size()] == fields[i].Bytes(order)
  {
    hide Field.Bytes, Field.Size, Field.Fits;
    if i < n - 1 {
      FieldInPlace(order, fields, i, n - 1);
      var front, last := Written(order, fields, n - 1), fields[n - 1].Bytes(order);
      assert (front + last)[At(fields, i)..At(fields, i) + fields[i].Size()]
          == front[At(fields, i)..At(fields, i) + fields[i].Size()];
    }
  }

  /** A number comes back whatever the host. */
  lemma NumberComesBack(obj: ObjectFile, fields: seq<Field>, i: nat)
    requires i < |fields| && AllFit(fields) && fields[i].Number?
    ensures At(fields, i) + fields[i].width <= At(fields, |fields|) && fields[i].width in {4, 8}
    ensures obj.Word(Written(obj.order, fields, |fields|), At(fields, i), fields[i].width) == fields[i].value
  {
    hide Written, At, Stored, Value, FieldLoad, Pow256, NeedsSwap;
    FieldInPlace(obj.order, fields, i, |fields|);
    Pow256Constants();
    StoredRoundTrip(obj.order, fields[i].value, fields[i].width);
    FieldLoadIsEndianNeutral(obj.host, obj.order, Stored(obj.order, fields[i].value, fields[i].width));
  }

  lemma NameComesBack(order: Order, fields: seq<Field>, i: nat)
    requires i < |fields| && AllFit(fields) && fields[i].Name?
    ensures At(fields, i) + 16 <= At(fields, |fields|)
    ensures CString(Written(order, fields, |fields|)[At(fields, i)..At(fields, i) + 16], 0) == fields[i].text
  {
    hide Written, At, CString, Zeros;
    FieldInPlace(order, fields, i, |fields|);
    PaddedReadsBack(fields[i].text);
  }

  lemma PaddedReadsBack(text: seq<byte>)
    requires |text| <= 16 && NUL !in text
    ensures CString(text + Zeros(16 - |text|), 0) == text
  {
    if |text| < 16 {
      CStringReads(text + Zeros(16 - |text|), 0, text);
    } else {
      assert text + Zeros(0) == text;
      WholeString(text, 0);
    }
  }

  lemma {:induction false} WholeString(text: seq<byte>, at: nat)
    requires at <= |text| && NUL !in text
    ensures CString(text, at) == text[at..]
    decreases |text| - at
  {
    if at < |text| {
      WholeString(text, at + 1);
    }
  }

  // ---------------------------------------------------------------- the records

  /** struct section and struct section_64. */
  function SectionFields(wide: bool, s: Section, reserved: nat): (fields: seq<Field>)
    ensures |fields| == if wide then 12 else 11
  {
    var w := if wide then 8 else 4;
    [Name(s.sectname), Name(s.segname), Number(s.addr, w), Number(s.size, w), Number(s.offset, 4), Number(s.align, 4),
     Number(s.reloff, 4), Number(s.nreloc, 4), Number(s.flags, 4), Number(reserved, 4), Number(reserved, 4)]
    + if wide then [Number(reserved, 4)] else []
  }

  /** struct segment_command and struct segment_command_64. */
  function SegmentFields(wide: bool, s: Segment): (fields: seq<Field>)
    ensures |fields| == 11
  {
    var w := if wide then 8 else 4;
    [Number(s.cmd, 4), Number(s.cmdsize, 4), Name(s.segname), Number(s.vmaddr, w), Number(s.vmsize, w),
     Number(s.fileoff, w), Number(s.filesize, w), Number(s.maxprot, 4), Number(s.initprot, 4), Number(s.nsects, 4),
     Number(s.flags, 4)]
  }

  lemma AtNext(fields: seq<Field>, i: nat)
    requires i < |fields|
    ensures At(fields, i + 1) == At(fields, i) + fields[i].Size()
    ensures At(fields, 0) == 0
  {
  }

  lemma SectionOffsets(wide: bool, s: Section, reserved: nat)
    ensures var f, w := SectionFields(wide, s, reserved), if wide then 8 else 4;
            && At(f, 0) == 0 && At(f, 1) == 16 && At(f, 2) == 32 && At(f, 3) == 32 + w
            && At(f, 4) == 32 + 2 * w && At(f, 5) == 36 + 2 * w && At(f, 6) == 40 + 2 * w
            && At(f, 7) == 44 + 2 * w && At(f, 8) == 48 + 2 * w
            && At(f, |f|) == if wide then 80 else 68
  {
    var f := SectionFields(wide, s, reserved);
    AtNext(f, 0); AtNext(f, 1); AtNext(f, 2); AtNext(f, 3); AtNext(f, 4); AtNext(f, 5);
    AtNext(f, 6); AtNext(f, 7); AtNext(f, 8); AtNext(f, 9); AtNext(f, 10);
    if wide {
      AtNext(f, 11);
    }
    hide At;
  }

  lemma SegmentOffsets(wide: bool, s: Segment)
    ensures var f, w := SegmentFields(wide, s), if wide then 8 else 4;
            && At(f, 0) == 0 && At(f, 1) == 4 && At(f, 2) == 8 && At(f, 3) == 24 && At(f, 4) == 24 + w
            && At(f, 5) == 24 + 2 * w && At(f, 6) == 24 + 3 * w && At(f, 7) == 24 + 4 * w
            && At(f, 8) == 28 + 4 * w && At(f, 9) == 32 + 4 * w && At(f, 10) == 36 + 4 * w
            && At(f, 11) == if wide then 72 else 56
  {
    var f := SegmentFields(wide, s);
    AtNext(f, 0); AtNext(f, 1); AtNext(f, 2); AtNext(f, 3); AtNext(f, 4); AtNext(f, 5);
    AtNext(f, 6); AtNext(f, 7); AtNext(f, 8); AtNext(f, 9); AtNext(f, 10);
    hide At;
  }

  lemma SectionFieldsAre(wide: bool, s: Section, reserved: nat)
    ensures var f, w := SectionFields(wide, s, reserved), if wide then 8 else 4;
            && f[0] == Name(s.sectname) && f[1] == Name(s.segname) && f[2] == Number(s.addr, w)
            && f[3] == Number(s.size, w) && f[4] == Number(s.offset, 4) && f[5] == Number(s.align, 4)
            && f[6] == Number(s.reloff, 4) && f[7] == Number(s.nreloc, 4) && f[8] == Number(s.flags, 4)
  {
  }

  lemma SegmentFieldsAre(wide: bool, s: Segment)
    ensures var f, w := SegmentFields(wide, s), if wide then 8 else 4;
            && f[0] == Number(s.cmd, 4) && f[1] == Number(s.cmdsize, 4) && f[2] == Name(s.segname)
            && f[3] == Number(s.vmaddr, w) && f[4] == Number(s.vmsize, w) && f[5] == Number(s.fileoff, w)
            && f[6] == Number(s.filesize, w) && f[7] == Number(s.maxprot, 4) && f[8] == Number(s.initprot, 4)
            && f[9] == Number(s.nsects, 4) && f[10] == Number(s.flags, 4)
  {
  }

  /** A section record in the file is read as the section it was written for. */
  lemma SectionRoundTrip(obj: ObjectFile, off: u64, s: Section, reserved: nat)
    requires AllFit(SectionFields(obj.Wide(), s, reserved)) && s.offsetOfRecord == off
    requires var f := SectionFields(obj.Wide(), s, reserved);
             obj.Peek(off, obj.SectionRecordSize()) == Written(obj.order, f, |f|)
    ensures obj.SectionAt(off, s.segmentNum) == s
  {
    hide SectionFields, At, Written, CString, ObjectFile.Word, ObjectFile.Peek, AllFit;
    var f := SectionFields(obj.Wide(), s, reserved);
    SectionOffsets(obj.Wide(), s, reserved);
    SectionFieldsAre(obj.Wide(), s, reserved);
    NameComesBack(obj.order, f, 0);
    NameComesBack(obj.order, f, 1);
    NumberComesBack(obj, f, 2);
    NumberComesBack(obj, f, 3);
    NumberComesBack(obj, f, 4);
    NumberComesBack(obj, f, 5);
    NumberComesBack(obj, f, 6);
    NumberComesBack(obj, f, 7);
    NumberComesBack(obj, f, 8);
  }

  /** struct load_command. */
  function CommandFields(cmd: nat, cmdsize: nat): (fields: seq<Field>)
    ensures |fields| == 2
  {
    [Number(cmd, 4), Number(cmdsize, 4)]
  }

  lemma CommandOffsets(cmd: nat, cmdsize: nat)
    ensures var f := CommandFields(cmd, cmdsize);
            && At(f, 0) == 0 && At(f, 1) == 4 && At(f, 2) == 8
            && f[0] == Number(cmd, 4) && f[1] == Number(cmdsize, 4)
  {
    var f := CommandFields(cmd, cmdsize);
    AtNext(f, 0);
    AtNext(f, 1);
    hide At;
  }

  /** A load command in the file is read as the number and size it was written with. */
  lemma CommandRoundTrip(obj: ObjectFile, off: u64, cmd: nat, cmdsize: nat)
    requires AllFit(CommandFields(cmd, cmdsize))
    requires obj.Peek(off, 8) == Written(obj.order, CommandFields(cmd, cmdsize), 2)
    ensures obj.CommandAt(off) == Command(cmd, cmdsize, off)
  {
    hide CommandFields, At, Written, ObjectFile.Word, ObjectFile.Peek, AllFit;
    CommandOffsets(cmd, cmdsize);
    NumberComesBack(obj, CommandFields(cmd, cmdsize), 0);
    NumberComesBack(obj, CommandFields(cmd, cmdsize), 1);
  }

  lemma SegmentRoundTrip(obj: ObjectFile, wide: bool, off: u64, s: Segment)
    requires AllFit(SegmentFields(wide, s)) && s.sectionsoffset == Wrap(off + obj.SegmentRecordSize(wide))
    requires obj.Peek(off, obj.SegmentRecordSize(wide)) == Written(obj.order, SegmentFields(wide, s), 11)
    ensures obj.SegmentAt(wide, off, s.commandIndex) == s
  {
    hide SegmentFields, At, Written, CString, ObjectFile.Word, ObjectFile.Peek, AllFit;
    var f := SegmentFields(wide, s);
    SegmentOffsets(wide, s);
    SegmentFieldsAre(wide, s);
    NumberComesBack(obj, f, 0);
    NumberComesBack(obj, f, 1);
    NameComesBack(obj.order, f, 2);
    NumberComesBack(obj, f, 3);
    NumberComesBack(obj, f, 4);
    NumberComesBack(obj, f, 5);
    NumberComesBack(obj, f, 6);
    NumberComesBack(obj, f, 7);
    NumberComesBack(obj, f, 8);
    NumberComesBack(obj, f, 9);
    NumberComesBack(obj, f, 10);
  }

  // ---------------------------------------------------------------- where a record is looked for

  lemma SumFits(x: u64, y: u64)
    ensures x + y < TWO_64 ==> Wrap(x + y) == x + y
  {
  }

  /** Reads are made in the part of the file the object occupies, and of nothing beyond its end. */
  lemma ReadIsInsideObject(obj: ObjectFile, off: u64, n: u64)
    requires obj.inner + obj.filesize <= |obj.bytes| && obj.inner + obj.filesize < TWO_63
    requires off < TWO_63 && n < TWO_63
    ensures obj.Read(off, n).Ok? <==> off < obj.filesize && off + n <= obj.filesize
    ensures off + n <= obj.filesize ==> obj.Peek(off, n) == obj.bytes[obj.inner + off..obj.inner + off + n]
  {
    hide ReadRandom;
    SumFits(obj.inner, off);
    SumFits(obj.inner, obj.filesize);
  }

  lemma PeekIs(obj: ObjectFile, off: u64, n: u64)
    requires obj.inner + off + n <= |obj.bytes| < TWO_63
    ensures obj.Peek(off, n) == obj.bytes[obj.inner + off..obj.inner + off + n]
  {
    SumFits(obj.inner, off);
    hide Wrap;
  }

  /** The file holds some fields at an offset of the object. */
  ghost predicate HasFields(obj: ObjectFile, off: nat, fields: seq<Field>) {
    && AllFit(fields)
    && obj.inner + off + At(fields, |fields|) <= |obj.bytes| < TWO_63
    && obj.bytes[obj.inner + off..obj.inner + off + At(fields, |fields|)] == Written(obj.order, fields, |fields|)
  }

  lemma PeekFields(obj: ObjectFile, off: nat, fields: seq<Field>)
    requires HasFields(obj, off, fields)
    ensures off < TWO_63 && At(fields, |fields|) < TWO_63
    ensures obj.Peek(off, At(fields, |fields|)) == Written(obj.order, fields, |fields|)
  {
    hide Written, At, AllFit, ObjectFile.Peek;
    PeekIs(obj, off, At(fields, |fields|));
  }

  lemma FirstEight<T>(b: seq<T>, c: seq<T>)
    requires |b| >= 8 && |c| == 8 && b[0..4] == c[0..4] && b[4..8] == c[4..8]
    ensures b[..8] == c
  {
    assert b[..8] == b[0..4] + b[4..8] && c == c[0..4] + c[4..8];
  }

  lemma FirstTwoFit(f: seq<Field>, g: seq<Field>)
    requires AllFit(f) && |f| >= 2 && |g| == 2 && g[0] == f[0] && g[1] == f[1]
    ensures AllFit(g)
  {
    hide Field.Fits;
  }

  lemma FirstTwoInPlace(order: Order, f: seq<Field>, n: nat)
    requires 2 <= n == |f| && AllFit(f)
    requires At(f, 0) == 0 && At(f, 1) == 4 && At(f, 2) == 8
    ensures |Written(order, f, n)| == At(f, n) >= 8
    ensures Written(order, f, n)[0..4] == f[0].Bytes(order) && Written(order, f, n)[4..8] == f[1].Bytes(order)
  {
    AtNext(f, 0);
    AtNext(f, 1);
    hide At, Written, Field.Bytes, Field.Size;
    FieldInPlace(order, f, 0, n);
    FieldInPlace(order, f, 1, n);
  }

  /** A segment command starts like any load command. */
  lemma SegmentStartsAsCommand(order: Order, wide: bool, s: Segment)
    requires AllFit(SegmentFields(wide, s))
    ensures |Written(order, SegmentFields(wide, s), 11)| >= 8 && AllFit(CommandFields(s.cmd, s.cmdsize))
    ensures Written(order, SegmentFields(wide, s), 11)[..8] == Written(order, CommandFields(s.cmd, s.cmdsize), 2)
  {
    hide *;
    var f, g := SegmentFields(wide, s), CommandFields(s.cmd, s.cmdsize);
    SegmentOffsets(wide, s);
    SegmentFieldsAre(wide, s);
    CommandOffsets(s.cmd, s.cmdsize);
    FirstTwoFit(f, g);
    FirstTwoInPlace(order, f, 11);
    FirstTwoInPlace(order, g, 2);
    FirstEight(Written(order, f, 11), Written(order, g, 2));
  }

  /** A segment command in the file is read, by the walk, as a command of its number and size that stands for a
      segment, and by the loader as the segment it was written for. */
  lemma SegmentCommandIsRead(obj: ObjectFile, cmds: seq<Command>, i: nat, wide: bool, off: u64, s: Segment)
    requires i < |cmds| && cmds[i] == obj.CommandAt(off)
    requires HasFields(obj, off, SegmentFields(wide, s)) && s.cmd == (if wide then 0x19 else 1)
    requires s.commandIndex == i && s.sectionsoffset == off + (if wide then 72 else 56)
    ensures cmds[i] == Command(s.cmd, s.cmdsize, off)
    ensures IsSegment(cmds[i]) && SegmentOf(obj, cmds, i) == s
  {
    hide SegmentFields, Written, At, AllFit, ObjectFile.SegmentAt, ObjectFile.CommandAt;
    SegmentOffsets(wide, s);
    PeekFields(obj, off, SegmentFields(wide, s));
    SegmentStartsAsCommand(obj.order, wide, s);
    assert obj.Peek(off, 8) == obj.Peek(off, obj.SegmentRecordSize(wide))[..8];
    CommandRoundTrip(obj, off, s.cmd, s.cmdsize);
    SegmentRoundTrip(obj, wide, off, s);
  }

  /** Any other number stands for no segment. */
  lemma OtherCommandIsRead(obj: ObjectFile, off: u64, cmd: nat, cmdsize: nat)
    requires HasFields(obj, off, CommandFields(cmd, cmdsize))
    ensures obj.CommandAt(off) == Command(cmd, cmdsize, off)
    ensures IsSegment(obj.CommandAt(off)) <==> cmd == 1 || cmd == 0x19
  {
    CommandOffsets(cmd, cmdsize);
    PeekFields(obj, off, CommandFields(cmd, cmdsize));
    CommandRoundTrip(obj, off, cmd, cmdsize);
    hide CommandFields, Written, At, AllFit, ObjectFile.CommandAt;
  }
}
