/** The records of a Mach-O object: load commands, segment commands and sections, in both widths. */
module MachoRecords {
  import opened Words
  import opened Outcomes
  import opened FileAccess
  import opened StringBuffer
  import opened ByteOrder
  import opened PathBlock

  const LC_SEGMENT := 0x1
  const LC_SEGMENT_64 := 0x19

  datatype Command = Command(cmd: nat, cmdsize: nat, offset: u64)

  datatype Segment = Segment(
    cmd: nat, cmdsize: nat, segname: seq<byte>, vmaddr: nat, vmsize: nat, fileoff: nat, filesize: nat,
    maxprot: nat, initprot: nat, nsects: nat, flags: nat, commandIndex: nat, sectionsoffset: u64)

  datatype Section = Section(
    sectname: seq<byte>, segname: seq<byte>, addr: nat, size: nat, offset: nat, align: nat, reloff: nat,
    nreloc: nat, flags: nat, segmentNum: nat, offsetOfRecord: u64)

  /** What the reader knows once the header is loaded. inner is where the object starts in a universal
      binary. */
  datatype ObjectFile = ObjectFile(bytes: seq<byte>, filesize: u64, inner: u64, host: Order, order: Order,
                                   offsetsize: nat, commandCount: nat, start: u64)
  {
    predicate Sane() {
      filesize < TWO_63 && commandCount < TWO_32 && start in {28, 32}
    }

    /** A read at an offset of the inner object. */
    function Read(off: u64, n: u64): (r: Result<seq<byte>>)
      ensures !r.NoEntry?
      ensures r.Ok? ==> r.value == Peek(off, n)
    {
      ReadRandom(bytes, Wrap(inner + off), n, Wrap(inner + filesize))
    }

    /** The n bytes such a read gives when it succeeds. */
    function Peek(off: u64, n: u64): (b: seq<byte>)
      ensures |b| == n
    {
      var at := Wrap(inner + off);
      if at + n <= |bytes| then bytes[at..at + n] else Zeros(n)
    }

    function Word(b: seq<byte>, at: nat, n: nat): (v: nat)
      requires at + n <= |b| && n in {4, 8}
      ensures n == 4 ==> v < TWO_32
      ensures v < TWO_64
    {
      var field := b[at..at + n];
      FieldLoadIsEndianNeutral(host, order, field);
      ValueFits(order, field);
      Pow256Constants();
      FieldLoad(host, NeedsSwap(host, order), field)
    }

    function CommandAt(off: u64): Command {
      var b := Peek(off, 8);
      Command(Word(b, 0, 4), Word(b, 4, 4), off)
    }

    function SegmentRecordSize(wide: bool): u64 {
      if wide then 72 else 56
    }

    /** The segment command at off; wide for LC_SEGMENT_64. */
    function SegmentAt(wide: bool, off: u64, index: nat): (s: Segment)
      ensures s.nsects < TWO_32 && s.commandIndex == index
      ensures s.sectionsoffset == Wrap(off + SegmentRecordSize(wide))
    {
      var b := Peek(off, SegmentRecordSize(wide));
      if wide then
        Segment(Word(b, 0, 4), Word(b, 4, 4), CString(b[8..24], 0), Word(b, 24, 8), Word(b, 32, 8), Word(b, 40, 8),
                Word(b, 48, 8), Word(b, 56, 4), Word(b, 60, 4), Word(b, 64, 4), Word(b, 68, 4), index, Wrap(off + 72))
      else
        Segment(Word(b, 0, 4), Word(b, 4, 4), CString(b[8..24], 0), Word(b, 24, 4), Word(b, 28, 4), Word(b, 32, 4),
                Word(b, 36, 4), Word(b, 40, 4), Word(b, 44, 4), Word(b, 48, 4), Word(b, 52, 4), index, Wrap(off + 56))
    }

    predicate Wide() {
      offsetsize != 32
    }

    function SectionRecordSize(): u64 {
      if Wide() then 80 else 68
    }

    /** The section record at off, for segment segi. */
    function SectionAt(off: u64, segi: nat): (s: Section)
      ensures s.offset < TWO_32 && s.size < TWO_64 && (!Wide() ==> s.size < TWO_32)
      ensures s.segmentNum == segi && s.offsetOfRecord == off
    {
      var b := Peek(off, SectionRecordSize());
      if Wide() then
        Section(CString(b[0..16], 0), CString(b[16..32], 0), Word(b, 32, 8), Word(b, 40, 8), Word(b, 48, 4),
                Word(b, 52, 4), Word(b, 56, 4), Word(b, 60, 4), Word(b, 64, 4), segi, off)
      else
        Section(CString(b[0..16], 0), CString(b[16..32], 0), Word(b, 32, 4), Word(b, 36, 4), Word(b, 40, 4),
                Word(b, 44, 4), Word(b, 48, 4), Word(b, 52, 4), Word(b, 56, 4), segi, off)
    }
  }

  lemma SameWord(obj: ObjectFile, other: Order, b: seq<byte>, at: nat, n: nat)
    requires at + n <= |b| && n in {4, 8}
    ensures obj.(host := other).Word(b, at, n) == obj.Word(b, at, n)
  {
    FieldLoadIsEndianNeutral(obj.host, obj.order, b[at..at + n]);
    FieldLoadIsEndianNeutral(other, obj.order, b[at..at + n]);
  }

  lemma SameWords(obj: ObjectFile, other: Order, b: seq<byte>)
    ensures forall at: nat, n: nat | at + n <= |b| && n in {4, 8} ::
              obj.(host := other).Word(b, at, n) == obj.Word(b, at, n)
  {
    forall at: nat, n: nat | at + n <= |b| && n in {4, 8}
      ensures obj.(host := other).Word(b, at, n) == obj.Word(b, at, n)
    {
      SameWord(obj, other, b, at, n);
    }
    hide ObjectFile.Word;
  }

  lemma SamePeek(obj: ObjectFile, other: Order, off: u64, n: u64)
    ensures obj.(host := other).Peek(off, n) == obj.Peek(off, n)
  {
  }

  /** The host's byte order leaves no trace in what is loaded. */
  lemma CommandIsEndianNeutral(obj: ObjectFile, other: Order, off: u64)
    ensures obj.(host := other).CommandAt(off) == obj.CommandAt(off)
  {
    SamePeek(obj, other, off, 8);
    SameWords(obj, other, obj.Peek(off, 8));
    hide ObjectFile.Word, ObjectFile.Peek;
  }

  lemma SegmentIsEndianNeutral(obj: ObjectFile, other: Order, wide: bool, off: u64, i: nat)
    ensures obj.(host := other).SegmentAt(wide, off, i) == obj.SegmentAt(wide, off, i)
  {
    var size := obj.SegmentRecordSize(wide);
    SamePeek(obj, other, off, size);
    SameWords(obj, other, obj.Peek(off, size));
    hide ObjectFile.Word, ObjectFile.Peek, CString;
  }

  lemma SectionIsEndianNeutral(obj: ObjectFile, other: Order, off: u64, i: nat)
    ensures obj.(host := other).SectionAt(off, i) == obj.SectionAt(off, i)
  {
    var size := obj.SectionRecordSize();
    SamePeek(obj, other, off, size);
    SameWords(obj, other, obj.Peek(off, size));
    hide ObjectFile.Word, ObjectFile.Peek, CString;
  }

  // ---------------------------------------------------------------- names

  const DWARF_SEGMENT := Ascii("__DWARF")
  const MISSPELT := Ascii("___DWARF")

  const KNOWN_SEGMENTS: seq<seq<byte>> := [
    Ascii("__DATA"), DWARF_SEGMENT, Ascii("__ICON"), Ascii("__IMPORT"), Ascii("__LINKEDIT"),
    Ascii("__OBJC"), Ascii("__PAGEZERO"), Ascii("__TEXT"), Ascii("__UNIXSTACK"), Ascii("__DATA_CONST")]

  method IsKnownSegname(sname: seq<byte>) returns (known: bool)
    ensures known <==> sname in KNOWN_SEGMENTS
  {
    if sname == [] {
      assert forall k :: k in KNOWN_SEGMENTS ==> |k| > 0;
      return false;
    }
    var i := 0;
    while i < |KNOWN_SEGMENTS|
      invariant 0 <= i <= |KNOWN_SEGMENTS| && sname !in KNOWN_SEGMENTS[..i]
    {
      if sname == KNOWN_SEGMENTS[i] {
        return true;
      }
      i := i + 1;
    }
    return false;
  }

  predicate NotAscii(s: seq<byte>) {
    exists c :: c in s && (c < 0x20 || c > 0x7e)
  }

  lemma NotAsciiIs(s: seq<byte>)
    ensures NotAscii(s) <==> !forall i | 0 <= i < |s| :: 32 <= s[i] <= 126
  {
    assert forall i | 0 <= i < |s| :: s[i] in s;
  }

  method IsNotAscii(s: seq<byte>) returns (odd: bool)
    ensures odd <==> NotAscii(s)
    ensures odd <==> !forall i | 0 <= i < |s| :: 32 <= s[i] <= 126
  {
    NotAsciiIs(s);
    for i := 0 to |s|
      invariant !NotAscii(s[..i])
    {
      if s[i] < 0x20 || s[i] > 0x7e {
        assert s[i] in s;
        return true;
      }
      assert s[..i + 1] == s[..i] + [s[i]];
    }
    assert s[..|s|] == s;
    return false;
  }

  // ---------------------------------------------------------------- what is accepted

  /** A segment command that passes every check. */
  predicate SegmentChecked(obj: ObjectFile, c: Command, s: Segment) {
    && c.offset + c.cmdsize <= obj.filesize
    && s.segname in KNOWN_SEGMENTS
    && s.fileoff + s.filesize <= obj.filesize
    && s.nsects < obj.filesize
  }

  /** What the bounds checks on a section enforce. */
  predicate SectionInside(obj: ObjectFile, s: Section) {
    s.offset + s.size <= obj.filesize
  }

  /** A section record that passes every check. The end of its contents is compared with the file size
      only in 32-bit objects: the 64-bit reader compares the segment with a misspelt name, and what it
      does check of __DWARF sections is offset and size, each by itself, against the end of the
      enclosing file's part. */
  predicate SectionChecked(obj: ObjectFile, s: Section) {
    && !NotAscii(s.sectname)
    && s.segname in KNOWN_SEGMENTS
    && s.offset + s.size < TWO_64
    && (obj.Wide() && s.segname == DWARF_SEGMENT ==>
          s.offset <= Wrap(obj.inner + obj.filesize) && s.size <= Wrap(obj.inner + obj.filesize))
    && (s.segname == (if obj.Wide() then MISSPELT else DWARF_SEGMENT) ==> SectionInside(obj, s))
  }

  lemma MisspeltIsUnknown()
    ensures MISSPELT !in KNOWN_SEGMENTS
  {
    assert MISSPELT[2] == '_' as int;
    assert forall k :: k in KNOWN_SEGMENTS ==> k[2] != '_' as int;
  }

  /** For which segments the checks keep sections inside the file: for __DWARF in 32-bit objects, and
      otherwise only when 32-bit fields cannot reach past the file's end. */
  lemma WhichSectionsAreInside(obj: ObjectFile, segname: seq<byte>)
    requires obj.Sane() && segname in KNOWN_SEGMENTS
    requires obj.filesize > 0 && obj.inner + obj.filesize < TWO_64
    ensures (forall s: Section | s.segname == segname && s.offset < TWO_32
                                 && s.size < (if obj.Wide() then TWO_64 else TWO_32)
                                 && SectionChecked(obj, s) :: SectionInside(obj, s))
            <==> !obj.Wide() && (segname == DWARF_SEGMENT || obj.filesize >= 2 * (TWO_32 - 1))
  {
    MisspeltIsUnknown();
    var most := TWO_32 - 1;
    var beyond := if obj.Wide() then Section([], segname, 0, obj.filesize, 1, 0, 0, 0, 0, 0, 0)
                  else Section([], segname, 0, most, most, 0, 0, 0, 0, 0, 0);
    if obj.Wide() || (segname != DWARF_SEGMENT && obj.filesize < 2 * most) {
      assert SectionChecked(obj, beyond) && !SectionInside(obj, beyond);
    }
  }
}
