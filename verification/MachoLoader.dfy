/** The Mach-O loader: the walk over the load commands, the segment table, and the section table that is
    regrown by copying. The 32-bit and 64-bit readers are one here, and differ where the code does. */
module MachoLoader {
  import opened Words
  import opened Outcomes
  import opened StringBuffer
  import opened SafeArithmetic
  import opened MachoRecords
  import opened MachoTables

  lemma SegmentsAreFew(cmds: seq<Command>, n: nat)
    requires n <= |cmds|
    ensures |SegmentIndexes(cmds, n)| <= n
  {
  }

  /** Section counts are 32-bit fields. */
  predicate CountsFit(segs: seq<Segment>) {
    forall k | 0 <= k < |segs| :: segs[k].nsects < TWO_32
  }

  lemma CountFits(segs: seq<Segment>, k: nat)
    requires CountsFit(segs) && k < |segs|
    ensures segs[k].nsects < TWO_32
  {
  }

  lemma FewSectionsEach(obj: ObjectFile, cmds: seq<Command>, n: nat)
    requires n <= |cmds|
    ensures CountsFit(SegmentTable(obj, cmds, n))
  {
    SegmentTableIsBijective(obj, cmds, n);
    hide SegmentTable;
  }

  lemma NothingAdded(obj: ObjectFile, segs: seq<Segment>, kept: seq<nat>, i: nat)
    requires i < |segs| && Numbers(kept, |segs|) && segs[i].nsects == 0 && kept != []
    ensures Table(obj, segs, kept + [i]) == Table(obj, segs, kept)
  {
    TableGrows(obj, segs, kept, i);
    FirstRecord(obj, segs, i);
    hide Table;
  }

  lemma TableIsNonEmpty(obj: ObjectFile, segs: seq<Segment>, kept: seq<nat>)
    requires Numbers(kept, |segs|) && kept != []
    ensures |Table(obj, segs, kept)| >= 1
  {
  }

  lemma RegrownHolds(obj: ObjectFile, segs: seq<Segment>, kept: seq<nat>, i: nat,
                     before: seq<Section>, after: seq<Section>)
    requires i < |segs| && Numbers(kept, |segs|) && kept != []
    requires before == Table(obj, segs, kept) && |before| <= |after| && after[..|before|] == before
    requires after[|before|..] == SectionsOf(obj, segs, i, segs[i].nsects)
    requires |before| >= 1 ==> SectionsChecked(obj, before[1..])
    requires SectionsChecked(obj, after[|before|..])
    ensures |before| >= 1 && before <= after
    ensures after == Table(obj, segs, kept + [i])
    ensures SectionsChecked(obj, after[1..])
  {
    hide *;
    TableIsNonEmpty(obj, segs, kept);
    TableGrows(obj, segs, kept, i);
    SplitAfter(before, after);
    CheckedConcat(obj, before[1..], after[|before|..]);
  }

  lemma SplitAfter<T>(before: seq<T>, after: seq<T>)
    requires 1 <= |before| <= |after| && after[..|before|] == before
    ensures after == before + after[|before|..] && before <= after
    ensures after[1..] == before[1..] + after[|before|..]
  {
  }

  lemma CheckedConcat(obj: ObjectFile, a: seq<Section>, b: seq<Section>)
    requires SectionsChecked(obj, a) && SectionsChecked(obj, b)
    ensures SectionsChecked(obj, a + b)
  {
    hide SectionChecked;
  }

  predicate SectionsChecked(obj: ObjectFile, sections: seq<Section>) {
    forall k | 0 <= k < |sections| :: SectionChecked(obj, sections[k])
  }

  lemma FirstRecord(obj: ObjectFile, segs: seq<Segment>, i: nat)
    requires i < |segs|
    ensures SectionsOf(obj, segs, i, 0) == []
    ensures Wrap(RecordOffset(obj, segs[i], 0)) == segs[i].sectionsoffset
  {
  }

  lemma NoRecords(obj: ObjectFile, s: Segment, segi: nat)
    ensures RecordsAccepted(obj, s, segi, 0)
  {
  }

  lemma WrapStep(x: nat, d: nat)
    ensures Wrap(Wrap(x) + d) == Wrap(x + d)
  {
  }

  lemma NextOffset(obj: ObjectFile, s: Segment, k: nat)
    ensures Wrap(Wrap(RecordOffset(obj, s, k)) + obj.SectionRecordSize()) == Wrap(RecordOffset(obj, s, k + 1))
  {
    assert RecordOffset(obj, s, k + 1) == RecordOffset(obj, s, k) + obj.SectionRecordSize();
    WrapStep(RecordOffset(obj, s, k), obj.SectionRecordSize());
    hide *;
  }

  lemma NextRecord(obj: ObjectFile, segs: seq<Segment>, i: nat, k: nat)
    requires i < |segs|
    ensures SectionsOf(obj, segs, i, k + 1)
            == SectionsOf(obj, segs, i, k) + [obj.SectionAt(Wrap(RecordOffset(obj, segs[i], k)), i)]
  {
    hide ObjectFile.SectionAt, Wrap, RecordOffset;
  }

  function NoSegment(): Segment {
    Segment(0, 0, [], 0, 0, 0, 0, 0, 0, 0, 0, 0, 0)
  }

  /** All segments passed the checks, each against its own command. */
  predicate AllChecked(obj: ObjectFile, cmds: seq<Command>, segs: seq<Segment>) {
    forall k | 0 <= k < |segs| ::
      segs[k].commandIndex < |cmds| && SegmentChecked(obj, cmds[segs[k].commandIndex], segs[k])
  }

  lemma CheckedSegmentsFit(obj: ObjectFile, cmds: seq<Command>, segs: seq<Segment>)
    requires AllChecked(obj, cmds, segs)
    ensures forall k | 0 <= k < |segs| ::
              segs[k].fileoff + segs[k].filesize <= obj.filesize && segs[k].nsects < obj.filesize
  {
  }

  lemma CheckedStep(obj: ObjectFile, cmds: seq<Command>, segs: seq<Segment>, s: Segment)
    requires AllChecked(obj, cmds, segs)
    requires s.commandIndex < |cmds| && SegmentChecked(obj, cmds[s.commandIndex], s)
    ensures AllChecked(obj, cmds, segs + [s])
  {
    hide SegmentChecked;
  }

  lemma SegmentOfIs(obj: ObjectFile, cmds: seq<Command>, i: nat)
    requires i < |cmds|
    ensures SegmentOf(obj, cmds, i) == obj.SegmentAt(cmds[i].cmd == LC_SEGMENT_64, cmds[i].offset, i)
  {
  }

  lemma NoSegments(obj: ObjectFile, cmds: seq<Command>)
    requires |SegmentIndexes(cmds, |cmds|)| == 0
    ensures SegmentsAccepted(obj, cmds, |cmds|)
  {
    assert forall i | 0 <= i < |cmds| :: i in SegmentIndexes(cmds, |cmds|) <==> IsSegment(cmds[i]);
  }

  lemma AcceptedIs(obj: ObjectFile, cmds: seq<Command>, i: nat)
    requires i < |cmds|
    ensures SegmentAccepted(obj, cmds, i) <==>
            && obj.Read(cmds[i].offset, obj.SegmentRecordSize(cmds[i].cmd == LC_SEGMENT_64)).Ok?
            && SegmentChecked(obj, cmds[i], obj.SegmentAt(cmds[i].cmd == LC_SEGMENT_64, cmds[i].offset, i))
    ensures SegmentsAccepted(obj, cmds, i + 1) ==> IsSegment(cmds[i]) ==> SegmentAccepted(obj, cmds, i)
    ensures SegmentsAccepted(obj, cmds, |cmds|) ==> IsSegment(cmds[i]) ==> SegmentAccepted(obj, cmds, i)
  {
  }

  lemma NoSegmentsYet(obj: ObjectFile, cmds: seq<Command>)
    ensures SegmentTable(obj, cmds, 0) == [] && |SegmentIndexes(cmds, 0)| == 0
  {
  }

  lemma NothingWalked(obj: ObjectFile)
    ensures Walked(obj, []) && SumSizes([], 0) == 0 && |SegmentIndexes([], 0)| == 0
  {
  }

  /** An object in which nothing is wrong: all commands are there, every segment command is acceptable, and the
      sections can be loaded. */
  ghost predicate Sound(obj: ObjectFile, cmds: seq<Command>) {
    && AllThere(obj, cmds) && obj.start + 8 * obj.commandCount < obj.filesize
    && SegmentsAccepted(obj, cmds, |cmds|)
    && Loadable(obj, SegmentTable(obj, cmds, |cmds|))
  }

  lemma SoundMeans(obj: ObjectFile)
    ensures (exists cmds :: Sound(obj, cmds)) ==>
              (exists cmds :: AllThere(obj, cmds)) && obj.start + 8 * obj.commandCount < obj.filesize
  {
    if cmds :| Sound(obj, cmds) {
      assert AllThere(obj, cmds);
    }
    hide AllThere, Loadable, SegmentsAccepted;
  }

  /** What was walked over is what makes the object sound, if anything does. */
  lemma OnlySoundWalk(obj: ObjectFile, cmds: seq<Command>)
    requires Walked(obj, cmds) && |cmds| == obj.commandCount
    ensures (exists all :: Sound(obj, all)) ==>
              SegmentsAccepted(obj, cmds, |cmds|) && Loadable(obj, SegmentTable(obj, cmds, |cmds|))
  {
    if all :| Sound(obj, all) {
      WalksAgree(obj, cmds, all);
      assert all[..|cmds|] == all;
    }
    hide Walked, Loadable, SegmentsAccepted, SegmentTable;
  }

  class MachoFile {
    const memory: Memory
    const obj: ObjectFile
    var commands: array<Command>
    var segmentCount: nat
    var segments: array<Segment>
    var sections: array?<Section>
    var sectionCount: u64

    /** Segments whose sections no memory was found for, though loading went on. */
    ghost var refused: set<nat>

    constructor (memory: Memory, obj: ObjectFile)
      ensures this.memory == memory && this.obj == obj && fresh(commands) && fresh(segments)
      ensures segmentCount == 0 && segments.Length == 0 && sections == null && sectionCount == 0 && refused == {}
    {
      this.memory, this.obj := memory, obj;
      commands := new Command[0];
      segmentCount := 0;
      segments := new Segment[0];
      sections := null;
      sectionCount := 0;
      refused := {};
    }

    // -------------------------------------------------------------- the command walk

    /** The command after those walked over. */
    method ReadCommand(curoff: u64, ghost walked: seq<Command>) returns (r: Result<Command>)
      requires obj.Sane() && Walked(obj, walked) && |walked| < obj.commandCount
      requires curoff == obj.start + SumSizes(walked, |walked|) <= obj.filesize
      ensures r.Ok? ==> r.value == obj.CommandAt(curoff)
      ensures r.Ok? <==> obj.Read(curoff, 8).Ok? && curoff + obj.CommandAt(curoff).cmdsize <= obj.filesize
      ensures r.Failed? ==> WalkStops(obj, walked, r.error)
      ensures !r.NoEntry?
    {
      hide ObjectFile.Read, ObjectFile.Word, ObjectFile.Peek, Walked, SumSizes;
      var mc := obj.Read(curoff, 8);
      if mc.Failed? {
        return Failed(mc.error);
      }
      var c := Command(obj.Word(mc.value, 0, 4), obj.Word(mc.value, 4, 4), curoff);
      assert c == obj.CommandAt(curoff);
      if c.cmdsize > obj.filesize || curoff + c.cmdsize > obj.filesize {
        return Failed(FileOffsetBad);
      }
      return Ok(c);
    }

    /** On success the commands are all in place; on failure it is known which command stopped the walk. */
    method WalkCommands() returns (r: Result<()>, ghost walked: seq<Command>)
      requires obj.Sane()
      modifies `commands, `segmentCount
      ensures r.Ok? ==>
                && commands.Length == obj.commandCount && Walked(obj, commands[..])
                && segmentCount == |SegmentIndexes(commands[..], commands.Length)|
      ensures r.Failed? ==>
                || (r.error == OutOfMemory && memory.Scarce?)
                || (r.error == LoadSegOffsetBad && obj.start + 8 * obj.commandCount >= obj.filesize)
                || WalkStops(obj, walked, r.error)
      ensures (exists cmds :: AllThere(obj, cmds)) && obj.start + 8 * obj.commandCount < obj.filesize ==>
                r.Ok? || (r == Failed(OutOfMemory) && memory.Scarce?)
      ensures !r.NoEntry?
    {
      hide ObjectFile.CommandAt, SumSizes, Walked, WalkStops, SegmentIndexes, IsSegment, AllThere;
      var curoff: u64 := obj.start;
      walked := [];
      if curoff + obj.commandCount * 8 >= obj.filesize {
        return Failed(LoadSegOffsetBad), walked;
      }
      var ok := Malloc(memory);
      if !ok {
        return Failed(OutOfMemory), walked;
      }
      commands := new Command[obj.commandCount](_ => Command(0, 0, 0));
      var cmdi, segmentCommandCount: nat := 0, 0;
      NothingWalked(obj);
      while cmdi < obj.commandCount
        invariant cmdi <= obj.commandCount == commands.Length && fresh(commands)
        invariant walked == commands[..cmdi] && Walked(obj, walked)
        invariant curoff == obj.start + SumSizes(walked, cmdi) && curoff <= obj.filesize
        invariant segmentCommandCount == |SegmentIndexes(walked, cmdi)|
      {
        var mcp := ReadCommand(curoff, walked);
        if mcp.Failed? {
          NothingStops(obj, walked, mcp.error);
          return Failed(mcp.error), walked;
        }
        commands[cmdi] := mcp.value;
        WalkedStep(obj, walked, mcp.value);
        SegmentIndexesStep(walked, mcp.value);
        walked := walked + [mcp.value];
        curoff := curoff + mcp.value.cmdsize;
        if IsSegment(mcp.value) {
          segmentCommandCount := segmentCommandCount + 1;
        }
        cmdi := cmdi + 1;
      }
      segmentCount := segmentCommandCount;
      assert commands[..] == walked;
      return Ok(()), walked;
    }

    // -------------------------------------------------------------- the segment table

    /** One segment command; it is accepted exactly when it can be read and passes every check. */
    method LoadSegmentContent(c: Command, index: nat) returns (r: Result<Segment>)
      requires obj.Sane() && IsSegment(c)
      ensures var wide := c.cmd == LC_SEGMENT_64;
              var s := obj.SegmentAt(wide, c.offset, index);
              && (r.Ok? <==> obj.Read(c.offset, obj.SegmentRecordSize(wide)).Ok? && SegmentChecked(obj, c, s))
              && (r.Ok? ==> r.value == s)
              && (r.Ok? <==> && obj.Read(c.offset, obj.SegmentRecordSize(wide)).Ok?
                             && c.offset + c.cmdsize <= obj.filesize && s.segname in KNOWN_SEGMENTS
                             && s.fileoff + s.filesize <= obj.filesize && s.nsects < obj.filesize)
              && (r.Failed? && obj.Read(c.offset, obj.SegmentRecordSize(wide)).Ok?
                  && c.offset + c.cmdsize <= obj.filesize && s.segname !in KNOWN_SEGMENTS ==>
                    r.error == if wide then MachoCorruptSegmentName else MachoCorruptHeader)
      ensures !r.NoEntry?
    {
      hide ObjectFile.Read, ObjectFile.SegmentAt;
      var wide := c.cmd == LC_SEGMENT_64;
      if c.offset > obj.filesize || c.cmdsize > obj.filesize || c.cmdsize + c.offset > obj.filesize {
        return Failed(if wide then FileOffsetBad else LoadSegOffsetBad);
      }
      var sc := obj.Read(c.offset, obj.SegmentRecordSize(wide));
      if sc.Failed? {
        return Failed(sc.error);
      }
      var msp := obj.SegmentAt(wide, c.offset, index);
      var known := IsKnownSegname(msp.segname);
      if !known {
        return Failed(if wide then MachoCorruptSegmentName else MachoCorruptHeader);
      }
      if msp.fileoff > obj.filesize || msp.filesize > obj.filesize {
        return Failed(FileOffsetBad);
      }
      if msp.fileoff + msp.filesize > obj.filesize {
        return Failed(FileOffsetBad);
      }
      if msp.nsects >= obj.filesize {
        return Failed(FileOffsetBad);
      }
      return Ok(msp);
    }

    /** Every slot of the segment table is filled, and with the segment command it stands for. */
    method LoadSegmentCommands() returns (r: Result<()>)
      requires obj.Sane() && commands.Length == obj.commandCount
      requires segments.Length == 0 && segmentCount == |SegmentIndexes(commands[..], commands.Length)|
      modifies `segments
      ensures r.Ok? ==>
                && segments.Length == segmentCount
                && segments[..] == SegmentTable(obj, commands[..], commands.Length)
                && AllChecked(obj, commands[..], segments[..])
      ensures r.Ok? ==> SegmentsAccepted(obj, commands[..], commands.Length)
      ensures memory.Plentiful? && SegmentsAccepted(obj, commands[..], commands.Length) ==> r.Ok?
      ensures !r.NoEntry?
    {
      hide SegmentIndexes, SegmentTable, SegmentOf, IsSegment, ObjectFile.SegmentAt, SegmentChecked;
      if segmentCount < 1 {
        assert SegmentTable(obj, commands[..], commands.Length) == [];
        NoSegments(obj, commands[..]);
        return Ok(());
      }
      TableSizesAreExact(segmentCount, 0, 0, obj.filesize);
      var segtotsize := Mult(segmentCount, 120);
      if segtotsize.error {
        return Failed(BadOffsetSize);
      }
      var ok := Malloc(memory);
      if !ok {
        return Failed(OutOfMemory);
      }
      ghost var cmds := commands[..];
      var table := new Segment[segmentCount](_ => NoSegment());
      var i, msp: nat := 0, 0;
      NoSegmentsYet(obj, cmds);
      while i < obj.commandCount
        invariant i <= obj.commandCount && msp == |SegmentIndexes(cmds, i)| <= segmentCount
        invariant fresh(table) && table.Length == segmentCount && commands[..] == cmds
        invariant table[..msp] == SegmentTable(obj, cmds, i)
        invariant AllChecked(obj, cmds, table[..msp])
        invariant SegmentsAccepted(obj, cmds, i)
      {
        var mmp := commands[i];
        SegmentTableStep(obj, cmds, i);
        SegmentIndexesGrow(cmds, i + 1, |cmds|);
        if IsSegment(mmp) {
          AcceptedIs(obj, cmds, i);
          var res := LoadSegmentContent(mmp, i);
          if res.Failed? {
            return Failed(res.error);
          }
          table[msp] := res.value;
          assert res.value == SegmentOf(obj, cmds, i) by {
            SegmentOfIs(obj, cmds, i);
          }
          assert table[..msp + 1] == table[..msp] + [res.value];
          CheckedStep(obj, cmds, table[..msp], res.value);
          msp := msp + 1;
        }
        i := i + 1;
      }
      segments := table;
      assert table[..] == table[..msp];
      return Ok(());
    }

    // -------------------------------------------------------------- the section table

    /** One section record, whose checks decide whether it is accepted. */
    method LoadSection(curoff: u64, segi: nat) returns (r: Result<Section>)
      requires obj.Sane()
      ensures r.Ok? ==>
                && curoff + obj.SectionRecordSize() <= obj.filesize
                && r.value == obj.SectionAt(curoff, segi) && SectionChecked(obj, r.value)
      ensures obj.inner + obj.filesize < TWO_64 && curoff + obj.SectionRecordSize() <= obj.filesize ==>
                (r.Ok? <==> && obj.Read(curoff, obj.SectionRecordSize()).Ok?
                            && SectionChecked(obj, obj.SectionAt(curoff, segi)))
      ensures obj.inner + obj.filesize < TWO_64 ==> (r.Ok? <==> RecordAccepted(obj, curoff, segi))
      ensures !r.NoEntry?
    {
      hide ObjectFile.Read, ObjectFile.SectionAt, SectionChecked;
      var endoffset := Wrap(curoff + obj.SectionRecordSize());
      var sum := Add(curoff, obj.SectionRecordSize());
      if obj.Wide() && sum.error {
        return Failed(FileOffsetBad);
      }
      if curoff >= obj.filesize || endoffset > obj.filesize {
        return Failed(FileOffsetBad);
      }
      var innercur, innerend := Add(obj.inner, curoff), Add(obj.inner, obj.filesize);
      if obj.Wide() {
        if innercur.error || innerend.error {
          return Failed(FileOffsetBad);
        }
      } else {
        if innercur.result < obj.inner || innercur.result < curoff {
          return Failed(FileOffsetBad);
        }
        if innerend.result < obj.inner || innerend.result < obj.filesize {
          return Failed(FileOffsetBad);
        }
      }
      var mosec := obj.Read(curoff, obj.SectionRecordSize());
      if mosec.Failed? {
        return Failed(mosec.error);
      }
      var secs := obj.SectionAt(curoff, segi);
      r := CheckSection(secs, innerend.result);
    }

    /** The checks on what was read, and the error each of them reports. */
    method CheckSection(secs: Section, innerend: u64) returns (r: Result<Section>)
      requires obj.Sane() && innerend == Wrap(obj.inner + obj.filesize)
      requires secs.offset < TWO_64 && secs.size < TWO_64
      ensures r.Ok? <==> SectionChecked(obj, secs)
      ensures r.Ok? ==> r.value == secs
      ensures r.Ok? <==>
                && !NotAscii(secs.sectname) && secs.segname in KNOWN_SEGMENTS
                && secs.offset + secs.size < TWO_64
                && (secs.segname == DWARF_SEGMENT && obj.Wide() ==> secs.offset <= innerend && secs.size <= innerend)
                && (secs.segname == DWARF_SEGMENT && !obj.Wide() ==> secs.offset + secs.size <= obj.filesize)
      ensures NotAscii(secs.sectname) ==> r == Failed(MachoCorruptSectionDetails)
      ensures !NotAscii(secs.sectname) && secs.segname !in KNOWN_SEGMENTS ==>
                r == Failed(if obj.Wide() then FileOffsetBad else MachoCorruptSegmentName)
      ensures !r.NoEntry?
    {
      MisspeltIsUnknown();
      hide NotAscii;
      var odd := IsNotAscii(secs.sectname);
      if odd {
        return Failed(MachoCorruptSectionDetails);
      }
      var known := IsKnownSegname(secs.segname);
      if !known {
        return Failed(if obj.Wide() then FileOffsetBad else MachoCorruptSegmentName);
      }
      if obj.Wide() && secs.segname == DWARF_SEGMENT {
        if innerend < secs.offset || innerend < secs.size {
          return Failed(FileOffsetBad);
        }
      }
      var offplussize := Wrap(secs.offset + secs.size);
      if offplussize < secs.offset || offplussize < secs.size {
        return Failed(if obj.Wide() then ErrcodeUnset else FileOffsetBad);
      }
      if secs.segname == (if obj.Wide() then MISSPELT else DWARF_SEGMENT) {
        if secs.offset > obj.filesize || secs.size > obj.filesize || offplussize > obj.filesize {
          return Failed(FileOffsetBad);
        }
      }
      return Ok(secs);
    }

    /** Fills the end of the table with the records of one segment. */
    method LoadRecords(secs: array<Section>, base: nat, ghost segs: seq<Segment>, segp: Segment, segi: nat)
      returns (r: Result<()>)
      requires obj.Sane() && segi < |segs| && segs[segi] == segp
      requires base + segp.nsects == secs.Length
      modifies secs
      ensures secs[..base] == old(secs[..base])
      ensures r.Ok? ==>
                && secs[base..] == SectionsOf(obj, segs, segi, segs[segi].nsects)
                && SectionsChecked(obj, secs[base..])
      ensures obj.inner + obj.filesize < TWO_64 ==> (r.Ok? <==> RecordsAccepted(obj, segp, segi, segp.nsects))
      ensures !r.NoEntry?
    {
      hide ObjectFile.SectionAt, SectionsOf, SectionChecked, RecordAccepted, RecordsAccepted, RecordOffset;
      NoRecords(obj, segp, segi);
      var seci, curoff: u64 := base, segp.sectionsoffset;
      FirstRecord(obj, segs, segi);
      while seci < secs.Length
        invariant base <= seci <= secs.Length && secs[..base] == old(secs[..base])
        invariant curoff == Wrap(RecordOffset(obj, segs[segi], seci - base))
        invariant secs[base..seci] == SectionsOf(obj, segs, segi, seci - base)
        invariant SectionsChecked(obj, secs[base..seci])
        invariant obj.inner + obj.filesize < TWO_64 ==> RecordsAccepted(obj, segp, segi, seci - base)
      {
        RecordsAcceptedStep(obj, segp, segi, seci - base, segp.nsects);
        var record := LoadSection(curoff, segi);
        if record.Failed? {
          return Failed(record.error);
        }
        secs[seci] := record.value;
        NextRecord(obj, segs, segi, seci - base);
        NextOffset(obj, segs[segi], seci - base);
        assert secs[base..seci + 1] == secs[base..seci] + [record.value];
        curoff := Wrap(curoff + obj.SectionRecordSize());
        seci := seci + 1;
      }
      assert secs[base..] == secs[base..seci];
      return Ok(());
    }

    /** The table holds the sections of the given segments, all of which passed the checks. */
    ghost predicate HoldsTable(segs: seq<Segment>, kept: seq<nat>)
      reads this, sections
    {
      && Numbers(kept, |segs|)
      && (sections == null <==> kept == [])
      && (sections == null ==> sectionCount == 0)
      && (sections != null ==>
            && sections.Length == sectionCount
            && sections[..] == Table(obj, segs, kept)
            && SectionsChecked(obj, sections[1..]))
    }

    /** How far the section count can have grown; in 32-bit objects regrowth is bounded by the file. */
    ghost predicate CountBounded(segi: nat)
      reads this
    {
      && sectionCount <= 1 + segi * 0xffff_ffff
      && (!obj.Wide() ==> sectionCount <= 0x1_0000_0000 || 160 * sectionCount <= obj.filesize)
    }

    /** The first segment with sections makes the table and its null entry. */
    method StartTable(ghost segs: seq<Segment>, segp: Segment, segi: nat) returns (r: Result<()>, ghost placed: bool)
      requires obj.Sane() && segi < |segs| && segs[segi] == segp && segp.nsects < TWO_32
      requires sections == null && sectionCount == 0
      modifies this`sections, this`sectionCount, this`refused
      ensures r.Ok? && placed ==>
                && sections != null && fresh(sections) && HoldsTable(segs, [segi])
                && sectionCount == segp.nsects + 1 && refused == old(refused)
      ensures r.Ok? && !placed ==> sections == null && sectionCount == 0 && refused == old(refused) + {segi}
      ensures memory.Plentiful? ==> placed
      ensures r.Failed? && obj.inner + obj.filesize < TWO_64 ==> !RecordsAccepted(obj, segp, segi, segp.nsects)
      ensures !r.NoEntry?
    {
      hide SectionsOf, SectionChecked, SectionsChecked, Table;
      placed := false;
      var ok := Malloc(memory);
      if !ok {
        refused := refused + {segi};
        return Ok(()), placed;
      }
      placed := true;
      var secs := new Section[segp.nsects + 1](_ => NullSection(0));
      sections, sectionCount := secs, segp.nsects + 1;
      secs[0] := NullSection(segp.sectionsoffset);
      assert secs[..1] == [NullSection(segp.sectionsoffset)];
      r := LoadRecords(secs, 1, segs, segp, segi);
      TableGrows(obj, segs, [], segi);
      assert [] + [segi] == [segi];
      assert secs[..] == secs[..1] + secs[1..];
    }

    /** Later ones move it to a larger block, check the size of that block in 32-bit objects, and leave
        the earlier entries as they were. */
    method Regrow(originals: array<Section>, ghost segs: seq<Segment>, segp: Segment, segi: nat, ghost kept: seq<nat>)
      returns (r: Result<()>, ghost placed: bool)
      requires obj.Sane() && segi < |segs| <= 0xffff_ffff && segs[segi] == segp && 0 < segp.nsects < TWO_32
      requires sections == originals && HoldsTable(segs, kept) && CountBounded(segi)
      modifies this`sections, this`sectionCount, this`refused
      ensures r.Ok? && placed ==>
                && sections != null && fresh(sections) && HoldsTable(segs, kept + [segi])
                && originals[..] <= sections[..] && refused == old(refused) && CountBounded(segi + 1)
      ensures r.Ok? && !placed ==>
                sections == originals && sectionCount == old(sectionCount) && refused == old(refused) + {segi}
      ensures memory.Plentiful? && r.Ok? ==> placed
      ensures r.Failed? && obj.inner + obj.filesize < TWO_64 ==>
                || !RecordsAccepted(obj, segp, segi, segp.nsects)
                || (!obj.Wide() && 160 * (old(sectionCount) + segp.nsects) > obj.filesize)
      ensures !r.NoEntry?
    {
      hide SectionsOf, SectionChecked, SectionsChecked, Table;
      TableIsNonEmpty(obj, segs, kept);
      placed := false;
      var newcount := Wrap(sectionCount + segp.nsects);
      assert newcount == sectionCount + segp.nsects;
      if !obj.Wide() {
        TableSizesAreExact(0, sectionCount, segp.nsects, obj.filesize);
        var secssizetot := Mult(newcount, 160);
        if secssizetot.error || secssizetot.result > obj.filesize {
          return Failed(BadOffsetSize), placed;
        }
      }
      var ok := Malloc(memory);
      if !ok {
        refused := refused + {segi};
        return Ok(()), placed;
      }
      placed := true;
      var secs := new Section[newcount](_ => NullSection(0));
      var seci := sectionCount;
      forall k | 0 <= k < seci {
        secs[k] := originals[k];
      }
      sections, sectionCount := secs, newcount;
      secs[seci] := NullSection(segp.sectionsoffset);
      assert secs[..seci] == originals[..];
      r := LoadRecords(secs, seci, segs, segp, segi);
      if r.Ok? {
        RegrownHolds(obj, segs, kept, segi, originals[..], secs[..]);
      }
    }

    /** The sections of one more segment. When no memory is found the error is reported as success: the
        table stays as it was, without them. */
    method AddSections(ghost segs: seq<Segment>, segp: Segment, segi: nat, ghost kept: seq<nat>)
      returns (r: Result<()>, ghost placed: bool)
      requires obj.Sane() && segi < |segs| <= 0xffff_ffff && segs[segi] == segp && segp.nsects < TWO_32
      requires HoldsTable(segs, kept) && CountBounded(segi)
      modifies this`sections, this`sectionCount, this`refused
      ensures r.Ok? ==> CountBounded(segi + 1) && HoldsTable(segs, if placed then kept + [segi] else kept)
      ensures r.Ok? ==> refused == if placed then old(refused) else old(refused) + {segi}
      ensures memory.Plentiful? && r.Ok? ==> placed
      ensures r.Failed? && obj.offsetsize in {32, 64} && obj.inner + obj.filesize < TWO_64 ==>
                || !RecordsAccepted(obj, segp, segi, segp.nsects)
                || (old(sections) != null && !obj.Wide()
                    && 160 * (old(sectionCount) + segp.nsects) > obj.filesize)
      ensures r.Ok? ==> sections == old(sections) || fresh(sections)
      ensures !r.NoEntry?
    {
      hide SectionsOf, SectionsChecked, Table;
      if obj.offsetsize != 32 && obj.offsetsize != 64 {
        return Failed(BadOffsetSize), false;
      }
      if sections != null && segp.nsects == 0 {
        NothingAdded(obj, segs, kept, segi);
        return Ok(()), true;
      }
      if sections != null {
        r, placed := Regrow(sections, segs, segp, segi, kept);
      } else {
        r, placed := StartTable(segs, segp, segi);
        assert [] + [segi] == [segi];
      }
    }

    lemma NextCountBounded(segi: nat)
      requires CountBounded(segi)
      ensures CountBounded(segi + 1)
    {
    }

    /** What keeps a loadable object from being refused. */
    lemma SoundSegmentFits(segs: seq<Segment>, segi: nat)
      requires segi < |segs| && HoldsTable(segs, Eligible(segs, {}, segi)) && !Skipped(segs[segi])
      ensures Loadable(obj, segs) ==>
                && obj.offsetsize in {32, 64} && obj.inner + obj.filesize < TWO_64
                && RecordsAccepted(obj, segs[segi], segi, segs[segi].nsects)
                && (sections != null && !obj.Wide() ==> 160 * (sectionCount + segs[segi].nsects) <= obj.filesize)
    {
      hide Table, Eligible, Skipped, RecordsAccepted, SectionsChecked;
      if Loadable(obj, segs) && sections != null && !obj.Wide() {
        TableFitsSoFar(obj, segs, segi);
      }
    }

    /** What is done for one segment. */
    method VisitSegment(ghost segs: seq<Segment>, segp: Segment, segi: nat) returns (r: Result<()>)
      requires obj.Sane() && segi < |segs| <= 0xffff_ffff && segs[segi] == segp && segp.nsects < TWO_32
      requires HoldsTable(segs, Eligible(segs, refused, segi)) && CountBounded(segi)
      requires segi !in refused
      modifies this`sections, this`sectionCount, this`refused
      ensures r.Ok? ==> HoldsTable(segs, Eligible(segs, refused, segi + 1)) && CountBounded(segi + 1)
      ensures r.Ok? ==> refused == old(refused) || refused == old(refused) + {segi}
      ensures memory.Plentiful? && r.Ok? ==> refused == old(refused)
      ensures r.Failed? && memory.Plentiful? && old(refused) == {} ==> !Loadable(obj, segs)
      ensures r.Ok? ==> sections == old(sections) || fresh(sections)
      ensures !r.NoEntry?
    {
      hide *;
      NextCountBounded(segi);
      if !Skipped(segp) && refused == {} {
        SoundSegmentFits(segs, segi);
      }
      RefusedLater(segs, refused, segi, segi);
      EligibleStep(segs, refused, segi);
      EligibleStep(segs, refused + {segi}, segi);
      if Skipped(segp) {
        return Ok(());
      }
      ghost var placed;
      r, placed := AddSections(segs, segp, segi, Eligible(segs, refused, segi));
    }

    /** All segments but the three kinds that are skipped. */
    method LoadSections() returns (r: Result<()>)
      requires obj.Sane() && segments.Length == segmentCount <= 0xffff_ffff
      requires CountsFit(segments[..])
      requires sections == null && sectionCount == 0 && refused == {}
      modifies this`sections, this`sectionCount, this`refused
      ensures !r.Failed? ==> HoldsTable(segments[..], Eligible(segments[..], refused, segments.Length))
      ensures r.Ok? ==> sections != null
      ensures r.NoEntry? ==> sections == null
      ensures memory.Plentiful? && !r.Failed? ==> refused == {}
      ensures memory.Plentiful? && Loadable(obj, segments[..]) ==> !r.Failed?
    {
      hide *;
      ghost var segs := segments[..];
      TableStarts(segs);
      var segi := 0;
      while segi < segmentCount
        invariant segi <= segmentCount && segments[..] == segs
        invariant sections == null || fresh(sections)
        invariant forall i :: i in refused ==> i < segi
        invariant memory.Plentiful? ==> refused == {}
        invariant HoldsTable(segs, Eligible(segs, refused, segi)) && CountBounded(segi)
      {
        CountFits(segs, segi);
        r := VisitSegment(segs, segments[segi], segi);
        if r.Failed? {
          return;
        }
        segi := segi + 1;
      }
      CountTells(segs, Eligible(segs, refused, segi));
      return if sectionCount != 0 then Ok(()) else NoEntry;
    }

    lemma TableStarts(segs: seq<Segment>)
      requires sections == null && sectionCount == 0
      ensures HoldsTable(segs, Eligible(segs, {}, 0)) && CountBounded(0)
    {
    }

    lemma CountTells(segs: seq<Segment>, kept: seq<nat>)
      requires HoldsTable(segs, kept)
      ensures sectionCount != 0 <==> sections != null
    {
      if kept != [] {
        TableIsNonEmpty(obj, segs, kept);
      }
      hide Table, SectionsChecked;
    }

    /** dwarf_load_macho_commands: on success the commands are in place, every segment command has its
        slot, and the section table holds the null entry and then, in command order, the sections of every
        segment that is not skipped and that memory was found for. */
    method LoadMachoCommands() returns (r: Result<()>)
      requires obj.Sane()
      requires segments.Length == 0 && sections == null && sectionCount == 0 && refused == {}
      modifies this
      ensures r.Ok? ==>
                && commands.Length == obj.commandCount && Walked(obj, commands[..])
                && segments[..] == SegmentTable(obj, commands[..], commands.Length)
                && AllChecked(obj, commands[..], segments[..])
      ensures r.Ok? ==>
                forall k | 0 <= k < segments.Length ::
                  segments[k].fileoff + segments[k].filesize <= obj.filesize && segments[k].nsects < obj.filesize
      ensures r.Ok? ==>
                && sections != null
                && HoldsTable(segments[..], Eligible(segments[..], refused, segments.Length))
      ensures r.Ok? && !obj.Wide() ==>
                forall k | 1 <= k < sections.Length && sections[k].segname == DWARF_SEGMENT ::
                  SectionInside(obj, sections[k])
      ensures memory.Plentiful? && r.Ok? ==> refused == {}
      ensures memory.Plentiful? && (exists cmds :: Sound(obj, cmds)) ==> !r.Failed?
    {
      hide Walked, SegmentIndexes, SegmentTable, SegmentChecked, Table, Eligible, SectionsOf, Sound, AllThere,
           SegmentsAccepted, Loadable;
      SoundMeans(obj);
      ghost var walked;
      r, walked := WalkCommands();
      if !r.Ok? {
        return;
      }
      OnlySoundWalk(obj, commands[..]);
      SegmentsAreFew(commands[..], commands.Length);
      r := LoadSegmentCommands();
      if !r.Ok? {
        return;
      }
      FewSectionsEach(obj, commands[..], commands.Length);
      CheckedSegmentsFit(obj, commands[..], segments[..]);
      assert forall k | 0 <= k < segments.Length :: segments[k] == segments[..][k];
      r := LoadSections();
      if r.Ok? && !obj.Wide() {
        forall k | 1 <= k < sections.Length && sections[k].segname == DWARF_SEGMENT
          ensures SectionInside(obj, sections[k])
        {
          assert SectionChecked(obj, sections[1..][k - 1]);
        }
      }
    }
  }
}
