/** What the Mach-O loader's three tables hold: commands, segments and sections. */
module MachoTables {
  import opened Words
  import opened Outcomes
  import opened StringBuffer
  import opened MachoRecords

  // ---------------------------------------------------------------- commands

  /** The combined size of the first n commands. */
  function SumSizes(cmds: seq<Command>, n: nat): nat
    requires n <= |cmds|
  {
    if n == 0 then 0 else SumSizes(cmds, n - 1) + cmds[n - 1].cmdsize
  }

  lemma {:induction false} SumSizesOfPrefix(cmds: seq<Command>, more: seq<Command>, n: nat)
    requires n <= |cmds|
    ensures SumSizes(cmds + more, n) == SumSizes(cmds, n)
  {
    if n > 0 {
      SumSizesOfPrefix(cmds, more, n - 1);
    }
  }

  /** Command n sits right after all earlier ones and ends within the file. */
  predicate InPlace(obj: ObjectFile, cmds: seq<Command>, n: nat)
    requires n < |cmds|
  {
    && obj.start + SumSizes(cmds, n) + cmds[n].cmdsize <= obj.filesize < TWO_63
    && cmds[n] == obj.CommandAt(obj.start + SumSizes(cmds, n))
  }

  predicate Walked(obj: ObjectFile, cmds: seq<Command>) {
    forall n | 0 <= n < |cmds| :: InPlace(obj, cmds, n)
  }

  lemma InPlaceStays(obj: ObjectFile, cmds: seq<Command>, c: Command, n: nat)
    requires n < |cmds| && InPlace(obj, cmds, n)
    ensures InPlace(obj, cmds + [c], n)
  {
    hide ObjectFile.CommandAt;
    SumSizesOfPrefix(cmds, [c], n);
  }

  lemma SumSizesStep(cmds: seq<Command>, c: Command)
    ensures SumSizes(cmds + [c], |cmds|) == SumSizes(cmds, |cmds|)
    ensures SumSizes(cmds + [c], |cmds| + 1) == SumSizes(cmds, |cmds|) + c.cmdsize
  {
    SumSizesOfPrefix(cmds, [c], |cmds|);
  }

  lemma NextInPlace(obj: ObjectFile, cmds: seq<Command>, c: Command)
    requires obj.start + SumSizes(cmds, |cmds|) + c.cmdsize <= obj.filesize < TWO_63
    requires c == obj.CommandAt(obj.start + SumSizes(cmds, |cmds|))
    ensures InPlace(obj, cmds + [c], |cmds|)
  {
    SumSizesStep(cmds, c);
    hide ObjectFile.CommandAt, SumSizes;
  }

  lemma WalkedStep(obj: ObjectFile, cmds: seq<Command>, c: Command)
    requires Walked(obj, cmds)
    requires obj.start + SumSizes(cmds, |cmds|) + c.cmdsize <= obj.filesize < TWO_63
    requires c == obj.CommandAt(obj.start + SumSizes(cmds, |cmds|))
    ensures Walked(obj, cmds + [c])
    ensures SumSizes(cmds + [c], |cmds| + 1) == SumSizes(cmds, |cmds|) + c.cmdsize
  {
    hide ObjectFile.CommandAt, SumSizes, InPlace;
    SumSizesStep(cmds, c);
    NextInPlace(obj, cmds, c);
    forall n | 0 <= n < |cmds|
      ensures InPlace(obj, cmds + [c], n)
    {
      InPlaceStays(obj, cmds, c, n);
    }
  }

  /** Where a walk ends in an error: after some commands in place, the next cannot be read, or runs
      past the end of the file. */
  predicate WalkStops(obj: ObjectFile, cmds: seq<Command>, error: Error) {
    && Walked(obj, cmds) && |cmds| < obj.commandCount
    && var next := obj.start + SumSizes(cmds, |cmds|);
       && next < TWO_64
       && (obj.Read(next, 8) == Failed(error)
           || (error == FileOffsetBad && next + obj.CommandAt(next).cmdsize > obj.filesize))
  }

  /** All commands the header announces are there, inside the file and readable. */
  ghost predicate AllThere(obj: ObjectFile, cmds: seq<Command>) {
    && |cmds| == obj.commandCount && Walked(obj, cmds)
    && forall n | 0 <= n < |cmds| :: obj.Read(cmds[n].offset, 8).Ok?
  }

  /** There is only one way to walk. */
  lemma {:induction false} WalksAgree(obj: ObjectFile, cmds: seq<Command>, all: seq<Command>)
    requires Walked(obj, cmds) && Walked(obj, all) && |cmds| <= |all|
    ensures cmds == all[..|cmds|]
  {
    hide ObjectFile.CommandAt;
    if cmds != [] {
      var n := |cmds| - 1;
      var front := cmds[..n];
      assert cmds == front + [cmds[n]];
      forall k | 0 <= k < n ensures InPlace(obj, front, k) {
        assert InPlace(obj, cmds, k);
        SumSizesOfPrefix(front, [cmds[n]], k);
      }
      WalksAgree(obj, front, all);
      assert InPlace(obj, cmds, n) && InPlace(obj, all, n);
      SumSizesOfPrefix(front, [cmds[n]], n);
      SumSizesOfPrefix(front, all[n..], n);
      assert all == front + all[n..];
    }
  }

  lemma NextIsThere(obj: ObjectFile, all: seq<Command>, cmds: seq<Command>)
    requires AllThere(obj, all) && Walked(obj, cmds) && |cmds| < |all|
    ensures var next := obj.start + SumSizes(cmds, |cmds|);
            && next < TWO_64 && obj.Read(next, 8).Ok? && next + obj.CommandAt(next).cmdsize <= obj.filesize
  {
    hide ObjectFile.Read, ObjectFile.Word, ObjectFile.Peek;
    WalksAgree(obj, cmds, all);
    var n := |cmds|;
    SumSizesOfPrefix(cmds, all[n..], n);
    assert all == cmds + all[n..];
    assert InPlace(obj, all, n);
  }

  /** Then nothing stops the walk. */
  lemma NothingStops(obj: ObjectFile, cmds: seq<Command>, error: Error)
    ensures WalkStops(obj, cmds, error) ==> !exists all :: AllThere(obj, all)
  {
    hide ObjectFile.Read, ObjectFile.CommandAt, InPlace, SumSizes;
    if WalkStops(obj, cmds, error) {
      if all :| AllThere(obj, all) {
        NextIsThere(obj, all, cmds);
      }
    }
  }

  lemma {:induction false} SumSizesGrow(cmds: seq<Command>, i: nat, j: nat)
    requires i <= j <= |cmds|
    ensures SumSizes(cmds, i) <= SumSizes(cmds, j)
    ensures i < j ==> SumSizes(cmds, i) + cmds[i].cmdsize <= SumSizes(cmds, j)
  {
    if i < j {
      SumSizesGrow(cmds, i, j - 1);
    }
  }

  /** So commands do not overlap, whatever sizes they claim. */
  lemma CommandsDoNotOverlap(obj: ObjectFile, cmds: seq<Command>, i: nat, j: nat)
    requires Walked(obj, cmds) && i < j < |cmds|
    ensures cmds[i].offset + cmds[i].cmdsize <= cmds[j].offset
    ensures cmds[j].offset + cmds[j].cmdsize <= obj.filesize
  {
    assert InPlace(obj, cmds, i) && InPlace(obj, cmds, j);
    SumSizesGrow(cmds, i, j);
  }

  lemma {:induction false} OffsetIsSum(obj: ObjectFile, cmds: seq<Command>, n: nat)
    requires n < |cmds|
    requires forall k | 0 <= k <= n ::
               cmds[k].offset == if k == 0 then obj.start as int else cmds[k - 1].offset + cmds[k - 1].cmdsize
    ensures cmds[n].offset == obj.start + SumSizes(cmds, n)
  {
    if n > 0 {
      OffsetIsSum(obj, cmds, n - 1);
    }
  }

  /** What the walk passed over: the first command where the commands start, each other one where the one before
      ends, all of them inside the file and as the file has them there. */
  lemma WalkedExactly(obj: ObjectFile, cmds: seq<Command>)
    requires obj.filesize < TWO_63
    ensures Walked(obj, cmds) <==>
            forall n | 0 <= n < |cmds| ::
              && cmds[n].offset == (if n == 0 then obj.start as int else cmds[n - 1].offset + cmds[n - 1].cmdsize)
              && cmds[n].offset + cmds[n].cmdsize <= obj.filesize
              && cmds[n] == obj.CommandAt(cmds[n].offset)
  {
    hide ObjectFile.Word, ObjectFile.Peek;
    if forall n | 0 <= n < |cmds| ::
         && cmds[n].offset == (if n == 0 then obj.start as int else cmds[n - 1].offset + cmds[n - 1].cmdsize)
         && cmds[n].offset + cmds[n].cmdsize <= obj.filesize
         && cmds[n] == obj.CommandAt(cmds[n].offset)
    {
      forall n | 0 <= n < |cmds| ensures InPlace(obj, cmds, n) {
        OffsetIsSum(obj, cmds, n);
      }
    }
    if Walked(obj, cmds) {
      forall n | 0 <= n < |cmds|
        ensures cmds[n].offset == (if n == 0 then obj.start as int else cmds[n - 1].offset + cmds[n - 1].cmdsize)
        ensures cmds[n].offset + cmds[n].cmdsize <= obj.filesize
        ensures cmds[n] == obj.CommandAt(cmds[n].offset)
      {
        assert InPlace(obj, cmds, n);
        assert n > 0 ==> InPlace(obj, cmds, n - 1);
      }
    }
  }

  // ---------------------------------------------------------------- segments

  predicate Numbers(kept: seq<nat>, n: nat) {
    forall k | 0 <= k < |kept| :: kept[k] < n
  }

  predicate IsSegment(c: Command) {
    c.cmd == LC_SEGMENT || c.cmd == LC_SEGMENT_64
  }

  /** The numbers of the segment commands among the first n. */
  function SegmentIndexes(cmds: seq<Command>, n: nat): (indexes: seq<nat>)
    requires n <= |cmds|
    ensures |indexes| <= n && Numbers(indexes, n)
    ensures forall i :: i in indexes <==> 0 <= i < n && IsSegment(cmds[i])
  {
    if n == 0 then []
    else SegmentIndexes(cmds, n - 1) + (if IsSegment(cmds[n - 1]) then [n - 1] else [])
  }

  lemma {:induction false} SegmentIndexesAscend(cmds: seq<Command>, n: nat)
    requires n <= |cmds|
    ensures forall j, k | 0 <= j < k < |SegmentIndexes(cmds, n)| ::
              SegmentIndexes(cmds, n)[j] < SegmentIndexes(cmds, n)[k]
  {
    if n > 0 {
      SegmentIndexesAscend(cmds, n - 1);
    }
  }

  lemma {:induction false} SegmentIndexesOfPrefix(cmds: seq<Command>, more: seq<Command>, n: nat)
    requires n <= |cmds|
    ensures SegmentIndexes(cmds + more, n) == SegmentIndexes(cmds, n)
  {
    if n > 0 {
      SegmentIndexesOfPrefix(cmds, more, n - 1);
    }
  }

  lemma SegmentIndexesStep(cmds: seq<Command>, c: Command)
    ensures |SegmentIndexes(cmds + [c], |cmds| + 1)| == |SegmentIndexes(cmds, |cmds|)| + if IsSegment(c) then 1 else 0
  {
    SegmentIndexesOfPrefix(cmds, [c], |cmds|);
  }

  lemma {:induction false} SegmentIndexesGrow(cmds: seq<Command>, m: nat, n: nat)
    requires m <= n <= |cmds|
    ensures |SegmentIndexes(cmds, m)| <= |SegmentIndexes(cmds, n)|
  {
    if m < n {
      SegmentIndexesGrow(cmds, m, n - 1);
    }
  }

  function SegmentOf(obj: ObjectFile, cmds: seq<Command>, i: nat): Segment
    requires i < |cmds|
  {
    obj.SegmentAt(cmds[i].cmd == LC_SEGMENT_64, cmds[i].offset, i)
  }

  /** The segment command with number i can be read and passes every check. */
  predicate SegmentAccepted(obj: ObjectFile, cmds: seq<Command>, i: nat)
    requires i < |cmds|
  {
    && obj.Read(cmds[i].offset, obj.SegmentRecordSize(cmds[i].cmd == LC_SEGMENT_64)).Ok?
    && SegmentChecked(obj, cmds[i], SegmentOf(obj, cmds, i))
  }

  predicate SegmentsAccepted(obj: ObjectFile, cmds: seq<Command>, n: nat)
    requires n <= |cmds|
  {
    forall i | 0 <= i < n && IsSegment(cmds[i]) :: SegmentAccepted(obj, cmds, i)
  }

  /** One slot for each segment command among the first n, in command order. */
  function SegmentTable(obj: ObjectFile, cmds: seq<Command>, n: nat): (segs: seq<Segment>)
    requires n <= |cmds|
    ensures |segs| == |SegmentIndexes(cmds, n)|
  {
    var indexes := SegmentIndexes(cmds, n);
    seq(|indexes|, k requires 0 <= k < |indexes| =>
      (assert indexes[k] in indexes; SegmentOf(obj, cmds, indexes[k])))
  }

  lemma SegmentTableStep(obj: ObjectFile, cmds: seq<Command>, n: nat)
    requires n < |cmds|
    ensures SegmentTable(obj, cmds, 0) == []
    ensures SegmentTable(obj, cmds, n + 1)
            == SegmentTable(obj, cmds, n) + (if IsSegment(cmds[n]) then [SegmentOf(obj, cmds, n)] else [])
  {
    hide SegmentOf;
  }

  lemma SegmentTableAt(obj: ObjectFile, cmds: seq<Command>, n: nat, k: nat)
    requires n <= |cmds| && k < |SegmentIndexes(cmds, n)|
    ensures var i := SegmentIndexes(cmds, n)[k];
            && i < n && IsSegment(cmds[i])
            && SegmentTable(obj, cmds, n)[k] == SegmentOf(obj, cmds, i)
            && SegmentTable(obj, cmds, n)[k].commandIndex == i
  {
    assert SegmentIndexes(cmds, n)[k] in SegmentIndexes(cmds, n);
    hide IsSegment, ObjectFile.SegmentAt;
  }

  ghost predicate SlotsNameCommands(obj: ObjectFile, cmds: seq<Command>, n: nat, table: seq<Segment>)
    requires n <= |cmds|
  {
    forall k | 0 <= k < |table| ::
      && table[k].commandIndex < n && IsSegment(cmds[table[k].commandIndex])
      && table[k] == SegmentOf(obj, cmds, table[k].commandIndex)
  }

  ghost predicate CommandsHaveSlots(cmds: seq<Command>, n: nat, table: seq<Segment>)
    requires n <= |cmds|
  {
    forall i | 0 <= i < n && IsSegment(cmds[i]) :: exists k :: 0 <= k < |table| && table[k].commandIndex == i
  }

  ghost predicate SlotsAscend(table: seq<Segment>) {
    forall j, k | 0 <= j < k < |table| :: table[j].commandIndex < table[k].commandIndex
  }

  lemma TableHasSlots(obj: ObjectFile, cmds: seq<Command>, n: nat)
    requires n <= |cmds|
    ensures CommandsHaveSlots(cmds, n, SegmentTable(obj, cmds, n))
  {
    var table, indexes := SegmentTable(obj, cmds, n), SegmentIndexes(cmds, n);
    hide SegmentTable, SegmentIndexes, SegmentOf, IsSegment, Numbers;
    forall i | 0 <= i < n && IsSegment(cmds[i])
      ensures exists k :: 0 <= k < |table| && table[k].commandIndex == i
    {
      var k :| 0 <= k < |indexes| && indexes[k] == i;
      SegmentTableAt(obj, cmds, n, k);
      assert table[k].commandIndex == i;
    }
  }

  /** The table is in order-preserving one-to-one correspondence with the segment commands: every slot
      holds the segment command it names, every segment command has a slot, and the slots are in the
      order of the commands. */
  lemma SegmentTableIsBijective(obj: ObjectFile, cmds: seq<Command>, n: nat)
    requires n <= |cmds|
    ensures SlotsNameCommands(obj, cmds, n, SegmentTable(obj, cmds, n))
    ensures CommandsHaveSlots(cmds, n, SegmentTable(obj, cmds, n))
    ensures SlotsAscend(SegmentTable(obj, cmds, n))
  {
    TableHasSlots(obj, cmds, n);
    SegmentIndexesAscend(cmds, n);
    var table, indexes := SegmentTable(obj, cmds, n), SegmentIndexes(cmds, n);
    hide SegmentTable, SegmentIndexes, SegmentOf, IsSegment, Numbers, CommandsHaveSlots;
    forall k | 0 <= k < |table|
      ensures table[k].commandIndex == indexes[k]
      ensures indexes[k] < n && IsSegment(cmds[indexes[k]]) && table[k] == SegmentOf(obj, cmds, indexes[k])
    {
      SegmentTableAt(obj, cmds, n, k);
    }
  }

  // ---------------------------------------------------------------- sections

  /** The segments whose sections are not wanted. */
  predicate Skipped(s: Segment) {
    s.segname == Ascii("__PAGEZERO") || s.segname == Ascii("__LINKEDIT") || s.segname == Ascii("__DATA")
  }

  /** Their names, byte by byte: __PAGEZERO, __LINKEDIT and __DATA. So a __DWARF segment never is one of them. */
  lemma SkippedExactly(s: Segment)
    ensures Skipped(s) <==>
            s.segname in {[95, 95, 80, 65, 71, 69, 90, 69, 82, 79], [95, 95, 76, 73, 78, 75, 69, 68, 73, 84],
                          [95, 95, 68, 65, 84, 65]}
    ensures s.segname == [95, 95, 68, 87, 65, 82, 70] ==> s.segname == DWARF_SEGMENT && !Skipped(s)
  {
    assert Ascii("__PAGEZERO") == [95, 95, 80, 65, 71, 69, 90, 69, 82, 79];
    assert Ascii("__LINKEDIT") == [95, 95, 76, 73, 78, 75, 69, 68, 73, 84];
    assert Ascii("__DATA") == [95, 95, 68, 65, 84, 65];
    assert DWARF_SEGMENT == [95, 95, 68, 87, 65, 82, 70];
    hide Ascii;
  }

  /** The numbers of the segments among the first n whose sections belong in the table, leaving out those
      that no memory was found for. */
  function Eligible(segs: seq<Segment>, refused: set<nat>, n: nat): (kept: seq<nat>)
    requires n <= |segs|
    ensures Numbers(kept, n)
  {
    if n == 0 then []
    else Eligible(segs, refused, n - 1) + (if Skipped(segs[n - 1]) || n - 1 in refused then [] else [n - 1])
  }

  /** In ascending order, with nothing left out or added. */
  lemma {:induction false} EligibleExactly(segs: seq<Segment>, refused: set<nat>, n: nat)
    requires n <= |segs|
    ensures forall i :: i in Eligible(segs, refused, n) <==> 0 <= i < n && !Skipped(segs[i]) && i !in refused
    ensures forall j, k | 0 <= j < k < |Eligible(segs, refused, n)| ::
              Eligible(segs, refused, n)[j] < Eligible(segs, refused, n)[k]
  {
    hide Skipped;
    if n > 0 {
      EligibleExactly(segs, refused, n - 1);
    }
  }

  lemma EligibleStep(segs: seq<Segment>, refused: set<nat>, n: nat)
    requires n < |segs|
    ensures Eligible(segs, refused, n + 1)
            == if Skipped(segs[n]) || n in refused then Eligible(segs, refused, n) else Eligible(segs, refused, n) + [n]
  {
    hide Skipped;
  }

  /** A segment that was not reached yet changes nothing when it is refused memory. */
  lemma {:induction false} RefusedLater(segs: seq<Segment>, refused: set<nat>, i: nat, n: nat)
    requires n <= i && n <= |segs|
    ensures Eligible(segs, refused + {i}, n) == Eligible(segs, refused, n)
  {
    hide Skipped, Eligible;
    if n == 0 {
      NothingToLose(segs, refused);
      NothingToLose(segs, refused + {i});
    } else {
      RefusedLater(segs, refused, i, n - 1);
      EligibleStep(segs, refused, n - 1);
      EligibleStep(segs, refused + {i}, n - 1);
    }
  }

  function RecordOffset(obj: ObjectFile, s: Segment, k: nat): nat {
    s.sectionsoffset + if obj.Wide() then 80 * k else 68 * k
  }

  /** The first n sections of segment i: record after record from where the segment command ends. */
  function SectionsOf(obj: ObjectFile, segs: seq<Segment>, i: nat, n: nat): (sections: seq<Section>)
    requires i < |segs|
    ensures |sections| == n
  {
    seq(n, k requires 0 <= k < n => obj.SectionAt(Wrap(RecordOffset(obj, segs[i], k)), i))
  }

  /** A section record lies inside the file, can be read and passes every check. */
  predicate RecordAccepted(obj: ObjectFile, off: u64, segi: nat) {
    && off + obj.SectionRecordSize() <= obj.filesize
    && obj.Read(off, obj.SectionRecordSize()).Ok?
    && SectionChecked(obj, obj.SectionAt(off, segi))
  }

  /** So do the first n records of a segment. */
  predicate RecordsAccepted(obj: ObjectFile, s: Segment, segi: nat, n: nat) {
    forall k | 0 <= k < n :: RecordAccepted(obj, Wrap(RecordOffset(obj, s, k)), segi)
  }

  lemma RecordsAcceptedStep(obj: ObjectFile, s: Segment, segi: nat, n: nat, all: nat)
    requires n < all
    ensures RecordsAccepted(obj, s, segi, n + 1)
            <==> RecordsAccepted(obj, s, segi, n) && RecordAccepted(obj, Wrap(RecordOffset(obj, s, n)), segi)
    ensures RecordsAccepted(obj, s, segi, all) ==> RecordAccepted(obj, Wrap(RecordOffset(obj, s, n)), segi)
  {
    hide RecordAccepted, RecordOffset, Wrap;
  }

  /** Entry k of segment s records s and its own place in the file. */
  lemma EntriesRecordTheirPlace(obj: ObjectFile, segs: seq<Segment>, i: nat, n: nat, k: nat)
    requires i < |segs| && k < n && RecordOffset(obj, segs[i], k) < TWO_64
    ensures var entry := SectionsOf(obj, segs, i, n)[k];
            entry.segmentNum == i && entry.offsetOfRecord == RecordOffset(obj, segs[i], k)
  {
    assert Wrap(RecordOffset(obj, segs[i], k)) == RecordOffset(obj, segs[i], k);
    hide ObjectFile.SectionAt;
  }

  /** The sections of the given segments, one segment after the other. */
  function Concatenation(obj: ObjectFile, segs: seq<Segment>, kept: seq<nat>): seq<Section>
    requires Numbers(kept, |segs|)
  {
    if kept == [] then []
    else
      var last := kept[|kept| - 1];
      Concatenation(obj, segs, kept[..|kept| - 1]) + SectionsOf(obj, segs, last, segs[last].nsects)
  }

  /** The null entry: zeros but for one field. */
  function NullSection(offset: u64): Section {
    Section([], [], 0, 0, 0, 0, 0, 0, 0, 0, offset)
  }

  /** The section table: nothing, or the null entry and all sections of the given segments. */
  function Table(obj: ObjectFile, segs: seq<Segment>, kept: seq<nat>): seq<Section>
    requires Numbers(kept, |segs|)
  {
    if kept == [] then []
    else [NullSection(segs[kept[0]].sectionsoffset)] + Concatenation(obj, segs, kept)
  }

  lemma ConcatenationGrows(obj: ObjectFile, segs: seq<Segment>, kept: seq<nat>, i: nat)
    requires i < |segs| && Numbers(kept, |segs|)
    ensures Concatenation(obj, segs, kept + [i])
            == Concatenation(obj, segs, kept) + SectionsOf(obj, segs, i, segs[i].nsects)
  {
    assert (kept + [i])[..|kept|] == kept;
    hide SectionsOf;
  }

  /** The number of sections in the first j of the given segments. */
  function CountBefore(segs: seq<Segment>, kept: seq<nat>, j: nat): nat
    requires Numbers(kept, |segs|) && j <= |kept|
  {
    if j == 0 then 0 else CountBefore(segs, kept, j - 1) + segs[kept[j - 1]].nsects
  }

  lemma {:induction false} CountBeforeOfPrefix(segs: seq<Segment>, kept: seq<nat>, i: nat, j: nat)
    requires j <= i <= |kept| && Numbers(kept, |segs|)
    ensures Numbers(kept[..i], |segs|) && CountBefore(segs, kept[..i], j) == CountBefore(segs, kept, j)
  {
    if j > 0 {
      CountBeforeOfPrefix(segs, kept, i, j - 1);
    }
  }

  lemma LastOfConcatenation(obj: ObjectFile, segs: seq<Segment>, kept: seq<nat>)
    requires Numbers(kept, |segs|) && kept != []
    ensures var n := |kept| - 1;
            && Numbers(kept[..n], |segs|)
            && Concatenation(obj, segs, kept)
               == Concatenation(obj, segs, kept[..n]) + SectionsOf(obj, segs, kept[n], segs[kept[n]].nsects)
  {
    hide SectionsOf;
  }

  lemma NumbersAt(kept: seq<nat>, n: nat, j: nat)
    requires Numbers(kept, n) && j < |kept|
    ensures kept[j] < n
  {
  }

  lemma {:induction false} ConcatenationSize(obj: ObjectFile, segs: seq<Segment>, kept: seq<nat>)
    requires Numbers(kept, |segs|)
    ensures |Concatenation(obj, segs, kept)| == CountBefore(segs, kept, |kept|)
  {
    if kept != [] {
      var n := |kept| - 1;
      LastOfConcatenation(obj, segs, kept);
      CountBeforeOfPrefix(segs, kept, n, n);
      ConcatenationSize(obj, segs, kept[..n]);
    }
    hide SectionsOf;
  }

  lemma SectionsOfSize(obj: ObjectFile, segs: seq<Segment>, i: nat, n: nat)
    requires i < |segs|
    ensures |SectionsOf(obj, segs, i, n)| == n
  {
  }

  lemma {:induction false} PlaceInConcatenation(obj: ObjectFile, segs: seq<Segment>, kept: seq<nat>, j: nat, k: nat)
    requires Numbers(kept, |segs|) && j < |kept| && k < segs[kept[j]].nsects
    ensures CountBefore(segs, kept, j) + k < |Concatenation(obj, segs, kept)|
    ensures Concatenation(obj, segs, kept)[CountBefore(segs, kept, j) + k]
            == SectionsOf(obj, segs, kept[j], segs[kept[j]].nsects)[k]
    decreases |kept|
  {
    hide *;
    var n := |kept| - 1;
    NumbersAt(kept, |segs|, n);
    NumbersAt(kept, |segs|, j);
    LastOfConcatenation(obj, segs, kept);
    SectionsOfSize(obj, segs, kept[n], segs[kept[n]].nsects);
    if j < n {
      CountBeforeOfPrefix(segs, kept, n, j);
      PlaceInConcatenation(obj, segs, kept[..n], j, k);
    } else {
      CountBeforeOfPrefix(segs, kept, n, n);
      ConcatenationSize(obj, segs, kept[..n]);
    }
  }

  /** A section table is an entry of zeros, but for the place of the first record, and all the sections. */
  lemma TableStartsWithNull(obj: ObjectFile, segs: seq<Segment>, kept: seq<nat>)
    requires Numbers(kept, |segs|) && kept != []
    ensures |Table(obj, segs, kept)| == 1 + CountBefore(segs, kept, |kept|)
    ensures Table(obj, segs, kept)[0] == Section([], [], 0, 0, 0, 0, 0, 0, 0, 0, segs[kept[0]].sectionsoffset)
    ensures Table(obj, segs, kept)[1..] == Concatenation(obj, segs, kept)
  {
    ConcatenationSize(obj, segs, kept);
    hide Concatenation, CountBefore;
  }

  lemma RecordPlace(obj: ObjectFile, segs: seq<Segment>, i: nat, n: nat, k: nat)
    requires i < |segs| && k < n && segs[i].sectionsoffset + 80 * k < TWO_64
    ensures SectionsOf(obj, segs, i, n)[k]
            == obj.SectionAt(segs[i].sectionsoffset + (if obj.offsetsize == 32 then 68 else 80) * k, i)
  {
    hide ObjectFile.SectionAt;
    assert Wrap(RecordOffset(obj, segs[i], k)) == RecordOffset(obj, segs[i], k);
  }

  /** Record k of the j-th segment in the table comes after the null entry and all sections of the segments
      before it. */
  lemma TableEntries(obj: ObjectFile, segs: seq<Segment>, kept: seq<nat>, j: nat, k: nat)
    requires Numbers(kept, |segs|) && j < |kept| && k < segs[kept[j]].nsects
    requires segs[kept[j]].sectionsoffset + 80 * k < TWO_64
    ensures 1 + CountBefore(segs, kept, j) + k < |Table(obj, segs, kept)|
    ensures Table(obj, segs, kept)[1 + CountBefore(segs, kept, j) + k]
            == obj.SectionAt(segs[kept[j]].sectionsoffset + (if obj.offsetsize == 32 then 68 else 80) * k, kept[j])
  {
    hide *;
    NumbersAt(kept, |segs|, j);
    TableStartsWithNull(obj, segs, kept);
    PlaceInConcatenation(obj, segs, kept, j, k);
    RecordPlace(obj, segs, kept[j], segs[kept[j]].nsects, k);
    assert Table(obj, segs, kept)[1 + CountBefore(segs, kept, j) + k]
        == Table(obj, segs, kept)[1..][CountBefore(segs, kept, j) + k];
  }

  /** What one more segment adds. */
  lemma TableGrows(obj: ObjectFile, segs: seq<Segment>, kept: seq<nat>, i: nat)
    requires i < |segs| && Numbers(kept, |segs|)
    ensures Table(obj, segs, kept + [i])
            == (if kept == [] then [NullSection(segs[i].sectionsoffset)] else Table(obj, segs, kept))
               + SectionsOf(obj, segs, i, segs[i].nsects)
  {
    ConcatenationGrows(obj, segs, kept, i);
    assert (kept + [i])[0] == if kept == [] then i else kept[0];
    assert Concatenation(obj, segs, []) == [];
    hide SectionsOf, Concatenation;
  }

  /** Entries found early keep their places in every larger table. */
  lemma {:induction false} EntriesSurvive(obj: ObjectFile, segs: seq<Segment>, kept: seq<nat>, more: seq<nat>)
    requires Numbers(kept + more, |segs|)
    ensures Numbers(kept, |segs|)
    ensures Table(obj, segs, kept) <= Table(obj, segs, kept + more)
  {
    NumbersOfPrefix(kept, more, |segs|);
    if more == [] {
      assert kept + more == kept;
    } else {
      var n := |more| - 1;
      var most := kept + more[..n];
      assert kept + more == most + [more[n]];
      NumbersOfPrefix(most, [more[n]], |segs|);
      assert (most + [more[n]])[|most|] == more[n];
      EntriesSurvive(obj, segs, kept, more[..n]);
      TableGrows(obj, segs, most, more[n]);
      EmptyTable(obj, segs);
    }
    hide SectionsOf, Table, Numbers;
  }

  lemma NumbersOfPrefix(kept: seq<nat>, more: seq<nat>, n: nat)
    requires Numbers(kept + more, n)
    ensures Numbers(kept, n)
  {
    forall k | 0 <= k < |kept|
      ensures kept[k] < n
    {
      assert (kept + more)[k] == kept[k];
    }
  }

  lemma EmptyTable(obj: ObjectFile, segs: seq<Segment>)
    ensures Table(obj, segs, []) == []
  {
  }

  lemma EligibleSoFar(segs: seq<Segment>, refused: set<nat>, m: nat, n: nat) returns (more: seq<nat>)
    requires m <= n <= |segs|
    ensures Eligible(segs, refused, n) == Eligible(segs, refused, m) + more
    decreases n
  {
    hide *;
    more := [];
    if m < n {
      more := EligibleSoFar(segs, refused, m, n - 1);
      EligibleStep(segs, refused, n - 1);
      if !Skipped(segs[n - 1]) && n - 1 !in refused {
        more := more + [n - 1];
      }
    }
  }

  /** All sections of the segments that are not skipped can be loaded; in 32-bit objects the table as a whole,
      at 160 bytes an entry, must not be larger than the file. */
  ghost predicate Loadable(obj: ObjectFile, segs: seq<Segment>) {
    && obj.offsetsize in {32, 64} && obj.inner + obj.filesize < TWO_64
    && (forall i | 0 <= i < |segs| && !Skipped(segs[i]) :: RecordsAccepted(obj, segs[i], i, segs[i].nsects))
    && (!obj.Wide() ==>
          Numbers(Eligible(segs, {}, |segs|), |segs|)
          && 160 * |Table(obj, segs, Eligible(segs, {}, |segs|))| <= obj.filesize)
  }

  /** In a loadable object the table fits at every step. */
  lemma TableFitsSoFar(obj: ObjectFile, segs: seq<Segment>, i: nat)
    requires i < |segs| && Loadable(obj, segs) && !obj.Wide() && !Skipped(segs[i])
    requires Eligible(segs, {}, i) != []
    ensures 160 * (|Table(obj, segs, Eligible(segs, {}, i))| + segs[i].nsects) <= obj.filesize
  {
    var kept := Eligible(segs, {}, i);
    var more := EligibleSoFar(segs, {}, i + 1, |segs|);
    EligibleStep(segs, {}, i);
    TableGrows(obj, segs, kept, i);
    EntriesSurvive(obj, segs, kept + [i], more);
    SectionsOfSize(obj, segs, i, segs[i].nsects);
    hide Table, SectionsOf, Eligible, RecordsAccepted, Skipped;
  }

  // ---------------------------------------------------------------- what refused memory costs

  /** The number of sections in segments that memory was refused for. */
  function Lost(segs: seq<Segment>, refused: set<nat>, n: nat): nat
    requires n <= |segs|
  {
    if n == 0 then 0
    else Lost(segs, refused, n - 1) + (if n - 1 in refused && !Skipped(segs[n - 1]) then segs[n - 1].nsects else 0)
  }

  lemma {:induction false} NothingLost(segs: seq<Segment>, refused: set<nat>, n: nat)
    requires n <= |segs|
    ensures Lost(segs, refused, n) == 0 <==>
            forall i | 0 <= i < n && i in refused && !Skipped(segs[i]) :: segs[i].nsects == 0
  {
    if n > 0 {
      NothingLost(segs, refused, n - 1);
    }
  }

  lemma LostStep(segs: seq<Segment>, refused: set<nat>, n: nat)
    requires n < |segs|
    ensures Lost(segs, refused, n + 1)
            == Lost(segs, refused, n) + if n in refused && !Skipped(segs[n]) then segs[n].nsects else 0
  {
    hide Skipped;
  }

  lemma NothingToLose(segs: seq<Segment>, refused: set<nat>)
    ensures Lost(segs, refused, 0) == 0
    ensures Eligible(segs, refused, 0) == []
  {
  }

  lemma {:induction false} LossIsExact(obj: ObjectFile, segs: seq<Segment>, refused: set<nat>, n: nat)
    requires n <= |segs|
    ensures Numbers(Eligible(segs, refused, n), |segs|) && Numbers(Eligible(segs, {}, n), |segs|)
    ensures |Concatenation(obj, segs, Eligible(segs, refused, n))| + Lost(segs, refused, n)
            == |Concatenation(obj, segs, Eligible(segs, {}, n))|
    ensures Lost(segs, refused, n) == 0 ==>
              Concatenation(obj, segs, Eligible(segs, refused, n)) == Concatenation(obj, segs, Eligible(segs, {}, n))
  {
    hide SectionsOf, Concatenation, Lost, Eligible, Skipped;
    if n == 0 {
      NothingToLose(segs, refused);
      NothingToLose(segs, {});
    } else {
      var m := n - 1;
      LossIsExact(obj, segs, refused, m);
      LostStep(segs, refused, m);
      EligibleStep(segs, refused, m);
      EligibleStep(segs, {}, m);
      ConcatenationGrows(obj, segs, Eligible(segs, refused, m), m);
      ConcatenationGrows(obj, segs, Eligible(segs, {}, m), m);
      NoSections(obj, segs, m, Concatenation(obj, segs, Eligible(segs, {}, m)));
    }
  }

  lemma NoSections(obj: ObjectFile, segs: seq<Segment>, i: nat, before: seq<Section>)
    requires i < |segs|
    ensures segs[i].nsects == 0 ==> before + SectionsOf(obj, segs, i, segs[i].nsects) == before
  {
  }

  /** A table that was made holds every section of every eligible segment if and only if no memory was
      refused for a segment that has sections. */
  lemma CompleteUnlessRefused(obj: ObjectFile, segs: seq<Segment>, refused: set<nat>)
    requires Numbers(Eligible(segs, refused, |segs|), |segs|) && Eligible(segs, refused, |segs|) != []
    requires Numbers(Eligible(segs, {}, |segs|), |segs|)
    ensures Table(obj, segs, Eligible(segs, refused, |segs|))[1..]
            == Concatenation(obj, segs, Eligible(segs, {}, |segs|))
            <==> forall i | 0 <= i < |segs| && i in refused && !Skipped(segs[i]) :: segs[i].nsects == 0
  {
    LossIsExact(obj, segs, refused, |segs|);
    NothingLost(segs, refused, |segs|);
    var kept := Eligible(segs, refused, |segs|);
    assert Table(obj, segs, kept)[1..] == Concatenation(obj, segs, kept);
    hide *;
  }
}
