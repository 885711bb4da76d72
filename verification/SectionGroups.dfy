/** Grouping the sections of an ELF object: the SHT_GROUP pass and the pass over DWARF-named sections. */
module SectionGroups {
  import opened Words
  import opened Outcomes
  import opened ByteOrder
  import opened FileAccess
  import opened GroupWords
  import opened SectionTable

  lemma NumberOneMore(before: seq<Section>, now: seq<Section>, n: nat)
    requires n < |before| && NumberedUpTo(before, now, n)
    ensures |now| == |before| && now[n] == before[n]
    ensures !(IsDwo(before[n]) && before[n].groupNumber != 0) ==>
              NumberedUpTo(before, now[n := Numbered(now[n])], n + 1)
  {
    hide Numbered, IsDwo;
  }

  lemma NumberingStarts(before: seq<Section>)
    ensures NumberedUpTo(before, before, 0) && |DwoSections(before, 0)| == 0
  {
    hide Numbered, IsDwo;
  }

  ghost predicate SizesKnown(before: seq<Section>) {
    forall j | Visited(j, |before|) && IsLiveGroup(before[j]) :: before[j].entsize > 0
  }

  lemma SizeKnown(before: seq<Section>, n: nat)
    requires SizesKnown(before) && Visited(n, |before|)
    ensures n < |before| && (IsLiveGroup(before[n]) ==> before[n].entsize > 0)
  {
    hide IsLiveGroup;
  }

  lemma FirstPassStarts(arrays: seq<Option<seq<u64>>>, before: seq<Section>)
    requires |arrays| == |before|
    requires forall j | 0 <= j < |before| :: before[j].groupArray.None?
    ensures ReadUpTo(arrays, before, before, [], 0)
    ensures |FlaggedSections(before, 0)| == 0
  {
  }

  /** One round of the first pass, in terms of what its steps guarantee. */
  lemma FirstPassStep(host: Order, file: seq<byte>, filesize: u64, before: seq<Section>, seen: seq<Section>,
                      groups: seq<nat>, n: nat, number: nat)
    requires filesize < 0x8000_0000_0000_0000 && n < |before|
    requires ReadUpTo(Arrays(host, file, filesize, before), before, seen, groups, n)
    requires IsLiveGroup(before[n]) ==> before[n].entsize > 0
    ensures |seen| == |before| && Header(seen[n]) == Header(before[n]) && seen[n].groupArray.None?
    ensures IsLiveGroup(seen[n]) <==> IsLiveGroup(before[n])
    ensures IsLiveGroup(seen[n]) ==> seen[n].entsize > 0
    ensures !IsLiveGroup(seen[n]) ==>
              ReadUpTo(Arrays(host, file, filesize, before), before, seen, groups, n + 1)
    ensures IsLiveGroup(seen[n]) && Verdict(host, file, filesize, seen, n).Ok? ==>
              var v := Verdict(host, file, filesize, seen, n).value;
              && Arrays(host, file, filesize, before)[n] == Some(v)
              && ReadUpTo(Arrays(host, file, filesize, before), before, WithGroup(seen, n, v, number),
                          GroupsAfter(groups, n, v), n + 1)
    ensures |FlaggedSections(before, n + 1)|
            == |FlaggedSections(before, n)| + (if IsFlagged(seen[n]) then 1 else 0)
  {
    var arrays := Arrays(host, file, filesize, before);
    OneMoreFlagged(before, n);
    assert Header(seen[n]) == Header(before[n]);
    hide WithGroup, CanGroup, AllListed, GroupData, EndsWith;
    if !IsLiveGroup(seen[n]) {
      SkipNext(arrays, before, seen, groups, n);
    } else if Verdict(host, file, filesize, seen, n).Ok? {
      VerdictIsArray(host, file, filesize, seen, n);
      ReadNext(arrays, before, seen, groups, n, Verdict(host, file, filesize, seen, n).value, number);
    }
  }

  function VisitedCount(count: nat): nat {
    if count == 0 then 0 else count - 1
  }

  /** The passes count from 1 and look at the section before. */
  lemma ToVisit(count: nat, i: nat)
    ensures count == 0 ==> VisitedCount(count) == 0
    ensures 1 <= i < count ==> Visited(i - 1, count) && i <= VisitedCount(count)
    ensures 1 <= count <= i && i - 1 <= VisitedCount(count) ==> i - 1 == VisitedCount(count)
    ensures count == 0 && i == 1 ==> i - 1 == VisitedCount(count)
  {
  }

  function WordCount(data: seq<byte>): (count: nat)
    requires |data| >= 4
    ensures count > 0 && 4 * count <= |data|
  {
    |data| / 4
  }

  lemma VerdictOf(host: Order, file: seq<byte>, filesize: u64, sections: seq<Section>, s: nat)
    requires s < |sections| && sections[s].entsize > 0 && filesize < 0x8000_0000_0000_0000
    ensures var data := GroupData(host, file, filesize, |sections|, sections[s]);
            var v := Verdict(host, file, filesize, sections, s);
            && (!data.Ok? ==> data.Failed? && v == Failed(data.error))
            && (data.Ok? ==>
                  var all := AllListed(host, data.value);
                  && |data.value| >= 4 && all == Listed(host, data.value, WordCount(data.value) - 1)
                  && (CanGroup(sections, all) ==> v == Ok([1] + all))
                  && (!CanGroup(sections, all) ==> v == Failed(GroupError)))
  {
    hide CanGroup, Listed;
  }

  lemma NoneMarked(sections: seq<Section>, n: nat)
    ensures Marked(sections, [], n) == sections
  {
  }

  /** What number 2 means in the end, and how often it was given. */
  lemma NumberedTwo(mid: seq<Section>, final: seq<Section>, groups: seq<nat>)
    requires Partition(mid, groups) && NumberedUpTo(mid, final, VisitedCount(|mid|))
    ensures |final| == |mid|
    ensures forall j | 0 <= j < |final| :: final[j].groupNumber == 2 <==> j < |final| - 1 && IsDwo(final[j])
    ensures |DwoSections(mid, VisitedCount(|mid|))| == |set j: nat | j < |final| && final[j].groupNumber == 2|
  {
    forall j | 0 <= j < |mid|
      ensures final[j].groupNumber == 2 <==> j < |mid| - 1 && IsDwo(final[j])
    {
      NumbersAfterBothPasses(mid, final, groups, j);
    }
    DwoCountIsExact(mid, final, groups);
    hide Partition, IsDwo, Numbered, DwoSections;
  }

  lemma MarkedOneMore(before: seq<Section>, front: seq<u64>, v: u64, n: nat)
    requires v < |before|
    ensures Marked(before, front + [v], n)
            == Marked(before, front, n)[v := Marked(before, front, n)[v].(groupNumber := n)]
  {
    assert forall j | 0 <= j < |before| :: j in front + [v] <==> j in front || j == v;
  }

  lemma CanGroupOneMore(before: seq<Section>, front: seq<u64>, v: u64, n: nat)
    requires CanGroup(before, front) && n > 0
    ensures CanGroup(before, front + [v]) <==>
            0 < v < |before| && Marked(before, front, n)[v].groupNumber == 0
  {
    assert (front + [v])[..|front|] == front;
  }

  lemma {:induction false} PrefixCannotGroup(host: Order, data: seq<byte>, sections: seq<Section>, n: nat)
    requires |data| >= 4 && n < WordCount(data)
    requires !CanGroup(sections, Listed(host, data, n))
    ensures !CanGroup(sections, AllListed(host, data))
    decreases WordCount(data) - n
  {
    hide GroupEntry;
    if n + 1 < WordCount(data) {
      var more := Listed(host, data, n + 1);
      assert more[..n] == Listed(host, data, n);
      PrefixCannotGroup(host, data, sections, n + 1);
    }
  }

  /** The part of elf_filedata that holds the sections and their grouping. */
  class ElfGroups {
    const memory: Memory
    const host: Order
    const file: seq<byte>
    const filesize: u64
    const sections: array<Section>
    var nextGroupNumber: nat
    var shtGroupTypeSectionCount: nat
    var shfGroupFlagSectionCount: nat
    var dwoGroupSectionCount: nat

    ghost var groups: seq<nat>

    ghost predicate Valid()
      reads this, sections
    {
      && filesize < TWO_63
      && Partition(sections[..], groups)
      && nextGroupNumber == FIRST_GROUP + |groups|
      && shtGroupTypeSectionCount == |groups|
    }

    constructor (memory: Memory, host: Order, file: seq<byte>, filesize: u64, sections: array<Section>)
      requires filesize < TWO_63
      requires forall j | 0 <= j < sections.Length :: sections[j].groupNumber == 0 && sections[j].groupArray.None?
      ensures Valid() && groups == []
      ensures this.memory == memory && this.host == host && this.file == file
      ensures this.filesize == filesize && this.sections == sections
      ensures shfGroupFlagSectionCount == dwoGroupSectionCount == 0
    {
      this.memory, this.host, this.file, this.filesize, this.sections := memory, host, file, filesize, sections;
      nextGroupNumber := FIRST_GROUP;
      shtGroupTypeSectionCount, shfGroupFlagSectionCount, dwoGroupSectionCount := 0, 0, 0;
      groups := [];
    }

    /** Reads one entry and marks the section it names, unless there is no such section or it is
        in a group already. */
    method TakeEntry(word: seq<byte>) returns (ok: bool, lesser: u64)
      requires |word| == 4
      modifies sections
      ensures lesser == GroupEntry(host, word)
      ensures ok <==> 0 < lesser < sections.Length && old(sections[..])[lesser].groupNumber == 0
      ensures ok ==>
                sections[..]
                == old(sections[..])[lesser := old(sections[..])[lesser].(groupNumber := nextGroupNumber)]
      ensures !ok ==> sections[..] == old(sections[..])
    {
      var gsecb := FieldLoad(host, true, word);
      lesser := GroupEntry(host, word);
      FieldLoadReadsOrder(host, true, word);
      if lesser == 0 {
        return false, lesser;
      }
      if lesser >= sections.Length {
        if gsecb >= sections.Length {
          return false, lesser;
        }
      }
      if sections[lesser].groupNumber != 0 {
        return false, lesser;
      }
      sections[lesser] := sections[lesser].(groupNumber := nextGroupNumber);
      return true, lesser;
    }

    /** Reads the entries after the flag word, marking each listed section as it goes and stopping
        at the first that cannot join the group. */
    method ReadEntries(data: seq<byte>, count: nat) returns (ok: bool, listed: seq<u64>)
      requires count > 0 && 4 * count <= |data| && nextGroupNumber > 0
      modifies sections
      ensures |listed| < count && listed == Listed(host, data, |listed|)
      ensures sections[..] == Marked(old(sections[..]), listed, nextGroupNumber)
      ensures CanGroup(old(sections[..]), listed)
      ensures ok ==> |listed| == count - 1
      ensures !ok ==> |listed| + 1 < count && !CanGroup(old(sections[..]), Listed(host, data, |listed| + 1))
    {
      ghost var before := sections[..];
      ok, listed := true, [];
      assert CanGroup(before, listed) && Marked(before, listed, nextGroupNumber) == before;
      assert listed == Listed(host, data, 0);
      hide *;
      for i := 1 to count
        invariant ok && |listed| == i - 1
        invariant listed == Listed(host, data, |listed|)
        invariant sections[..] == Marked(before, listed, nextGroupNumber)
        invariant CanGroup(before, listed)
      {
        ListedOneMore(host, data, |listed|);
        var lesser;
        ok, lesser := TakeEntry(WordAt(data, i));
        CanGroupOneMore(before, listed, lesser, nextGroupNumber);
        if !ok {
          return;
        }
        MarkedOneMore(before, listed, lesser, nextGroupNumber);
        listed := listed + [lesser];
      }
    }

    /** Reads and checks the data of a group section. */
    method ReadGroupData(psh: Section) returns (r: Result<seq<byte>>)
      requires psh.entsize > 0 && filesize < 0x8000_0000_0000_0000
      ensures (r == Failed(OutOfMemory) && memory.Scarce?) || r == GroupData(host, file, filesize, sections.Length, psh)
    {
      var seclen := psh.size;
      if seclen < 4 {
        return Failed(TooSmall);
      }
      var ok := Malloc(memory);
      if !ok {
        return Failed(OutOfMemory);
      }
      var count := seclen / psh.entsize;
      if count > sections.Length {
        return Failed(GroupError);
      }
      if psh.entsize != 4 {
        return Failed(BadTypeSize);
      }
      var data := ReadRandom(file, psh.offset, seclen, filesize);
      if data.Failed? {
        return data;
      }
      ok := Malloc(memory);
      if !ok {
        return Failed(OutOfMemory);
      }
      if !IsComdat(host, WordAt(data.value, 0)) {
        return Failed(GroupError);
      }
      return data;
    }

    lemma ValidMeans()
      requires Valid()
      ensures filesize < 0x8000_0000_0000_0000 && Partition(sections[..], groups)
      ensures nextGroupNumber == FIRST_GROUP + |groups| && nextGroupNumber > 0 && shtGroupTypeSectionCount == |groups|
    {
      hide Partition;
    }

    /** Stores the array of a group whose sections have all been marked. */
    method RecordGroup(s: nat, listed: seq<u64>, ghost before: seq<Section>)
      requires filesize < 0x8000_0000_0000_0000 && s < |before| == sections.Length && before[s].groupArray.None?
      requires Partition(before, groups)
      requires nextGroupNumber == FIRST_GROUP + |groups| && shtGroupTypeSectionCount == |groups|
      requires CanGroup(before, listed) && sections[..] == Marked(before, listed, nextGroupNumber)
      modifies this`nextGroupNumber, this`shtGroupTypeSectionCount, this`groups, sections
      ensures Valid()
      ensures sections[..] == WithGroup(before, s, [1] + listed, old(nextGroupNumber))
      ensures groups == GroupsAfter(old(groups), s, [1] + listed)
    {
      hide Partition, CanGroup, Marked;
      assert ([1] + listed)[1..] == listed;
      GroupingGrows(before, groups, s, [1] + listed);
      if |listed| > 0 {
        nextGroupNumber := nextGroupNumber + 1;
        shtGroupTypeSectionCount := shtGroupTypeSectionCount + 1;
      }
      groups := GroupsAfter(groups, s, [1] + listed);
      sections[s] := sections[s].(groupArray := Some([1] + listed));
    }

    /** Reads a group section that was not read before. */
    method ReadNewGroup(s: nat) returns (r: Result<()>, ghost marked: seq<u64>)
      requires Valid() && s < sections.Length && sections[s].entsize > 0 && sections[s].groupArray.None?
      modifies this`nextGroupNumber, this`shtGroupTypeSectionCount, this`groups, sections
      ensures r.Ok? ==>
                var v := old(Verdict(host, file, filesize, sections[..], s));
                && v.Ok? && Valid()
                && sections[..] == WithGroup(old(sections[..]), s, v.value, old(nextGroupNumber))
                && groups == GroupsAfter(old(groups), s, v.value)
      ensures !r.Ok? ==>
                && r.Failed?
                && (|| (r.error == OutOfMemory && memory.Scarce?)
                    || old(Verdict(host, file, filesize, sections[..], s)) == Failed(r.error))
                && nextGroupNumber == old(nextGroupNumber) && groups == old(groups)
                && sections[..] == Marked(old(sections[..]), marked, old(nextGroupNumber))
    {
      hide *;
      ghost var before := sections[..];
      ValidMeans();
      VerdictOf(host, file, filesize, before, s);
      NoneMarked(before, nextGroupNumber);
      marked := [];
      var data := ReadGroupData(sections[s]);
      if !data.Ok? {
        return Failed(data.error), marked;
      }
      var ok, listed := ReadEntries(data.value, WordCount(data.value));
      marked := listed;
      if !ok {
        PrefixCannotGroup(host, data.value, before, |listed| + 1);
        return Failed(GroupError), marked;
      }
      RecordGroup(s, listed, before);
      return Ok(()), marked;
    }

    /** Reads the SHT_GROUP section with index s, unless that was done before. Either the whole
        group is recorded, or the first of the code's checks to fail decides the error; then no
        array changes and only some of the listed sections have been marked. */
    method ReadSectionGroup(s: nat) returns (r: Result<()>)
      requires Valid() && s < sections.Length && sections[s].entsize > 0
      modifies this`nextGroupNumber, this`shtGroupTypeSectionCount, this`groups, sections
      ensures old(sections[s].groupArray).Some? ==>
                r == Ok(()) && sections[..] == old(sections[..]) && groups == old(groups)
      ensures old(sections[s].groupArray).None? && r.Ok? ==>
                var v := old(Verdict(host, file, filesize, sections[..], s));
                && v.Ok?
                && sections[..] == WithGroup(old(sections[..]), s, v.value, old(nextGroupNumber))
                && groups == GroupsAfter(old(groups), s, v.value)
      ensures r.Ok? ==> Valid()
      ensures !r.Ok? ==>
                && r.Failed?
                && (|| (r.error == OutOfMemory && memory.Scarce?)
                    || old(Verdict(host, file, filesize, sections[..], s)) == Failed(r.error))
                && nextGroupNumber == old(nextGroupNumber) && groups == old(groups)
                && exists listed :: sections[..] == Marked(old(sections[..]), listed, old(nextGroupNumber))
    {
      hide Valid, Verdict, WithGroup, Marked, GroupsAfter;
      r := Ok(());
      if sections[s].groupArray.None? {
        ghost var marked;
        r, marked := ReadNewGroup(s);
      }
    }

    /** Step A and B for one section: reads it if it is a live group, else counts its flag. */
    method VisitForGroups(n: nat) returns (r: Result<()>)
      requires Valid() && n < sections.Length && sections[n].groupArray.None?
      requires IsLiveGroup(sections[n]) ==> sections[n].entsize > 0
      modifies this`nextGroupNumber, this`shtGroupTypeSectionCount, this`shfGroupFlagSectionCount, this`groups, sections
      ensures !old(IsLiveGroup(sections[n])) ==>
                r == Ok(()) && sections[..] == old(sections[..]) && groups == old(groups)
      ensures old(IsLiveGroup(sections[n])) && r.Ok? ==>
                var v := old(Verdict(host, file, filesize, sections[..], n));
                && v.Ok?
                && sections[..] == WithGroup(old(sections[..]), n, v.value, old(nextGroupNumber))
                && groups == GroupsAfter(old(groups), n, v.value)
      ensures r.Ok? ==> Valid()
      ensures r.Ok? ==> shfGroupFlagSectionCount
                        == old(shfGroupFlagSectionCount) + (if old(IsFlagged(sections[n])) then 1 else 0)
      ensures !r.Ok? ==> r.Failed? && old(IsLiveGroup(sections[n]))
                         && (|| (r.error == OutOfMemory && memory.Scarce?)
                             || old(Verdict(host, file, filesize, sections[..], n)) == Failed(r.error))
    {
      hide Partition, Verdict, WithGroup;
      var psh := sections[n];
      if IsEmptySection(psh.kind) {
        return Ok(());
      }
      if !IsGroupSection(psh.kind, psh.name) {
        if FlagMatches(psh.flags) {
          shfGroupFlagSectionCount := shfGroupFlagSectionCount + 1;
        }
        return Ok(());
      }
      r := ReadSectionGroup(n);
    }

    /** The first pass failed at section n, after the sections before it had been dealt with. */
    ghost predicate FailsAt(before: seq<Section>, seen: seq<Section>, seenGroups: seq<nat>, n: nat, e: Error)
      requires filesize < TWO_63
    {
      && Visited(n, |before|)
      && ReadUpTo(Arrays(host, file, filesize, before), before, seen, seenGroups, n)
      && IsLiveGroup(seen[n]) && seen[n].entsize > 0
      && ((e == OutOfMemory && memory.Scarce?) || Verdict(host, file, filesize, seen, n) == Failed(e))
    }

    ghost predicate UngroupedWithSizes()
      reads sections
    {
      forall j | 0 <= j < sections.Length ::
        && sections[j].groupArray.None?
        && (Visited(j, sections.Length) && IsLiveGroup(sections[j]) ==> sections[j].entsize > 0)
    }

    /** The state of the first pass over the given sections after n of them. */
    ghost predicate FirstPassAt(before: seq<Section>, flagged: nat, n: nat)
      reads this, sections
    {
      && filesize < TWO_63
      && Valid()
      && |before| == sections.Length
      && ReadUpTo(Arrays(host, file, filesize, before), before, sections[..], groups, n)
      && (forall j | 0 <= j < n && j < |before| && IsLiveGroup(before[j]) ::
            Arrays(host, file, filesize, before)[j].Some?)
      && shfGroupFlagSectionCount == flagged + |FlaggedSections(before, n)|
    }

    lemma FirstPassBegins()
      requires Valid() && groups == [] && UngroupedWithSizes()
      ensures FirstPassAt(sections[..], shfGroupFlagSectionCount, 0)
      ensures SizesKnown(sections[..])
    {
      hide Partition;
      FirstPassStarts(Arrays(host, file, filesize, sections[..]), sections[..]);
    }

    /** One round of the first pass. */
    method FirstPassRound(n: nat, ghost before: seq<Section>, ghost flagged: nat)
      returns (r: Result<()>, ghost seen: seq<Section>, ghost seenGroups: seq<nat>)
      requires Visited(n, sections.Length) && FirstPassAt(before, flagged, n)
      requires IsLiveGroup(before[n]) ==> before[n].entsize > 0
      modifies this`nextGroupNumber, this`shtGroupTypeSectionCount, this`shfGroupFlagSectionCount, this`groups, sections
      ensures r.Ok? ==> FirstPassAt(before, flagged, n + 1)
      ensures !r.Ok? ==> r.Failed? && FailsAt(before, seen, seenGroups, n, r.error)
    {
      seen, seenGroups := sections[..], groups;
      FirstPassStep(host, file, filesize, before, sections[..], groups, n, nextGroupNumber);
      hide Partition, ReadUpTo, WithGroup, Verdict, Arrays, FlaggedSections, IsFlagged, GroupsAfter, IsLiveGroup,
           Header;
      r := VisitForGroups(n);
    }

    /** The first pass: reads every live group, in order, and counts the flagged other sections. */
    method ReadAllGroups()
      returns (r: Result<()>, ghost seen: seq<Section>, ghost seenGroups: seq<nat>, ghost at: nat)
      requires Valid() && groups == [] && UngroupedWithSizes()
      modifies this`nextGroupNumber, this`shtGroupTypeSectionCount, this`shfGroupFlagSectionCount, this`groups, sections
      ensures r.Ok? ==> FirstPassAt(old(sections[..]), old(shfGroupFlagSectionCount), VisitedCount(sections.Length))
      ensures !r.Ok? ==> r.Failed? && FailsAt(old(sections[..]), seen, seenGroups, at, r.error)
    {
      hide *;
      ghost var before, flagged := sections[..], shfGroupFlagSectionCount;
      FirstPassBegins();
      ToVisit(sections.Length, 1);
      seen, seenGroups, at := before, groups, 0;
      r := Ok(());
      var i := 1;
      while i < sections.Length
        invariant i == at + 1 && at <= VisitedCount(sections.Length) && r.Ok?
        invariant FirstPassAt(before, flagged, at)
      {
        ToVisit(sections.Length, i);
        SizeKnown(before, at);
        r, seen, seenGroups := FirstPassRound(i - 1, before, flagged);
        if !r.Ok? {
          return;
        }
        i, at := i + 1, at + 1;
      }
      ToVisit(sections.Length, i);
    }

    /** Step C for one section. */
    method NumberSection(n: nat) returns (ok: bool)
      requires n < sections.Length
      modifies sections, this`dwoGroupSectionCount
      ensures ok <==> !(old(IsDwo(sections[n])) && old(sections[n].groupNumber) != 0)
      ensures ok ==> sections[..] == old(sections[..])[n := old(Numbered(sections[n]))]
      ensures ok ==> dwoGroupSectionCount == old(dwoGroupSectionCount) + (if old(IsDwo(sections[n])) then 1 else 0)
      ensures !ok ==> sections[..] == old(sections[..])
    {
      hide EndsWith, NamesDwarf;
      var psh := sections[n];
      if IsEmptySection(psh.kind) {
        return true;
      }
      if IsGroupSection(psh.kind, psh.name) {
        return true;
      }
      if EndsWith(psh.name, ".dwo") {
        if psh.groupNumber != 0 {
          return false;
        }
        sections[n] := psh.(isDwarf := true, groupNumber := GROUPNUMBER_DWO);
        dwoGroupSectionCount := dwoGroupSectionCount + 1;
      } else if NamesDwarf(psh.name) {
        if psh.groupNumber == 0 {
          sections[n] := psh.(groupNumber := GROUPNUMBER_BASE);
        }
        sections[n] := sections[n].(isDwarf := true);
      }
      return true;
    }

    /** The second pass: numbers the DWARF sections, and fails at the first .dwo section that an
        SHT_GROUP lists. */
    method NumberDwarfSections() returns (r: Result<()>, ghost at: nat)
      modifies sections, this`dwoGroupSectionCount
      ensures r.Ok? ==>
                var n := VisitedCount(sections.Length);
                && NumberedUpTo(old(sections[..]), sections[..], n)
                && dwoGroupSectionCount == old(dwoGroupSectionCount) + |DwoSections(old(sections[..]), n)|
      ensures !r.Ok? ==>
                && r == Failed(GroupError)
                && Visited(at, sections.Length) && NumberedUpTo(old(sections[..]), sections[..], at)
                && IsDwo(old(sections[..])[at]) && old(sections[..])[at].groupNumber != 0
    {
      hide *;
      ghost var before := sections[..];
      NumberingStarts(before);
      ToVisit(sections.Length, 1);
      r, at := Ok(()), 0;
      var i := 1;
      while i < sections.Length
        invariant i == at + 1 && at <= VisitedCount(sections.Length)
        invariant NumberedUpTo(before, sections[..], at)
        invariant dwoGroupSectionCount == old(dwoGroupSectionCount) + |DwoSections(before, at)|
      {
        ToVisit(sections.Length, i);
        OneMoreDwo(before, at);
        NumberOneMore(before, sections[..], at);
        var ok := NumberSection(i - 1);
        if !ok {
          r := Failed(GroupError);
          return;
        }
        i, at := i + 1, at + 1;
      }
      ToVisit(sections.Length, i);
    }

    /** elf_setup_all_section_groups. mid is the state between the two passes: on success its arrays
        partition the grouped sections, and the second pass has numbered the visited sections. */
    method SetupAllSectionGroups() returns (r: Result<()>, ghost mid: seq<Section>)
      requires Valid() && groups == [] && UngroupedWithSizes()
      modifies this`nextGroupNumber, this`shtGroupTypeSectionCount, this`shfGroupFlagSectionCount, this`groups
      modifies this`dwoGroupSectionCount, sections
      ensures r.Ok? ==>
                var before, n := old(sections[..]), VisitedCount(sections.Length);
                && filesize < TWO_63
                && Partition(mid, groups)
                && nextGroupNumber - FIRST_GROUP == shtGroupTypeSectionCount == |groups|
                && |before| == |mid| == sections.Length
                && ReadUpTo(Arrays(host, file, filesize, before), before, mid, groups, n)
                && NumberedUpTo(mid, sections[..], n)
                && shfGroupFlagSectionCount == old(shfGroupFlagSectionCount) + |FlaggedSections(before, n)|
                && dwoGroupSectionCount == old(dwoGroupSectionCount) + |DwoSections(mid, n)|
      ensures r.Ok? ==>
                && (forall j | 0 <= j < sections.Length ::
                      sections[j].groupNumber == 2 <==> j < sections.Length - 1 && IsDwo(sections[j]))
                && dwoGroupSectionCount == old(dwoGroupSectionCount)
                                           + |set j: nat | j < sections.Length && sections[..][j].groupNumber == 2|
      ensures !r.Ok? ==>
                && r.Failed?
                && (|| (exists seen, seenGroups, n :: FailsAt(old(sections[..]), seen, seenGroups, n, r.error))
                    || (exists n :: Visited(n, |mid|) && IsDwo(mid[n]) && mid[n].groupNumber != 0))
    {
      hide Partition, ReadUpTo, Arrays, NumberedUpTo, FlaggedSections, DwoSections, FailsAt, IsDwo;
      ghost var seen, seenGroups, at;
      r, seen, seenGroups, at := ReadAllGroups();
      mid := sections[..];
      if !r.Ok? {
        return;
      }
      r, at := NumberDwarfSections();
      if r.Ok? {
        NumberedTwo(mid, sections[..], groups);
      }
    }
  }
}
