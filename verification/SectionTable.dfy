/** ELF section groups: the sections, what a correct grouping of them is, and the pure steps that
    build one. */
module SectionTable {
  import opened Words
  import opened Outcomes
  import opened ByteOrder
  import opened FileAccess
  import opened GroupWords

  const SHT_NULL := 0
  const SHT_NOBITS := 8
  const SHT_GROUP := 17
  const SHF_GROUP := 0x200
  const GROUPNUMBER_BASE := 1
  const GROUPNUMBER_DWO := 2
  const FIRST_GROUP := 3

  /** A section header. groupNumber and groupArray start out 0 and None. */
  datatype Section = Section(name: string, kind: u64, flags: u64, offset: u64, size: u64, entsize: u64,
                             groupNumber: nat, groupArray: Option<seq<u64>>, isDwarf: bool)

  /** A section as its header describes it, before any grouping. */
  function Header(s: Section): Section {
    s.(groupNumber := 0, groupArray := None, isDwarf := false)
  }

  predicate IsEmptySection(kind: u64) {
    kind == SHT_NOBITS || kind == SHT_NULL
  }

  predicate IsGroupSection(kind: u64, name: string) {
    kind == SHT_GROUP || name == ".group"
  }

  predicate FlagMatches(flags: u64) {
    flags / SHF_GROUP % 2 == 1
  }

  predicate EndsWith(n: string, q: string) {
    |n| >= |q| && n[|n| - |q|..] == q
  }

  predicate StartsWith(n: string, q: string) {
    q <= n
  }

  predicate NamesDwarf(name: string) {
    && !StartsWith(name, ".rel")
    && (|| StartsWith(name, ".debug_")
        || StartsWith(name, ".zdebug_")
        || name == ".eh_frame"
        || StartsWith(name, ".gdb_index"))
  }

  // ---------------------------------------------------------------- groupings

  /** The sections an SHT_GROUP section lists: its array without the leading flag word. */
  function Members(s: Section): seq<u64> {
    if s.groupArray.Some? && s.groupArray.value != [] then s.groupArray.value[1..] else []
  }

  ghost predicate Distinct(s: seq<nat>) {
    forall p, q | 0 <= p < q < |s| :: s[p] != s[q]
  }

  /** groups names, without repetition, exactly the sections that list any others. */
  ghost predicate NamesGroups(sections: seq<Section>, groups: seq<nat>) {
    && Distinct(groups)
    && (forall k | 0 <= k < |groups| :: groups[k] < |sections| && Members(sections[groups[k]]) != [])
    && (forall s | 0 <= s < |sections| && Members(sections[s]) != [] :: s in groups)
  }

  /** Every group array starts with the flag word and lists distinct sections other than section 0. */
  ghost predicate ListsAreSound(sections: seq<Section>) {
    forall s | 0 <= s < |sections| ::
      && ListsSections(Members(sections[s]), |sections|)
      && (sections[s].groupArray.Some? ==> sections[s].groupArray.value != [] && sections[s].groupArray.value[0] == 1)
  }

  /** Group k lists exactly the sections numbered k+3, and there are no other numbers. */
  ghost predicate NumbersFollowLists(sections: seq<Section>, groups: seq<nat>)
    requires forall k | 0 <= k < |groups| :: groups[k] < |sections|
  {
    && (forall j | 0 <= j < |sections| :: NumberInUse(sections[j].groupNumber, |groups|))
    && (forall k, j | 0 <= k < |groups| && 0 <= j < |sections| ::
          j in Members(sections[groups[k]]) <==> sections[j].groupNumber == FIRST_GROUP + k)
  }

  /** The group arrays partition the grouped sections, and the group numbers say how. */
  ghost predicate Partition(sections: seq<Section>, groups: seq<nat>) {
    && NamesGroups(sections, groups)
    && ListsAreSound(sections)
    && NumbersFollowLists(sections, groups)
  }

  predicate NumberInUse(n: nat, count: nat) {
    n == 0 || FIRST_GROUP <= n < FIRST_GROUP + count
  }

  ghost predicate ListsSections(members: seq<u64>, count: nat) {
    && (forall p | 0 <= p < |members| :: 0 < members[p] < count)
    && Distinct(members)
  }

  /** A listed section, and the number of the group that lists it. */
  lemma ListedIsNumbered(sections: seq<Section>, groups: seq<nat>, s: nat, p: nat) returns (k: nat)
    requires Partition(sections, groups)
    requires s < |sections| && p < |Members(sections[s])|
    ensures k < |groups| && groups[k] == s
    ensures Members(sections[s])[p] < |sections|
    ensures sections[Members(sections[s])[p]].groupNumber == FIRST_GROUP + k
  {
    hide Members, Distinct, NumberInUse;
    var members := Members(sections[s]);
    assert members != [];
    k :| 0 <= k < |groups| && groups[k] == s;
    assert ListsSections(members, |sections|);
    assert members[p] in members;
    NumberOfMember(sections, groups, k, members[p]);
  }

  lemma NumberOfMember(sections: seq<Section>, groups: seq<nat>, k: nat, j: nat)
    requires NamesGroups(sections, groups) && NumbersFollowLists(sections, groups)
    requires k < |groups| && j < |sections|
    ensures groups[k] < |sections|
    ensures j in Members(sections[groups[k]]) <==> sections[j].groupNumber == FIRST_GROUP + k
  {
    hide Members, NumberInUse, Distinct;
  }

  lemma SomeNumber(sections: seq<Section>, groups: seq<nat>, j: nat)
    requires NamesGroups(sections, groups) && NumbersFollowLists(sections, groups) && j < |sections|
    ensures NumberInUse(sections[j].groupNumber, |groups|)
  {
    hide Members, NumberInUse, Distinct;
  }

  lemma MembersDistinct(sections: seq<Section>, groups: seq<nat>, s: nat, p: nat, p': nat)
    requires Partition(sections, groups) && s < |sections|
    requires p < |Members(sections[s])| && p' < |Members(sections[s])|
    requires Members(sections[s])[p] == Members(sections[s])[p']
    ensures p == p'
  {
    hide Members, NamesGroups, NumbersFollowLists;
    assert ListsSections(Members(sections[s]), |sections|);
  }

  /** No section is listed twice, within a group or across groups. */
  lemma NoSectionListedTwice(sections: seq<Section>, groups: seq<nat>, s: nat, p: nat, s': nat, p': nat)
    requires Partition(sections, groups)
    requires s < |sections| && p < |Members(sections[s])|
    requires s' < |sections| && p' < |Members(sections[s'])|
    requires Members(sections[s])[p] == Members(sections[s'])[p']
    ensures s == s' && p == p'
  {
    hide Partition, Members;
    var k := ListedIsNumbered(sections, groups, s, p);
    var k' := ListedIsNumbered(sections, groups, s', p');
    assert s == s';
    MembersDistinct(sections, groups, s, p, p');
  }

  /** A section carries some group number exactly when some group lists it. */
  lemma NumberedIffListed(sections: seq<Section>, groups: seq<nat>, j: nat)
    requires Partition(sections, groups) && j < |sections|
    ensures sections[j].groupNumber >= 3 <==>
            exists s :: 0 <= s < |sections| && j in Members(sections[s])
  {
    var n := sections[j].groupNumber;
    assert NumberInUse(n, |groups|);
    if n >= FIRST_GROUP {
      assert j in Members(sections[groups[n - FIRST_GROUP]]);
    }
    if s :| 0 <= s < |sections| && j in Members(sections[s]) {
      assert s in groups;
      var k :| 0 <= k < |groups| && groups[k] == s;
    }
  }

  // ---------------------------------------------------------------- reading one group

  /** The first n sections listed by the data of a group section, after its flag word. */
  ghost function Listed(host: Order, data: seq<byte>, n: nat): (entries: seq<u64>)
    requires 4 * n + 4 <= |data|
    ensures |entries| == n
  {
    if n == 0 then [] else Listed(host, data, n - 1) + [GroupEntry(host, WordAt(data, n))]
  }

  ghost function AllListed(host: Order, data: seq<byte>): seq<u64>
    requires |data| >= 4
  {
    Listed(host, data, |data| / 4 - 1)
  }

  lemma ListedOneMore(host: Order, data: seq<byte>, n: nat)
    requires 4 * n + 8 <= |data|
    ensures Listed(host, data, n + 1) == Listed(host, data, n) + [GroupEntry(host, WordAt(data, n + 1))]
  {
    hide GroupEntry;
  }

  lemma {:induction false} ListedAt(host: Order, data: seq<byte>, n: nat, k: nat)
    requires 4 * n + 4 <= |data| && k < n
    ensures Listed(host, data, n)[k] == GroupEntry(host, WordAt(data, k + 1))
  {
    hide GroupEntry;
    if k < n - 1 {
      ListedAt(host, data, n - 1, k);
    }
  }

  // ---------------------------------------------------------------- writing a group

  /** The data of a group section as it is written: the flag word and then the listed sections. */
  function GroupSection(order: Order, members: seq<u64>): (data: seq<byte>)
    ensures |data| == 4 + 4 * |members|
  {
    if members == [] then Stored(order, 1, 4)
    else GroupSection(order, members[..|members| - 1]) + Stored(order, members[|members| - 1], 4)
  }

  lemma {:induction false} WordInPlace(order: Order, members: seq<u64>, i: nat)
    requires i <= |members|
    ensures WordAt(GroupSection(order, members), i) == Stored(order, if i == 0 then 1 else members[i - 1], 4)
  {
    hide Stored;
    var data := GroupSection(order, members);
    if members == [] {
      assert data[0..4] == data;
    } else if i < |members| {
      var front := members[..|members| - 1];
      WordInPlace(order, front, i);
      assert data[4 * i..4 * i + 4] == GroupSection(order, front)[4 * i..4 * i + 4];
    }
  }

  lemma FlagReadsBack(order: Order)
    ensures Value(Little, Stored(order, 1, 4)) == 1 || Value(Big, Stored(order, 1, 4)) == 1
  {
    Pow256Constants();
    StoredRoundTrip(order, 1, 4);
    hide Stored, Value, Pow256;
  }

  lemma AllListedOf(host: Order, order: Order, members: seq<u64>)
    ensures AllListed(host, GroupSection(order, members)) == Listed(host, GroupSection(order, members), |members|)
  {
    hide GroupSection, Listed;
  }

  lemma GroupSectionSize(order: Order, members: seq<u64>)
    ensures |GroupSection(order, members)| == 4 + 4 * |members|
  {
  }

  lemma MemberReadsBack(host: Order, order: Order, members: seq<u64>, k: nat)
    requires k < |members| && members[k] < TWO_32
    ensures var v := Listed(host, GroupSection(order, members), |members|)[k];
            && (v == members[k] <==> members[k] <= ByteSwap32(members[k]))
            && (members[k] < 0x1_0000 ==> v == members[k])
  {
    hide *;
    GroupSectionSize(order, members);
    ListedAt(host, GroupSection(order, members), |members|, k);
    WordInPlace(order, members, k + 1);
    GuessIsExact(host, order, members[k]);
  }

  /** A group written in either order is read back, whatever the host, if and only if no listed number is
      greater than its byte-swapped value; so whenever all are below 65536. */
  lemma GroupReadsBack(host: Order, order: Order, members: seq<u64>)
    requires forall k | 0 <= k < |members| :: members[k] < TWO_32
    ensures IsComdat(host, WordAt(GroupSection(order, members), 0))
    ensures AllListed(host, GroupSection(order, members)) == members
            <==> forall k | 0 <= k < |members| :: members[k] <= ByteSwap32(members[k])
    ensures (forall k | 0 <= k < |members| :: members[k] < 0x1_0000) ==>
              AllListed(host, GroupSection(order, members)) == members
  {
    hide *;
    GroupSectionSize(order, members);
    WordInPlace(order, members, 0);
    FlagReadsBack(order);
    ComdatInEitherOrder(host, Stored(order, 1, 4));
    AllListedOf(host, order, members);
    forall k | 0 <= k < |members|
      ensures Listed(host, GroupSection(order, members), |members|)[k] == members[k]
              <==> members[k] <= ByteSwap32(members[k])
      ensures members[k] < 0x1_0000 ==> Listed(host, GroupSection(order, members), |members|)[k] == members[k]
    {
      MemberReadsBack(host, order, members, k);
    }
  }

  // ---------------------------------------------------------------- what can join a group

  /** Each listed section exists, is in no group yet and was not listed before. */
  ghost predicate CanGroup(sections: seq<Section>, members: seq<u64>) {
    members == []
    || (var front, v := members[..|members| - 1], members[|members| - 1];
        CanGroup(sections, front) && 0 < v < |sections| && sections[v].groupNumber == 0 && v !in front)
  }

  lemma {:induction false} CanGroupMeans(sections: seq<Section>, members: seq<u64>)
    ensures CanGroup(sections, members) <==>
            && ListsSections(members, |sections|)
            && (forall v | v in members :: v < |sections| && sections[v].groupNumber == 0)
  {
    if members != [] {
      var front, v := members[..|members| - 1], members[|members| - 1];
      CanGroupMeans(sections, front);
      assert members == front + [v];
      ListsOneMore(front, v, |sections|);
    }
  }

  lemma ListsOneMore(front: seq<u64>, v: u64, count: nat)
    ensures ListsSections(front + [v], count) <==> ListsSections(front, count) && 0 < v < count && v !in front
  {
    var members := front + [v];
    assert members[|front|] == v;
    assert forall p | 0 <= p < |front| :: members[p] == front[p];
  }

  /** The data of group section psh in a file of count sections, or the first of the checks on it
      to fail, in the order of the code. */
  ghost function GroupData(host: Order, file: seq<byte>, filesize: u64, count: nat, psh: Section)
    : (r: Result<seq<byte>>)
    requires psh.entsize > 0 && filesize < 0x8000_0000_0000_0000
    ensures r.Ok? ==> |r.value| >= 4
  {
    var data := ReadRandom(file, psh.offset, psh.size, filesize);
    if psh.size < 4 then Failed(TooSmall)
    else if psh.size / psh.entsize > count then Failed(GroupError)
    else if psh.entsize != 4 then Failed(BadTypeSize)
    else if data.Failed? then Failed(data.error)
    else if !IsComdat(host, WordAt(data.value, 0)) then Failed(GroupError)
    else data
  }

  /** What reading group section s comes to, memory permitting. */
  ghost function Verdict(host: Order, file: seq<byte>, filesize: u64, sections: seq<Section>, s: nat): Result<seq<u64>>
    requires s < |sections| && sections[s].entsize > 0 && filesize < 0x8000_0000_0000_0000
  {
    var data := GroupData(host, file, filesize, |sections|, sections[s]);
    if !data.Ok? then Failed(data.error)
    else if !CanGroup(sections, AllListed(host, data.value)) then Failed(GroupError)
    else Ok([1] + AllListed(host, data.value))
  }

  /** Which group sections have data, what it is, and which check stops the others. */
  lemma GroupDataExactly(host: Order, file: seq<byte>, filesize: u64, count: nat, psh: Section)
    requires psh.entsize > 0 && filesize < 0x8000_0000_0000_0000
    ensures var data := ReadRandom(file, psh.offset, psh.size, filesize);
            var r := GroupData(host, file, filesize, count, psh);
            && (r.Ok? <==>
                  && psh.size >= 4 && psh.size / 4 <= count && psh.entsize == 4 && data.Ok?
                  && (Value(Little, data.value[..4]) == 1 || Value(Big, data.value[..4]) == 1))
            && (r.Ok? ==> psh.offset + psh.size <= |file| && r.value == file[psh.offset..psh.offset + psh.size])
            && (r == Failed(TooSmall) <==> psh.size < 4)
            && (r == Failed(BadTypeSize) <==>
                  psh.size >= 4 && psh.entsize != 4 && psh.size / psh.entsize <= count)
            && (r == Failed(GroupError) <==>
                  && psh.size >= 4
                  && (|| psh.size / psh.entsize > count
                      || (&& psh.entsize == 4 && data.Ok?
                          && Value(Little, data.value[..4]) != 1 && Value(Big, data.value[..4]) != 1)))
  {
    var data := ReadRandom(file, psh.offset, psh.size, filesize);
    if psh.size >= 4 && data.Ok? {
      ComdatInEitherOrder(host, WordAt(data.value, 0));
      assert WordAt(data.value, 0) == data.value[..4];
    }
    hide IsComdat, Value, WordAt;
  }

  /** The file holds a group written in some order as section s says. */
  ghost predicate HoldsGroup(order: Order, file: seq<byte>, filesize: u64, psh: Section, members: seq<u64>) {
    && psh.entsize == 4 && psh.size == 4 + 4 * |members|
    && psh.offset + psh.size <= filesize < TWO_63 && psh.offset + psh.size <= |file|
    && file[psh.offset..psh.offset + psh.size] == GroupSection(order, members)
  }

  lemma WrittenDataIs(order: Order, file: seq<byte>, filesize: u64, psh: Section, members: seq<u64>)
    requires HoldsGroup(order, file, filesize, psh, members)
    ensures filesize < 0x8000_0000_0000_0000 && psh.entsize == 4
    ensures psh.size == 4 + 4 * |members| && psh.size / 4 == 1 + |members|
    ensures ReadRandom(file, psh.offset, psh.size, filesize) == Ok(GroupSection(order, members))
    ensures WordAt(GroupSection(order, members), 0) == GroupSection(order, members)[..4]
    ensures file[psh.offset..psh.offset + psh.size] == GroupSection(order, members)
  {
    hide GroupSection;
  }

  lemma WrittenDataIsRead(host: Order, order: Order, file: seq<byte>, filesize: u64, count: nat, psh: Section,
                          members: seq<u64>)
    requires HoldsGroup(order, file, filesize, psh, members) && |members| < count
    ensures GroupData(host, file, filesize, count, psh) == Ok(GroupSection(order, members))
  {
    hide *;
    WrittenDataIs(order, file, filesize, psh, members);
    WordInPlace(order, members, 0);
    FlagReadsBack(order);
    GroupDataExactly(host, file, filesize, count, psh);
  }

  lemma JoinsExactly(sections: seq<Section>, members: seq<u64>)
    ensures ListsSections(members, |sections|)
            <==> (forall v | v in members :: 0 < v < |sections|)
                 && (forall p, q | 0 <= p < q < |members| :: members[p] != members[q])
  {
    assert forall p | 0 <= p < |members| :: members[p] in members;
  }

  /** Where the file holds a group written in either order, with section numbers below 65536, reading it gives
      the flag word and the numbers, provided they are those of distinct sections in no group yet. */
  lemma WrittenGroupIsRead(host: Order, order: Order, file: seq<byte>, filesize: u64, sections: seq<Section>,
                           s: nat, members: seq<u64>)
    requires s < |sections| && HoldsGroup(order, file, filesize, sections[s], members) && |members| < |sections|
    requires forall k | 0 <= k < |members| :: members[k] < 0x1_0000
    ensures Verdict(host, file, filesize, sections, s)
            == if && (forall v | v in members :: 0 < v < |sections| && sections[v].groupNumber == 0)
                  && (forall p, q | 0 <= p < q < |members| :: members[p] != members[q])
               then Ok([1] + members) else Failed(GroupError)
  {
    WrittenDataIsRead(host, order, file, filesize, |sections|, sections[s], members);
    GroupReadsBack(host, order, members);
    CanGroupMeans(sections, members);
    JoinsExactly(sections, members);
    hide GroupSection, AllListed, CanGroup, GroupData, ListsSections;
  }

  /** The sections after the listed ones received number n. */
  ghost function Marked(sections: seq<Section>, members: seq<u64>, n: nat): (r: seq<Section>)
    ensures |r| == |sections|
  {
    seq(|sections|, j requires 0 <= j < |sections| =>
      if j in members then sections[j].(groupNumber := n) else sections[j])
  }

  /** The sections after group section s was read with the given array. */
  ghost function WithGroup(sections: seq<Section>, s: nat, entries: seq<u64>, n: nat): (r: seq<Section>)
    requires s < |sections| && entries != []
    ensures |r| == |sections|
  {
    var marked := Marked(sections, entries[1..], n);
    marked[s := marked[s].(groupArray := Some(entries))]
  }

  ghost function GroupsAfter(groups: seq<nat>, s: nat, entries: seq<u64>): seq<nat> {
    if |entries| > 1 then groups + [s] else groups
  }

  lemma WithGroupAt(sections: seq<Section>, s: nat, entries: seq<u64>, n: nat, x: nat)
    requires s < |sections| && x < |sections| && entries != []
    ensures var after := WithGroup(sections, s, entries, n);
            && Members(after[x]) == (if x == s then entries[1..] else Members(sections[x]))
            && after[x].groupNumber == (if x in entries[1..] then n else sections[x].groupNumber)
            && after[x].groupArray == (if x == s then Some(entries) else sections[x].groupArray)
            && after[x].isDwarf == sections[x].isDwarf
            && Header(after[x]) == Header(sections[x])
  {
  }

  lemma NamesGrow(sections: seq<Section>, groups: seq<nat>, s: nat, entries: seq<u64>, n: nat)
    requires NamesGroups(sections, groups)
    requires s < |sections| && sections[s].groupArray.None? && entries != []
    ensures NamesGroups(WithGroup(sections, s, entries, n), GroupsAfter(groups, s, entries))
    ensures s !in groups
  {
    var after, groups' := WithGroup(sections, s, entries, n), GroupsAfter(groups, s, entries);
    assert Members(sections[s]) == [];
    assert s !in groups;
    forall x | 0 <= x < |sections|
      ensures Members(after[x]) == if x == s then entries[1..] else Members(sections[x])
    {
      WithGroupAt(sections, s, entries, n, x);
    }
    forall x | 0 <= x < |sections| && Members(after[x]) != [] ensures x in groups' {
      if x == s {
        assert groups'[|groups|] == s;
      } else {
        assert x in groups;
      }
    }
  }

  lemma SoundnessGrows(sections: seq<Section>, s: nat, entries: seq<u64>, n: nat)
    requires ListsAreSound(sections)
    requires s < |sections| && entries != [] && entries[0] == 1
    requires ListsSections(entries[1..], |sections|)
    ensures ListsAreSound(WithGroup(sections, s, entries, n))
  {
    var after := WithGroup(sections, s, entries, n);
    forall x | 0 <= x < |sections|
      ensures ListsSections(Members(after[x]), |after|)
      ensures after[x].groupArray.Some? ==> after[x].groupArray.value != [] && after[x].groupArray.value[0] == 1
    {
      WithGroupAt(sections, s, entries, n, x);
      assert ListsSections(Members(sections[x]), |sections|);
    }
  }

  /** Which group lists section j, before and after group section s was read: g is group k of the groups
      that there are afterwards. */
  lemma MembershipGrows(sections: seq<Section>, count: nat, s: nat, entries: seq<u64>, g: nat, k: nat, j: nat)
    requires s < |sections| && g < |sections| && j < |sections| && entries != []
    requires k < count ==>
               g != s && (j in Members(sections[g]) <==> sections[j].groupNumber == FIRST_GROUP + k)
    requires k >= count ==> k == count && g == s
    requires NumberInUse(sections[j].groupNumber, count)
    requires j in entries[1..] ==> sections[j].groupNumber == 0
    ensures var after := WithGroup(sections, s, entries, FIRST_GROUP + count);
            j in Members(after[g]) <==> after[j].groupNumber == FIRST_GROUP + k
  {
    WithGroupAt(sections, s, entries, FIRST_GROUP + count, j);
    WithGroupAt(sections, s, entries, FIRST_GROUP + count, g);
    hide WithGroup, Members, Header;
  }

  lemma InUseGrows(sections: seq<Section>, groups: seq<nat>, s: nat, entries: seq<u64>, j: nat)
    requires s < |sections| && j < |sections| && entries != []
    requires NumberInUse(sections[j].groupNumber, |groups|)
    ensures NumberInUse(WithGroup(sections, s, entries, FIRST_GROUP + |groups|)[j].groupNumber,
                        |GroupsAfter(groups, s, entries)|)
  {
    WithGroupAt(sections, s, entries, FIRST_GROUP + |groups|, j);
    hide WithGroup, Members, Header;
    assert |entries[1..]| == |entries| - 1;
  }

  lemma GroupsAfterAre(groups: seq<nat>, s: nat, entries: seq<u64>, k: nat)
    requires k < |GroupsAfter(groups, s, entries)|
    ensures k < |groups| ==> GroupsAfter(groups, s, entries)[k] == groups[k] && groups[k] in groups
    ensures k >= |groups| ==> k == |groups| && GroupsAfter(groups, s, entries)[k] == s
  {
  }

  lemma MemberCanGroup(sections: seq<Section>, members: seq<u64>, j: nat)
    requires CanGroup(sections, members)
    ensures j in members ==> j < |sections| && sections[j].groupNumber == 0
  {
    CanGroupMeans(sections, members);
    hide CanGroup, ListsSections;
  }

  lemma NumberFollows(sections: seq<Section>, groups: seq<nat>, s: nat, entries: seq<u64>, k: nat, j: nat)
    requires NamesGroups(sections, groups) && NumbersFollowLists(sections, groups)
    requires s < |sections| && s !in groups && entries != []
    requires CanGroup(sections, entries[1..])
    requires k < |GroupsAfter(groups, s, entries)| && j < |sections|
    ensures var after := WithGroup(sections, s, entries, FIRST_GROUP + |groups|);
            var g := GroupsAfter(groups, s, entries)[k];
            && g < |sections|
            && (j in Members(after[g]) <==> after[j].groupNumber == FIRST_GROUP + k)
  {
    hide CanGroup, WithGroup, Members, NumberInUse, ListsSections, GroupsAfter, NumbersFollowLists, NamesGroups;
    GroupsAfterAre(groups, s, entries, k);
    MemberCanGroup(sections, entries[1..], j);
    SomeNumber(sections, groups, j);
    if k < |groups| {
      NumberOfMember(sections, groups, k, j);
    }
    MembershipGrows(sections, |groups|, s, entries, GroupsAfter(groups, s, entries)[k], k, j);
  }

  lemma NumbersGrow(sections: seq<Section>, groups: seq<nat>, s: nat, entries: seq<u64>)
    requires NamesGroups(sections, groups) && NumbersFollowLists(sections, groups)
    requires s < |sections| && s !in groups && entries != []
    requires CanGroup(sections, entries[1..])
    requires NamesGroups(WithGroup(sections, s, entries, FIRST_GROUP + |groups|), GroupsAfter(groups, s, entries))
    ensures NumbersFollowLists(WithGroup(sections, s, entries, FIRST_GROUP + |groups|), GroupsAfter(groups, s, entries))
  {
    hide CanGroup, WithGroup, Members, NumberInUse, GroupsAfter, Distinct;
    var after, groups' := WithGroup(sections, s, entries, FIRST_GROUP + |groups|), GroupsAfter(groups, s, entries);
    forall j | 0 <= j < |sections| ensures NumberInUse(after[j].groupNumber, |groups'|) {
      SomeNumber(sections, groups, j);
      InUseGrows(sections, groups, s, entries, j);
    }
    forall k, j | 0 <= k < |groups'| && 0 <= j < |sections|
      ensures j in Members(after[groups'[k]]) <==> after[j].groupNumber == FIRST_GROUP + k
    {
      NumberFollows(sections, groups, s, entries, k, j);
    }
  }

  /** Reading one more acceptable group keeps the partition. */
  lemma GroupingGrows(sections: seq<Section>, groups: seq<nat>, s: nat, entries: seq<u64>)
    requires Partition(sections, groups)
    requires s < |sections| && sections[s].groupArray.None?
    requires entries != [] && entries[0] == 1
    requires CanGroup(sections, entries[1..])
    ensures Partition(WithGroup(sections, s, entries, FIRST_GROUP + |groups|), GroupsAfter(groups, s, entries))
  {
    CanGroupMeans(sections, entries[1..]);
    NamesGrow(sections, groups, s, entries, FIRST_GROUP + |groups|);
    SoundnessGrows(sections, s, entries, FIRST_GROUP + |groups|);
    NumbersGrow(sections, groups, s, entries);
  }

  lemma {:induction false} CanGroupPrefix(sections: seq<Section>, members: seq<u64>, k: nat)
    requires k <= |members| && CanGroup(sections, members)
    ensures CanGroup(sections, members[..k])
    decreases |members| - k
  {
    if k < |members| {
      CanGroupPrefix(sections, members, k + 1);
      assert members[..k + 1][..k] == members[..k];
    } else {
      assert members[..k] == members;
    }
  }

  // ---------------------------------------------------------------- the first pass

  /** The passes look at every section but the last. */
  predicate Visited(j: int, count: nat) {
    0 <= j < count - 1
  }

  predicate IsLiveGroup(s: Section) {
    !IsEmptySection(s.kind) && IsGroupSection(s.kind, s.name)
  }

  predicate IsPlain(s: Section) {
    !IsEmptySection(s.kind) && !IsGroupSection(s.kind, s.name)
  }

  ghost function ArrayOf(host: Order, file: seq<byte>, filesize: u64, count: nat, psh: Section): Option<seq<u64>>
    requires filesize < 0x8000_0000_0000_0000
  {
    if IsLiveGroup(psh) && psh.entsize > 0 && GroupData(host, file, filesize, count, psh).Ok? then
      Some([1] + AllListed(host, GroupData(host, file, filesize, count, psh).value))
    else None
  }

  /** The array every section should get, from its header and the file alone. */
  ghost function Arrays(host: Order, file: seq<byte>, filesize: u64, sections: seq<Section>): (r: seq<Option<seq<u64>>>)
    requires filesize < 0x8000_0000_0000_0000
    ensures |r| == |sections|
  {
    seq(|sections|, j requires 0 <= j < |sections| =>
      ArrayOf(host, file, filesize, |sections|, Header(sections[j])))
  }

  ghost predicate Ascending(groups: seq<nat>, n: nat) {
    && (forall k | 0 <= k < |groups| :: groups[k] < n)
    && (forall k, l | 0 <= k < l < |groups| :: groups[k] < groups[l])
  }

  /** The first n sections have been looked at: each has the array it should get, the others have
      none yet, nothing else in a header has changed, and the numbered groups are in the order of
      their sections. */
  ghost predicate ReadUpTo(arrays: seq<Option<seq<u64>>>, before: seq<Section>, now: seq<Section>,
                           groups: seq<nat>, n: nat)
    requires |arrays| == |before|
  {
    && |now| == |before|
    && (forall j | 0 <= j < |before| ::
          && Header(now[j]) == Header(before[j]) && now[j].isDwarf == before[j].isDwarf
          && now[j].groupArray == if j < n then arrays[j] else None)
    && Ascending(groups, n)
  }

  lemma GroupDataIgnoresGrouping(host: Order, file: seq<byte>, filesize: u64, count: nat, psh: Section)
    requires psh.entsize > 0 && filesize < 0x8000_0000_0000_0000
    ensures GroupData(host, file, filesize, count, psh) == GroupData(host, file, filesize, count, Header(psh))
  {
  }

  /** Looking at one more section that gets no array. */
  lemma SkipNext(arrays: seq<Option<seq<u64>>>, before: seq<Section>, now: seq<Section>, groups: seq<nat>, n: nat)
    requires n < |before| == |arrays| && arrays[n] == None
    requires ReadUpTo(arrays, before, now, groups, n)
    ensures ReadUpTo(arrays, before, now, groups, n + 1)
  {
  }

  lemma VerdictIsArray(host: Order, file: seq<byte>, filesize: u64, now: seq<Section>, n: nat)
    requires filesize < 0x8000_0000_0000_0000 && n < |now|
    requires IsLiveGroup(now[n]) && now[n].entsize > 0
    requires Verdict(host, file, filesize, now, n).Ok?
    ensures ArrayOf(host, file, filesize, |now|, Header(now[n])) == Some(Verdict(host, file, filesize, now, n).value)
  {
    hide AllListed, CanGroup;
    GroupDataIgnoresGrouping(host, file, filesize, |now|, now[n]);
  }

  /** Looking at one more live group. */
  lemma ReadNext(arrays: seq<Option<seq<u64>>>, before: seq<Section>, now: seq<Section>, groups: seq<nat>, n: nat,
                 entries: seq<u64>, number: nat)
    requires n < |before| == |arrays| && arrays[n] == Some(entries) && entries != []
    requires ReadUpTo(arrays, before, now, groups, n)
    ensures ReadUpTo(arrays, before, WithGroup(now, n, entries, number), GroupsAfter(groups, n, entries), n + 1)
  {
    hide WithGroup, Header;
    var after := WithGroup(now, n, entries, number);
    assert Ascending(GroupsAfter(groups, n, entries), n + 1);
    forall j | 0 <= j < |before|
      ensures Header(after[j]) == Header(before[j]) && after[j].isDwarf == before[j].isDwarf
      ensures after[j].groupArray == if j < n + 1 then arrays[j] else None
    {
      WithGroupAt(now, n, entries, number, j);
      assert Header(now[j]) == Header(before[j]);
    }
  }

  ghost function FlaggedSections(sections: seq<Section>, n: nat): set<nat> {
    set j: nat | j < n && j < |sections| && IsFlagged(sections[j])
  }

  predicate IsFlagged(s: Section) {
    IsPlain(s) && FlagMatches(s.flags)
  }

  /** A set that has grown by at most the one number n. */
  lemma OneMoreNumber(before: set<nat>, after: set<nat>, n: nat, more: bool)
    requires n !in before
    requires forall j: nat :: j in after <==> j in before || (more && j == n)
    ensures |after| == |before| + (if more then 1 else 0)
  {
    if more {
      assert after == before + {n};
    } else {
      assert after == before;
    }
  }

  lemma OneMoreFlagged(sections: seq<Section>, n: nat)
    requires n < |sections|
    ensures |FlaggedSections(sections, n + 1)|
            == |FlaggedSections(sections, n)| + (if IsFlagged(sections[n]) then 1 else 0)
  {
    hide IsFlagged;
    OneMoreNumber(FlaggedSections(sections, n), FlaggedSections(sections, n + 1), n, IsFlagged(sections[n]));
  }

  // ---------------------------------------------------------------- the second pass

  predicate IsDwo(s: Section) {
    IsPlain(s) && EndsWith(s.name, ".dwo")
  }

  predicate IsOtherDwarf(s: Section) {
    IsPlain(s) && !EndsWith(s.name, ".dwo") && NamesDwarf(s.name)
  }

  lemma EndsWithIsSuffix(n: string, q: string)
    ensures EndsWith(n, q) <==> exists stem: string :: n == stem + q
  {
    if EndsWith(n, q) {
      assert n == n[..|n| - |q|] + q;
    }
  }

  /** What the kinds of sections are, in the numbers and names of the format. */
  lemma KindsAre(s: Section)
    ensures IsLiveGroup(s) <==> s.kind == 17 || (s.name == ".group" && s.kind != 0 && s.kind != 8)
    ensures IsPlain(s) <==> s.kind !in {0, 8, 17} && s.name != ".group"
    ensures IsDwo(s) <==> IsPlain(s) && exists stem: string :: s.name == stem + ".dwo"
    ensures IsFlagged(s) <==> IsPlain(s) && s.flags / 0x200 % 2 == 1
  {
    EndsWithIsSuffix(s.name, ".dwo");
    hide EndsWith;
  }

  lemma SecondLetter(n: string, q: string)
    requires |q| >= 2
    ensures StartsWith(n, q) ==> |n| >= 2 && n[1] == q[1]
  {
  }

  lemma StartsWithIsPrefix(n: string, q: string)
    ensures StartsWith(n, q) <==> exists rest: string :: n == q + rest
  {
    if StartsWith(n, q) {
      assert n == q + n[|q|..];
    }
  }

  /** Which names are DWARF names. None of them starts with .rel, so that the first check decides nothing. */
  lemma DwarfNamesAre(name: string)
    ensures NamesDwarf(name) <==>
            || (exists rest: string :: name == ".debug_" + rest)
            || (exists rest: string :: name == ".zdebug_" + rest)
            || (exists rest: string :: name == ".gdb_index" + rest)
            || name == ".eh_frame"
  {
    StartsWithIsPrefix(name, ".debug_");
    StartsWithIsPrefix(name, ".zdebug_");
    StartsWithIsPrefix(name, ".gdb_index");
    SecondLetter(name, ".debug_");
    SecondLetter(name, ".zdebug_");
    SecondLetter(name, ".gdb_index");
    SecondLetter(name, ".eh_frame");
    SecondLetter(name, ".rel");
    assert name == ".eh_frame" ==> StartsWith(name, ".eh_frame");
    hide StartsWith;
  }

  /** The flag looked for is bit 9. */
  lemma FlaggedBit(high: nat, bit: nat, low: nat)
    requires bit < 2 && low < 0x200 && 0x400 * high + 0x200 * bit + low < TWO_64
    ensures FlagMatches(0x400 * high + 0x200 * bit + low) <==> bit == 1
  {
  }

  /** What the second pass makes of one visited section. */
  function Numbered(s: Section): Section {
    if IsDwo(s) then s.(isDwarf := true, groupNumber := GROUPNUMBER_DWO)
    else if IsOtherDwarf(s) then
      s.(isDwarf := true, groupNumber := if s.groupNumber == 0 then GROUPNUMBER_BASE else s.groupNumber)
    else s
  }

  ghost predicate NumberedUpTo(before: seq<Section>, now: seq<Section>, n: nat) {
    && |now| == |before|
    && (forall j | 0 <= j < |before| :: now[j] == if j < n then Numbered(before[j]) else before[j])
    && (forall j | 0 <= j < n && j < |before| :: IsDwo(before[j]) ==> before[j].groupNumber == 0)
  }

  ghost function DwoSections(sections: seq<Section>, n: nat): set<nat> {
    set j: nat | j < n && j < |sections| && IsDwo(sections[j])
  }

  lemma OneMoreDwo(sections: seq<Section>, n: nat)
    requires n < |sections|
    ensures |DwoSections(sections, n + 1)| == |DwoSections(sections, n)| + (if IsDwo(sections[n]) then 1 else 0)
  {
    hide IsDwo;
    OneMoreNumber(DwoSections(sections, n), DwoSections(sections, n + 1), n, IsDwo(sections[n]));
  }

  /** The meaning of the final numbers, from a partition and a completed second pass: 2 marks exactly
      the visited .dwo sections, other visited DWARF sections have number 1 unless a group lists them, and the
      sections listed by group k still are exactly those numbered k+3. */
  lemma NumbersAfterBothPasses(mid: seq<Section>, final: seq<Section>, groups: seq<nat>, j: nat)
    requires Partition(mid, groups)
    requires NumberedUpTo(mid, final, if |mid| == 0 then 0 else |mid| - 1)
    requires j < |mid|
    ensures final[j].groupNumber == 2 <==> Visited(j, |mid|) && IsDwo(final[j])
    ensures final[j].groupNumber == 1 <==> Visited(j, |mid|) && IsOtherDwarf(final[j]) && mid[j].groupNumber == 0
    ensures final[j].groupNumber !in {1, 2} ==> final[j].groupNumber == mid[j].groupNumber
    ensures Visited(j, |mid|) && (IsDwo(final[j]) || IsOtherDwarf(final[j])) ==> final[j].isDwarf
    ensures forall k | 0 <= k < |groups| ::
              j in Members(final[groups[k]]) <==> final[j].groupNumber == k + 3
    ensures Members(final[j]) == Members(mid[j])
  {
    hide EndsWith, NamesDwarf, IsEmptySection, IsGroupSection;
    assert NumberInUse(mid[j].groupNumber, |groups|);
    forall k | 0 <= k < |groups|
      ensures j in Members(final[groups[k]]) <==> final[j].groupNumber == FIRST_GROUP + k
    {
      assert Members(final[groups[k]]) == Members(mid[groups[k]]);
      assert j in Members(mid[groups[k]]) <==> mid[j].groupNumber == FIRST_GROUP + k;
    }
  }

  /** The .dwo count counts exactly the sections that end up with number 2. */
  lemma DwoCountIsExact(mid: seq<Section>, final: seq<Section>, groups: seq<nat>)
    requires Partition(mid, groups)
    requires NumberedUpTo(mid, final, if |mid| == 0 then 0 else |mid| - 1)
    ensures DwoSections(mid, if |mid| == 0 then 0 else |mid| - 1)
            == set j: nat | j < |final| && final[j].groupNumber == 2
  {
    forall j | 0 <= j < |mid|
      ensures final[j].groupNumber == GROUPNUMBER_DWO <==> Visited(j, |mid|) && IsDwo(mid[j])
    {
      NumbersAfterBothPasses(mid, final, groups, j);
    }
  }
}
