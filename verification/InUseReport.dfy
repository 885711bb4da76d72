/** The queue of used areas, the sweep over it, and the report on wasted file space. */
module InUseReport {
  import opened Arithmetic
  import opened Words
  import opened Outcomes
  import opened IntervalMeasure
  import opened SpaceTotals
  import opened InUseOrder
  import opened SplitMeasure
  import opened SplitOrder

  class InUseEntry {
    const area: Area
    var next: InUseEntry?

    constructor (area: Area)
      ensures this.area == area && next == null
    {
      this.area := area;
      next := null;
    }
  }

  /** What the report says about the end of the file. */
  datatype Tail = AllUsed | Unaccounted(bytes: nat) | BeyondFile(bytes: nat)

  datatype Report = NoContent | NoMemory | Reported(tail: Tail)

  function TailOf(highoffset: nat, filesize: nat): Tail {
    if highoffset < filesize then Unaccounted(filesize - highoffset)
    else if highoffset > filesize then BeyondFile(highoffset - filesize)
    else AllUsed
  }

  /** The tail is what the recorded end and the file's size differ by. */
  lemma TailIsDifference(highoffset: nat, filesize: nat, bytes: nat)
    ensures TailOf(highoffset, filesize) == Unaccounted(bytes) <==> bytes > 0 && highoffset + bytes == filesize
    ensures TailOf(highoffset, filesize) == BeyondFile(bytes) <==> bytes > 0 && filesize + bytes == highoffset
    ensures TailOf(highoffset, filesize) == AllUsed <==> highoffset == filesize
  {
  }

  // ---------------------------------------------------------------- what the sweep computes

  lemma NoneWrapsIgnoresOrder(a: seq<Area>, b: seq<Area>)
    requires multiset(a) == multiset(b)
    ensures NoneWraps(a) <==> NoneWraps(b)
  {
    assert forall x :: x in a <==> x in multiset(a);
    assert forall x :: x in b <==> x in multiset(b);
  }

  /** The main result: for a queue none of whose areas wraps, whatever sorted listing the sweep is
      given, the two kinds of wasted space add up to the bytes between the first and the last used
      byte that no area covers, and the two counts to the number of runs those bytes form. */
  lemma WastedSpaceIsUncoveredSpace(queue: seq<Area>, sorted: seq<Area>, lo: int, hi: int)
    requires NoneWraps(queue) && ListingOf(queue, sorted)
    requires Spans(Ranges(Uses(queue)), lo, hi)
    ensures var t, areas := Total(Uses(sorted)), Ranges(Uses(queue));
            && t.end == Some(hi)
            && t.contentSpace + t.alignSpace == |Uncovered(areas, lo, hi)|
            && t.contentCount + t.alignCount == |GapEnds(areas, lo, hi)|
            && t.contentSpace + t.alignSpace < TWO_64
  {
    SortedMeansInOrder(sorted);
    TotalMeasures(Uses(sorted));
    RangesOfSameAreas(queue, sorted);
    SpanFixesTotals(Total(Uses(sorted)), Ranges(Uses(sorted)), Ranges(Uses(queue)), lo, hi);
    CoveredPlusUncovered(Ranges(Uses(queue)), lo, hi);
  }

  /** Recording the same areas in another order changes neither the sum of the wasted bytes, nor
      the number of gaps, nor the tail; nor the split, when tied areas agree about the gap before them. */
  lemma ReportIgnoresInsertionOrder(queue: seq<Area>, queue': seq<Area>, sorted: seq<Area>, sorted': seq<Area>)
    requires NoneWraps(queue) && multiset(queue) == multiset(queue')
    requires ListingOf(queue, sorted) && ListingOf(queue', sorted')
    ensures var s, t := Total(Uses(sorted)), Total(Uses(sorted'));
            && s.contentSpace + s.alignSpace == t.contentSpace + t.alignSpace
            && s.contentCount + s.alignCount == t.contentCount + t.alignCount
            && (GapTiesAgree(queue) ==> s == t)
    ensures HighOffset(queue) == HighOffset(queue')
  {
    SortedMeansInOrder(sorted);
    SortedMeansInOrder(sorted');
    SumIgnoresOrder(sorted, sorted');
    if GapTiesAgree(queue) {
      AgreementFixesTotals(queue, sorted, sorted');
    }
    HighOffsetIgnoresOrder(queue, queue');
    hide GapTiesAgree, Total, Uses, NoneWraps;
  }

  lemma HighOffsetIgnoresOrder(queue: seq<Area>, queue': seq<Area>)
    requires multiset(queue) == multiset(queue')
    ensures HighOffset(queue) == HighOffset(queue')
  {
    assert forall a :: a in queue <==> a in multiset(queue);
    assert forall a :: a in queue' <==> a in multiset(queue');
    HighOffsetIsGreatest(queue);
    HighOffsetIsGreatest(queue');
  }

  /** The split the report makes of a queue is the same however the areas were recorded and sorted if and
      only if tied areas agree about the gap before them. */
  lemma SplitIgnoresOrderExactly(queue: seq<Area>)
    requires NoneWraps(queue)
    ensures (forall queue', sorted, sorted' | multiset(queue') == multiset(queue)
                                              && ListingOf(queue, sorted) && ListingOf(queue', sorted') ::
               Total(Uses(sorted)) == Total(Uses(sorted')))
            <==> GapTiesAgree(queue)
  {
    SplitIsFixedExactly(queue);
    if GapTiesAgree(queue) {
      forall queue', sorted, sorted' | multiset(queue') == multiset(queue)
                                       && ListingOf(queue, sorted) && ListingOf(queue', sorted')
        ensures Total(Uses(sorted)) == Total(Uses(sorted'))
      {
        AgreementFixesTotals(queue, sorted, sorted');
      }
    } else {
      var s, t :| ListingOf(queue, s) && ListingOf(queue, t) && Total(Uses(s)) != Total(Uses(t));
      assert multiset(queue) == multiset(queue) && ListingOf(queue, s) && ListingOf(queue, t);
    }
    hide GapTiesAgree, Total, Uses, NoneWraps, Sorted;
  }

  /** Which part of it is due to alignment: the bytes of the gaps that end where an area begins at the first
      multiple of its alignment after what was used before, the first area sorted there deciding. */
  lemma AlignmentWasteIsAlignment(queue: seq<Area>, sorted: seq<Area>, lo: int, hi: int)
    requires ListingOf(queue, sorted)
    requires Spans(Ranges(Uses(queue)), lo, hi)
    ensures SplitMeasures(Total(Uses(sorted)), Uses(sorted), lo, hi)
  {
    hide Uses, Ranges, InOrder;
    SortedMeansInOrder(sorted);
    RangesOfSameAreas(queue, sorted);
    SameMembersSameMeasure(Ranges(Uses(queue)), Ranges(Uses(sorted)), lo, hi);
    TotalSplits(Uses(sorted), lo, hi);
  }

  predicate TotalsFit(t: Totals) {
    && t.contentSpace < TWO_64 && t.contentCount < TWO_64
    && t.alignSpace < TWO_64 && t.alignCount < TWO_64
  }

  lemma ListedTotalsFit(queue: seq<Area>, sorted: seq<Area>)
    requires NoneWraps(queue) && ListingOf(queue, sorted)
    ensures TotalsFit(Total(Uses(sorted)))
    ensures (forall r | r in Ranges(Uses(queue)) :: r.start >= r.end) ==> Total(Uses(sorted)) == NOTHING_USED
  {
    hide Total, Uncovered, GapEnds, NoneWraps, Sorted;
    SortedMeansInOrder(sorted);
    TotalMeasures(Uses(sorted));
    RangesOfSameAreas(queue, sorted);
    CountsAtMostSpace(Uses(sorted));
    var t := Total(Uses(sorted));
    if t.end.Some? {
      var lo :| MeasuresFrom(t, Ranges(Uses(sorted)), lo, t.end.value);
      SameMembersSameMeasure(Ranges(Uses(queue)), Ranges(Uses(sorted)), lo, t.end.value);
      WastedSpaceIsUncoveredSpace(queue, sorted, lo, t.end.value);
    }
  }

  function TailBytes(t: Tail): nat {
    if t.Unaccounted? then t.bytes else 0
  }

  lemma SpanEndsByHighOffset(queue: seq<Area>, lo: int, hi: int)
    requires Spans(Ranges(Uses(queue)), lo, hi)
    ensures hi <= HighOffset(queue)
    ensures exists a :: a in queue && NonEmpty(a) && a.offset == lo
    ensures exists a :: a in queue && NonEmpty(a) && a.lastbyte == hi
    ensures forall a | a in queue && NonEmpty(a) :: lo <= a.offset && a.lastbyte <= hi
  {
    var areas := Ranges(Uses(queue));
    var k :| 0 <= k < |areas| && areas[k].start < areas[k].end && areas[k].end == hi;
    assert queue[k] in queue && queue[k].lastbyte == hi;
    var j :| 0 <= j < |areas| && areas[j].start < areas[j].end && areas[j].start == lo;
    assert queue[j] in queue && queue[j].offset == lo;
    forall a | a in queue && NonEmpty(a)
      ensures lo <= a.offset && a.lastbyte <= hi
    {
      var i :| 0 <= i < |queue| && queue[i] == a;
      assert areas[i] in areas;
    }
    HighOffsetIsGreatest(queue);
  }

  /** Some non-empty area starts at the first byte of the file, and some ends where the last area does. */
  ghost predicate ReachesBothEnds(queue: seq<Area>) {
    && (exists a :: a in queue && NonEmpty(a) && a.offset == 0)
    && (exists a :: a in queue && NonEmpty(a) && a.lastbyte == HighOffset(queue))
  }

  ghost function Accounted(queue: seq<Area>, t: Totals, filesize: nat): nat {
    |CoveredBytes(Ranges(Uses(queue)), 0, filesize)| + t.contentSpace + t.alignSpace
    + TailBytes(TailOf(HighOffset(queue), filesize))
  }

  /** For a queue that ends inside the file: covered bytes, both kinds of waste and the tail the report
      mentions make up the whole file exactly when non-empty areas reach both ends of what was recorded,
      or all that was recorded is empty areas at offset 0. */
  lemma WholeFileAccounting(queue: seq<Area>, sorted: seq<Area>, filesize: nat)
    requires NoneWraps(queue) && ListingOf(queue, sorted)
    requires HighOffset(queue) <= filesize
    ensures Accounted(queue, Total(Uses(sorted)), filesize) == filesize
            <==> HighOffset(queue) == 0 || ReachesBothEnds(queue)
  {
    SortedMeansInOrder(sorted);
    TotalMeasures(Uses(sorted));
    RangesOfSameAreas(queue, sorted);
    var t := Total(Uses(sorted));
    if t.end.None? {
      NothingUsed(queue, filesize);
    } else {
      var lo :| MeasuresFrom(t, Ranges(Uses(sorted)), lo, t.end.value);
      SameMembersSameMeasure(Ranges(Uses(queue)), Ranges(Uses(sorted)), lo, t.end.value);
      SpanAccounting(queue, sorted, lo, t.end.value, filesize);
    }
    hide Total, Accounted, ReachesBothEnds, Spans, Uncovered, GapEnds;
  }

  lemma NothingUsed(queue: seq<Area>, filesize: nat)
    requires forall r | r in Ranges(Uses(queue)) :: r.start >= r.end
    requires HighOffset(queue) <= filesize
    ensures !ReachesBothEnds(queue)
    ensures Accounted(queue, NOTHING_USED, filesize) == filesize <==> HighOffset(queue) == 0
  {
    forall a | a in queue ensures !NonEmpty(a) {
      var i :| 0 <= i < |queue| && queue[i] == a;
      assert Ranges(Uses(queue))[i] in Ranges(Uses(queue));
    }
    assert CoveredBytes(Ranges(Uses(queue)), 0, filesize) == {};
  }

  lemma SpanAccounting(queue: seq<Area>, sorted: seq<Area>, lo: int, hi: int, filesize: nat)
    requires NoneWraps(queue) && ListingOf(queue, sorted)
    requires Spans(Ranges(Uses(queue)), lo, hi)
    requires HighOffset(queue) <= filesize
    ensures Accounted(queue, Total(Uses(sorted)), filesize) == filesize <==> ReachesBothEnds(queue)
    ensures HighOffset(queue) > 0
  {
    var areas := Ranges(Uses(queue));
    WastedSpaceIsUncoveredSpace(queue, sorted, lo, hi);
    CoveredPlusUncovered(areas, lo, hi);
    SpanEndsByHighOffset(queue, lo, hi);
    assert CoveredBytes(areas, 0, filesize) == CoveredBytes(areas, lo, hi);
    hide Total, Uncovered, GapEnds, HighOffset, Covered, NoneWraps, ListingOf, Sorted;
  }

  lemma SpanFixesTotals(t: Totals, a: seq<Range>, b: seq<Range>, lo: int, hi: int)
    requires Measures(t, a)
    requires forall r :: r in a <==> r in b
    requires Spans(b, lo, hi)
    ensures t.end == Some(hi)
    ensures MeasuresFrom(t, b, lo, hi)
  {
    if t.end.Some? {
      var lo' :| MeasuresFrom(t, a, lo', t.end.value);
      SameMembersSameMeasure(a, b, lo', t.end.value);
      SpanIsUnique(b, lo, hi, lo', t.end.value);
    }
  }

  // ---------------------------------------------------------------- single steps of the sweep

  /** The part of the sweep that decides whether a gap is there only to align the next area. */
  function AlignmentGap(last: u64, offset: u64, align: u64): (distance: Option<u64>)
    requires last < offset
    ensures distance.Some? <==> ForcedByAlignment(last, offset, align)
    ensures distance.Some? ==> distance.value == offset - last
  {
    if align > 1 then
      var misaligned := last % align;
      var distance := if misaligned != 0 then align - misaligned else 0;
      NextMultiple(last, offset, align);
      if offset == Wrap(last + distance) then Some(distance) else None
    else None
  }

  lemma NextMultiple(last: nat, offset: nat, align: nat)
    requires last < offset && align > 1
    ensures offset % align == 0 && offset - last < align <==>
            last % align != 0 && offset == last + (align - last % align)
  {
    var q, r := last / align, last % align;
    assert last == q * align + r;
    if r != 0 && offset == last + (align - r) {
      DivModUnique(offset, align, q + 1, 0);
    }
    if offset % align == 0 && offset - last < align {
      var q' := offset / align;
      assert offset == q' * align;
      if q' <= q {
        ScaleMonotone(q', q, align);
      }
      if q' >= q + 2 {
        ScaleMonotone(q + 2, q', align);
      }
      assert q' == q + 1;
    }
  }

  lemma WrapAdd(x: nat, d: nat)
    ensures Wrap(Wrap(x) + d) == Wrap(x + d)
  {
  }

  /** low is an area ending where the totals end. */
  ghost predicate Reaches(t: Totals, first: bool, low: Area) {
    && (first <==> t.end.None?)
    && (!first ==> low.offset < low.lastbyte && t.end == Some(low.lastbyte))
  }

  /** a does not wrap and is not sorted before low. */
  ghost predicate Follows(first: bool, low: Area, a: Area) {
    && a.lastbyte == a.offset + a.length
    && (!first ==> low.offset <= a.offset && (low.offset == a.offset ==> low.lastbyte <= a.lastbyte))
  }

  lemma SweepFollows(areas: seq<Area>, i: nat, k: nat, first: bool, low: Area)
    requires i < |areas| && NoneWraps(areas) && Sorted(areas)
    requires !first ==> k < i && areas[k] == low
    ensures Follows(first, low, areas[i])
  {
    assert areas[i] in areas;
    if !first {
      assert Comproffset(areas[k], areas[i]) <= 0;
    }
  }

  /** The part of elf_filedata that accounts for file space. */
  class SpaceAccounts {
    const memory: Memory
    const filesize: u64
    var inUse: InUseEntry?
    var inUseTail: InUseEntry?
    var inUseCount: nat
    var wastedContentSpace: u64
    var wastedContentCount: u64
    var wastedAlignSpace: u64
    var wastedAlignCount: u64

    ghost var entries: seq<InUseEntry>

    ghost predicate Valid()
      reads this, entries
    {
      && inUseCount == |entries|
      && (inUseCount == 0 ==> inUse == null)
      && (inUseCount > 0 ==> inUse == entries[0] && inUseTail == entries[inUseCount - 1] && inUseTail.next == null)
      && (forall i | 0 <= i < |entries| - 1 :: entries[i].next == entries[i + 1])
      && (forall i, j | 0 <= i < j < |entries| :: entries[i] != entries[j])
      && (forall i | 0 <= i < |entries| :: WellFormed(entries[i].area))
    }

    ghost function Queue(): seq<Area>
      reads this
    {
      seq(|entries|, i requires 0 <= i < |entries| reads this => entries[i].area)
    }

    constructor (memory: Memory, filesize: u64)
      ensures Valid() && Queue() == [] && this.memory == memory && this.filesize == filesize
      ensures wastedContentSpace == wastedContentCount == wastedAlignSpace == wastedAlignCount == 0
    {
      this.memory, this.filesize := memory, filesize;
      inUse, inUseTail, inUseCount := null, null, 0;
      wastedContentSpace, wastedContentCount := 0, 0;
      wastedAlignSpace, wastedAlignCount := 0, 0;
      entries := [];
    }

    /** Appends to the queue. The program exits when no memory is left, so ok is false only then. */
    method InsertInUse(description: string, offset: u64, length: u64, align: u64) returns (ok: bool)
      requires Valid()
      modifies this`inUse, this`inUseTail, this`inUseCount, this`entries, entries
      ensures Valid()
      ensures ok ==> Queue() == old(Queue()) + [Area(description, offset, align, length, Wrap(offset + length))]
      ensures memory.Plentiful? ==> ok
      ensures !ok ==> Queue() == old(Queue()) && inUse == old(inUse) && inUseTail == old(inUseTail)
    {
      ok := Malloc(memory);
      if !ok {
        return;
      }
      var e := new InUseEntry(Area(description, offset, align, length, Wrap(offset + length)));
      inUseCount := inUseCount + 1;
      entries := entries + [e];
      if inUse != null {
        inUseTail.next := e;
        inUseTail := e;
        return;
      }
      inUse := e;
      inUseTail := e;
    }

    /** Copies the queue into an array, noting the greatest end. */
    method CopyQueue(areas: array<Area>) returns (highoffset: u64)
      requires Valid() && areas.Length == inUseCount
      modifies areas
      ensures areas[..] == Queue()
      ensures highoffset == HighOffset(Queue())
    {
      highoffset := 0;
      var iupl := inUse;
      for i := 0 to areas.Length
        invariant iupl == if i < |entries| then entries[i] else null
        invariant areas[..i] == Queue()[..i]
        invariant highoffset == HighOffset(Queue()[..i])
      {
        areas[i] := iupl.area;
        assert Queue()[..i + 1][..i] == Queue()[..i];
        if iupl.area.lastbyte > highoffset {
          highoffset := iupl.area.lastbyte;
        }
        iupl := iupl.next;
      }
      assert Queue()[..areas.Length] == Queue();
    }

    /** The fields hold the given totals on top of the values they started from. */
    ghost predicate Holds(t: Totals, start: Totals)
      reads this
    {
      && wastedContentSpace == Wrap(start.contentSpace + t.contentSpace)
      && wastedContentCount == Wrap(start.contentCount + t.contentCount)
      && wastedAlignSpace == Wrap(start.alignSpace + t.alignSpace)
      && wastedAlignCount == Wrap(start.alignCount + t.alignCount)
    }

    /** The fields hold the totals of some sorted listing of the queue. */
    ghost predicate HoldsForSomeOrder(queue: seq<Area>, start: Totals)
      reads this
    {
      exists sorted :: ListingOf(queue, sorted) && Holds(Total(Uses(sorted)), start)
    }

    /** The fields measure the bytes and gaps that the areas leave between the first and the last used
        byte, and are zero when no byte is used. */
    ghost predicate FieldsMeasure(queue: seq<Area>)
      reads this
    {
      var areas := Ranges(Uses(queue));
      && (forall lo, hi | Spans(areas, lo, hi) ::
            && wastedContentSpace + wastedAlignSpace == |Uncovered(areas, lo, hi)|
            && wastedContentCount + wastedAlignCount == |GapEnds(areas, lo, hi)|)
      && ((forall r | r in areas :: r.start >= r.end) ==> Wasted() == NOTHING_USED)
    }

    /** The alignment fields measure the gaps that alignment calls for, in some sorted listing of the queue. */
    ghost predicate FieldsSplit(queue: seq<Area>)
      reads this
    {
      exists sorted :: ListingOf(queue, sorted) && SplitBy(queue, Uses(sorted))
    }

    ghost predicate SplitBy(queue: seq<Area>, uses: seq<Use>)
      reads this
    {
      forall lo, hi | Spans(Ranges(Uses(queue)), lo, hi) ::
        && wastedAlignSpace == |AlignmentBytes(uses, lo, hi)|
        && wastedAlignCount == |AlignmentGaps(uses, lo, hi)|
    }

    lemma HeldExactly(t: Totals)
      requires Holds(t, NOTHING_USED) && TotalsFit(t)
      ensures wastedContentSpace == t.contentSpace && wastedContentCount == t.contentCount
      ensures wastedAlignSpace == t.alignSpace && wastedAlignCount == t.alignCount
    {
    }

    lemma HeldTotalsMeasure(queue: seq<Area>)
      requires NoneWraps(queue) && HoldsForSomeOrder(queue, NOTHING_USED)
      ensures FieldsMeasure(queue) && FieldsSplit(queue)
    {
      hide Holds, Total, TotalsFit, Uses, Uncovered, GapEnds, Spans, ListingOf, NoneWraps, AlignmentBytes,
           AlignmentGaps;
      var sorted :| ListingOf(queue, sorted) && Holds(Total(Uses(sorted)), NOTHING_USED);
      var areas := Ranges(Uses(queue));
      ListedTotalsFit(queue, sorted);
      HeldExactly(Total(Uses(sorted)));
      forall lo, hi | Spans(areas, lo, hi)
        ensures wastedContentSpace + wastedAlignSpace == |Uncovered(areas, lo, hi)|
        ensures wastedContentCount + wastedAlignCount == |GapEnds(areas, lo, hi)|
      {
        WastedSpaceIsUncoveredSpace(queue, sorted, lo, hi);
      }
      forall lo, hi | Spans(areas, lo, hi)
        ensures wastedAlignSpace == |AlignmentBytes(Uses(sorted), lo, hi)|
        ensures wastedAlignCount == |AlignmentGaps(Uses(sorted), lo, hi)|
      {
        AlignmentWasteIsAlignment(queue, sorted, lo, hi);
      }
      assert SplitBy(queue, Uses(sorted));
    }

    ghost function Wasted(): Totals
      reads this
    {
      Totals(None, wastedContentSpace, wastedContentCount, wastedAlignSpace, wastedAlignCount)
    }

    /** Charges a gap to alignment. */
    method ChargeAlignment(distance: u64, ghost t: Totals, ghost start: Totals)
      modifies this`wastedAlignSpace, this`wastedAlignCount
      ensures old(Holds(t, start)) ==>
                Holds(t.(alignSpace := t.alignSpace + distance, alignCount := t.alignCount + 1), start)
    {
      WrapAdd(start.alignCount + t.alignCount, 1);
      WrapAdd(start.alignSpace + t.alignSpace, distance);
      wastedAlignCount := Wrap(wastedAlignCount + 1);
      wastedAlignSpace := Wrap(wastedAlignSpace + distance);
    }

    /** Charges a gap to wasted content. */
    method ChargeContent(diff: u64, ghost t: Totals, ghost start: Totals)
      modifies this`wastedContentSpace, this`wastedContentCount
      ensures old(Holds(t, start)) ==>
                Holds(t.(contentSpace := t.contentSpace + diff, contentCount := t.contentCount + 1), start)
    {
      WrapAdd(start.contentCount + t.contentCount, 1);
      WrapAdd(start.contentSpace + t.contentSpace, diff);
      wastedContentCount := Wrap(wastedContentCount + 1);
      wastedContentSpace := Wrap(wastedContentSpace + diff);
    }

    /** One round of the sweep. low stays the area reaching furthest, and the fields take on
        whatever the next area adds to the totals. */
    method Visit(first: bool, low: Area, iupa: Area, ghost t: Totals, ghost start: Totals)
      returns (first': bool, low': Area, ghost moved: bool)
      modifies this`wastedContentSpace, this`wastedContentCount, this`wastedAlignSpace, this`wastedAlignCount
      ensures low' == if moved then iupa else low
      ensures Reaches(t, first, low) && Follows(first, low, iupa) ==>
                && Reaches(Add(t, UseOf(iupa)), first', low')
                && (!first' && !moved ==> !first)
                && (old(Holds(t, start)) ==> Holds(Add(t, UseOf(iupa)), start))
    {
      first', low', moved := false, iupa, true;
      if iupa.length == 0 {
        return first, low, false;
      }
      if first || iupa.offset == low.offset || iupa.offset == low.lastbyte {
        return;
      }
      if iupa.offset > low.lastbyte {
        var distance := AlignmentGap(low.lastbyte, iupa.offset, iupa.align);
        if distance.Some? {
          ChargeAlignment(distance.value, t, start);
          return;
        }
        ChargeContent(iupa.offset - low.lastbyte, t, start);
        return;
      }
      if iupa.lastbyte <= low.lastbyte {
        return first, low, false;
      }
    }

    /** The sweep over the sorted areas: the fields advance by exactly the totals of the areas. */
    method Sweep(areas: array<Area>)
      requires Sorted(areas[..])
      modifies this`wastedContentSpace, this`wastedContentCount, this`wastedAlignSpace, this`wastedAlignCount
      ensures NoneWraps(areas[..]) ==> Holds(TotalOfFirst(areas[..], areas.Length), old(Wasted()))
    {
      var firstinstance := true;
      var low := Area("", 0, 0, 0, 0);
      ghost var all, start := areas[..], Wasted();
      ghost var exact := NoneWraps(all);
      ghost var k, t := 0, NOTHING_USED;
      NoTotalYet(all);
      for i := 0 to areas.Length
        invariant t == TotalOfFirst(all, i)
        invariant exact ==> Reaches(t, firstinstance, low)
        invariant exact && !firstinstance ==> k < i && all[k] == low
        invariant exact ==> Holds(t, start)
      {
        if exact {
          SweepFollows(all, i, k, firstinstance, low);
        }
        var iupa := areas[i];
        ghost var t' := TotalOfFirst(all, i + 1);
        TotalOfNext(all, i);
        ghost var moved;
        firstinstance, low, moved := Visit(firstinstance, low, iupa, t, start);
        t, k := t', if moved then i else k;
      }
    }

    method SortAndSweep(areas: array<Area>)
      modifies areas
      modifies this`wastedContentSpace, this`wastedContentCount, this`wastedAlignSpace, this`wastedAlignCount
      ensures NoneWraps(old(areas[..])) ==> HoldsForSomeOrder(old(areas[..]), old(Wasted()))
    {
      QSort(areas);
      ghost var sorted := areas[..];
      NoneWrapsIgnoresOrder(old(areas[..]), sorted);
      Sweep(areas);
      TotalOfAll(sorted);
      assert ListingOf(old(areas[..]), sorted);
    }

    /** The whole report. Nothing is assumed about the queue; its totals are meaningful when no
        area wraps, and then they are those of some sorted listing of the queue. */
    method ReportWastedSpace() returns (r: Report)
      requires Valid()
      modifies this
      ensures r.NoContent? <==> old(Queue()) == []
      ensures r.NoMemory? ==> memory.Scarce?
      ensures !r.Reported? ==> Wasted() == old(Wasted()) && inUse == old(inUse) && inUseTail == old(inUseTail)
      ensures r.Reported? ==> inUse == null && inUseTail == null && r.tail == TailOf(HighOffset(old(Queue())), filesize)
      ensures r.Reported? && NoneWraps(old(Queue())) ==> HoldsForSomeOrder(old(Queue()), old(Wasted()))
      ensures r.Reported? && NoneWraps(old(Queue())) && old(Wasted()) == NOTHING_USED ==>
                FieldsMeasure(old(Queue())) && FieldsSplit(old(Queue()))
    {
      if inUseCount == 0 {
        return NoContent;
      }
      var ok := Malloc(memory);
      if !ok {
        return NoMemory;
      }
      var iuarray := new Area[inUseCount];
      var highoffset := CopyQueue(iuarray);
      inUse := null;
      inUseTail := null;
      SortAndSweep(iuarray);
      if NoneWraps(old(Queue())) && old(Wasted()) == NOTHING_USED {
        HeldTotalsMeasure(old(Queue()));
      }
      return Reported(TailOf(highoffset, filesize));
    }
  }
}
