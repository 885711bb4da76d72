/** The part of the wasted space that is due to alignment, measured independently of any sweep. */
module SplitMeasure {
  import opened Outcomes
  import opened IntervalMeasure
  import opened SpaceTotals

  /** Use k is the first of the non-empty uses that start at y. */
  ghost predicate Opens(uses: seq<Use>, k: nat, y: int)
    requires k < |uses|
  {
    && uses[k].range.start == y < uses[k].range.end
    && forall j | 0 <= j < k && uses[j].range.start < uses[j].range.end :: uses[j].range.start != y
  }

  /** y is a multiple of align, and between any earlier one and y some byte is used. */
  ghost predicate FirstMultiple(areas: seq<Range>, y: nat, align: nat) {
    && align > 1 && Multiple(y, align)
    && forall m: nat | m < y && Multiple(m, align) :: exists p :: m <= p < y && Covered(areas, p)
  }

  /** The use that opens at y starts at the first multiple of its alignment after the bytes used before. */
  ghost predicate AlignedAt(uses: seq<Use>, y: int) {
    exists k :: 0 <= k < |uses| && Opens(uses, k, y) && FirstMultiple(Ranges(uses), y, uses[k].align)
  }

  /** The gaps, by their ends, that only align what follows them. */
  ghost function AlignmentGaps(uses: seq<Use>, lo: int, hi: int): set<int> {
    set y | y in GapEnds(Ranges(uses), lo, hi) && AlignedAt(uses, y)
  }

  /** Byte p is in the gap that ends at y. */
  ghost predicate InGapTo(areas: seq<Range>, p: int, y: int) {
    p < y && EndsGap(areas, y) && forall q | p <= q < y :: !Covered(areas, q)
  }

  /** The bytes of those gaps. */
  ghost function AlignmentBytes(uses: seq<Use>, lo: int, hi: int): set<int> {
    set p | p in Uncovered(Ranges(uses), lo, hi) && exists y :: InGapTo(Ranges(uses), p, y) && AlignedAt(uses, y)
  }

  /** The alignment part of the totals is right. */
  ghost predicate SplitMeasures(t: Totals, uses: seq<Use>, lo: int, hi: int) {
    t.alignSpace == |AlignmentBytes(uses, lo, hi)| && t.alignCount == |AlignmentGaps(uses, lo, hi)|
  }

  /** In a gap right after h the first multiple from there on is the first after all used bytes. */
  lemma FirstMultipleAfter(areas: seq<Range>, h: nat, y: nat, align: nat)
    requires h < y && Covered(areas, h - 1)
    requires forall p | h <= p < y :: !Covered(areas, p)
    ensures FirstMultiple(areas, y, align) <==> ForcedByAlignment(h, y, align)
  {
    ForcedIsNextMultiple(h, y, align);
    hide ForcedByAlignment, Covered, Multiple;
    if align > 1 && Multiple(y, align) {
      forall m: nat | m < h && Multiple(m, align)
        ensures exists p :: m <= p < y && Covered(areas, p)
      {
        assert m <= h - 1 < y && Covered(areas, h - 1);
      }
    }
  }

  lemma RangesOfOneMore(uses: seq<Use>, u: Use)
    ensures Ranges(uses + [u]) == Ranges(uses) + [u.range]
    ensures forall q :: q in Ranges(uses) ==> exists j :: 0 <= j < |uses| && uses[j].range == q
  {
  }

  /** Where a gap ends some use starts. */
  lemma SomeUseOpens(uses: seq<Use>, y: int)
    requires EndsGap(Ranges(uses), y)
    ensures exists j :: 0 <= j < |uses| && uses[j].range.start == y < uses[j].range.end
  {
    var areas := Ranges(uses);
    var r :| r in areas && r.start <= y < r.end;
    var j :| 0 <= j < |areas| && areas[j] == r;
    assert r.start <= y - 1 ==> Covered(areas, y - 1);
    assert uses[j].range == r;
  }

  /** One more use that covers no byte before y changes nothing about a gap that ended there. */
  lemma AlignedAtStays(uses: seq<Use>, u: Use, y: int)
    requires EndsGap(Ranges(uses), y)
    requires forall p | p < y :: Covered(Ranges(uses) + [u.range], p) <==> Covered(Ranges(uses), p)
    ensures AlignedAt(uses + [u], y) <==> AlignedAt(uses, y)
  {
    var all := uses + [u];
    RangesOfOneMore(uses, u);
    SomeUseOpens(uses, y);
    hide Covered, Ranges, Multiple;
    assert forall k | 0 <= k < |uses| :: all[k] == uses[k];
    forall align: nat ensures FirstMultiple(Ranges(all), y, align) <==> FirstMultiple(Ranges(uses), y, align) {
    }
    if k :| 0 <= k < |all| && Opens(all, k, y) && FirstMultiple(Ranges(all), y, all[k].align) {
      assert k < |uses| && Opens(uses, k, y);
    }
    if k :| 0 <= k < |uses| && Opens(uses, k, y) && FirstMultiple(Ranges(uses), y, uses[k].align) {
      assert Opens(all, k, y) && all[k] == uses[k];
    }
  }

  /** The gap a new use leaves behind. */
  lemma AlignedAtNew(uses: seq<Use>, u: Use, lo: int, hi: nat)
    requires Spans(Ranges(uses), lo, hi) && hi < u.range.start < u.range.end
    requires forall q :: q in Ranges(uses) ==> q.start <= u.range.start
    ensures AlignedAt(uses + [u], u.range.start) <==> ForcedByAlignment(hi, u.range.start, u.align)
  {
    var all, y := uses + [u], u.range.start;
    RangesOfOneMore(uses, u);
    forall p | hi - 1 <= p < y
      ensures Covered(Ranges(all), p) <==> p == hi - 1
    {
      CoverageGrows(Ranges(uses), u.range, lo, hi, p);
    }
    FirstMultipleAfter(Ranges(all), hi, y, u.align);
    forall j | 0 <= j < |uses| && uses[j].range.start < uses[j].range.end
      ensures uses[j].range.start < y
    {
      assert Ranges(uses)[j] in Ranges(uses);
    }
    assert Opens(all, |uses|, y);
    hide Covered, Ranges, FirstMultiple, ForcedByAlignment;
  }

  // ---------------------------------------------------------------- one more use

  /** An empty use opens nothing. */
  lemma EmptyUseAligns(uses: seq<Use>, u: Use, lo: int, hi: int)
    requires u.range.start >= u.range.end
    ensures AlignmentGaps(uses + [u], lo, hi) == AlignmentGaps(uses, lo, hi)
    ensures AlignmentBytes(uses + [u], lo, hi) == AlignmentBytes(uses, lo, hi)
  {
    var all := uses + [u];
    RangesOfOneMore(uses, u);
    forall p ensures Covered(Ranges(all), p) <==> Covered(Ranges(uses), p) {
      CoveredBySnoc(Ranges(uses), u.range, p);
    }
    forall y | EndsGap(Ranges(uses), y) ensures AlignedAt(all, y) <==> AlignedAt(uses, y) {
      AlignedAtStays(uses, u, y);
    }
    hide Covered, Ranges, AlignedAt;
    forall p, y ensures InGapTo(Ranges(all), p, y) <==> InGapTo(Ranges(uses), p, y) {
    }
  }

  /** A use sorted after the others adds its own gap, when there is one and alignment calls for it. */
  lemma NextGapAligned(uses: seq<Use>, u: Use, lo: int, hi: nat, y: int)
    requires Spans(Ranges(uses), lo, hi) && u.range.start < u.range.end
    requires forall q :: q in Ranges(uses) ==> q.start <= u.range.start
    ensures y < hi ==>
              (EndsGap(Ranges(uses + [u]), y) && AlignedAt(uses + [u], y)
               <==> EndsGap(Ranges(uses), y) && AlignedAt(uses, y))
    ensures y >= hi ==>
              && !EndsGap(Ranges(uses), y)
              && (EndsGap(Ranges(uses + [u]), y) && AlignedAt(uses + [u], y)
                  <==> y == u.range.start > hi && ForcedByAlignment(hi, y, u.align))
  {
    RangesOfOneMore(uses, u);
    GapEndsGrow(Ranges(uses), u.range, lo, hi, y);
    if y < hi {
      if EndsGap(Ranges(uses), y) {
        forall p | p < y ensures Covered(Ranges(uses) + [u.range], p) <==> Covered(Ranges(uses), p) {
          CoverageGrows(Ranges(uses), u.range, lo, hi, p);
        }
        AlignedAtStays(uses, u, y);
      }
    } else if u.range.start > hi {
      AlignedAtNew(uses, u, lo, hi);
    }
    hide *;
  }

  function Greater(x: int, y: int): int {
    if x > y then x else y
  }

  lemma GreaterIs(x: int, y: int)
    ensures Greater(x, y) == if x > y then x else y
  {
  }

  ghost predicate IsAlignmentByte(uses: seq<Use>, p: int) {
    !Covered(Ranges(uses), p) && exists y :: InGapTo(Ranges(uses), p, y) && AlignedAt(uses, y)
  }

  lemma SpanIsProper(areas: seq<Range>, lo: int, hi: int)
    requires Spans(areas, lo, hi)
    ensures lo < hi
  {
  }

  lemma IsAlignmentGap(uses: seq<Use>, lo: int, hi: int, y: int)
    ensures y in AlignmentGaps(uses, lo, hi) <==> lo < y < hi && EndsGap(Ranges(uses), y) && AlignedAt(uses, y)
  {
    hide EndsGap, AlignedAt, Ranges;
  }

  lemma IsInAlignmentBytes(uses: seq<Use>, lo: int, hi: int, p: int)
    ensures p in AlignmentBytes(uses, lo, hi) <==> lo <= p < hi && IsAlignmentByte(uses, p)
  {
    hide Covered, InGapTo, AlignedAt, Ranges;
  }

  lemma IsInInterval(lo: int, hi: int, p: int)
    ensures p in Interval(lo, hi) <==> lo <= p < hi
  {
    assert Inside(lo, hi, p) <==> lo <= p < hi;
  }

  lemma SizesAdd(now: set<int>, before: set<int>, gap: set<int>, h: int)
    requires forall y :: y in now <==> y in before || y in gap
    requires forall y | y in before :: y < h
    requires forall y | y in gap :: y >= h
    ensures |now| == |before| + |gap|
  {
    forall y ensures y in now <==> y in before + gap {
    }
    forall y ensures y !in before * gap {
    }
    assert now == before + gap && before * gap == {};
  }

  lemma NextAlignmentGaps(uses: seq<Use>, u: Use, lo: int, hi: nat)
    requires Spans(Ranges(uses), lo, hi) && u.range.start < u.range.end
    requires forall q :: q in Ranges(uses) ==> q.start <= u.range.start
    ensures |AlignmentGaps(uses + [u], lo, Greater(u.range.end, hi))|
            == |AlignmentGaps(uses, lo, hi)|
               + (if u.range.start > hi && ForcedByAlignment(hi, u.range.start, u.align) then 1 else 0)
  {
    hide *;
    var gap := if u.range.start > hi && ForcedByAlignment(hi, u.range.start, u.align) then {u.range.start} else {};
    forall y
      ensures y in AlignmentGaps(uses + [u], lo, Greater(u.range.end, hi))
              <==> y in AlignmentGaps(uses, lo, hi) || y in gap
      ensures y in AlignmentGaps(uses, lo, hi) ==> y < hi
    {
      IsAlignmentGap(uses, lo, hi, y);
      IsAlignmentGap(uses + [u], lo, Greater(u.range.end, hi), y);
      GreaterIs(u.range.end, hi);
      SpanIsProper(Ranges(uses), lo, hi);
      NextGapAligned(uses, u, lo, hi, y);
    }
    SizesAdd(AlignmentGaps(uses + [u], lo, Greater(u.range.end, hi)), AlignmentGaps(uses, lo, hi), gap, hi);
  }

  /** Whose gap a byte is in, before and after one more use. */
  lemma NextInGapTo(uses: seq<Use>, u: Use, lo: int, hi: int, p: int, y: int)
    requires Spans(Ranges(uses), lo, hi) && u.range.start < u.range.end
    requires forall q :: q in Ranges(uses) ==> q.start <= u.range.start
    ensures p < hi && y < hi ==> (InGapTo(Ranges(uses + [u]), p, y) <==> InGapTo(Ranges(uses), p, y))
    ensures p < hi <= y ==> !InGapTo(Ranges(uses + [u]), p, y)
    ensures y >= hi ==> !InGapTo(Ranges(uses), p, y)
    ensures p >= hi ==> (InGapTo(Ranges(uses + [u]), p, y) <==> p < y == u.range.start)
  {
    RangesOfOneMore(uses, u);
    GapEndsGrow(Ranges(uses), u.range, lo, hi, y);
    CoverageGrows(Ranges(uses), u.range, lo, hi, hi - 1);
    forall q
      ensures q < hi ==> (Covered(Ranges(uses + [u]), q) <==> Covered(Ranges(uses), q))
      ensures q >= hi ==> (Covered(Ranges(uses + [u]), q) <==> u.range.start <= q < u.range.end)
    {
      CoverageGrows(Ranges(uses), u.range, lo, hi, q);
    }
    hide Covered, Ranges, EndsGap, Spans;
  }

  lemma NextAlignmentByte(uses: seq<Use>, u: Use, lo: int, hi: nat, p: int)
    requires Spans(Ranges(uses), lo, hi) && u.range.start < u.range.end
    requires forall q :: q in Ranges(uses) ==> q.start <= u.range.start
    ensures p < hi ==> (IsAlignmentByte(uses + [u], p) <==> IsAlignmentByte(uses, p))
    ensures p >= hi ==>
              (IsAlignmentByte(uses + [u], p)
               <==> p < u.range.start && ForcedByAlignment(hi, u.range.start, u.align))
  {
    RangesOfOneMore(uses, u);
    CoverageGrows(Ranges(uses), u.range, lo, hi, p);
    forall y
      ensures InGapTo(Ranges(uses + [u]), p, y) ==> EndsGap(Ranges(uses + [u]), y)
      ensures InGapTo(Ranges(uses), p, y) ==> EndsGap(Ranges(uses), y)
      ensures p < hi ==> (InGapTo(Ranges(uses + [u]), p, y) && AlignedAt(uses + [u], y)
                          <==> InGapTo(Ranges(uses), p, y) && AlignedAt(uses, y))
      ensures p >= hi ==> (InGapTo(Ranges(uses + [u]), p, y) && AlignedAt(uses + [u], y)
                           <==> p < y == u.range.start && ForcedByAlignment(hi, y, u.align))
    {
      NextInGapTo(uses, u, lo, hi, p, y);
      NextGapAligned(uses, u, lo, hi, y);
    }
    hide *;
  }

  lemma NextAlignmentBytes(uses: seq<Use>, u: Use, lo: int, hi: nat)
    requires Spans(Ranges(uses), lo, hi) && u.range.start < u.range.end
    requires forall q :: q in Ranges(uses) ==> q.start <= u.range.start
    ensures |AlignmentBytes(uses + [u], lo, Greater(u.range.end, hi))|
            == |AlignmentBytes(uses, lo, hi)|
               + (if u.range.start > hi && ForcedByAlignment(hi, u.range.start, u.align) then u.range.start - hi else 0)
  {
    hide *;
    var stop := if u.range.start > hi && ForcedByAlignment(hi, u.range.start, u.align) then u.range.start else hi;
    IntervalSize(hi, stop);
    forall p
      ensures p in AlignmentBytes(uses + [u], lo, Greater(u.range.end, hi))
              <==> p in AlignmentBytes(uses, lo, hi) || p in Interval(hi, stop)
      ensures p in AlignmentBytes(uses, lo, hi) ==> p < hi
      ensures p in Interval(hi, stop) ==> p >= hi
    {
      IsInInterval(hi, stop, p);
      IsInAlignmentBytes(uses, lo, hi, p);
      IsInAlignmentBytes(uses + [u], lo, Greater(u.range.end, hi), p);
      GreaterIs(u.range.end, hi);
      SpanIsProper(Ranges(uses), lo, hi);
      NextAlignmentByte(uses, u, lo, hi, p);
    }
    SizesAdd(AlignmentBytes(uses + [u], lo, Greater(u.range.end, hi)), AlignmentBytes(uses, lo, hi),
             Interval(hi, stop), hi);
  }

  // ---------------------------------------------------------------- the whole list

  /** The first non-empty use: no gap yet. */
  lemma NoGapYet(uses: seq<Use>, u: Use, lo: int, hi: int)
    requires u.range.start < u.range.end
    requires forall q :: q in Ranges(uses) ==> q.start >= q.end
    requires Spans(Ranges(uses + [u]), lo, hi)
    ensures AlignmentGaps(uses + [u], lo, hi) == {} && AlignmentBytes(uses + [u], lo, hi) == {}
  {
    RangesOfOneMore(uses, u);
    FirstSpan(Ranges(uses), u.range);
    SpanIsUnique(Ranges(uses + [u]), lo, hi, u.range.start, u.range.end);
  }

  lemma AddSplits(t: Totals, uses: seq<Use>, u: Use, lo: int, hi: nat)
    requires t.end == Some(hi) && Spans(Ranges(uses), lo, hi) && SplitMeasures(t, uses, lo, hi)
    requires forall q :: q in Ranges(uses) ==> q.start <= u.range.start
    ensures Add(t, u).end.Some? && SplitMeasures(Add(t, u), uses + [u], lo, Add(t, u).end.value)
    ensures Spans(Ranges(uses + [u]), lo, Add(t, u).end.value)
  {
    RangesOfOneMore(uses, u);
    GreaterIs(u.range.end, hi);
    if u.range.start >= u.range.end {
      EmptyUseAligns(uses, u, lo, hi);
      EmptySnoc(Ranges(uses), u.range, lo, hi);
    } else {
      NextAlignmentGaps(uses, u, lo, hi);
      NextAlignmentBytes(uses, u, lo, hi);
      SpanGrows(Ranges(uses), u.range, lo, hi);
    }
    hide Ranges, Spans, AlignmentGaps, AlignmentBytes, ForcedByAlignment, Greater;
  }

  lemma NothingSpanned(lo: int, hi: int)
    ensures !Spans(Ranges([]), lo, hi)
  {
  }

  lemma StartsBeforeLast(front: seq<Use>, last: Use)
    requires InOrder(front + [last])
    ensures InOrder(front)
    ensures forall q :: q in Ranges(front) ==> q.start <= last.range.start
  {
    var all := front + [last];
    assert forall i | 0 <= i < |front| :: all[i] == front[i];
    assert forall i | 0 <= i < |front| :: Before(all[i], all[|front|]);
  }

  lemma OnlyLast(front: seq<Use>, last: Use, lo: int, hi: int)
    requires forall q :: q in Ranges(front) ==> q.start >= q.end
    requires Spans(Ranges(front + [last]), lo, hi)
    ensures SplitMeasures(Add(NOTHING_USED, last), front + [last], lo, hi)
  {
    RangesOfOneMore(front, last);
    assert last.range.start < last.range.end;
    NoGapYet(front, last, lo, hi);
  }

  /** The totals charge to alignment exactly the bytes of the gaps that end where a use begins at the first
      multiple of its alignment after all bytes used before, and count exactly these gaps. Where several
      uses begin at the end of a gap, the first in the list decides. */
  lemma {:induction false} TotalSplits(uses: seq<Use>, lo: int, hi: int)
    requires InOrder(uses) && Spans(Ranges(uses), lo, hi)
    ensures SplitMeasures(Total(uses), uses, lo, hi)
  {
    hide Ranges, Spans, SplitMeasures, Add, Covered;
    if uses == [] {
      NothingSpanned(lo, hi);
    } else {
      var front, last := uses[..|uses| - 1], uses[|uses| - 1];
      assert uses == front + [last];
      StartsBeforeLast(front, last);
      TotalMeasures(front);
      var t := Total(front);
      if t.end.None? {
        OnlyLast(front, last, lo, hi);
      } else {
        var lo' :| MeasuresFrom(t, Ranges(front), lo', t.end.value);
        TotalSplits(front, lo', t.end.value);
        AddSplits(t, front, last, lo', t.end.value);
        SpanIsUnique(Ranges(uses), lo, hi, lo', Add(t, last).end.value);
      }
    }
  }
}
