/** Measuring what a set of byte ranges leaves uncovered, independently of any sweep. */
module IntervalMeasure {

  /** A used area of the file: the bytes start, start+1, ..., end-1. */
  datatype Range = Range(start: nat, end: nat)

  ghost predicate Covered(areas: seq<Range>, p: int) {
    exists r :: r in areas && r.start <= p < r.end
  }

  ghost function Uncovered(areas: seq<Range>, lo: int, hi: int): set<int> {
    set p | lo <= p < hi && !Covered(areas, p)
  }

  ghost function CoveredBytes(areas: seq<Range>, lo: int, hi: int): set<int> {
    set p | lo <= p < hi && Covered(areas, p)
  }

  /** A maximal uncovered run stops just before y. */
  ghost predicate EndsGap(areas: seq<Range>, y: int) {
    Covered(areas, y) && !Covered(areas, y - 1)
  }

  ghost function GapEnds(areas: seq<Range>, lo: int, hi: int): set<int> {
    set y | lo < y < hi && EndsGap(areas, y)
  }

  /** lo and hi are the least start and the greatest end among the non-empty areas. */
  ghost predicate Spans(areas: seq<Range>, lo: int, hi: int) {
    && (exists r :: r in areas && r.start < r.end && r.start == lo)
    && (exists r :: r in areas && r.start < r.end && r.end == hi)
    && (forall r :: r in areas && r.start < r.end ==> lo <= r.start && r.end <= hi)
  }

  ghost predicate Inside(lo: int, hi: int, p: int) {
    lo <= p < hi
  }

  ghost function Interval(lo: int, hi: int): set<int> {
    set p | lo <= p < hi && Inside(lo, hi, p)
  }

  lemma {:induction false} IntervalSize(lo: int, hi: int)
    requires lo <= hi
    ensures |Interval(lo, hi)| == hi - lo
    decreases hi - lo
  {
    if lo < hi {
      IntervalSize(lo, hi - 1);
      assert Interval(lo, hi) == Interval(lo, hi - 1) + {hi - 1};
    } else {
      assert Interval(lo, hi) == {};
    }
  }

  /** Covered and uncovered bytes together make up the whole range. */
  lemma CoveredPlusUncovered(areas: seq<Range>, lo: int, hi: int)
    requires lo <= hi
    ensures |CoveredBytes(areas, lo, hi)| + |Uncovered(areas, lo, hi)| == hi - lo
  {
    IntervalSize(lo, hi);
    assert CoveredBytes(areas, lo, hi) + Uncovered(areas, lo, hi) == Interval(lo, hi);
  }

  /** Ranges holding the same areas, however often and in whatever order, measure alike. */
  lemma SameMembersSameMeasure(a: seq<Range>, b: seq<Range>, lo: int, hi: int)
    requires forall r :: r in a <==> r in b
    ensures Uncovered(a, lo, hi) == Uncovered(b, lo, hi)
    ensures CoveredBytes(a, lo, hi) == CoveredBytes(b, lo, hi)
    ensures GapEnds(a, lo, hi) == GapEnds(b, lo, hi)
    ensures Spans(a, lo, hi) == Spans(b, lo, hi)
  {
    assert forall p :: Covered(a, p) <==> Covered(b, p);
  }

  lemma SpanIsUnique(areas: seq<Range>, lo: int, hi: int, lo': int, hi': int)
    requires Spans(areas, lo, hi) && Spans(areas, lo', hi')
    ensures lo == lo' && hi == hi'
  {
  }

  lemma CoveredBySnoc(areas: seq<Range>, r: Range, p: int)
    ensures Covered(areas + [r], p) <==> Covered(areas, p) || r.start <= p < r.end
  {
    if Covered(areas, p) {
      var q :| q in areas && q.start <= p < q.end;
      assert q in areas + [r];
    }
    if r.start <= p < r.end {
      assert r in areas + [r];
    }
  }

  lemma FirstSpan(areas: seq<Range>, r: Range)
    requires forall q :: q in areas ==> q.start >= q.end
    requires r.start < r.end
    ensures Spans(areas + [r], r.start, r.end)
    ensures Uncovered(areas + [r], r.start, r.end) == {}
    ensures GapEnds(areas + [r], r.start, r.end) == {}
  {
    assert r in areas + [r];
    forall p ensures Covered(areas + [r], p) <==> r.start <= p < r.end {
      CoveredBySnoc(areas, r, p);
    }
  }

  /** Which bytes are covered once an area starting no earlier than the others is added. */
  lemma CoverageGrows(areas: seq<Range>, r: Range, lo: int, hi: int, p: int)
    requires Spans(areas, lo, hi)
    requires r.start < r.end
    requires forall q :: q in areas ==> q.start <= r.start
    ensures p < hi ==> (Covered(areas + [r], p) <==> Covered(areas, p))
    ensures p >= hi ==> !Covered(areas, p) && (Covered(areas + [r], p) <==> r.start <= p < r.end)
    ensures p == hi - 1 ==> Covered(areas, p)
  {
    CoveredBySnoc(areas, r, p);
    var top :| top in areas && top.start < top.end && top.end == hi;
    if r.start <= p < hi {
      assert top.start <= p < top.end;
    }
  }

  /** Adding an area that starts no earlier than the others adds to the uncovered bytes of the
      span exactly the gap it leaves. */
  lemma NextUncovered(areas: seq<Range>, r: Range, lo: int, hi: int)
    requires Spans(areas, lo, hi)
    requires r.start < r.end
    requires forall q :: q in areas ==> q.start <= r.start
    ensures |Uncovered(areas + [r], lo, if r.end > hi then r.end else hi)|
            == |Uncovered(areas, lo, hi)| + (if r.start > hi then r.start - hi else 0)
  {
    var hi' := if r.end > hi then r.end else hi;
    var stop := if r.start > hi then r.start else hi;
    var gap := Interval(hi, stop);
    IntervalSize(hi, stop);
    var now, before := Uncovered(areas + [r], lo, hi'), Uncovered(areas, lo, hi);
    forall p ensures p in now <==> p in before || p in gap {
      CoverageGrows(areas, r, lo, hi, p);
      assert p in gap <==> Inside(hi, stop, p);
    }
    assert now == before + gap;
    assert before !! gap;
  }

  lemma GapEndsGrow(areas: seq<Range>, r: Range, lo: int, hi: int, y: int)
    requires Spans(areas, lo, hi)
    requires r.start < r.end
    requires forall q :: q in areas ==> q.start <= r.start
    ensures y < hi ==> (EndsGap(areas + [r], y) <==> EndsGap(areas, y))
    ensures y >= hi ==> !EndsGap(areas, y) && (EndsGap(areas + [r], y) <==> y == r.start && r.start > hi)
  {
    CoverageGrows(areas, r, lo, hi, y);
    CoverageGrows(areas, r, lo, hi, y - 1);
  }

  /** ... and adds a gap end exactly when that gap is not empty. */
  lemma NextGapEnds(areas: seq<Range>, r: Range, lo: int, hi: int)
    requires Spans(areas, lo, hi)
    requires r.start < r.end
    requires forall q :: q in areas ==> q.start <= r.start
    ensures |GapEnds(areas + [r], lo, if r.end > hi then r.end else hi)|
            == |GapEnds(areas, lo, hi)| + (if r.start > hi then 1 else 0)
  {
    var hi' := if r.end > hi then r.end else hi;
    var gap := if r.start > hi then {r.start} else {};
    var now, before := GapEnds(areas + [r], lo, hi'), GapEnds(areas, lo, hi);
    forall y ensures y in now <==> y in before || y in gap {
      GapEndsGrow(areas, r, lo, hi, y);
    }
    assert now == before + gap;
    assert before !! gap;
  }

  lemma SpanGrows(areas: seq<Range>, r: Range, lo: int, hi: int)
    requires Spans(areas, lo, hi)
    requires r.start < r.end
    requires forall q :: q in areas ==> q.start <= r.start
    ensures Spans(areas + [r], lo, if r.end > hi then r.end else hi)
  {
    var all := areas + [r];
    var bottom :| bottom in areas && bottom.start < bottom.end && bottom.start == lo;
    var top :| top in areas && top.start < top.end && top.end == hi;
    assert bottom in all && top in all && r in all;
  }

  /** An empty area changes nothing. */
  lemma EmptySnoc(areas: seq<Range>, r: Range, lo: int, hi: int)
    requires r.start >= r.end
    ensures Uncovered(areas + [r], lo, hi) == Uncovered(areas, lo, hi)
    ensures GapEnds(areas + [r], lo, hi) == GapEnds(areas, lo, hi)
    ensures Spans(areas, lo, hi) ==> Spans(areas + [r], lo, hi)
  {
    forall p ensures Covered(areas + [r], p) <==> Covered(areas, p) {
      CoveredBySnoc(areas, r, p);
    }
    if Spans(areas, lo, hi) {
      var bottom :| bottom in areas && bottom.start < bottom.end && bottom.start == lo;
      var top :| top in areas && top.start < top.end && top.end == hi;
      assert bottom in areas + [r] && top in areas + [r];
    }
  }
}
