/** File-space accounting: what a used area is, what the report is meant to total, and why those
    totals do not depend on the order in which the areas were recorded. */
module SpaceTotals {
  import opened Arithmetic
  import opened Words
  import opened Outcomes
  import opened IntervalMeasure

  /** One recorded use of the file. lastbyte is the first offset past the area, kept in 64 bits. */
  datatype Area = Area(name: string, offset: u64, align: u64, length: u64, lastbyte: u64)

  predicate WellFormed(a: Area) {
    a.lastbyte == Wrap(a.offset + a.length)
  }

  /** The end of every area is representable, so that lastbyte really is its end. */
  predicate NoneWraps(areas: seq<Area>) {
    forall a | a in areas :: WellFormed(a) && a.offset + a.length < TWO_64
  }

  /** All of an area that bears on the totals. Nothing asks for the alignment of an empty one. */
  datatype Use = Use(range: Range, align: nat)

  function UseOf(a: Area): Use {
    Use(Range(a.offset, a.lastbyte), if a.length == 0 then 0 else a.align)
  }

  function Uses(areas: seq<Area>): seq<Use> {
    seq(|areas|, i requires 0 <= i < |areas| => UseOf(areas[i]))
  }

  function Ranges(uses: seq<Use>): seq<Range> {
    seq(|uses|, i requires 0 <= i < |uses| => uses[i].range)
  }

  predicate Before(x: Use, y: Use) {
    x.range.start < y.range.start || (x.range.start == y.range.start && x.range.end <= y.range.end)
  }

  predicate InOrder(uses: seq<Use>) {
    forall i, j | 0 <= i < j < |uses| :: Before(uses[i], uses[j])
  }

  // ---------------------------------------------------------------- the totals

  datatype Totals = Totals(end: Option<nat>, contentSpace: nat, contentCount: nat, alignSpace: nat, alignCount: nat)

  const NOTHING_USED := Totals(None, 0, 0, 0, 0)

  /** The gap from last to next is exactly what it takes to reach the next multiple of align. */
  predicate ForcedByAlignment(last: nat, next: nat, align: nat) {
    align > 1 && next % align == 0 && next - last < align
  }

  predicate Multiple(m: nat, align: nat)
    requires align > 0
  {
    m % align == 0
  }

  /** Below a multiple the next one is a whole alignment away. */
  lemma MultiplesApart(next: nat, m: nat, align: nat)
    requires align > 1 && next % align == 0 && m < next
    ensures next - m < align ==> m % align != 0
    ensures next - m == align ==> m % align == 0
  {
    var q := next / align;
    assert next == q * align;
    if next - m == align {
      DivModUnique(m, align, q - 1, 0);
    } else if next - m < align {
      DivModUnique(m, align, q - 1, align - (next - m));
    }
  }

  /** That is: next is the first multiple of align from last on, and last is not one itself. */
  lemma ForcedIsNextMultiple(last: nat, next: nat, align: nat)
    requires last < next
    ensures ForcedByAlignment(last, next, align) <==>
            && align > 1 && Multiple(next, align)
            && forall m: nat | last <= m < next :: !Multiple(m, align)
  {
    if align > 1 && Multiple(next, align) {
      if next - last >= align {
        MultiplesApart(next, next - align, align);
        assert Multiple(next - align, align);
      }
      forall m: nat | last <= m < next && next - last < align
        ensures !Multiple(m, align)
      {
        MultiplesApart(next, m, align);
      }
    }
  }

  function Add(t: Totals, u: Use): Totals {
    if u.range.start >= u.range.end then t
    else if t.end.None? then t.(end := Some(u.range.end))
    else
      var end := t.end.value;
      var t' := t.(end := Some(if u.range.end > end then u.range.end else end));
      if u.range.start <= end then t'
      else if ForcedByAlignment(end, u.range.start, u.align) then
        t'.(alignSpace := t.alignSpace + (u.range.start - end), alignCount := t.alignCount + 1)
      else
        t'.(contentSpace := t.contentSpace + (u.range.start - end), contentCount := t.contentCount + 1)
  }

  function Total(uses: seq<Use>): Totals {
    if uses == [] then NOTHING_USED else Add(Total(uses[..|uses| - 1]), uses[|uses| - 1])
  }

  lemma TotalOfOneMore(uses: seq<Use>, u: Use)
    ensures Total(uses + [u]) == Add(Total(uses), u)
    ensures Total([]) == NOTHING_USED
  {
    assert (uses + [u])[..|uses|] == uses;
    hide Add;
  }

  ghost predicate MeasuresFrom(t: Totals, areas: seq<Range>, lo: int, hi: int) {
    && Spans(areas, lo, hi)
    && t.contentSpace + t.alignSpace == |Uncovered(areas, lo, hi)|
    && t.contentCount + t.alignCount == |GapEnds(areas, lo, hi)|
  }

  /** A total is right for some areas when its space measures the bytes of their span that none of
      them covers, and its counts the number of gaps those bytes form. */
  ghost predicate Measures(t: Totals, areas: seq<Range>) {
    if t.end.None? then
      (forall r | r in areas :: r.start >= r.end) && t == NOTHING_USED
    else
      exists lo :: MeasuresFrom(t, areas, lo, t.end.value)
  }

  lemma {:induction false} TotalMeasures(uses: seq<Use>)
    requires InOrder(uses)
    ensures Measures(Total(uses), Ranges(uses))
  {
    if uses != [] {
      var front, last := uses[..|uses| - 1], uses[|uses| - 1];
      TotalMeasures(front);
      assert Ranges(uses) == Ranges(front) + [last.range];
      assert forall q :: q in Ranges(front) ==> q.start <= last.range.start;
      AddMeasures(Total(front), last, Ranges(front));
    }
  }

  lemma AddMeasures(t: Totals, u: Use, areas: seq<Range>)
    requires Measures(t, areas)
    requires forall q :: q in areas ==> q.start <= u.range.start
    ensures Measures(Add(t, u), areas + [u.range])
  {
    var r := u.range;
    if t.end.None? {
      if r.start < r.end {
        FirstSpan(areas, r);
        assert MeasuresFrom(Add(t, u), areas + [r], r.start, r.end);
      }
    } else {
      var hi := t.end.value;
      var lo :| MeasuresFrom(t, areas, lo, hi);
      if r.start >= r.end {
        EmptySnoc(areas, r, lo, hi);
      } else {
        SpanGrows(areas, r, lo, hi);
        NextUncovered(areas, r, lo, hi);
        NextGapEnds(areas, r, lo, hi);
      }
      assert MeasuresFrom(Add(t, u), areas + [r], lo, Add(t, u).end.value);
    }
  }

  /** The totals after the first n areas. */
  ghost function TotalOfFirst(areas: seq<Area>, n: nat): Totals
    requires n <= |areas|
  {
    Total(Uses(areas[..n]))
  }

  lemma TotalOfNext(areas: seq<Area>, n: nat)
    requires n < |areas|
    ensures TotalOfFirst(areas, n + 1) == Add(TotalOfFirst(areas, n), UseOf(areas[n]))
  {
    assert Uses(areas[..n + 1])[..n] == Uses(areas[..n]);
    hide Add;
  }

  lemma TotalOfAll(areas: seq<Area>)
    ensures TotalOfFirst(areas, |areas|) == Total(Uses(areas))
  {
    assert areas[..|areas|] == areas;
  }

  lemma NoTotalYet(areas: seq<Area>)
    ensures TotalOfFirst(areas, 0) == NOTHING_USED
  {
  }

  /** Every gap that is counted has at least one byte. */
  lemma {:induction false} CountsAtMostSpace(uses: seq<Use>)
    ensures Total(uses).contentCount <= Total(uses).contentSpace
    ensures Total(uses).alignCount <= Total(uses).alignSpace
  {
    hide ForcedByAlignment;
    if uses != [] {
      CountsAtMostSpace(uses[..|uses| - 1]);
    }
  }

  // ---------------------------------------------------------------- order does not matter

  lemma RangesOfSameAreas(a: seq<Area>, b: seq<Area>)
    requires multiset(a) == multiset(b)
    ensures forall r :: r in Ranges(Uses(a)) <==> r in Ranges(Uses(b))
  {
    forall r ensures r in Ranges(Uses(a)) <==> r in Ranges(Uses(b)) {
      RangeMoves(a, b, r);
      RangeMoves(b, a, r);
    }
  }

  lemma RangeMoves(a: seq<Area>, b: seq<Area>, r: Range)
    requires multiset(a) == multiset(b)
    ensures r in Ranges(Uses(a)) ==> r in Ranges(Uses(b))
  {
    if r in Ranges(Uses(a)) {
      var i :| 0 <= i < |a| && Ranges(Uses(a))[i] == r;
      assert a[i] in multiset(a);
      var j :| 0 <= j < |b| && b[j] == a[i];
      assert Ranges(Uses(b))[j] == r;
    }
  }

  /** Two sorted listings of the same areas agree on the wasted bytes and on the number of gaps. */
  lemma SumIgnoresOrder(a: seq<Area>, b: seq<Area>)
    requires multiset(a) == multiset(b)
    requires InOrder(Uses(a)) && InOrder(Uses(b))
    ensures var s, t := Total(Uses(a)), Total(Uses(b));
            && s.end == t.end
            && s.contentSpace + s.alignSpace == t.contentSpace + t.alignSpace
            && s.contentCount + s.alignCount == t.contentCount + t.alignCount
  {
    TotalMeasures(Uses(a));
    TotalMeasures(Uses(b));
    RangesOfSameAreas(a, b);
    MeasureFixesSum(Total(Uses(a)), Total(Uses(b)), Ranges(Uses(a)), Ranges(Uses(b)));
  }

  lemma MeasureFixesSum(s: Totals, t: Totals, a: seq<Range>, b: seq<Range>)
    requires Measures(s, a) && Measures(t, b)
    requires forall r :: r in a <==> r in b
    ensures s.end == t.end
    ensures s.contentSpace + s.alignSpace == t.contentSpace + t.alignSpace
    ensures s.contentCount + s.alignCount == t.contentCount + t.alignCount
  {
    if s.end.Some? && t.end.Some? {
      var lo :| MeasuresFrom(s, a, lo, s.end.value);
      var lo' :| MeasuresFrom(t, b, lo', t.end.value);
      SameMembersSameMeasure(a, b, lo, s.end.value);
      SpanIsUnique(b, lo, s.end.value, lo', t.end.value);
    }
  }

  lemma ThreeAreas(x: Area, y: Area, z: Area)
    ensures Total(Uses([x, y, z])) == Add(Add(Add(NOTHING_USED, UseOf(x)), UseOf(y)), UseOf(z))
    ensures Before(UseOf(x), UseOf(y)) && Before(UseOf(x), UseOf(z)) && Before(UseOf(y), UseOf(z)) ==>
              InOrder(Uses([x, y, z]))
  {
    hide Add, UseOf, Before;
    assert Uses([x, y, z]) == [] + [UseOf(x)] + [UseOf(y)] + [UseOf(z)];
    TotalOfOneMore([], UseOf(x));
    TotalOfOneMore([] + [UseOf(x)], UseOf(y));
    TotalOfOneMore([] + [UseOf(x)] + [UseOf(y)], UseOf(z));
    hide Total;
  }

  /** Not so the split between alignment and content: two areas with the same bounds and name compare
      equal, so the sort may leave them either way round, and the first decides the kind of gap. */
  lemma SplitCanDependOnOrder(low: Area, aligned: Area, plain: Area)
    requires low == Area("Elf64_Ehdr", 0, 8, 1, 1)
    requires aligned == Area("Phdr target", 8, 8, 1, 9)
    requires plain == Area("Phdr target", 8, 1, 1, 9)
    ensures multiset([low, aligned, plain]) == multiset([low, plain, aligned])
    ensures InOrder(Uses([low, aligned, plain])) && InOrder(Uses([low, plain, aligned]))
    ensures Total(Uses([low, aligned, plain])) == Totals(Some(9), 0, 0, 7, 1)
    ensures Total(Uses([low, plain, aligned])) == Totals(Some(9), 7, 1, 0, 0)
  {
    ThreeAreas(low, aligned, plain);
    ThreeAreas(low, plain, aligned);
    assert [low, aligned, plain] == [low] + [aligned] + [plain] && [low, plain, aligned] == [low] + [plain] + [aligned];
    hide Total, Uses, InOrder;
  }

  // ---------------------------------------------------------------- accounting for the whole file

  /** The greatest end of any area, empty ones included. */
  function HighOffset(areas: seq<Area>): nat {
    if areas == [] then 0
    else
      var h, e := HighOffset(areas[..|areas| - 1]), areas[|areas| - 1].lastbyte;
      if e > h then e else h
  }

  lemma {:induction false} HighOffsetIsGreatest(areas: seq<Area>)
    ensures forall a :: a in areas ==> a.lastbyte <= HighOffset(areas)
    ensures areas != [] ==> exists a :: a in areas && a.lastbyte == HighOffset(areas)
  {
    if areas != [] {
      var front, last := areas[..|areas| - 1], areas[|areas| - 1];
      HighOffsetIsGreatest(front);
      assert areas == front + [last];
      if last.lastbyte > HighOffset(front) || front == [] {
        assert last in areas;
      } else {
        var a :| a in front && a.lastbyte == HighOffset(front);
        assert a in areas;
      }
    }
  }
}
