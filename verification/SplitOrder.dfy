/** When the split of wasted space between alignment and content depends on how the sort breaks ties. */
module SplitOrder {
  import opened Words
  import opened Outcomes
  import opened IntervalMeasure
  import opened SpaceTotals
  import opened InUseOrder

  /** A result the sort may produce. */
  ghost predicate ListingOf(queue: seq<Area>, listing: seq<Area>) {
    Sorted(listing) && multiset(listing) == multiset(queue)
  }

  predicate NonEmpty(a: Area) {
    a.offset < a.lastbyte
  }

  /** g is the greatest end of the non-empty areas that start before y. */
  ghost predicate EndsBefore(queue: seq<Area>, y: nat, g: nat) {
    && (exists c :: c in queue && NonEmpty(c) && c.offset < y && c.lastbyte == g)
    && (forall c | c in queue && NonEmpty(c) && c.offset < y :: c.lastbyte <= g)
  }

  /** A gap that begins at g ends where a starts, and no other area at that place has to be sorted
      before a. */
  ghost predicate OpensAfterGap(queue: seq<Area>, a: Area, g: nat) {
    && a in queue && NonEmpty(a)
    && EndsBefore(queue, a.offset, g) && g < a.offset
    && (forall c | c in queue && NonEmpty(c) && c.offset == a.offset :: Comproffset(a, c) <= 0)
  }

  /** Areas that could each come first after a gap, since the sort cannot tell them apart, agree on
      whether the gap is due to alignment. */
  ghost predicate GapTiesAgree(queue: seq<Area>) {
    forall a, b, g | OpensAfterGap(queue, a, g) && b in queue && Comproffset(a, b) == 0 ::
      ForcedByAlignment(g, a.offset, a.align) <==> ForcedByAlignment(g, a.offset, b.align)
  }

  // ---------------------------------------------------------------- where gaps end

  lemma CoveredByArea(queue: seq<Area>, p: int)
    ensures Covered(Ranges(Uses(queue)), p) <==> exists c :: c in queue && c.offset <= p < c.lastbyte
  {
    var ranges := Ranges(Uses(queue));
    if Covered(ranges, p) {
      var r :| r in ranges && r.start <= p < r.end;
      var i :| 0 <= i < |ranges| && ranges[i] == r;
      assert queue[i] in queue;
    }
    if c :| c in queue && c.offset <= p < c.lastbyte {
      var i :| 0 <= i < |queue| && queue[i] == c;
      assert ranges[i] in ranges;
    }
  }

  lemma {:induction false} GreatestEndBefore(queue: seq<Area>, y: nat) returns (g: nat)
    requires exists c :: c in queue && NonEmpty(c) && c.offset < y
    ensures EndsBefore(queue, y, g)
  {
    var n := |queue| - 1;
    var last, rest := queue[n], queue[..n];
    assert queue == rest + [last];
    if exists c :: c in rest && NonEmpty(c) && c.offset < y {
      g := GreatestEndBefore(rest, y);
      var c :| c in rest && NonEmpty(c) && c.offset < y && c.lastbyte == g;
      assert c in queue;
      if NonEmpty(last) && last.offset < y && g < last.lastbyte {
        g := last.lastbyte;
      }
    } else {
      g := last.lastbyte;
    }
  }

  /** The places in question are the ends of the gaps between the first and the last used byte. */
  lemma OpensExactlyAtGaps(queue: seq<Area>, a: Area)
    requires a in queue && NonEmpty(a)
    requires forall c | c in queue && NonEmpty(c) && c.offset == a.offset :: Comproffset(a, c) <= 0
    ensures (exists g :: OpensAfterGap(queue, a, g))
            <==> (exists c :: c in queue && NonEmpty(c) && c.offset < a.offset)
                 && EndsGap(Ranges(Uses(queue)), a.offset)
  {
    hide Comproffset, Uses, Ranges, Covered;
    CoveredByArea(queue, a.offset);
    CoveredByArea(queue, a.offset - 1);
    if exists c :: c in queue && NonEmpty(c) && c.offset < a.offset {
      var g := GreatestEndBefore(queue, a.offset);
      if EndsGap(Ranges(Uses(queue)), a.offset) {
        assert OpensAfterGap(queue, a, g);
      }
    }
  }

  // ---------------------------------------------------------------- sorting is unique up to ties

  function Removed<T>(s: seq<T>, j: nat): (r: seq<T>)
    requires j < |s|
    ensures |r| == |s| - 1
  {
    s[..j] + s[j + 1..]
  }

  lemma MultisetOfThree<T>(a: seq<T>, x: T, b: seq<T>)
    ensures multiset(a + [x] + b) == multiset(a + b) + multiset{x}
  {
  }

  lemma Without<T>(s: seq<T>, j: nat)
    requires j < |s|
    ensures multiset(Removed(s, j)) == multiset(s) - multiset{s[j]}
    ensures multiset(s) == multiset(Removed(s, j)) + multiset{s[j]}
  {
    MultisetOfThree(s[..j], s[j], s[j + 1..]);
    assert s == s[..j] + [s[j]] + s[j + 1..];
  }

  lemma Position<T>(s: seq<T>, t: seq<T>, i: nat) returns (j: nat)
    requires multiset(s) == multiset(t) && i < |s|
    ensures j < |t| && t[j] == s[i]
  {
    assert s[i] in multiset(t);
    j :| 0 <= j < |t| && t[j] == s[i];
  }

  lemma SameLength<T>(s: seq<T>, t: seq<T>)
    requires multiset(s) == multiset(t)
    ensures |s| == |t|
  {
    assert |multiset(s)| == |s| && |multiset(t)| == |t|;
  }

  /** All of an area that the sort looks at. */
  function Key(a: Area): Area {
    a.(align := 0, length := 0)
  }

  function Keys(areas: seq<Area>): (keys: seq<Area>)
    ensures |keys| == |areas|
  {
    seq(|areas|, i requires 0 <= i < |areas| => Key(areas[i]))
  }

  lemma KeysWithout(s: seq<Area>, j: nat)
    requires j < |s|
    ensures multiset(Keys(s)) == multiset(Keys(Removed(s, j))) + multiset{Key(s[j])}
  {
    Without(Keys(s), j);
    assert Removed(Keys(s), j) == Keys(Removed(s, j));
    hide Removed, Key;
  }

  lemma {:induction false} SameKeys(a: seq<Area>, b: seq<Area>)
    requires multiset(a) == multiset(b)
    ensures multiset(Keys(a)) == multiset(Keys(b))
    decreases |a|
  {
    hide *;
    SameLength(a, b);
    if a == [] {
      assert b == [];
    } else {
      var j := Position(a, b, 0);
      Without(a, 0);
      Without(b, j);
      SameKeys(Removed(a, 0), Removed(b, j));
      KeysWithout(a, 0);
      KeysWithout(b, j);
    }
  }

  lemma KeysSorted(areas: seq<Area>)
    requires Sorted(areas)
    ensures Sorted(Keys(areas))
  {
    forall i, j | 0 <= i < j < |areas|
      ensures Comproffset(Keys(areas)[i], Keys(areas)[j]) <= 0
    {
      assert Comproffset(areas[i], areas[j]) <= 0;
      hide StrCmp;
    }
  }

  /** Areas the comparison calls equal are equal. */
  ghost predicate Separated(areas: seq<Area>) {
    forall x, y | x in areas && y in areas && Comproffset(x, y) == 0 :: x == y
  }

  lemma KeysSeparated(areas: seq<Area>)
    ensures Separated(Keys(areas))
  {
    forall x, y | x in Keys(areas) && y in Keys(areas) && Comproffset(x, y) == 0
      ensures x == y
    {
      ComproffsetIsTotalOrder(x, y, y);
    }
  }

  lemma SortedPrefix(a: seq<Area>, n: nat)
    requires n + 1 == |a| && Sorted(a) && Separated(a)
    ensures Sorted(Removed(a, n)) && Separated(Removed(a, n))
    ensures a == Removed(a, n) + [a[n]]
  {
    hide Comproffset;
    assert Removed(a, n) == a[..n];
    assert forall x :: x in a[..n] ==> x in a;
  }

  lemma SameLast(a: seq<Area>, b: seq<Area>)
    requires multiset(a) == multiset(b) && a != []
    requires Sorted(a) && Sorted(b) && Separated(a)
    ensures |a| == |b| && a[|a| - 1] == b[|b| - 1]
  {
    SameLength(a, b);
    var n := |a| - 1;
    var i := Position(a, b, n);
    var j := Position(b, a, n);
    NotAfter(a, j);
    NotAfter(b, i);
    Antisymmetric(a[n], b[n]);
    hide Comproffset;
  }

  lemma NotAfter(a: seq<Area>, j: nat)
    requires Sorted(a) && j < |a|
    ensures Comproffset(a[j], a[|a| - 1]) <= 0
  {
    StrCmpTotal(a[j].name, a[j].name);
  }

  lemma Antisymmetric(x: Area, y: Area)
    ensures Comproffset(x, y) <= 0 && Comproffset(y, x) <= 0 ==> Comproffset(x, y) == 0
    ensures Comproffset(x, y) == 0 ==> Comproffset(y, x) == 0
    ensures Comproffset(x, y) < 0 <==> Comproffset(y, x) > 0
  {
    StrCmpAntisymmetric(x.name, y.name);
  }

  lemma {:induction false} StrCmpAntisymmetric(s: string, t: string)
    ensures StrCmp(s, t) == -StrCmp(t, s)
  {
    if s != [] && t != [] && s[0] == t[0] {
      StrCmpAntisymmetric(s[1..], t[1..]);
    }
  }

  /** Where the comparison separates different areas there is only one way to sort them. */
  lemma {:induction false} SortedListingIsUnique(a: seq<Area>, b: seq<Area>)
    requires multiset(a) == multiset(b)
    requires Sorted(a) && Sorted(b) && Separated(a)
    ensures a == b
    decreases |a|
  {
    hide *;
    SameLength(a, b);
    if a != [] {
      var n := |a| - 1;
      SameLast(a, b);
      SeparatedIgnoresOrder(a, b);
      Without(a, n);
      Without(b, n);
      SortedPrefix(a, n);
      SortedPrefix(b, n);
      SortedListingIsUnique(Removed(a, n), Removed(b, n));
    }
  }

  lemma SeparatedIgnoresOrder(a: seq<Area>, b: seq<Area>)
    requires multiset(a) == multiset(b) && Separated(a)
    ensures Separated(b)
  {
    hide Comproffset;
    assert forall x :: x in b <==> x in multiset(b);
    assert forall x :: x in a <==> x in multiset(a);
  }

  /** In general two results of the sort differ, place by place, only in what the sort does not see. */
  lemma SortedAlike(a: seq<Area>, b: seq<Area>)
    requires multiset(a) == multiset(b)
    requires Sorted(a) && Sorted(b)
    ensures Keys(a) == Keys(b)
  {
    SameKeys(a, b);
    KeysSorted(a);
    KeysSorted(b);
    KeysSeparated(a);
    SortedListingIsUnique(Keys(a), Keys(b));
  }

  // ---------------------------------------------------------------- totals of the first areas

  /** The totals end with the greatest end of the non-empty areas among the first n. */
  lemma {:induction false} EndIsGreatest(areas: seq<Area>, n: nat)
    requires n <= |areas|
    ensures var e := TotalOfFirst(areas, n).end;
            && (forall k | 0 <= k < n && NonEmpty(areas[k]) :: e.Some? && areas[k].lastbyte <= e.value)
            && (e.Some? ==> exists k :: 0 <= k < n && NonEmpty(areas[k]) && areas[k].lastbyte == e.value)
  {
    if n > 0 {
      EndIsGreatest(areas, n - 1);
      TotalOfNext(areas, n - 1);
      hide TotalOfFirst;
    } else {
      NoTotalYet(areas);
    }
  }

  lemma SortedPair(s: seq<Area>, i: nat, j: nat)
    requires Sorted(s) && i <= j < |s|
    ensures Comproffset(s[i], s[j]) <= 0
    ensures s[i].offset <= s[j].offset
  {
    StrCmpTotal(s[i].name, s[i].name);
  }

  /** The first area after a gap in a listing is one that may come first there. */
  lemma FirstAfterGap(queue: seq<Area>, s: seq<Area>, n: nat, g: nat)
    requires ListingOf(queue, s) && n < |s| && NonEmpty(s[n])
    requires TotalOfFirst(s, n).end == Some(g) && g < s[n].offset
    ensures OpensAfterGap(queue, s[n], g)
  {
    EndIsGreatest(s, n);
    hide TotalOfFirst, Sorted, Comproffset;
    var m := Position(s, queue, n);
    var top :| 0 <= top < n && NonEmpty(s[top]) && s[top].lastbyte == g;
    var k := Position(s, queue, top);
    forall c | c in queue && NonEmpty(c)
      ensures c.offset < s[n].offset ==> c.lastbyte <= g
      ensures c.offset == s[n].offset ==> Comproffset(s[n], c) <= 0
    {
      var q :| 0 <= q < |queue| && queue[q] == c;
      var p := Position(queue, s, q);
      if p >= n {
        SortedPair(s, n, p);
      }
    }
  }

  /** Two uses of the same range add alike unless they disagree about a gap. */
  lemma AddAlike(t: Totals, u: Use, v: Use)
    requires u.range == v.range
    requires t.end.Some? && t.end.value < u.range.start < u.range.end ==>
               (ForcedByAlignment(t.end.value, u.range.start, u.align)
                <==> ForcedByAlignment(t.end.value, u.range.start, v.align))
    ensures Add(t, u) == Add(t, v)
  {
    hide ForcedByAlignment;
  }

  lemma TiedPlaces(s: seq<Area>, t: seq<Area>, n: nat)
    requires Keys(s) == Keys(t) && n < |s|
    ensures |s| == |t| && UseOf(s[n]).range == UseOf(t[n]).range
    ensures Comproffset(s[n], t[n]) == 0
    ensures NonEmpty(s[n]) <==> NonEmpty(t[n])
  {
    assert Keys(s)[n] == Keys(t)[n];
    StrCmpTotal(s[n].name, t[n].name);
  }

  lemma AlignOfNonEmpty(queue: seq<Area>, a: Area)
    requires NoneWraps(queue) && a in queue && NonEmpty(a)
    ensures UseOf(a).align == a.align
  {
  }

  lemma InQueue(queue: seq<Area>, s: seq<Area>, n: nat)
    requires multiset(s) == multiset(queue) && n < |s|
    ensures s[n] in queue
  {
    var m := Position(s, queue, n);
  }

  /** While ties at gaps agree, all listings add up alike, area after area. */
  lemma {:induction false} TotalsAgree(queue: seq<Area>, s: seq<Area>, t: seq<Area>, n: nat)
    requires NoneWraps(queue) && GapTiesAgree(queue)
    requires ListingOf(queue, s) && ListingOf(queue, t)
    requires Keys(s) == Keys(t) && n <= |s|
    ensures |s| == |t| && TotalOfFirst(s, n) == TotalOfFirst(t, n)
  {
    SameLength(s, t);
    if n == 0 {
      NoTotalYet(s);
      NoTotalYet(t);
    } else {
      TotalsAgree(queue, s, t, n - 1);
      TotalOfNext(s, n - 1);
      TotalOfNext(t, n - 1);
      TiedPlaces(s, t, n - 1);
      GapAgrees(queue, s, t, n - 1);
      AddAlike(TotalOfFirst(s, n - 1), UseOf(s[n - 1]), UseOf(t[n - 1]));
    }
    hide *;
  }

  lemma GapAgrees(queue: seq<Area>, s: seq<Area>, t: seq<Area>, n: nat)
    requires NoneWraps(queue) && GapTiesAgree(queue)
    requires ListingOf(queue, s) && ListingOf(queue, t)
    requires Keys(s) == Keys(t) && n < |s| == |t|
    ensures var u, v, end := UseOf(s[n]), UseOf(t[n]), TotalOfFirst(s, n).end;
            end.Some? && end.value < u.range.start < u.range.end ==>
              (ForcedByAlignment(end.value, u.range.start, u.align)
               <==> ForcedByAlignment(end.value, u.range.start, v.align))
  {
    var end := TotalOfFirst(s, n).end;
    if end.Some? && end.value < s[n].offset < s[n].lastbyte {
      FirstAfterGap(queue, s, n, end.value);
      TiedPlaces(s, t, n);
      InQueue(queue, s, n);
      InQueue(queue, t, n);
      AlignOfNonEmpty(queue, s[n]);
      AlignOfNonEmpty(queue, t[n]);
    }
    hide Comproffset, ForcedByAlignment, TotalOfFirst, OpensAfterGap, NoneWraps, Keys, Sorted;
  }

  // ---------------------------------------------------------------- two listings that differ

  function Swapped(s: seq<Area>, i: nat, j: nat): (t: seq<Area>)
    requires i < |s| && j < |s|
    ensures |t| == |s| && t[i] == s[j] && t[j] == s[i]
    ensures forall k | 0 <= k < |s| && k != i && k != j :: t[k] == s[k]
  {
    s[i := s[j]][j := s[i]]
  }

  /** Areas the comparison calls equal may be exchanged in a listing. */
  lemma SwappedIsListing(queue: seq<Area>, s: seq<Area>, i: nat, j: nat)
    requires ListingOf(queue, s) && i < |s| && j < |s| && Comproffset(s[i], s[j]) == 0
    ensures ListingOf(queue, Swapped(s, i, j))
  {
    var t := Swapped(s, i, j);
    SwappedMultiset(s, i, j);
    forall k | 0 <= k < |s|
      ensures Key(t[k]) == Key(s[k])
    {
      SameKey(s[i], s[j]);
    }
    forall p, q | 0 <= p < q < |t|
      ensures Comproffset(t[p], t[q]) <= 0
    {
      SortedPair(s, p, q);
      KeyDecides(t[p], t[q], s[p], s[q]);
    }
    hide Comproffset, Key;
  }

  lemma SwappedMultiset(s: seq<Area>, i: nat, j: nat)
    requires i < |s| && j < |s|
    ensures multiset(Swapped(s, i, j)) == multiset(s)
  {
  }

  lemma SameKey(a: Area, b: Area)
    ensures Comproffset(a, b) == 0 <==> Key(a) == Key(b)
  {
    StrCmpTotal(a.name, b.name);
  }

  lemma KeyDecides(a: Area, b: Area, c: Area, d: Area)
    requires Key(a) == Key(c) && Key(b) == Key(d)
    ensures Comproffset(a, b) == Comproffset(c, d)
  {
    hide StrCmp;
  }

  lemma {:induction false} FirstTied(s: seq<Area>, a: Area, from: nat, i: nat) returns (n: nat)
    requires from <= i < |s| && s[i] == a
    requires forall k | 0 <= k < from :: Comproffset(s[k], a) != 0
    ensures n <= i && Comproffset(s[n], a) == 0
    ensures forall k | 0 <= k < n :: Comproffset(s[k], a) != 0
    decreases i - from
  {
    SameKey(a, a);
    hide Comproffset;
    if Comproffset(s[from], a) == 0 {
      n := from;
    } else {
      n := FirstTied(s, a, from + 1, i);
    }
  }

  /** A listing in which a is the first of its kind. */
  lemma ListingLedBy(queue: seq<Area>, a: Area) returns (s: seq<Area>, n: nat)
    requires a in queue
    ensures ListingOf(queue, s) && n < |s| && s[n] == a
    ensures forall k | 0 <= k < n :: Comproffset(s[k], a) < 0
  {
    var s0 := InsertionSorted(queue);
    var q :| 0 <= q < |queue| && queue[q] == a;
    var i := Position(queue, s0, q);
    n := FirstTied(s0, a, 0, i);
    SwappedIsListing(queue, s0, n, i);
    s := Swapped(s0, n, i);
    forall k | 0 <= k < n
      ensures Comproffset(s[k], a) < 0
    {
      SortedPair(s0, k, i);
    }
    hide Comproffset, InsertionSorted;
  }

  /** Right before the area that leads after a gap the totals end where the gap begins. */
  lemma EndBeforeLeader(queue: seq<Area>, a: Area, g: nat, s: seq<Area>, n: nat)
    requires OpensAfterGap(queue, a, g)
    requires ListingOf(queue, s) && n < |s| && s[n] == a
    requires forall k | 0 <= k < n :: Comproffset(s[k], a) < 0
    ensures TotalOfFirst(s, n).end == Some(g)
  {
    EndIsGreatest(s, n);
    hide TotalOfFirst, Sorted, Comproffset;
    var c :| c in queue && NonEmpty(c) && c.offset < a.offset && c.lastbyte == g;
    var q :| 0 <= q < |queue| && queue[q] == c;
    var p := Position(queue, s, q);
    if p >= n {
      SortedPair(s, n, p);
    }
    var e := TotalOfFirst(s, n).end.value;
    var top :| 0 <= top < n && NonEmpty(s[top]) && s[top].lastbyte == e;
    SortedPair(s, top, n);
    InQueue(queue, s, top);
    if s[top].offset == a.offset {
      Antisymmetric(s[top], a);
    }
  }

  /** Exchanging a later tied area with the leader changes what the gap is charged to, and nothing
      after it. */
  lemma {:induction false} ChargeDiffers(s: seq<Area>, n: nat, j: nat, m: nat)
    requires n < j < |s| && n < m <= |s|
    requires NonEmpty(s[n]) && UseOf(s[n]).range == UseOf(s[j]).range
    requires var end := TotalOfFirst(s, n).end;
             && end.Some? && end.value < s[n].offset
             && ForcedByAlignment(end.value, s[n].offset, UseOf(s[n]).align)
             && !ForcedByAlignment(end.value, s[n].offset, UseOf(s[j]).align)
    ensures var x, y := TotalOfFirst(s, m), TotalOfFirst(Swapped(s, n, j), m);
            && x.end == y.end && x.end.Some? && s[n].offset <= x.end.value
            && x.alignCount == y.alignCount + 1
  {
    hide TotalOfFirst, ForcedByAlignment, Swapped, UseOf;
    var t := Swapped(s, n, j);
    TotalOfNext(s, m - 1);
    TotalOfNext(t, m - 1);
    RangeOfNonEmpty(s[n]);
    if m == n + 1 {
      SameBefore(s, n, j);
    } else {
      ChargeDiffers(s, n, j, m - 1);
    }
  }

  lemma SameBefore(s: seq<Area>, n: nat, j: nat)
    requires n < j < |s|
    ensures TotalOfFirst(Swapped(s, n, j), n) == TotalOfFirst(s, n)
  {
    assert s[..n] == Swapped(s, n, j)[..n];
  }

  lemma RangeOfNonEmpty(a: Area)
    ensures UseOf(a).range == Range(a.offset, a.lastbyte)
  {
  }

  /** A disagreement at a gap makes two listings with different totals. */
  lemma DisagreementShows(queue: seq<Area>, a: Area, b: Area, g: nat) returns (s: seq<Area>, t: seq<Area>)
    requires NoneWraps(queue)
    requires OpensAfterGap(queue, a, g) && b in queue && Comproffset(a, b) == 0
    requires ForcedByAlignment(g, a.offset, a.align) && !ForcedByAlignment(g, a.offset, b.align)
    ensures ListingOf(queue, s) && ListingOf(queue, t)
    ensures Total(Uses(s)) != Total(Uses(t))
  {
    var n;
    s, n := ListingLedBy(queue, a);
    EndBeforeLeader(queue, a, g, s, n);
    var q :| 0 <= q < |queue| && queue[q] == b;
    var j := Position(queue, s, q);
    Antisymmetric(a, b);
    assert n < j;
    SameKey(a, b);
    AlignOfNonEmpty(queue, a);
    AlignOfNonEmpty(queue, b);
    SwappedIsListing(queue, s, n, j);
    t := Swapped(s, n, j);
    ChargeDiffers(s, n, j, |s|);
    TotalOfAll(s);
    TotalOfAll(t);
    hide Comproffset, ForcedByAlignment, TotalOfFirst, Sorted, NoneWraps, Total, Uses;
  }

  // ---------------------------------------------------------------- the exact condition

  /** Whatever the sort makes of the ties, the totals come out the same. */
  ghost predicate SplitIsFixed(queue: seq<Area>) {
    forall s, t | ListingOf(queue, s) && ListingOf(queue, t) :: Total(Uses(s)) == Total(Uses(t))
  }

  lemma AgreementFixesTotals(queue: seq<Area>, s: seq<Area>, t: seq<Area>)
    requires NoneWraps(queue) && GapTiesAgree(queue)
    requires ListingOf(queue, s) && ListingOf(queue, t)
    ensures Total(Uses(s)) == Total(Uses(t))
  {
    SortedAlike(s, t);
    TotalsAgree(queue, s, t, |s|);
    TotalOfAll(s);
    TotalOfAll(t);
    hide *;
  }

  /** The split does not depend on the sort if and only if no gap is followed by tied areas that
      disagree about it. */
  lemma SplitIsFixedExactly(queue: seq<Area>)
    requires NoneWraps(queue)
    ensures SplitIsFixed(queue) <==> GapTiesAgree(queue)
  {
    if GapTiesAgree(queue) {
      forall s, t | ListingOf(queue, s) && ListingOf(queue, t)
        ensures Total(Uses(s)) == Total(Uses(t))
      {
        AgreementFixesTotals(queue, s, t);
      }
    } else {
      var a, b, g :| OpensAfterGap(queue, a, g) && b in queue && Comproffset(a, b) == 0
                     && !(ForcedByAlignment(g, a.offset, a.align) <==> ForcedByAlignment(g, a.offset, b.align));
      if ForcedByAlignment(g, a.offset, a.align) {
        var s, t := DisagreementShows(queue, a, b, g);
      } else {
        TiedAlsoOpens(queue, a, b, g);
        var s, t := DisagreementShows(queue, b, a, g);
      }
    }
    hide OpensAfterGap, ForcedByAlignment, Comproffset, ListingOf, NoneWraps;
  }

  lemma TiedAlsoOpens(queue: seq<Area>, a: Area, b: Area, g: nat)
    requires OpensAfterGap(queue, a, g) && b in queue && Comproffset(a, b) == 0
    ensures OpensAfterGap(queue, b, g) && Comproffset(b, a) == 0 && a.offset == b.offset && a in queue
  {
    Antisymmetric(a, b);
    SameKey(a, b);
    forall c ensures Comproffset(b, c) == Comproffset(a, c) {
      KeyDecides(b, c, a, c);
    }
    hide Comproffset;
  }

  /** In particular it is fixed when areas that compare equal, and so have the same bounds and name, carry
      the same alignment. */
  lemma EqualAlignmentSuffices(queue: seq<Area>)
    requires forall a, b | a in queue && b in queue && Comproffset(a, b) == 0 :: a.align == b.align
    ensures GapTiesAgree(queue)
  {
  }
}
