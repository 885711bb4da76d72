/** The order in which used areas are swept, and sorting into it. */
module InUseOrder {
  import opened SpaceTotals

  /** The sign of strcmp. */
  function StrCmp(s: string, t: string): int {
    if s == [] && t == [] then 0
    else if s == [] then -1
    else if t == [] then 1
    else if s[0] < t[0] then -1
    else if s[0] > t[0] then 1
    else StrCmp(s[1..], t[1..])
  }

  function Comproffset(l: Area, r: Area): int {
    if l.offset < r.offset then -1
    else if l.offset > r.offset then 1
    else if l.lastbyte < r.lastbyte then -1
    else if l.lastbyte > r.lastbyte then 1
    else StrCmp(l.name, r.name)
  }

  predicate Sorted(areas: seq<Area>) {
    forall i, j | 0 <= i < j < |areas| :: Comproffset(areas[i], areas[j]) <= 0
  }

  lemma {:induction false} StrCmpTotal(s: string, t: string)
    ensures StrCmp(s, t) <= 0 || StrCmp(t, s) <= 0
    ensures StrCmp(s, t) == 0 <==> s == t
  {
    if s != [] && t != [] && s[0] == t[0] {
      StrCmpTotal(s[1..], t[1..]);
      assert s == [s[0]] + s[1..] && t == [t[0]] + t[1..];
    }
  }

  lemma {:induction false} StrCmpTransitive(s: string, t: string, u: string)
    requires StrCmp(s, t) <= 0 && StrCmp(t, u) <= 0
    ensures StrCmp(s, u) <= 0
  {
    if s != [] && t != [] && u != [] && s[0] == t[0] == u[0] {
      StrCmpTransitive(s[1..], t[1..], u[1..]);
    }
  }

  /** Up to k the strings agree, and there s ends or has the smaller character. */
  predicate SmallerFrom(s: string, t: string, k: nat) {
    && k <= |s| && k < |t|
    && (forall i | 0 <= i < k :: s[i] == t[i])
    && (k < |s| ==> s[k] < t[k])
  }

  /** s comes before t in the dictionary. */
  ghost predicate Precedes(s: string, t: string) {
    exists k: nat :: SmallerFrom(s, t, k)
  }

  lemma SmallerFromTail(s: string, t: string, k: nat)
    requires s != [] && t != [] && s[0] == t[0]
    ensures SmallerFrom(s, t, k + 1) <==> SmallerFrom(s[1..], t[1..], k)
    ensures !SmallerFrom(s, t, 0)
  {
    assert s == [s[0]] + s[1..] && t == [t[0]] + t[1..];
    if SmallerFrom(s, t, k + 1) {
      assert forall i | 0 <= i < k :: s[1..][i] == s[i + 1] && t[1..][i] == t[i + 1];
    }
    if SmallerFrom(s[1..], t[1..], k) {
      assert forall i | 0 < i < k + 1 :: s[i] == s[1..][i - 1] && t[i] == t[1..][i - 1];
    }
  }

  lemma PrecedesTail(s: string, t: string)
    requires s != [] && t != [] && s[0] == t[0]
    ensures Precedes(s, t) <==> Precedes(s[1..], t[1..])
  {
    hide SmallerFrom;
    SmallerFromTail(s, t, 0);
    if k: nat :| SmallerFrom(s, t, k) {
      SmallerFromTail(s, t, k - 1);
    }
    if k: nat :| SmallerFrom(s[1..], t[1..], k) {
      SmallerFromTail(s, t, k);
    }
  }

  lemma PrecedesHead(s: string, t: string)
    requires s == [] || t == [] || s[0] != t[0]
    ensures Precedes(s, t) <==> SmallerFrom(s, t, 0)
  {
  }

  /** Names are compared by the dictionary. */
  lemma {:induction false} StrCmpIsDictionary(s: string, t: string)
    ensures StrCmp(s, t) < 0 <==> Precedes(s, t)
  {
    hide Precedes;
    if s != [] && t != [] && s[0] == t[0] {
      StrCmpIsDictionary(s[1..], t[1..]);
      PrecedesTail(s, t);
    } else {
      PrecedesHead(s, t);
    }
  }

  /** Areas are sorted by offset, then by end, then by name. */
  lemma ComproffsetIsLexicographic(l: Area, r: Area)
    ensures Comproffset(l, r) < 0 <==>
            || l.offset < r.offset
            || (l.offset == r.offset && l.lastbyte < r.lastbyte)
            || (l.offset == r.offset && l.lastbyte == r.lastbyte && Precedes(l.name, r.name))
  {
    StrCmpIsDictionary(l.name, r.name);
    hide StrCmp, Precedes;
  }

  /** The comparison handed to qsort is a total preorder that separates areas differing in bounds
      or name, which is what makes the sorted order of the report repeatable. */
  lemma ComproffsetIsTotalOrder(a: Area, b: Area, c: Area)
    ensures Comproffset(a, b) <= 0 || Comproffset(b, a) <= 0
    ensures Comproffset(a, b) <= 0 && Comproffset(b, c) <= 0 ==> Comproffset(a, c) <= 0
    ensures Comproffset(a, b) == 0 <==> a.offset == b.offset && a.lastbyte == b.lastbyte && a.name == b.name
  {
    StrCmpTotal(a.name, b.name);
    if StrCmp(a.name, b.name) <= 0 && StrCmp(b.name, c.name) <= 0 {
      StrCmpTransitive(a.name, b.name, c.name);
    }
  }

  lemma SortedMeansInOrder(areas: seq<Area>)
    requires Sorted(areas)
    ensures InOrder(Uses(areas))
  {
    forall i, j | 0 <= i < j < |areas| ensures Before(Uses(areas)[i], Uses(areas)[j]) {
      assert Comproffset(areas[i], areas[j]) <= 0;
    }
  }

  function Inserted(a: Area, sorted: seq<Area>): (r: seq<Area>)
    ensures multiset(r) == multiset([a]) + multiset(sorted)
  {
    if sorted == [] then [a]
    else if Comproffset(a, sorted[0]) <= 0 then [a] + sorted
    else
      assert sorted == [sorted[0]] + sorted[1..];
      [sorted[0]] + Inserted(a, sorted[1..])
  }

  lemma {:induction false} InsertedIsSorted(a: Area, sorted: seq<Area>)
    requires Sorted(sorted)
    ensures Sorted(Inserted(a, sorted))
  {
    if sorted == [] {
    } else if Comproffset(a, sorted[0]) <= 0 {
      forall k | 0 <= k < |sorted| ensures Comproffset(a, sorted[k]) <= 0 {
        ComproffsetIsTotalOrder(a, sorted[0], sorted[k]);
      }
    } else {
      var rest := Inserted(a, sorted[1..]);
      InsertedIsSorted(a, sorted[1..]);
      forall k | 0 <= k < |rest| ensures Comproffset(sorted[0], rest[k]) <= 0 {
        assert rest[k] in multiset(rest);
        ComproffsetIsTotalOrder(a, sorted[0], sorted[0]);
        assert rest[k] == a || rest[k] in sorted[1..];
      }
    }
  }

  function InsertionSorted(areas: seq<Area>): (r: seq<Area>)
    ensures multiset(r) == multiset(areas)
    ensures Sorted(r)
  {
    if areas == [] then []
    else
      assert areas == [areas[0]] + areas[1..];
      InsertedIsSorted(areas[0], InsertionSorted(areas[1..]));
      Inserted(areas[0], InsertionSorted(areas[1..]))
  }

  /** qsort: the array ends up as some sorted permutation; callers may rely on no more. */
  method QSort(areas: array<Area>)
    modifies areas
    ensures Sorted(areas[..])
    ensures multiset(areas[..]) == multiset(old(areas[..]))
  {
    var sorted := InsertionSorted(areas[..]);
    assert |sorted| == areas.Length by {
      assert |multiset(sorted)| == |multiset(areas[..])|;
    }
    forall i | 0 <= i < areas.Length {
      areas[i] := sorted[i];
    }
    assert areas[..] == sorted;
  }
}
