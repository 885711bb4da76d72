/** Path joining and splitting. */
module Paths {
  import opened Words
  import opened Outcomes
  import opened StringBuffer

  const SLASH: byte := 47

  predicate StartsWithSlash(s: seq<byte>) {
    s != [] && s[0] == SLASH
  }

  predicate EndsWithSlash(s: seq<byte>) {
    s != [] && s[|s| - 1] == SLASH
  }

  /** One slash between the two, unless there is nothing to join to. */
  function Join(target: seq<byte>, input: seq<byte>): seq<byte> {
    if target == [] then input
    else if !EndsWithSlash(target) then
      if StartsWithSlash(input) then target + input else target + [SLASH] + input
    else
      if StartsWithSlash(input) then target + input[1..] else target + input
  }

  lemma JoinEmptyLeft(s: seq<byte>)
    ensures Join([], s) == s
  {
  }

  /** The empty string is no identity on the right: it adds a slash that is not there. */
  lemma JoinEmptyRight(s: seq<byte>)
    ensures Join(s, []) == s <==> s == [] || EndsWithSlash(s)
  {
    if s != [] && !EndsWithSlash(s) {
      assert |Join(s, [])| == |s| + 1;
    }
  }

  function WithoutSlash(s: seq<byte>): seq<byte> {
    if StartsWithSlash(s) then s[1..] else s
  }

  function WithSlash(s: seq<byte>): seq<byte> {
    if EndsWithSlash(s) then s else s + [SLASH]
  }

  lemma JoinIsOneSlash(a: seq<byte>, b: seq<byte>)
    requires a != []
    ensures Join(a, b) == WithSlash(a) + WithoutSlash(b)
  {
    if !EndsWithSlash(a) && StartsWithSlash(b) {
      assert b == [SLASH] + b[1..];
      assert a + b == a + [SLASH] + b[1..];
    }
  }

  /** Two paths are joined by exactly one slash (47), whether or not they have one there already. */
  lemma OneSlashBetween(a: seq<byte>, b: seq<byte>)
    requires a != []
    ensures Join(a, b)
            == (if a[|a| - 1] == 47 then a[..|a| - 1] else a) + [47] + (if b != [] && b[0] == 47 then b[1..] else b)
  {
    JoinIsOneSlash(a, b);
    assert a[|a| - 1] == 47 ==> a == a[..|a| - 1] + [47];
  }

  lemma EndOfJoin(a: seq<byte>, b: seq<byte>)
    requires a != [] && b != []
    ensures WithSlash(Join(a, b)) == WithSlash(a) + WithoutSlash(WithSlash(b))
  {
    JoinIsOneSlash(a, b);
    var j := WithSlash(a) + WithoutSlash(b);
    if WithoutSlash(b) == [] {
      assert b == [SLASH];
      assert j == WithSlash(a);
    } else {
      assert j[|j| - 1] == b[|b| - 1];
      assert WithoutSlash(b + [SLASH]) == WithoutSlash(b) + [SLASH];
    }
  }

  lemma JoinPastEmpty(a: seq<byte>, c: seq<byte>)
    requires a != []
    ensures Join(Join(a, []), c) == Join(a, c)
  {
    JoinIsOneSlash(a, []);
    JoinIsOneSlash(a, c);
    assert WithSlash(a) + [] == WithSlash(a);
    JoinIsOneSlash(WithSlash(a), c);
    hide Join;
  }

  lemma JoinPastNonEmpty(a: seq<byte>, b: seq<byte>, c: seq<byte>)
    requires a != [] && b != []
    ensures Join(Join(a, b), c) == Join(a, Join(b, c))
  {
    hide *;
    JoinIsOneSlash(a, Join(b, c));
    JoinIsNonEmpty(a, b);
    JoinIsOneSlash(Join(a, b), c);
    EndOfJoin(a, b);
    FrontOfJoin(b, c);
    ConcatAssociative(WithSlash(a), WithoutSlash(WithSlash(b)), WithoutSlash(c));
  }

  lemma JoinIsNonEmpty(a: seq<byte>, b: seq<byte>)
    requires a != []
    ensures Join(a, b) != []
  {
  }

  lemma ConcatAssociative<T>(x: seq<T>, y: seq<T>, z: seq<T>)
    ensures (x + y) + z == x + (y + z)
  {
  }

  lemma FrontOfJoin(b: seq<byte>, c: seq<byte>)
    requires b != []
    ensures WithoutSlash(Join(b, c)) == WithoutSlash(WithSlash(b)) + WithoutSlash(c)
  {
    JoinIsOneSlash(b, c);
    var front := WithSlash(b);
    assert front[0] == b[0];
    assert StartsWithSlash(front) ==> (front + WithoutSlash(c))[1..] == front[1..] + WithoutSlash(c);
  }

  /** Joining is associative. */
  lemma JoinAssociative(a: seq<byte>, b: seq<byte>, c: seq<byte>)
    ensures Join(Join(a, b), c) == Join(a, Join(b, c))
  {
    if a == [] {
      JoinEmptyLeft(b);
      JoinEmptyLeft(Join(b, c));
    } else if b == [] {
      JoinPastEmpty(a, c);
      JoinEmptyLeft(c);
    } else {
      JoinPastNonEmpty(a, b, c);
    }
    hide Join;
  }

  /** _dwarf_pathjoinl, on two strings with storage of their own. */
  method PathJoin(target: DwarfString, input: DwarfString)
    requires target.Valid() && input.Valid()
    requires target != input && target.data != input.data
    modifies target, target.data
    ensures target.Valid() && (target.data == old(target.data) || fresh(target.data))
    ensures old(target.exhausted) ==> target.exhausted
    ensures !target.exhausted ==> target.Contents() == Join(old(target.Contents()), old(input.Contents()))
    ensures NUL !in old(target.Contents()) && NUL !in old(input.Contents()) ==> NUL !in target.Contents()
  {
    hide DwarfString.Valid, DwarfString.Contents;
    var inputs := input.Text();
    var targ := target.Text();
    var ok;
    if targ == [] {
      ok := target.Append(Some(inputs));
      return;
    }
    if targ[|targ| - 1] != SLASH {
      if !StartsWithSlash(inputs) {
        ok := target.Append(Some([SLASH]));
        ok := target.Append(Some(inputs));
      } else {
        ok := target.Append(Some(inputs));
      }
    } else {
      if !StartsWithSlash(inputs) {
        ok := target.Append(Some(inputs));
      } else {
        ok := target.Append(Some(inputs[1..]));
      }
    }
  }

  /** The length of the directory part, which ends in the last slash. */
  function DirLen(s: seq<byte>): (n: nat)
    ensures n <= |s|
  {
    if s == [] then 0 else if s[|s| - 1] == SLASH then |s| else DirLen(s[..|s| - 1])
  }

  lemma {:induction false} DirLenSplits(s: seq<byte>)
    ensures DirLen(s) == 0 || EndsWithSlash(s[..DirLen(s)])
    ensures !StartsWithSlash(s[DirLen(s)..]) && SLASH !in s[DirLen(s)..]
  {
    if s != [] && s[|s| - 1] != SLASH {
      var front := s[..|s| - 1];
      DirLenSplits(front);
      assert s[..DirLen(front)] == front[..DirLen(front)];
      assert s[DirLen(front)..] == front[DirLen(front)..] + [s[|s| - 1]];
    }
  }

  method MyDirLen(s: seq<byte>) returns (n: nat)
    ensures n == DirLen(s)
    ensures n <= |s| && (n == 0 || s[n - 1] == 47) && 47 !in s[n..]
  {
    var count, last := 0, -1;
    while count < |s|
      invariant -1 <= last < count <= |s|
      invariant DirLen(s[..count]) == last + 1
    {
      assert s[..count + 1][..count] == s[..count];
      if s[count] == SLASH {
        last := count;
      }
      count := count + 1;
    }
    assert s[..count] == s;
    DirLenSplits(s);
    n := if last >= 0 then last + 1 else 0;
    assert n > 0 ==> s[..n][n - 1] == SLASH;
  }

  /** Directory and base name join to the path they came from. */
  lemma SplitIsLossless(s: seq<byte>)
    ensures Join(s[..DirLen(s)], s[DirLen(s)..]) == s
  {
    DirLenSplits(s);
    assert s == s[..DirLen(s)] + s[DirLen(s)..];
  }

  /** The full path of the original object, as the code assembles it. */
  function OriginalFullPath(cwd: seq<byte>, path: seq<byte>): seq<byte> {
    Join(Join(cwd, path[..DirLen(path)]), path[DirLen(path)..])
  }

  /** It is the path joined to the working directory, and the path itself when that was not asked
      for. */
  lemma OriginalFullPathIsJoin(cwd: seq<byte>, path: seq<byte>)
    ensures OriginalFullPath(cwd, path) == Join(cwd, path)
    ensures OriginalFullPath([], path) == path
  {
    JoinAssociative(cwd, path[..DirLen(path)], path[DirLen(path)..]);
    SplitIsLossless(path);
  }
}
