/** Where a separate debug file may be: the candidate paths, in search order. */
module DebugPaths {
  import opened Words
  import opened Outcomes
  import opened StringBuffer
  import opened NumberText
  import opened Paths

  function Hex(bytes: seq<byte>): (text: seq<byte>)
    ensures |text| == 2 * |bytes|
  {
    if bytes == [] then []
    else
      var last := bytes[|bytes| - 1];
      Hex(bytes[..|bytes| - 1]) + [DigitChar(last / 16, false), DigitChar(last % 16, false)]
  }

  /** Two small hexadecimal digits for every byte, the high one first. */
  lemma {:induction false} HexSpells(bytes: seq<byte>, i: nat)
    requires i < |bytes|
    ensures Hex(bytes)[2 * i] == LOWER_DIGITS[bytes[i] / 16] as int
    ensures Hex(bytes)[2 * i + 1] == LOWER_DIGITS[bytes[i] % 16] as int
  {
    var n := |bytes| - 1;
    DigitCharIs(bytes[n] / 16, false);
    DigitCharIs(bytes[n] % 16, false);
    hide DigitChar;
    if i < n {
      HexSpells(bytes[..n], i);
    }
  }

  /** The file name a build-id stands for: a directory named by its first byte, then the others. */
  function BuildIdName(buildid: seq<byte>): seq<byte> {
    (if buildid == [] then [] else Hex(buildid[..1]) + [SLASH] + Hex(buildid[1..])) + Ascii(".debug")
  }

  lemma SuffixIs()
    ensures Ascii(".debug") == [46, 100, 101, 98, 117, 103]
  {
  }

  lemma NameParts(buildid: seq<byte>)
    requires buildid != []
    ensures var name := BuildIdName(buildid);
            && |name| == 2 * |buildid| + 7 && name[2] == 47
            && name[..2] == Hex(buildid[..1]) && name[3..|name| - 6] == Hex(buildid[1..])
            && name[|name| - 6..] == Ascii(".debug")
  {
    hide Hex, Ascii;
  }

  /** The name character by character: the first byte in hexadecimal, a slash (47), the others, and .debug. */
  lemma BuildIdNameSpells(buildid: seq<byte>, i: nat)
    requires i < |buildid|
    ensures var name, at := BuildIdName(buildid), if i == 0 then 0 else 2 * i + 1;
            && |name| == 2 * |buildid| + 7 && name[2] == 47
            && name[at] == LOWER_DIGITS[buildid[i] / 16] as int
            && name[at + 1] == LOWER_DIGITS[buildid[i] % 16] as int
            && name[|name| - 6..] == [46, 100, 101, 98, 117, 103]
  {
    SuffixIs();
    NameParts(buildid);
    hide BuildIdName, Hex, Ascii;
    if i == 0 {
      HexSpells(buildid[..1], 0);
    } else {
      HexSpells(buildid[1..], i - 1);
    }
  }

  /** The name gives back the build-id. */
  lemma BuildIdNameIsInjective(a: seq<byte>, b: seq<byte>)
    requires BuildIdName(a) == BuildIdName(b)
    ensures a == b
  {
    var n := BuildIdName(a);
    if a != [] && b != [] {
      assert n[..2] == Hex(a[..1]) == Hex(b[..1]);
      assert n[3..|n| - 6] == Hex(a[1..]) == Hex(b[1..]);
      HexIsInjective(a[..1], b[..1]);
      HexIsInjective(a[1..], b[1..]);
      assert a == a[..1] + a[1..] && b == b[..1] + b[1..];
    }
  }

  /** Two digits tell bytes apart. */
  lemma DigitsTellApart(x: byte, y: byte)
    requires LOWER_DIGITS[x / 16] == LOWER_DIGITS[y / 16] && LOWER_DIGITS[x % 16] == LOWER_DIGITS[y % 16]
    ensures x == y
  {
    assert forall i, j | 0 <= i < j < 16 :: LOWER_DIGITS[i] != LOWER_DIGITS[j];
  }

  lemma HexIsInjective(a: seq<byte>, b: seq<byte>)
    requires Hex(a) == Hex(b)
    ensures a == b
  {
    hide Hex;
    assert |a| == |b|;
    forall i | 0 <= i < |a| ensures a[i] == b[i] {
      HexSpells(a, i);
      HexSpells(b, i);
      DigitsTellApart(a[i], b[i]);
    }
  }

  /** The text of the name after the first bu bytes of the build-id. */
  function BuildIdText(buildid: seq<byte>, bu: nat): seq<byte>
    requires bu <= |buildid|
  {
    if bu == 0 then [] else Hex(buildid[..1]) + [SLASH] + Hex(buildid[1..bu])
  }

  lemma BuildIdTextGrows(buildid: seq<byte>, bu: nat)
    requires bu < |buildid|
    ensures var digits := [DigitChar(buildid[bu] / 16, false), DigitChar(buildid[bu] % 16, false)];
            BuildIdText(buildid, bu + 1)
            == if bu == 0 then BuildIdText(buildid, bu) + digits + [SLASH] else BuildIdText(buildid, bu) + digits
  {
    hide DigitChar;
    if bu == 0 {
      assert buildid[..1][..0] == [] && buildid[1..1] == [];
    } else {
      assert buildid[1..bu + 1][..bu - 1] == buildid[1..bu];
    }
  }

  lemma BuildIdTextEnds(buildid: seq<byte>)
    ensures BuildIdText(buildid, 0) == []
    ensures BuildIdText(buildid, |buildid|) + Ascii(".debug") == BuildIdName(buildid)
  {
    hide Hex, Ascii;
    if buildid != [] {
      assert buildid[1..|buildid|] == buildid[1..];
    }
  }

  lemma DigitsHaveNoNul(c: byte)
    ensures NUL !in [DigitChar(c / 16, false), DigitChar(c % 16, false)]
  {
  }

  lemma SuffixHasNoNul()
    ensures NUL !in Ascii(".debug")
  {
  }

  /** The two hexadecimal digits of one byte, and the slash after the first. */
  method AppendByte(tmp: DwarfString, buildid: seq<byte>, bu: nat)
    requires tmp.Valid() && bu < |buildid|
    modifies tmp, tmp.data
    ensures tmp.Valid() && (tmp.data == old(tmp.data) || fresh(tmp.data))
    ensures NUL !in old(tmp.Contents()) ==> NUL !in tmp.Contents()
    ensures old(tmp.exhausted) ==> tmp.exhausted
    ensures !tmp.exhausted && old(tmp.Contents()) == BuildIdText(buildid, bu) ==>
              tmp.Contents() == BuildIdText(buildid, bu + 1)
  {
    BuildIdTextGrows(buildid, bu);
    DigitsHaveNoNul(buildid[bu]);
    hide DwarfString.Valid, DwarfString.Contents, DigitChar, BuildIdText;
    var cp := buildid[bu];
    var lbuf := [DigitChar(cp / 16, false), DigitChar(cp % 16, false)];
    var ok := tmp.Append(Some(lbuf));
    if bu == 0 {
      ok := tmp.Append(Some([SLASH]));
    }
  }

  method AppendName(name: DwarfString, buildid: seq<byte>)
    requires name.Valid() && name.Contents() == []
    modifies name, name.data
    ensures name.Valid() && (name.data == old(name.data) || fresh(name.data))
    ensures NUL !in name.Contents()
    ensures !name.exhausted ==> name.Contents() == BuildIdName(buildid)
  {
    hide *;
    BuildIdTextEnds(buildid);
    SuffixHasNoNul();
    for bu := 0 to |buildid|
      invariant name.Valid() && (name.data == old(name.data) || fresh(name.data))
      invariant NUL !in name.Contents()
      invariant !name.exhausted ==> name.Contents() == BuildIdText(buildid, bu)
    {
      AppendByte(name, buildid, bu);
    }
    var ok := name.Append(Some(Ascii(".debug")));
  }

  /** build_buildid_filename. tmp is the buffer it builds the name in. */
  method BuildBuildIdFilename(target: DwarfString, buildid: seq<byte>) returns (ghost tmp: DwarfString)
    requires target.Valid()
    modifies target, target.data
    ensures target.Valid() && (target.data == old(target.data) || fresh(target.data))
    ensures NUL !in old(target.Contents()) ==> NUL !in target.Contents()
    ensures old(target.exhausted) ==> target.exhausted
    ensures fresh(tmp) && (target.memory.Plentiful? ==> !tmp.exhausted)
    ensures !tmp.exhausted && !target.exhausted ==>
              target.Contents() == Join(old(target.Contents()), BuildIdName(buildid))
  {
    hide DwarfString.Valid, DwarfString.Contents, BuildIdName, Join;
    var name := new DwarfString(target.memory);
    AppendName(name, buildid);
    PathJoin(target, name);
    name.Destruct();
    name.NotExhausted();
    tmp := name;
  }

  // ---------------------------------------------------------------- what is searched

  /** What the search starts from. */
  datatype Search = Search(prefixes: seq<seq<byte>>, path: seq<byte>, link: Option<seq<byte>>,
                           buildid: seq<byte>, cwd: seq<byte>)
  {
    /** The working directory plays a part only for relative paths. */
    function Base(): seq<byte> {
      if StartsWithSlash(path) then [] else cwd
    }

    /** The object the debug information is looked for, as a full path. */
    function Original(): seq<byte> {
      Join(Base(), path)
    }

    function Directory(): seq<byte> {
      Join(Base(), path[..DirLen(path)])
    }

    /** The build-id file under every global prefix. */
    function BuildIdPaths(n: nat): seq<seq<byte>>
      requires n <= |prefixes|
    {
      seq(n, i requires 0 <= i < n => Join(prefixes[i], BuildIdName(buildid)))
    }

    /** The linked file under every global prefix: the prefix put before the first place searched. */
    function PrefixedPaths(name: seq<byte>, n: nat): seq<seq<byte>>
      requires n <= |prefixes|
    {
      seq(n, i requires 0 <= i < n => Join(prefixes[i], Join(Directory(), name)))
    }

    function IdPlaces(): seq<seq<byte>> {
      if buildid == [] then [] else BuildIdPaths(|prefixes|)
    }

    function LinkPlaces(): seq<seq<byte>> {
      if link.None? then []
      else [Join(Directory(), link.value), Join(Directory(), Join(Ascii(".debug"), link.value))]
             + PrefixedPaths(link.value, |prefixes|)
    }

    /** All places to look at, in order: those of the build-id, if there is one; those of the link,
        if there is one. */
    function Places(): seq<seq<byte>> {
      IdPlaces() + LinkPlaces()
    }

    /** The original object is never a candidate for its own debug information. */
    function Candidates(): seq<seq<byte>> {
      Without(Places(), Original())
    }

    /** Every string of the search is a C string. */
    predicate CStrings() {
      && (forall i | 0 <= i < |prefixes| :: NUL !in prefixes[i])
      && NUL !in path && NUL !in cwd && (link.Some? ==> NUL !in link.value)
    }
  }

  /** An absolute path (one that starts with a slash, 47) is its own full path; any other is looked for in the
      working directory, a slash between the two. */
  lemma OriginalIsFullPath(search: Search)
    ensures search.path != [] && search.path[0] == 47 ==> search.Original() == search.path
    ensures search.cwd != [] && search.cwd[|search.cwd| - 1] != 47 && (search.path == [] || search.path[0] != 47) ==>
              search.Original() == search.cwd + [47] + search.path
  {
    JoinEmptyLeft(search.path);
    if search.cwd != [] {
      OneSlashBetween(search.cwd, search.path);
    }
  }

  lemma {:induction false} DirLenOf(dir: seq<byte>, base: seq<byte>)
    requires dir != [] && dir[|dir| - 1] == 47 && 47 !in base
    ensures DirLen(dir + base) == |dir|
    decreases |base|
  {
    if base == [] {
      assert dir + base == dir;
    } else {
      var n := |base| - 1;
      assert (dir + base)[..|dir| + n] == dir + base[..n];
      DirLenOf(dir, base[..n]);
    }
  }

  /** The directory of an absolute path is what stands before its base name. */
  lemma DirectoryOf(search: Search, dir: seq<byte>, base: seq<byte>)
    requires search.path == dir + [47] + base && 47 !in base && (dir == [] || dir[0] == 47)
    ensures search.Directory() == dir + [47] && search.Original() == search.path
  {
    OriginalIsFullPath(search);
    DirLenOf(dir + [47], base);
    assert search.path[0] == 47;
    JoinEmptyLeft(dir + [47]);
  }

  lemma BuildIdNameStarts(buildid: seq<byte>)
    requires buildid != []
    ensures var name := BuildIdName(buildid); name != [] && name[0] != 47
  {
    BuildIdNameSpells(buildid, 0);
    DigitCharIs(buildid[0] / 16, false);
    hide BuildIdName;
  }

  lemma NextTo(dir: seq<byte>, name: seq<byte>)
    requires name != [] && name[0] != 47
    ensures Join(dir + [47], name) == dir + [47] + name
  {
    OneSlashBetween(dir + [47], name);
    assert (dir + [47])[..|dir|] == dir;
    hide Join;
  }

  lemma Under(prefix: seq<byte>, dir: seq<byte>, name: seq<byte>)
    requires prefix != [] && prefix[|prefix| - 1] != 47 && (dir == [] || dir[0] == 47)
    ensures Join(prefix, dir + [47] + name) == prefix + (dir + [47] + name)
  {
    var place := dir + [47] + name;
    OneSlashBetween(prefix, place);
    assert place[0] == 47 && place == [47] + place[1..];
    assert prefix + [47] + place[1..] == prefix + ([47] + place[1..]);
    hide Join;
  }

  lemma LinkPlacesSpelledOut(search: Search, dir: seq<byte>, name: seq<byte>)
    requires search.Directory() == dir + [47] && (dir == [] || dir[0] == 47)
    requires search.link == Some(name) && name != [] && name[0] != 47
    requires forall i | 0 <= i < |search.prefixes| ::
               search.prefixes[i] != [] && search.prefixes[i][|search.prefixes[i]| - 1] != 47
    ensures var n, places := |search.prefixes|, search.LinkPlaces();
            && |places| == n + 2
            && places[0] == dir + [47] + name
            && places[1] == dir + [47] + [46, 100, 101, 98, 117, 103] + [47] + name
            && (forall i | 0 <= i < n :: places[2 + i] == search.prefixes[i] + (dir + [47] + name))
  {
    hide Search.Directory;
    var debug: seq<byte> := [46, 100, 101, 98, 117, 103];
    assert Ascii(".debug") == debug;
    hide Ascii;
    NextTo(dir, name);
    OneSlashBetween(debug, name);
    NextTo(dir, debug + [47] + name);
    assert dir + [47] + (debug + [47] + name) == dir + [47] + debug + [47] + name;
    hide Join;
    forall i | 0 <= i < |search.prefixes|
      ensures Join(search.prefixes[i], dir + [47] + name) == search.prefixes[i] + (dir + [47] + name)
    {
      Under(search.prefixes[i], dir, name);
    }
  }

  /** The places that are searched, spelled out for an object of absolute path, a link to a plain file name, and
      prefixes that do not end in a slash: the build-id file under every prefix; then the linked file next to
      the object, in .debug next to it, and in its directory under every prefix. */
  lemma PlacesSpelledOut(search: Search, dir: seq<byte>, base: seq<byte>, name: seq<byte>)
    requires search.path == dir + [47] + base && 47 !in base && (dir == [] || dir[0] == 47)
    requires search.link == Some(name) && name != [] && name[0] != 47 && search.buildid != []
    requires forall i | 0 <= i < |search.prefixes| ::
               search.prefixes[i] != [] && search.prefixes[i][|search.prefixes[i]| - 1] != 47
    ensures var n, places := |search.prefixes|, search.Places();
            && |places| == 2 * n + 2
            && (forall i | 0 <= i < n :: places[i] == search.prefixes[i] + [47] + BuildIdName(search.buildid))
            && places[n] == dir + [47] + name
            && places[n + 1] == dir + [47] + [46, 100, 101, 98, 117, 103] + [47] + name
            && (forall i | 0 <= i < n :: places[n + 2 + i] == search.prefixes[i] + (dir + [47] + name))
  {
    DirectoryOf(search, dir, base);
    BuildIdNameStarts(search.buildid);
    LinkPlacesSpelledOut(search, dir, name);
    forall i | 0 <= i < |search.prefixes|
      ensures Join(search.prefixes[i], BuildIdName(search.buildid))
              == search.prefixes[i] + [47] + BuildIdName(search.buildid)
    {
      OneSlashBetween(search.prefixes[i], BuildIdName(search.buildid));
    }
    hide Join, BuildIdName, Search.Directory, Search.LinkPlaces;
  }

  /** The strings other than x, in order. */
  function Without(strings: seq<seq<byte>>, x: seq<byte>): (kept: seq<seq<byte>>)
    ensures x !in kept
    ensures forall s :: s in kept <==> s in strings && s != x
  {
    if strings == [] then []
    else
      var front := Without(strings[..|strings| - 1], x);
      if strings[|strings| - 1] == x then front else front + [strings[|strings| - 1]]
  }

  lemma WithoutOneMore(strings: seq<seq<byte>>, s: seq<byte>, x: seq<byte>)
    ensures Without(strings + [s], x) == if s == x then Without(strings, x) else Without(strings, x) + [s]
  {
    assert (strings + [s])[..|strings|] == strings;
  }

  /** An object linked to under its own name is not looked for in its own directory. */
  lemma OwnNameIsNoCandidate(search: Search)
    requires search.link == Some(search.path[DirLen(search.path)..])
    ensures Join(search.Directory(), search.link.value) !in search.Candidates()
  {
    OriginalFullPathIsJoin(search.Base(), search.path);
  }

  lemma JoinHasNoNul(a: seq<byte>, b: seq<byte>)
    requires NUL !in a && NUL !in b
    ensures NUL !in Join(a, b)
  {
  }

  lemma {:induction false} HexHasNoNul(bytes: seq<byte>)
    ensures NUL !in Hex(bytes)
  {
    if bytes != [] {
      HexHasNoNul(bytes[..|bytes| - 1]);
    }
  }

  lemma BuildIdNameHasNoNul(buildid: seq<byte>)
    ensures NUL !in BuildIdName(buildid)
  {
    SuffixHasNoNul();
    hide Ascii, Hex;
    if buildid != [] {
      HexHasNoNul(buildid[..1]);
      HexHasNoNul(buildid[1..]);
    }
  }

  lemma PlacesAreCStrings(search: Search)
    requires search.CStrings()
    ensures forall s :: s in search.BuildIdPaths(|search.prefixes|) ==> NUL !in s
    ensures NUL !in search.Directory()
  {
    var path := search.path;
    assert forall c :: c in path[..DirLen(path)] ==> c in path;
    JoinHasNoNul(search.Base(), path[..DirLen(path)]);
    BuildIdNameHasNoNul(search.buildid);
    forall i | 0 <= i < |search.prefixes|
      ensures NUL !in Join(search.prefixes[i], BuildIdName(search.buildid))
    {
      JoinHasNoNul(search.prefixes[i], BuildIdName(search.buildid));
    }
    hide Join, BuildIdName;
  }

  lemma LinkedPlacesAreCStrings(search: Search, dir: seq<byte>, name: seq<byte>)
    requires search.CStrings() && NUL !in name && dir == search.Directory() && NUL !in dir
    ensures NUL !in Join(dir, name) && NUL !in Join(dir, Join(Ascii(".debug"), name))
    ensures forall s :: s in search.PrefixedPaths(name, |search.prefixes|) ==> NUL !in s
  {
    assert NUL !in Ascii(".debug");
    JoinHasNoNul(dir, name);
    JoinHasNoNul(Ascii(".debug"), name);
    JoinHasNoNul(dir, Join(Ascii(".debug"), name));
    forall i | 0 <= i < |search.prefixes|
      ensures NUL !in Join(search.prefixes[i], Join(dir, name))
    {
      JoinHasNoNul(search.prefixes[i], Join(dir, name));
    }
    hide Join;
  }

  lemma CandidatesAreCStrings(search: Search)
    requires search.CStrings()
    ensures forall s :: s in search.Candidates() ==> NUL !in s
  {
    PlacesAreCStrings(search);
    if search.link.Some? {
      LinkedPlacesAreCStrings(search, search.Directory(), search.link.value);
    }
    hide Join, Search.BuildIdPaths, Search.PrefixedPaths, Search.Directory;
  }
}
