/** _dwarf_construct_linkedto_path. */
module LinkedToPath {
  import opened Words
  import opened Outcomes
  import opened StringBuffer
  import opened StringLists
  import opened ByteOrder
  import opened Paths
  import opened DebugPaths
  import opened PathBlock

  // ---------------------------------------------------------------- places and candidates

  lemma {:induction false} WithoutConcat(a: seq<seq<byte>>, b: seq<seq<byte>>, x: seq<byte>)
    ensures Without(a + b, x) == Without(a, x) + Without(b, x)
  {
    if b == [] {
      assert a + b == a;
    } else {
      var n := |b| - 1;
      assert a + b == (a + b[..n]) + [b[n]] && b == b[..n] + [b[n]];
      WithoutOneMore(a + b[..n], b[n], x);
      WithoutOneMore(b[..n], b[n], x);
      WithoutConcat(a, b[..n], x);
    }
  }

  /** The strings added so far, and one more place that may be the original itself. */
  lemma OneMorePlace(before: seq<seq<byte>>, places: seq<seq<byte>>, place: seq<byte>, original: seq<byte>)
    ensures before + Without(places + [place], original)
            == if place == original then before + Without(places, original)
               else (before + Without(places, original)) + [place]
  {
    WithoutOneMore(places, place, original);
    ConcatAssociative(before, Without(places, original), [place]);
    hide Without;
  }

  lemma OneMoreIdPath(search: Search, i: nat)
    requires i < |search.prefixes|
    ensures search.BuildIdPaths(0) == []
    ensures search.BuildIdPaths(i + 1)
            == search.BuildIdPaths(i) + [Join(search.prefixes[i], BuildIdName(search.buildid))]
  {
  }

  lemma NoIdPathsYet(search: Search, original: seq<byte>, before: seq<seq<byte>>)
    ensures before + Without(search.BuildIdPaths(0), original) == before
    ensures search.IdPlaces() == search.BuildIdPaths(if search.buildid == [] then 0 else |search.prefixes|)
  {
    assert search.BuildIdPaths(0) == [];
  }

  lemma NoPrefixedPathsYet(search: Search, name: seq<byte>, original: seq<byte>, before: seq<seq<byte>>)
    ensures before + Without(search.PrefixedPaths(name, 0), original) == before
  {
    assert search.PrefixedPaths(name, 0) == [];
  }

  lemma NothingWithout(x: seq<byte>, before: seq<seq<byte>>)
    ensures Without([], x) == []
    ensures before + [] == before
  {
  }

  lemma OneMorePrefixedPath(search: Search, dir: seq<byte>, name: seq<byte>, i: nat)
    requires i < |search.prefixes| && dir == search.Directory()
    ensures search.PrefixedPaths(name, i + 1)
            == search.PrefixedPaths(name, i) + [Join(Join(search.prefixes[i], dir), name)]
  {
    JoinAssociative(search.prefixes[i], dir, name);
    hide Join, Search.Directory;
  }

  lemma LinkPlacesAre(search: Search, dir: seq<byte>, name: seq<byte>)
    requires search.link == Some(name) && dir == search.Directory()
    ensures search.LinkPlaces() == [Join(dir, name)] + [Join(Join(dir, Ascii(".debug")), name)]
                                  + search.PrefixedPaths(name, |search.prefixes|)
  {
    JoinAssociative(dir, Ascii(".debug"), name);
    hide Join, Search.PrefixedPaths, Search.Directory;
  }

  /** What is left of one place. */
  function Unless(place: seq<byte>, original: seq<byte>): seq<seq<byte>> {
    if place == original then [] else [place]
  }

  lemma WithoutOne(place: seq<byte>, original: seq<byte>)
    ensures Without([place], original) == Unless(place, original)
  {
    assert [place] == [] + [place];
    WithoutOneMore([], place, original);
  }

  lemma LinkPlacesWithout(search: Search, dir: seq<byte>, name: seq<byte>, original: seq<byte>)
    requires search.link == Some(name) && dir == search.Directory()
    ensures Without(search.LinkPlaces(), original)
            == Unless(Join(dir, name), original) + Unless(Join(Join(dir, Ascii(".debug")), name), original)
               + Without(search.PrefixedPaths(name, |search.prefixes|), original)
  {
    hide *;
    LinkPlacesAre(search, dir, name);
    var first, second := Join(dir, name), Join(Join(dir, Ascii(".debug")), name);
    WithoutConcat([first] + [second], search.PrefixedPaths(name, |search.prefixes|), original);
    WithoutConcat([first], [second], original);
    WithoutOne(first, original);
    WithoutOne(second, original);
  }

  /** What the block reads back as: the candidates, or a single empty string when there are none. */
  function Listed(candidates: seq<seq<byte>>): seq<seq<byte>> {
    if candidates == [] then [[]] else candidates
  }

  lemma CandidatesInTwoParts(search: Search)
    ensures search.Candidates()
            == Without(search.IdPlaces(), search.Original()) + Without(search.LinkPlaces(), search.Original())
    ensures search.link.None? ==> Without(search.LinkPlaces(), search.Original()) == []
  {
    WithoutConcat(search.IdPlaces(), search.LinkPlaces(), search.Original());
    NothingWithout(search.Original(), []);
    hide Join, Search.BuildIdPaths, Search.PrefixedPaths, Without, Search.Original, Search.Directory;
  }

  lemma EmptyIsNoPrefix<T>(s: seq<T>)
    ensures [] + s == s
  {
  }

  lemma PrefixIsCString(search: Search, i: nat)
    requires i < |search.prefixes|
    ensures search.CStrings() ==> NUL !in search.prefixes[i]
  {
  }

  // ---------------------------------------------------------------- joining in scratch buffers

  /** A scratch buffer is emptied and given a new text. */
  method Restart(target: DwarfString, text: seq<byte>)
    requires target.Valid()
    modifies target, target.data
    ensures target.Valid() && (target.data == old(target.data) || fresh(target.data))
    ensures old(target.exhausted) ==> target.exhausted
    ensures !target.exhausted ==> target.Contents() == text
    ensures NUL !in text ==> NUL !in target.Contents()
  {
    hide DwarfString.Valid, DwarfString.Contents;
    var ok := target.Reset();
    ok := target.Append(Some(text));
    assert [] + text == text;
  }

  /** A text joined with what another buffer holds. */
  method JoinTwo(target: DwarfString, text: seq<byte>, second: DwarfString)
    requires target.Valid() && second.Valid()
    requires target != second && target.data != second.data
    modifies target, target.data
    ensures target.Valid() && (target.data == old(target.data) || fresh(target.data))
    ensures old(target.exhausted) ==> target.exhausted
    ensures !target.exhausted ==> target.Contents() == Join(text, old(second.Contents()))
    ensures NUL !in text && NUL !in old(second.Contents()) ==> NUL !in target.Contents()
  {
    hide DwarfString.Valid, DwarfString.Contents, Join;
    Restart(target, text);
    PathJoin(target, second);
  }

  method JoinThree(target: DwarfString, text: seq<byte>, second: DwarfString, third: DwarfString)
    requires target.Valid() && second.Valid() && third.Valid()
    requires target != second && target.data != second.data
    requires target != third && target.data != third.data
    modifies target, target.data
    ensures target.Valid() && (target.data == old(target.data) || fresh(target.data))
    ensures old(target.exhausted) ==> target.exhausted
    ensures !target.exhausted ==> target.Contents() == Join(Join(text, old(second.Contents())), old(third.Contents()))
    ensures NUL !in text && NUL !in old(second.Contents()) && NUL !in old(third.Contents()) ==>
              NUL !in target.Contents()
  {
    hide DwarfString.Valid, DwarfString.Contents, Join;
    JoinTwo(target, text, second);
    PathJoin(target, third);
  }

  // ---------------------------------------------------------------- the searches

  /** A buffer of its own, apart from the list. */
  ghost predicate Separate(list: StringList, s: DwarfString)
    reads list, s
  {
    s !in list.repr && s.data !in list.repr
  }

  ghost predicate NoneExhausted(used: set<DwarfString>)
    reads used
  {
    forall b | b in used :: !b.exhausted
  }

  /** The list after one place was looked at. */
  function AddedUnless(added: seq<seq<byte>>, place: seq<byte>, original: seq<byte>): seq<seq<byte>> {
    if place == original then added else added + [place]
  }

  /** One place, made of a text and what a buffer holds. */
  method TryTwo(list: StringList, original: DwarfString, scratch: DwarfString, text: seq<byte>, second: DwarfString)
    returns (ok: bool)
    requires list.Valid() && original.Valid() && scratch.Valid()
    requires Separate(list, scratch) && original != scratch && original.data != scratch.data
    requires second.Valid() && second != scratch && second.data != scratch.data
    modifies list.repr, scratch, scratch.data
    ensures list.Valid() && fresh(list.repr - old(list.repr))
    ensures scratch.Valid() && (scratch.data == old(scratch.data) || fresh(scratch.data)) && Separate(list, scratch)
    ensures old(list.Exhausted()) ==> list.Exhausted()
    ensures old(scratch.exhausted) ==> scratch.exhausted
    ensures CStrings(old(list.Strings())) && NUL !in text && NUL !in old(second.Contents()) ==>
              CStrings(list.Strings())
    ensures list.memory.Plentiful? ==> ok
    ensures ok && !list.Exhausted() && !scratch.exhausted ==>
              list.Added() == AddedUnless(old(list.Added()), Join(text, old(second.Contents())),
                                          old(original.Contents()))
  {
    hide Join, Without, BuildIdName, Search.BuildIdPaths, Search.PrefixedPaths, Search.IdPlaces, Search.LinkPlaces,
         Search.Original, Search.Directory, Search.CStrings, DwarfString.Valid, DwarfString.Contents,
         StringList.Valid, StringList.Owned, StringList.Added, StringList.Strings, StringList.Exhausted,
         StringLists.CStrings, Ascii;
    JoinTwo(scratch, text, second);
    ok := list.AddUnless(original, scratch);
  }

  /** One place, made of a text and what two buffers hold. */
  method TryThree(list: StringList, original: DwarfString, scratch: DwarfString, text: seq<byte>,
                  second: DwarfString, third: DwarfString)
    returns (ok: bool)
    requires list.Valid() && original.Valid() && scratch.Valid()
    requires Separate(list, scratch) && original != scratch && original.data != scratch.data
    requires second.Valid() && second != scratch && second.data != scratch.data
    requires third.Valid() && third != scratch && third.data != scratch.data
    modifies list.repr, scratch, scratch.data
    ensures list.Valid() && fresh(list.repr - old(list.repr))
    ensures scratch.Valid() && (scratch.data == old(scratch.data) || fresh(scratch.data)) && Separate(list, scratch)
    ensures old(list.Exhausted()) ==> list.Exhausted()
    ensures old(scratch.exhausted) ==> scratch.exhausted
    ensures CStrings(old(list.Strings())) && NUL !in text
            && NUL !in old(second.Contents()) && NUL !in old(third.Contents()) ==>
              CStrings(list.Strings())
    ensures list.memory.Plentiful? ==> ok
    ensures ok && !list.Exhausted() && !scratch.exhausted ==>
              list.Added() == AddedUnless(old(list.Added()),
                                          Join(Join(text, old(second.Contents())), old(third.Contents())),
                                          old(original.Contents()))
  {
    hide Join, Without, BuildIdName, Search.BuildIdPaths, Search.PrefixedPaths, Search.IdPlaces, Search.LinkPlaces,
         Search.Original, Search.Directory, Search.CStrings, DwarfString.Valid, DwarfString.Contents,
         StringList.Valid, StringList.Owned, StringList.Added, StringList.Strings, StringList.Exhausted,
         StringLists.CStrings, Ascii;
    JoinThree(scratch, text, second, third);
    ok := list.AddUnless(original, scratch);
  }

  /** The build-id file under each global prefix. */
  method AddBuildIdPaths(list: StringList, search: Search, name: DwarfString, original: DwarfString)
    returns (ok: bool, ghost scratch: DwarfString)
    requires list.Valid() && name.Valid() && original.Valid()
    requires Separate(list, name) && Separate(list, original)
    modifies list.repr
    ensures list.Valid() && fresh(list.repr - old(list.repr)) && fresh(scratch) && scratch !in list.repr
    ensures list.memory.Plentiful? ==> ok && !scratch.exhausted
    ensures ok && !list.Exhausted() && !scratch.exhausted
            && name.Contents() == BuildIdName(search.buildid) && original.Contents() == search.Original() ==>
              list.Added() == old(list.Added()) + Without(search.IdPlaces(), search.Original())
    ensures old(list.Exhausted()) ==> list.Exhausted()
    ensures CStrings(old(list.Strings())) && search.CStrings() && NUL !in name.Contents() ==> CStrings(list.Strings())
  {
    hide Join, Without, BuildIdName, Search.BuildIdPaths, Search.PrefixedPaths, Search.IdPlaces, Search.LinkPlaces,
         Search.Original, Search.Directory, Search.CStrings, DwarfString.Valid, DwarfString.Contents,
         StringList.Valid, StringList.Owned, StringList.Added, StringList.Strings, StringList.Exhausted,
         StringLists.CStrings, Ascii;
    NoIdPathsYet(search, search.Original(), list.Added());
    ghost var before, full := list.Added(), search.Original();
    ghost var exact := name.Contents() == BuildIdName(search.buildid) && original.Contents() == full;
    ghost var clean := CStrings(list.Strings()) && search.CStrings() && NUL !in name.Contents();
    var buildid := new DwarfString(list.memory);
    scratch := buildid;
    var i := 0;
    while search.buildid != [] && i < |search.prefixes|
      invariant i <= |search.prefixes| && list.Valid() && fresh(list.repr - old(list.repr))
      invariant search.buildid == [] ==> i == 0
      invariant buildid.Valid() && Separate(list, buildid) && fresh(buildid.data)
      invariant old(list.Exhausted()) ==> list.Exhausted()
      invariant clean ==> CStrings(list.Strings())
      invariant exact && !list.Exhausted() && !buildid.exhausted ==>
                  list.Added() == before + Without(search.BuildIdPaths(i), full)
    {
      var prefix := search.prefixes[i];
      PrefixIsCString(search, i);
      OneMoreIdPath(search, i);
      OneMorePlace(before, search.BuildIdPaths(i), Join(prefix, BuildIdName(search.buildid)), full);
      ok := TryTwo(list, original, buildid, prefix, name);
      if !ok {
        return;
      }
      i := i + 1;
    }
    buildid.NotExhausted();
    ok := true;
  }

  /** The linked file in the object's directory under each global prefix. */
  method AddPrefixedPaths(list: StringList, search: Search, basename: DwarfString, cwd: DwarfString,
                          original: DwarfString)
    returns (ok: bool, ghost scratch: DwarfString)
    requires list.Valid() && basename.Valid() && cwd.Valid() && original.Valid()
    requires Separate(list, basename) && Separate(list, cwd) && Separate(list, original)
    modifies list.repr
    ensures list.Valid() && fresh(list.repr - old(list.repr)) && fresh(scratch) && scratch !in list.repr
    ensures list.memory.Plentiful? ==> ok && !scratch.exhausted
    ensures ok && !list.Exhausted() && !scratch.exhausted
            && cwd.Contents() == search.Directory() && original.Contents() == search.Original() ==>
              list.Added() == old(list.Added())
                              + Without(search.PrefixedPaths(basename.Contents(), |search.prefixes|), search.Original())
    ensures old(list.Exhausted()) ==> list.Exhausted()
    ensures CStrings(old(list.Strings())) && search.CStrings()
            && NUL !in basename.Contents() && NUL !in cwd.Contents() ==>
              CStrings(list.Strings())
  {
    hide Join, Without, BuildIdName, Search.BuildIdPaths, Search.PrefixedPaths, Search.IdPlaces, Search.LinkPlaces,
         Search.Original, Search.Directory, Search.CStrings, DwarfString.Valid, DwarfString.Contents,
         StringList.Valid, StringList.Owned, StringList.Added, StringList.Strings, StringList.Exhausted,
         StringLists.CStrings, Ascii;
    ghost var before, full, name := list.Added(), search.Original(), basename.Contents();
    NoPrefixedPathsYet(search, name, full, before);
    ghost var exact := cwd.Contents() == search.Directory() && original.Contents() == full;
    ghost var clean := CStrings(list.Strings()) && search.CStrings() && NUL !in name && NUL !in cwd.Contents();
    var tmp3 := new DwarfString(list.memory);
    scratch := tmp3;
    var i := 0;
    while i < |search.prefixes|
      invariant i <= |search.prefixes| && list.Valid() && fresh(list.repr - old(list.repr))
      invariant tmp3.Valid() && Separate(list, tmp3) && fresh(tmp3.data)
      invariant old(list.Exhausted()) ==> list.Exhausted()
      invariant clean ==> CStrings(list.Strings())
      invariant exact && !list.Exhausted() && !tmp3.exhausted ==>
                  list.Added() == before + Without(search.PrefixedPaths(name, i), full)
    {
      var prefix := search.prefixes[i];
      ghost var dir := search.Directory();
      PrefixIsCString(search, i);
      OneMorePrefixedPath(search, dir, name, i);
      OneMorePlace(before, search.PrefixedPaths(name, i), Join(Join(prefix, dir), name), full);
      ok := TryThree(list, original, tmp3, prefix, cwd, basename);
      if !ok {
        return;
      }
      i := i + 1;
    }
    tmp3.NotExhausted();
    ok := true;
  }

  lemma AddedUnlessIs(added: seq<seq<byte>>, place: seq<byte>, original: seq<byte>)
    ensures AddedUnless(added, place, original) == added + Unless(place, original)
  {
    assert added + [] == added;
  }

  /** The three kinds of places, one after the other. */
  lemma LinkPlacesAddUp(search: Search, before: seq<seq<byte>>, dir: seq<byte>, name: seq<byte>, original: seq<byte>)
    requires search.link == Some(name) && dir == search.Directory()
    ensures var first := AddedUnless(before, Join(dir, name), original);
            var second := AddedUnless(first, Join(Join(dir, Ascii(".debug")), name), original);
            second + Without(search.PrefixedPaths(name, |search.prefixes|), original)
            == before + Without(search.LinkPlaces(), original)
  {
    hide *;
    var one, two := Join(dir, name), Join(Join(dir, Ascii(".debug")), name);
    var a, b := Unless(one, original), Unless(two, original);
    var c := Without(search.PrefixedPaths(name, |search.prefixes|), original);
    AddedUnlessIs(before, one, original);
    AddedUnlessIs(before + a, two, original);
    LinkPlacesWithout(search, dir, name, original);
    ConcatAssociative(before, a, b);
    ConcatAssociative(before, a + b, c);
  }

  /** The linked file in the object's own directory. */
  method AddInDirectory(list: StringList, basename: DwarfString, cwd: DwarfString, original: DwarfString)
    returns (ok: bool, ghost tmp: DwarfString)
    requires list.Valid() && basename.Valid() && cwd.Valid() && original.Valid()
    requires Separate(list, basename) && Separate(list, cwd) && Separate(list, original)
    modifies list.repr
    ensures list.Valid() && fresh(list.repr - old(list.repr)) && fresh(tmp) && tmp !in list.repr
    ensures list.memory.Plentiful? ==> ok && !tmp.exhausted
    ensures ok && !list.Exhausted() && !tmp.exhausted ==>
              list.Added() == AddedUnless(old(list.Added()), Join(cwd.Contents(), basename.Contents()),
                                          original.Contents())
    ensures old(list.Exhausted()) ==> list.Exhausted()
    ensures CStrings(old(list.Strings())) && NUL !in basename.Contents() && NUL !in cwd.Contents() ==>
              CStrings(list.Strings())
  {
    hide Join, Without, BuildIdName, Search.BuildIdPaths, Search.PrefixedPaths, Search.IdPlaces, Search.LinkPlaces,
         Search.Original, Search.Directory, Search.CStrings, DwarfString.Valid, DwarfString.Contents,
         StringList.Valid, StringList.Owned, StringList.Added, StringList.Strings, StringList.Exhausted,
         StringLists.CStrings, Ascii, AddedUnless;
    var text := cwd.Text();
    var scratch := new DwarfString(list.memory);
    tmp := scratch;
    ok := TryTwo(list, original, scratch, text, basename);
    scratch.NotExhausted();
  }

  /** ... and in the .debug directory there. */
  method AddInDebugDirectory(list: StringList, basename: DwarfString, cwd: DwarfString, original: DwarfString)
    returns (ok: bool, ghost tmp2: DwarfString, ghost tmpdeb: DwarfString)
    requires list.Valid() && basename.Valid() && cwd.Valid() && original.Valid()
    requires Separate(list, basename) && Separate(list, cwd) && Separate(list, original)
    modifies list.repr
    ensures list.Valid() && fresh(list.repr - old(list.repr))
    ensures fresh(tmp2) && fresh(tmpdeb) && tmp2 !in list.repr && tmpdeb !in list.repr
    ensures list.memory.Plentiful? ==> ok && !tmp2.exhausted && !tmpdeb.exhausted
    ensures ok && !list.Exhausted() && !tmp2.exhausted && !tmpdeb.exhausted ==>
              list.Added() == AddedUnless(old(list.Added()),
                                          Join(Join(cwd.Contents(), Ascii(".debug")), basename.Contents()),
                                          original.Contents())
    ensures old(list.Exhausted()) ==> list.Exhausted()
    ensures CStrings(old(list.Strings())) && NUL !in basename.Contents() && NUL !in cwd.Contents() ==>
              CStrings(list.Strings())
  {
    SuffixHasNoNul();
    hide Join, Without, BuildIdName, Search.BuildIdPaths, Search.PrefixedPaths, Search.IdPlaces, Search.LinkPlaces,
         Search.Original, Search.Directory, Search.CStrings, DwarfString.Valid, DwarfString.Contents,
         StringList.Valid, StringList.Owned, StringList.Added, StringList.Strings, StringList.Exhausted,
         StringLists.CStrings, Ascii, AddedUnless;
    var text := cwd.Text();
    var scratch := new DwarfString(list.memory);
    var suffix := new DwarfString(list.memory);
    tmp2, tmpdeb := scratch, suffix;
    Restart(suffix, Ascii(".debug"));
    ok := TryThree(list, original, scratch, text, suffix, basename);
    scratch.NotExhausted();
    suffix.NotExhausted();
  }

  /** What a debuglink adds: the linked file in the directory, in its .debug directory, and under each
      global prefix. used are the scratch buffers. */
  method AddLinkPlaces(list: StringList, search: Search, basename: DwarfString, cwd: DwarfString,
                       original: DwarfString)
    returns (ok: bool, ghost used: set<DwarfString>)
    requires list.Valid() && basename.Valid() && cwd.Valid() && original.Valid()
    requires Separate(list, basename) && Separate(list, cwd) && Separate(list, original)
    modifies list.repr
    ensures list.Valid() && fresh(list.repr - old(list.repr)) && fresh(used) && used !! list.repr
    ensures list.memory.Plentiful? ==> ok && NoneExhausted(used)
    ensures ok && !list.Exhausted() && NoneExhausted(used)
            && search.link == Some(basename.Contents())
            && cwd.Contents() == search.Directory() && original.Contents() == search.Original() ==>
              list.Added() == old(list.Added()) + Without(search.LinkPlaces(), search.Original())
    ensures old(list.Exhausted()) ==> list.Exhausted()
    ensures CStrings(old(list.Strings())) && search.CStrings()
            && NUL !in basename.Contents() && NUL !in cwd.Contents() ==>
              CStrings(list.Strings())
  {
    hide Join, Without, BuildIdName, Search.BuildIdPaths, Search.PrefixedPaths, Search.IdPlaces, Search.LinkPlaces,
         Search.Original, Search.Directory, Search.CStrings, DwarfString.Valid, DwarfString.Contents,
         StringList.Valid, StringList.Owned, StringList.Added, StringList.Strings, StringList.Exhausted,
         StringLists.CStrings, Ascii, AddedUnless;
    ghost var dir, name := cwd.Contents(), basename.Contents();
    if search.link == Some(name) && dir == search.Directory() {
      LinkPlacesAddUp(search, list.Added(), dir, name, search.Original());
    }
    used := {};
    ghost var tmp, tmp2, tmpdeb, tmp3;
    ok, tmp := AddInDirectory(list, basename, cwd, original);
    if !ok {
      return;
    }
    ok, tmp2, tmpdeb := AddInDebugDirectory(list, basename, cwd, original);
    if !ok {
      return;
    }
    ok, tmp3 := AddPrefixedPaths(list, search, basename, cwd, original);
    used := {tmp, tmp2, tmpdeb, tmp3};
  }

  // ---------------------------------------------------------------- the whole

  /** The parts of a path are C strings when it is. */
  lemma PathParts(path: seq<byte>, n: nat)
    requires n <= |path|
    ensures NUL !in path ==> NUL !in path[..n] && NUL !in path[n..]
  {
  }

  /** How the paths the search is about are put together from the parts of the path. */
  lemma PathsOf(search: Search, n: nat)
    requires n == DirLen(search.path)
    ensures Join(Join(search.Base(), search.path[..n]), search.path[n..]) == search.Original()
    ensures Join(search.Base(), search.path[..n]) == search.Directory()
  {
    OriginalFullPathIsJoin(search.Base(), search.path);
    hide Join, Search.Base;
  }

  /** An empty buffer is given the join of three parts. */
  method JoinParts(original: DwarfString, text: seq<byte>, dirname: DwarfString, basepath: DwarfString)
    requires original.Valid() && dirname.Valid() && basepath.Valid() && original.Contents() == []
    requires original != dirname && original.data != dirname.data
    requires original != basepath && original.data != basepath.data
    modifies original, original.data
    ensures original.Valid() && (original.data == old(original.data) || fresh(original.data))
    ensures !original.exhausted ==>
              original.Contents() == Join(Join(text, old(dirname.Contents())), old(basepath.Contents()))
  {
    hide DwarfString.Valid, DwarfString.Contents, Join;
    var ok := original.Append(Some(text));
    assert [] + text == text;
    PathJoin(original, dirname);
    PathJoin(original, basepath);
  }

  /** The full path and the directory, from the parts of the path. */
  method JoinBoth(cwd: DwarfString, original: DwarfString, dirname: DwarfString, basepath: DwarfString)
    requires cwd.Valid() && original.Valid() && original.Contents() == []
    requires dirname.Valid() && basepath.Valid()
    requires cwd != original && cwd.data != original.data
    requires dirname !in {cwd, original} && dirname.data !in {cwd.data, original.data}
    requires basepath !in {cwd, original} && basepath.data !in {cwd.data, original.data}
    modifies cwd, cwd.data, original, original.data
    ensures cwd.Valid() && (cwd.data == old(cwd.data) || fresh(cwd.data))
    ensures original.Valid() && (original.data == old(original.data) || fresh(original.data))
    ensures cwd.data != original.data
    ensures old(cwd.exhausted) ==> cwd.exhausted
    ensures !cwd.exhausted ==> cwd.Contents() == Join(old(cwd.Contents()), dirname.Contents())
    ensures !original.exhausted ==>
              original.Contents() == Join(Join(old(cwd.Contents()), dirname.Contents()), basepath.Contents())
    ensures NUL !in dirname.Contents() && NUL !in old(cwd.Contents()) ==> NUL !in cwd.Contents()
  {
    hide DwarfString.Valid, DwarfString.Contents, Join;
    var text := cwd.Text();
    JoinParts(original, text, dirname, basepath);
    PathJoin(cwd, dirname);
  }

  /** A new buffer holding a text, unless memory ran out. */
  method Holding(memory: Memory, text: seq<byte>) returns (s: DwarfString)
    ensures fresh(s) && fresh(s.data) && s.Valid() && s.memory == memory
    ensures memory.Plentiful? ==> !s.exhausted
    ensures !s.exhausted ==> s.Contents() == text
    ensures NUL !in text ==> NUL !in s.Contents()
  {
    s := new DwarfString(memory);
    hide DwarfString.Valid, DwarfString.Contents;
    assert [] + text == text;
    var ok := s.AppendLength(text);
    s.NotExhausted();
  }

  /** Buffers holding the directory part and the base name of the path. */
  method SplitPath(memory: Memory, search: Search) returns (dirname: DwarfString, basepath: DwarfString)
    ensures memory.Plentiful? ==> !dirname.exhausted && !basepath.exhausted
    ensures dirname.Valid() && fresh(dirname) && fresh(dirname.data)
    ensures basepath.Valid() && fresh(basepath) && fresh(basepath.data)
    ensures !dirname.exhausted ==> Join(search.Base(), dirname.Contents()) == search.Directory()
    ensures !dirname.exhausted && !basepath.exhausted ==>
              Join(Join(search.Base(), dirname.Contents()), basepath.Contents()) == search.Original()
    ensures NUL !in search.path ==> NUL !in dirname.Contents()
  {
    var dirnamelen := MyDirLen(search.path);
    PathParts(search.path, dirnamelen);
    PathsOf(search, dirnamelen);
    hide Join, DwarfString.Valid, DwarfString.Contents, Search.Base, Search.Directory, Search.Original, DirLen,
         EndsWithSlash;
    dirname := Holding(memory, search.path[..dirnamelen]);
    basepath := Holding(memory, search.path[dirnamelen..]);
  }

  /** The working directory plays its part only for a relative path; not getting it is an error. */
  method FindDirectories(memory: Memory, search: Search, getcwd: bool)
    returns (ok: bool, cwd: DwarfString, original: DwarfString, ghost used: set<DwarfString>)
    ensures memory.Plentiful? ==> NoneExhausted(used)
    ensures ok <==> StartsWithSlash(search.path) || getcwd
    ensures cwd.Valid() && fresh(cwd) && fresh(cwd.data)
    ensures original.Valid() && fresh(original) && fresh(original.data)
    ensures fresh(used)
    ensures ok && NoneExhausted(used) ==>
              cwd.Contents() == search.Directory() && original.Contents() == search.Original()
    ensures search.CStrings() ==> NUL !in cwd.Contents()
  {
    hide Join, DwarfString.Valid, DwarfString.Contents, Search.Directory, Search.Original;
    original := new DwarfString(memory);
    used := {original};
    if !StartsWithSlash(search.path) && !getcwd {
      cwd := new DwarfString(memory);
      return false, cwd, original, used;
    }
    ok := true;
    cwd := Holding(memory, if StartsWithSlash(search.path) then [] else search.cwd);
    var dirname, basepath := SplitPath(memory, search);
    used := {original, cwd, dirname, basepath};
    JoinBoth(cwd, original, dirname, basepath);
    cwd.NotExhausted();
    original.NotExhausted();
  }

  /** The names that are looked for: the file a build-id stands for, and the linked file. */
  method FindNames(memory: Memory, search: Search)
    returns (name: DwarfString, basename: DwarfString, ghost used: set<DwarfString>)
    ensures memory.Plentiful? ==> NoneExhausted(used)
    ensures name.Valid() && fresh(name) && fresh(name.data)
    ensures basename.Valid() && fresh(basename) && fresh(basename.data)
    ensures fresh(used)
    ensures NoneExhausted(used) ==> name.Contents() == BuildIdName(search.buildid)
    ensures NoneExhausted(used) && search.link.Some? ==> search.link == Some(basename.Contents())
    ensures NUL !in name.Contents() && (search.CStrings() ==> NUL !in basename.Contents())
  {
    JoinEmptyLeft(BuildIdName(search.buildid));
    hide Join, DwarfString.Valid, DwarfString.Contents, BuildIdName;
    name := new DwarfString(memory);
    ghost var tmp := BuildBuildIdFilename(name, search.buildid);
    basename := Holding(memory, if search.link.Some? then search.link.value else []);
    used := {name, tmp, basename};
    name.NotExhausted();
  }

  /** All places are tried. used are the scratch buffers. */
  method TryPlaces(list: StringList, search: Search, name: DwarfString, basename: DwarfString, cwd: DwarfString,
                   original: DwarfString)
    returns (ok: bool, ghost used: set<DwarfString>)
    requires list.Valid() && list.Added() == []
    requires name.Valid() && basename.Valid() && cwd.Valid() && original.Valid()
    requires Separate(list, name) && Separate(list, basename) && Separate(list, cwd) && Separate(list, original)
    modifies list.repr
    ensures list.Valid() && fresh(list.repr - old(list.repr)) && fresh(used)
    ensures list.memory.Plentiful? ==> ok && NoneExhausted(used)
    ensures ok && !list.Exhausted() && NoneExhausted(used)
            && name.Contents() == BuildIdName(search.buildid)
            && (search.link.Some? ==> search.link == Some(basename.Contents()))
            && cwd.Contents() == search.Directory() && original.Contents() == search.Original() ==>
              list.Added() == search.Candidates()
    ensures CStrings(old(list.Strings())) && search.CStrings() && NUL !in name.Contents()
            && NUL !in basename.Contents() && NUL !in cwd.Contents() ==>
              CStrings(list.Strings())
  {
    CandidatesInTwoParts(search);
    ghost var fromId := Without(search.IdPlaces(), search.Original());
    NothingWithout(search.Original(), fromId);
    EmptyIsNoPrefix(fromId);
    hide Join, Without, BuildIdName, Search.IdPlaces, Search.LinkPlaces, Search.Candidates, Search.CStrings,
         Search.Original, Search.Directory, DwarfString.Valid, DwarfString.Contents, StringList.Valid,
         StringList.Owned, StringList.Added, StringList.Strings, StringList.Exhausted, StringLists.CStrings;
    ghost var scratch;
    used := {};
    ok, scratch := AddBuildIdPaths(list, search, name, original);
    if !ok {
      return;
    }
    if search.link.Some? {
      ok, used := AddLinkPlaces(list, search, basename, cwd, original);
    }
    used := used + {scratch};
  }

  /** The candidates, collected in a list. used are the buffers that were needed on the way. */
  method CollectCandidates(memory: Memory, search: Search, getcwd: bool)
    returns (r: Option<StringList>, ghost used: set<DwarfString>)
    ensures memory.Plentiful? && (StartsWithSlash(search.path) || getcwd) ==>
              r.Some? && r.value.Valid() && !r.value.Exhausted() && NoneExhausted(used)
    ensures r.Some? ==> r.value.Valid() && fresh(r.value.repr) && fresh(used)
    ensures r.Some? && search.CStrings() ==> CStrings(r.value.Strings())
    ensures r.Some? && !r.value.Exhausted() && NoneExhausted(used) ==> r.value.Added() == search.Candidates()
    ensures r.Some? ==> StartsWithSlash(search.path) || getcwd
  {
    hide Join, BuildIdName, Search.Candidates, Search.CStrings, Search.Original, Search.Directory,
         DwarfString.Valid, DwarfString.Contents, StringList.Valid, StringList.Owned, StringList.Added,
         StringList.Strings, StringList.Exhausted, StringLists.CStrings, StartsWithSlash;
    r, used := None, {};
    var ok, cwd, original;
    ghost var used1, used2, used3;
    ok, cwd, original, used1 := FindDirectories(memory, search, getcwd);
    if !ok {
      return;
    }
    var name, basename;
    name, basename, used2 := FindNames(memory, search);
    var list := new StringList(memory);
    ok, used3 := TryPlaces(list, search, name, basename, cwd, original);
    used := used1 + used2 + used3;
    if ok {
      r := Some(list);
    }
  }

  lemma NoNuls(strings: seq<seq<byte>>)
    requires CStrings(strings)
    ensures forall s :: s in strings ==> NUL !in s
  {
  }

  /** The working directory is asked for only when the path is relative, and not getting it is an error.
      On success the block reads back as the strings of the list; and unless memory ran out for one of the
      buffers, an append to which is then ignored, these are the candidates in search order, or one empty
      string when there are none. */
  method ConstructLinkedToPath(host: Order, memory: Memory, search: Search, getcwd: bool)
    returns (r: Result<array<byte>>, base: nat, count: nat, ghost strings: seq<seq<byte>>, ghost used: set<DwarfString>)
    requires search.CStrings()
    ensures r.Ok? ==> fresh(r.value) && Holds(host, base, r.value[..], strings) && count == |strings| % 0x1_0000_0000
    ensures r.Ok? ==> fresh(used) && (NoneExhausted(used) ==> strings == Listed(search.Candidates()))
    ensures r.Ok? ==> StartsWithSlash(search.path) || getcwd
    ensures memory.Plentiful? && (StartsWithSlash(search.path) || getcwd) ==>
              && strings == Listed(search.Candidates())
              && (BlockSize(strings) < HALF_MEMORY ==> r.Ok?)
    ensures !r.Ok? ==> r == Failed(OutOfMemory)
  {
    hide Holds, Search.Candidates, Search.CStrings, StringList.Valid, StringList.Owned, StringList.Added,
         StringList.Strings, StringLists.CStrings, StartsWithSlash;
    base, count, strings := 0, 0, [];
    var list;
    list, used := CollectCandidates(memory, search, getcwd);
    if list.None? {
      return Failed(OutOfMemory), 0, 0, strings, used;
    }
    list.value.EmptyListHoldsOne();
    used := used + list.value.Buffers();
    var all := list.value.Walk();
    strings := all;
    NoNuls(strings);
    r, base, count := Pack(host, memory, all);
    count := count % 0x1_0000_0000;
  }
}
