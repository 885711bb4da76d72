/** The singly linked list of candidate paths. */
module StringLists {
  import opened Words
  import opened Outcomes
  import opened StringBuffer

  /** dwarfstring_list_s. */
  class ListEntry {
    const text: DwarfString
    var next: ListEntry?

    constructor (memory: Memory)
      ensures next == null && fresh(text) && fresh(text.data) && text.memory == memory
      ensures text.Valid() && text.Contents() == [] && !text.exhausted
    {
      text := new DwarfString(memory);
      next := null;
    }
  }

  predicate CStrings(strings: seq<seq<byte>>) {
    forall i | 0 <= i < |strings| :: NUL !in strings[i]
  }

  lemma MoreCStrings(strings: seq<seq<byte>>, s: seq<byte>)
    ensures CStrings(strings) && NUL !in s ==> CStrings(strings + [s])
    ensures NUL !in s ==> CStrings([] + [s])
  {
  }

  /** The list and the two variables that go with it. Its first entry exists from the start, and the first
      string added goes there; every later one is allocated. */
  class StringList {
    const memory: Memory
    const first: ListEntry
    var last: ListEntry?

    ghost var entries: seq<ListEntry>
    ghost var repr: set<object>

    ghost predicate Owned()
      reads this, repr
    {
      && this in repr
      && forall i | 0 <= i < |entries| ::
           && entries[i] in repr && entries[i].text in repr && entries[i].text.data in repr
           && entries[i].text.Valid() && entries[i].text.memory == memory
    }

    /** No two entries share anything. */
    ghost predicate Apart()
      reads this, repr
      requires Owned()
    {
      forall i, j | 0 <= i < j < |entries| ::
        && entries[i] != entries[j] && entries[i].text != entries[j].text
        && entries[i].text.data != entries[j].text.data
    }

    ghost predicate Linked()
      reads this, repr
      requires Owned()
    {
      && |entries| >= 1 && entries[0] == first
      && (forall i | 0 <= i < |entries| - 1 :: entries[i].next == entries[i + 1])
      && entries[|entries| - 1].next == null
      && (last == null ==> |entries| == 1)
      && (last != null ==> last == entries[|entries| - 1])
    }

    ghost predicate Valid(): (valid: bool)
      reads this, repr
      ensures valid ==> Owned() && this in repr && (last != null ==> last in repr)
    {
      && Owned() && Apart() && Linked()
      && (last == null ==> first.text.Contents() == [])
    }

    ghost function Strings(): (strings: seq<seq<byte>>)
      reads this, repr
      requires Owned()
      ensures |strings| == |entries|
    {
      seq(|entries|, i requires 0 <= i < |entries| && Owned() reads this, repr => entries[i].text.Contents())
    }

    /** The strings that were added. */
    ghost function Added(): seq<seq<byte>>
      reads this, repr
      requires Owned()
    {
      if last == null then [] else Strings()
    }

    /** Some string could not be copied into its entry. */
    ghost predicate Exhausted(): (ran: bool)
      reads this, repr
      requires Owned()
      ensures memory.Plentiful? ==> !ran
    {
      exists i :: 0 <= i < |entries| && entries[i].text.exhausted
    }

    /** The buffers of the entries. */
    ghost function Buffers(): (buffers: set<DwarfString>)
      reads this, repr
      requires Owned()
      ensures forall b | b in buffers :: b in repr
      ensures Exhausted() <==> exists b :: b in buffers && b.exhausted
    {
      set i | 0 <= i < |entries| :: entries[i].text
    }

    constructor (memory: Memory)
      ensures this.memory == memory
      ensures Valid() && Added() == [] && fresh(repr) && CStrings(Strings()) && !Exhausted()
    {
      var entry := new ListEntry(memory);
      this.memory := memory;
      first := entry;
      last := null;
      entries := [entry];
      repr := {this, entry, entry.text, entry.text.data};
    }

    /** The first string goes to the entry that is there already. */
    method Fill(text: seq<byte>) returns (ghost taken: seq<byte>)
      requires Valid() && last == null
      modifies repr
      ensures Valid() && fresh(repr - old(repr)) && last != null
      ensures Strings() == [taken] && (taken == text || (taken == [] && Exhausted()))
      ensures old(Exhausted()) ==> Exhausted()
    {
      assert entries == [first];
      var ok := first.text.Append(Some(text));
      assert [] + text == text;
      repr := repr + {first.text.data};
      last := first;
      taken := first.text.Contents();
      assert entries[0].text == first.text;
    }

    static method NewEntry(memory: Memory, text: seq<byte>) returns (entry: ListEntry)
      ensures entry.text.memory == memory
      ensures fresh(entry) && fresh(entry.text) && fresh(entry.text.data) && entry.next == null
      ensures entry.text.Valid()
      ensures entry.text.Contents() == text || (entry.text.Contents() == [] && entry.text.exhausted)
    {
      entry := new ListEntry(memory);
      hide DwarfString.Valid, DwarfString.Contents;
      var ok := entry.text.Append(Some(text));
      assert [] + text == text;
    }

    /** Puts a new entry at the end. */
    method Link(entry: ListEntry)
      requires Valid() && last != null
      requires entry !in repr && entry.text !in repr && entry.text.data !in repr
      requires entry.text.Valid() && entry.text.memory == memory && entry.next == null
      modifies this`last, this`entries, this`repr, last`next
      ensures Valid() && last != null
      ensures repr == old(repr) + {entry, entry.text, entry.text.data}
      ensures Strings() == old(Strings()) + [entry.text.Contents()]
      ensures Exhausted() <==> old(Exhausted()) || entry.text.exhausted
    {
      hide DwarfString.Valid, DwarfString.Contents;
      ghost var n := |entries|;
      last.next := entry;
      last := entry;
      entries := entries + [entry];
      repr := repr + {entry, entry.text, entry.text.data};
      assert entries[n] == entry;
      assert forall i | 0 <= i < n :: entries[i] == old(entries)[i];
    }

    /** dwarfstring_list_add_new. The string goes to the end of the list; one that cannot be copied for lack
        of memory leaves an empty entry. */
    method AddNew(input: DwarfString) returns (ok: bool, ghost taken: seq<byte>)
      requires Valid() && input.Valid() && input !in repr && input.data !in repr
      modifies repr
      ensures Valid() && fresh(repr - old(repr))
      ensures memory.Plentiful? ==> ok
      ensures !ok ==> Strings() == old(Strings()) && last == old(last)
      ensures ok ==> last != null && Strings() == old(Added()) + [taken]
      ensures ok ==> taken == old(input.Contents()) || (taken == [] && Exhausted())
      ensures old(Exhausted()) ==> Exhausted()
    {
      hide DwarfString.Valid, DwarfString.Contents, Valid, Owned, Strings, Exhausted;
      var text := input.Text();
      taken := [];
      if last == null {
        taken := Fill(text);
        assert [] + [taken] == [taken];
        return true, taken;
      }
      ok := Malloc(memory);
      if !ok {
        return;
      }
      var entry := NewEntry(memory, text);
      taken := entry.text.Contents();
      Link(entry);
    }

    /** One more place to look at, unless it is the original object itself. */
    method AddUnless(original: DwarfString, input: DwarfString) returns (ok: bool)
      requires Valid() && original.Valid()
      requires input.Valid() && input !in repr && input.data !in repr
      modifies repr
      ensures Valid() && fresh(repr - old(repr))
      ensures memory.Plentiful? ==> ok
      ensures ok && !Exhausted() ==>
                Added() == if old(input.Contents()) == old(original.Contents()) then old(Added())
                           else old(Added()) + [old(input.Contents())]
      ensures old(Exhausted()) ==> Exhausted()
      ensures CStrings(old(Strings())) && NUL !in old(input.Contents()) ==> CStrings(Strings())
    {
      hide DwarfString.Valid, DwarfString.Contents, Valid, Strings, Exhausted, CStrings;
      var full := original.Text();
      var text := input.Text();
      if text == full {
        return true;
      }
      ghost var taken;
      ok, taken := AddNew(input);
      MoreCStrings(old(Strings()), taken);
    }

    /** A list to which nothing was added holds one empty string. */
    lemma EmptyListHoldsOne()
      requires Valid()
      ensures Strings() == if Added() == [] then [[]] else Added()
    {
      if last == null {
        assert entries == [first];
        assert Strings() == [[]];
      }
    }

    /** The strings of all entries, first to last. */
    method Walk() returns (strings: seq<seq<byte>>)
      requires Valid()
      ensures strings == Strings()
    {
      strings := [];
      var cur: ListEntry? := first;
      while cur != null
        invariant |strings| <= |entries|
        invariant cur == if |strings| < |entries| then entries[|strings|] else null
        invariant strings == Strings()[..|strings|]
        decreases |entries| - |strings|
      {
        var text := cur.text.Text();
        assert Strings()[|strings|] == text;
        strings := strings + [text];
        cur := cur.next;
      }
    }
  }
}
