/** The .gnu_debuglink section: a file name, padding to a multiple of four, and a 32-bit CRC. */
module Debuglink {
  import opened Words
  import opened Outcomes
  import opened FileAccess
  import opened StringBuffer
  import opened PathBlock

  datatype Link = Link(name: seq<byte>, crc: seq<byte>)

  /** _dwarf_check_string_valid, for a string that starts inside the area. */
  method CheckStringValid(area: seq<byte>, at: nat) returns (ok: bool)
    ensures ok <==> at < |area| && NUL in area[at..]
  {
    if at >= |area| {
      return false;
    }
    var p := at;
    while p < |area|
      invariant at <= p <= |area| && NUL !in area[at..p]
    {
      if area[p] == NUL {
        assert area[at..][p - at] == NUL;
        return true;
      }
      assert area[at..p + 1] == area[at..p] + [area[p]];
      p := p + 1;
    }
    assert area[at..p] == area[at..];
    return false;
  }

  /** The bytes needed after a name of n bytes and its NUL to reach a multiple of four. */
  function Padding(n: nat): (p: nat)
    ensures p < 4 && (n + 1 + p) % 4 == 0
  {
    (4 - (n + 1) % 4) % 4
  }

  /** What a section says. The length of the name is kept in 32 bits. */
  function Extracted(section: seq<byte>): (r: Result<Link>)
    ensures !r.NoEntry?
  {
    if NUL !in section then Failed(BadString)
    else
      var name := CString(section, 0);
      var crcAt := |name| % 0x1_0000_0000 + 1 + Padding(|name| % 0x1_0000_0000);
      if crcAt + 4 != |section| then Failed(CorruptDebuglink) else Ok(Link(name, section[crcAt..]))
  }

  /** A string with a NUL after it ends inside the block. */
  lemma {:induction false} CStringStops(block: seq<byte>, at: nat, nul: nat)
    requires at <= nul < |block| && block[nul] == NUL
    ensures at + |CString(block, at)| <= nul
    ensures block[at + |CString(block, at)|] == NUL
    ensures block[at..at + |CString(block, at)|] == CString(block, at)
    ensures NUL !in CString(block, at)
    decreases nul - at
  {
    if block[at] != NUL {
      CStringStops(block, at + 1, nul);
      var t := CString(block, at + 1);
      assert block[at..at + 1 + |t|] == [block[at]] + block[at + 1..at + 1 + |t|];
    }
  }

  lemma WordPadding(namelen: nat, m: nat)
    requires namelen < 0x1_0000_0000 && m == (namelen + 1) % 0x1_0000_0000 % 4
    ensures Padding(namelen) == if m != 0 then 4 - m else 0
  {
    assert namelen == 0xffff_ffff || (namelen + 1) % 0x1_0000_0000 == namelen + 1;
  }

  /** The part of extract_debuglink after the read. */
  method ParseSection(ptr: seq<byte>) returns (r: Result<Link>)
    ensures r == Extracted(ptr)
  {
    hide CString, Padding;
    assert ptr[0..] == ptr;
    var ok := CheckStringValid(ptr, 0);
    if !ok {
      return Failed(BadString);
    }
    var name := CString(ptr, 0);
    var namelen := |name| % 0x1_0000_0000;
    var m, incr := (namelen + 1) % 0x1_0000_0000 % 4, 0;
    if m != 0 {
      incr := 4 - m;
    }
    WordPadding(namelen, m);
    var crcptr := namelen + 1 + incr;
    if crcptr + 4 != |ptr| {
      return Failed(CorruptDebuglink);
    }
    return Ok(Link(name, ptr[crcptr..]));
  }

  method ExtractDebuglink(memory: Memory, file: seq<byte>, filesize: u64, secoffset: u64, secsize: u64)
    returns (r: Result<Link>)
    requires filesize < TWO_63
    ensures (r == Failed(OutOfMemory) && memory.Scarce?)
         || r == if secsize == 0 then NoEntry
                 else match ReadRandom(file, secoffset, secsize, filesize)
                      case Ok(section) => Extracted(section)
                      case NoEntry => NoEntry
                      case Failed(e) => Failed(e)
  {
    hide Extracted;
    var ok := Malloc(memory);
    if !ok {
      return Failed(OutOfMemory);
    }
    var res := ReadRandom(file, secoffset, secsize, filesize);
    if secsize == 0 {
      return NoEntry;
    }
    if !res.Ok? {
      return Failed(res.error);
    }
    r := ParseSection(res.value);
  }

  /** A section made of the link's name, a NUL, padding and the CRC. */
  predicate Encodes(section: seq<byte>, link: Link, padding: seq<byte>) {
    && section == link.name + [NUL] + padding + link.crc
    && NUL !in link.name && |link.crc| == 4
    && |padding| == Padding(|link.name|)
  }

  /** Whatever the padding, the link comes back exactly when the length of its name fits 32 bits. */
  lemma EncodedIsExtracted(section: seq<byte>, link: Link, padding: seq<byte>)
    requires Encodes(section, link, padding)
    ensures Extracted(section) == Ok(link) <==> |link.name| < TWO_32
  {
    var n := |link.name|;
    assert section[n] == NUL;
    assert section[0..n] == link.name;
    CStringReads(section, 0, link.name);
    Truncated(n);
    assert section[n + 1 + Padding(n)..] == link.crc;
    hide CString, Padding;
  }

  lemma Truncated(n: nat)
    ensures n % 0x1_0000_0000 == n || n % 0x1_0000_0000 + 0x1_0000_0000 <= n
    ensures n < TWO_32 ==> n % 0x1_0000_0000 == n
  {
  }

  /** Conversely every accepted section is such an encoding: a whole number of words, the last of them
      the CRC. */
  lemma ExtractedIsEncoded(section: seq<byte>, link: Link) returns (padding: seq<byte>)
    requires Extracted(section) == Ok(link)
    ensures Encodes(section, link, padding) && |link.name| < TWO_32
    ensures |section| == 4 * ((|link.name| + 1 + 3) / 4) + 4
    ensures link.crc == section[|section| - 4..]
  {
    var n := |link.name|;
    NameIsFirst(section, link);
    FourParts(section, n, n + 1 + Padding(n));
    WholeWords(n);
    padding := section[n + 1..n + 1 + Padding(n)];
    hide CString, Extracted, Padding;
  }

  lemma FourParts(s: seq<byte>, i: nat, j: nat)
    requires i < j <= |s|
    ensures s == s[..i] + [s[i]] + s[i + 1..j] + s[j..]
  {
  }

  lemma WholeWords(n: nat)
    ensures n + 1 + Padding(n) == 4 * ((n + 1 + 3) / 4)
  {
  }

  lemma NameIsFirst(section: seq<byte>, link: Link)
    requires Extracted(section) == Ok(link)
    ensures var n := |link.name|;
            && n < TWO_32 && |section| == n + 1 + Padding(n) + 4
            && section[..n] == link.name && NUL !in link.name && section[n] == NUL
            && section[n + 1 + Padding(n)..] == link.crc
  {
    var nul :| 0 <= nul < |section| && section[nul] == NUL;
    CStringStops(section, 0, nul);
    hide CString, Padding;
    var n := |link.name|;
    Truncated(n);
    assert section[0..n] == section[..n];
  }
}
