/** Percent-encoding of untrusted strings before they are printed. */
module PercentEncoding {
  import opened Words
  import opened NumberText

  predicate Printable(c: byte) {
    0x20 <= c <= 0x7e
  }

  /** %xx in lower-case hexadecimal. */
  function Escape(c: byte): seq<byte> {
    [PERCENT, DigitChar(c / 16, false), DigitChar(c % 16, false)]
  }

  function EncodeChar(c: byte): seq<byte> {
    if c == PERCENT then Escape(c) else if Printable(c) then [c] else Escape(c)
  }

  /** In numbers: a printable byte other than the percent sign (37) stands for itself, any other byte becomes a
      percent sign and two small hexadecimal digits, the high one first. */
  lemma EncodeCharIs(c: byte)
    ensures EncodeChar(c)
            == if 32 <= c <= 126 && c != 37 then [c] else [37, LOWER_DIGITS[c / 16] as int, LOWER_DIGITS[c % 16] as int]
  {
    DigitCharIs(c / 16, false);
    DigitCharIs(c % 16, false);
    hide DigitChar;
  }

  function Encode(s: seq<byte>): seq<byte> {
    if s == [] then [] else Encode(s[..|s| - 1]) + EncodeChar(s[|s| - 1])
  }

  /** Percent-decoding, for any text: an escape stands for its byte, anything else for itself. */
  function Decode(t: seq<byte>): seq<byte> {
    if t == [] then []
    else if t[0] == PERCENT && |t| >= 3 && IsDigit(t[1], 16) && IsDigit(t[2], 16) then
      [16 * DigitOf(t[1]) + DigitOf(t[2])] + Decode(t[3..])
    else [t[0]] + Decode(t[1..])
  }

  lemma EscapeDecodes(c: byte, rest: seq<byte>)
    ensures Decode(Escape(c) + rest) == [c] + Decode(rest)
  {
    DigitCharReads(c / 16, false);
    DigitCharReads(c % 16, false);
    assert (Escape(c) + rest)[3..] == rest;
  }

  lemma CharDecodes(c: byte, rest: seq<byte>)
    ensures Decode(EncodeChar(c) + rest) == [c] + Decode(rest)
  {
    if c == PERCENT || !Printable(c) {
      EscapeDecodes(c, rest);
    } else {
      assert ([c] + rest)[1..] == rest;
    }
  }

  lemma {:induction false} EncodeFront(c: byte, s: seq<byte>)
    ensures Encode([c] + s) == EncodeChar(c) + Encode(s)
    decreases |s|
  {
    hide EncodeChar;
    if s == [] {
      assert [c] + s == [c];
      assert [c][..0] == [];
    } else {
      EncodeFront(c, s[..|s| - 1]);
      assert ([c] + s)[..|s|] == [c] + s[..|s| - 1];
    }
  }

  /** Decoding undoes encoding. */
  lemma {:induction false} DecodeEncode(s: seq<byte>)
    ensures Decode(Encode(s)) == s
  {
    if s != [] {
      DecodeEncode(s[1..]);
      assert s == [s[0]] + s[1..];
      EncodeFront(s[0], s[1..]);
      CharDecodes(s[0], Encode(s[1..]));
    }
  }

  /** A text without percent signs decodes to itself. */
  lemma {:induction false} DecodePlain(t: seq<byte>)
    requires PERCENT !in t
    ensures Decode(t) == t
  {
    if t != [] {
      DecodePlain(t[1..]);
    }
  }

  lemma {:induction false} EncodePrefixLonger(s: seq<byte>, i: nat)
    requires i < |s|
    ensures Encode(s[..i + 1]) == Encode(s[..i]) + EncodeChar(s[i])
  {
    assert s[..i + 1][..i] == s[..i];
  }

  lemma {:induction false} EncodeIsPrintable(s: seq<byte>)
    ensures forall i | 0 <= i < |Encode(s)| :: Printable(Encode(s)[i])
  {
    if s != [] {
      EncodeIsPrintable(s[..|s| - 1]);
      assert forall c | c in EncodeChar(s[|s| - 1]) :: Printable(c);
    }
  }

  // ---------------------------------------------------------------- truncation

  /** How many of the bytes of s from i on are encoded when used bytes of the room are taken: the
      encoder stops before the first one that finds the room exceeded. */
  function CutFrom(s: seq<byte>, i: nat, used: nat, room: nat): (k: nat)
    requires i <= |s|
    ensures i <= k <= |s|
    decreases |s| - i
  {
    if i == |s| || used > room then i else CutFrom(s, i + 1, used + |EncodeChar(s[i])|, room)
  }

  function Cut(s: seq<byte>, room: nat): (k: nat)
    ensures k <= |s|
  {
    CutFrom(s, 0, 0, room)
  }

  lemma {:induction false} CutFromIsFirst(s: seq<byte>, i: nat, room: nat)
    requires i <= |s|
    ensures var k := CutFrom(s, i, |Encode(s[..i])|, room);
            && (k < |s| ==> |Encode(s[..k])| > room)
            && (forall j | i <= j < k :: |Encode(s[..j])| <= room)
    decreases |s| - i
  {
    hide EncodeChar;
    if i < |s| && |Encode(s[..i])| <= room {
      EncodePrefixLonger(s, i);
      CutFromIsFirst(s, i + 1, room);
    }
  }

  /** The cut is at the first prefix whose encoding exceeds the room, if there is one. */
  lemma CutIsFirst(s: seq<byte>, room: nat)
    ensures Cut(s, room) < |s| ==> |Encode(s[..Cut(s, room)])| > room
    ensures forall j | 0 <= j < Cut(s, room) :: |Encode(s[..j])| <= room
  {
    assert s[..0] == [];
    CutFromIsFirst(s, 0, room);
  }

  // ---------------------------------------------------------------- what sanitized returns

  predicate CleanChar(c: byte) {
    c != PERCENT && (Printable(c) || c == 9 || c == 10)
  }

  predicate Clean(s: seq<byte>) {
    forall i | 0 <= i < |s| :: CleanChar(s[i])
  }

  /** Which strings are shown as they are. */
  lemma CleanExactly(s: seq<byte>)
    ensures Clean(s) <==> forall i | 0 <= i < |s| :: s[i] in {9, 10} || (32 <= s[i] <= 126 && s[i] != 37)
  {
  }

  const RESERVE := 30

  function SanitizedText(s: seq<byte>, len: nat): seq<byte>
    requires len >= RESERVE
  {
    if Clean(s) then s else Encode(s[..Cut(s, len - RESERVE)])
  }

  /** Both paths can be undone by the same decoding: it returns the whole string unless the encoder
      ran out of room, and then the part of it that was encoded. */
  lemma SanitizedIsReversible(s: seq<byte>, len: nat)
    requires len >= 30
    ensures Decode(SanitizedText(s, len)) == if Clean(s) then s else s[..Cut(s, len - 30)]
    ensures Decode(SanitizedText(s, len)) == s <==> Clean(s) || Cut(s, len - 30) == |s|
  {
    hide Encode, Decode, CutFrom;
    if Clean(s) {
      DecodePlain(s);
    } else {
      DecodeEncode(s[..Cut(s, len - 30)]);
      assert s[..|s|] == s;
    }
  }

  lemma {:induction false} PrefixEncodesShorter(s: seq<byte>, j: nat)
    requires j <= |s|
    ensures |Encode(s[..j])| <= |Encode(s)|
    decreases |s| - j
  {
    hide EncodeChar;
    if j < |s| {
      EncodePrefixLonger(s, j);
      PrefixEncodesShorter(s, j + 1);
    } else {
      assert s[..j] == s;
    }
  }

  /** Nothing is cut off exactly when the encoding of all but the last byte fits the room. */
  lemma WhenNothingIsCut(s: seq<byte>, room: nat)
    ensures Cut(s, room) == |s| <==> s == [] || |Encode(s[..|s| - 1])| <= room
  {
    CutIsFirst(s, room);
    if s != [] && Cut(s, room) < |s| {
      var front, k := s[..|s| - 1], Cut(s, room);
      assert front[..k] == s[..k];
      PrefixEncodesShorter(front, k);
    }
    hide Encode, Cut;
  }

  /** The whole string can be recovered exactly when the fast path applies or all of it but the last byte
      is encoded in the length less the reserve. */
  lemma WhenNothingIsLost(s: seq<byte>, len: nat)
    requires len >= 30
    ensures Decode(SanitizedText(s, len)) == s
            <==> Clean(s) || s == [] || |Encode(s[..|s| - 1])| <= len - 30
  {
    SanitizedIsReversible(s, len);
    WhenNothingIsCut(s, len - 30);
    hide *;
  }

  /** Only printable characters, tabs and newlines ever reach the terminal. */
  lemma SanitizedIsSafe(s: seq<byte>, len: nat)
    requires len >= 30
    ensures forall i | 0 <= i < |SanitizedText(s, len)| ::
              32 <= SanitizedText(s, len)[i] <= 126 || SanitizedText(s, len)[i] in {9, 10}
  {
    EncodeIsPrintable(s[..Cut(s, len - 30)]);
  }

  /** Where the fast path applies the encoder would differ only by escaping tabs and newlines. */
  lemma {:induction false} FastPathAgrees(s: seq<byte>)
    requires Clean(s)
    ensures Encode(s) == s <==> 9 !in s && 10 !in s
  {
    if s != [] {
      var front, c := s[..|s| - 1], s[|s| - 1];
      FastPathAgrees(front);
      assert s == front + [c];
      EncodeGrows(front);
    }
  }

  lemma {:induction false} EncodeGrows(s: seq<byte>)
    ensures |Encode(s)| >= |s|
    ensures Clean(s) && |Encode(s)| == |s| ==> Encode(s) == s
  {
    if s != [] {
      EncodeGrows(s[..|s| - 1]);
      assert s == s[..|s| - 1] + [s[|s| - 1]];
    }
  }

  /** A printable string without percent signs for which there is room survives the encoder too. */
  lemma PlainSurvives(s: seq<byte>, room: nat)
    requires forall i | 0 <= i < |s| :: 32 <= s[i] <= 126 && s[i] != 37
    requires |s| <= room + 1
    ensures Encode(s[..Cut(s, room)]) == s
  {
    if s != [] {
      var front := s[..|s| - 1];
      FastPathAgrees(front);
    }
    FastPathAgrees(s);
    WhenNothingIsCut(s, room);
    assert s[..|s|] == s;
    hide Encode, Cut;
  }
}
