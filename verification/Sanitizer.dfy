/** The reused buffer behind the sanitized copy of a string. */
module Sanitizer {
  import opened Words
  import opened Outcomes
  import opened NumberText
  import opened PercentEncoding

  /** "...Truncated..." */
  const TRUNCATED: seq<byte> := [46, 46, 46, 84, 114, 117, 110, 99, 97, 116, 101, 100, 46, 46, 46]
  /** "<no-name!>" */
  const NO_NAME: seq<byte> := [60, 110, 111, 45, 110, 97, 109, 101, 33, 62]

  /** The C string at the start of a buffer. */
  ghost predicate HoldsString(buffer: array<byte>, text: seq<byte>)
    reads buffer
  {
    |text| < buffer.Length && buffer[..|text|] == text && buffer[|text|] == NUL && NUL !in text
  }

  /** One of the three bytes where truncation can happen is zero. This is what keeps the message that
      is appended there inside the buffer, however often the buffer was used before. */
  ghost predicate Ready(buffer: array<byte>)
    reads buffer
  {
    && buffer.Length >= RESERVE
    && (|| buffer[buffer.Length - 29] == NUL
        || buffer[buffer.Length - 28] == NUL
        || buffer[buffer.Length - 27] == NUL)
  }

  lemma ZeroedIsReady(buffer: array<byte>)
    requires buffer.Length >= RESERVE
    requires forall i | 0 <= i < buffer.Length :: buffer[i] == NUL
    ensures Ready(buffer)
  {
  }

  /** strcat at some offset: the text goes over the first NUL there, wherever that is. */
  method Strcat(buffer: array<byte>, at: nat, text: seq<byte>, ghost end: nat) returns (q: nat)
    requires at <= end && end + |text| < buffer.Length && buffer[end] == NUL
    modifies buffer
    ensures at <= q <= end && old(buffer[q]) == NUL && NUL !in old(buffer[at..q])
    ensures buffer[..] == old(buffer[..q]) + text + [NUL] + old(buffer[q + |text| + 1..])
  {
    q := at;
    while buffer[q] != NUL
      invariant at <= q <= end
      invariant NUL !in buffer[at..q]
      decreases end - q
    {
      q := q + 1;
    }
    forall i | 0 <= i < |text| {
      buffer[q + i] := text[i];
    }
    buffer[q + |text|] := NUL;
  }

  /** sprintf of an escape followed by strcpy: three bytes and a NUL. */
  method StrcpyEscape(buffer: array<byte>, at: nat, c: byte)
    requires at + 3 < buffer.Length
    modifies buffer
    ensures buffer[..] == old(buffer[..at]) + Escape(c) + [NUL] + old(buffer[at + 4..])
  {
    buffer[at] := PERCENT;
    buffer[at + 1] := DigitChar(c / 16, false);
    buffer[at + 2] := DigitChar(c % 16, false);
    buffer[at + 3] := NUL;
  }

  lemma NoNulInEncoding(s: seq<byte>)
    ensures NUL !in Encode(s)
  {
    EncodeIsPrintable(s);
  }

  /** The state of the encoder after i bytes. */
  ghost predicate Encoding(buffer: array<byte>, s: seq<byte>, i: nat, charcount: nat)
    reads buffer
  {
    && Ready(buffer) && i <= |s|
    && charcount <= buffer.Length - 27
    && charcount == |Encode(s[..i])|
    && buffer[..charcount] == Encode(s[..i])
    && (charcount >= buffer.Length - 28 ==> buffer[charcount] == NUL)
  }

  /** One byte as it is. */
  method StorePlain(s: seq<byte>, buffer: array<byte>, i: nat, charcount: nat)
    requires i < |s| && Encoding(buffer, s, i, charcount) && charcount <= buffer.Length - RESERVE
    requires s[i] != PERCENT && Printable(s[i])
    modifies buffer
    ensures Encoding(buffer, s, i + 1, charcount + 1) && |EncodeChar(s[i])| == 1
  {
    EncodePrefixLonger(s, i);
    hide Encode;
    buffer[charcount] := s[i];
    assert buffer[..charcount + 1] == buffer[..charcount] + [s[i]];
  }

  /** One byte as an escape. */
  method StoreEscape(s: seq<byte>, buffer: array<byte>, i: nat, charcount: nat)
    requires i < |s| && Encoding(buffer, s, i, charcount) && charcount <= buffer.Length - RESERVE
    requires s[i] == PERCENT || !Printable(s[i])
    modifies buffer
    ensures Encoding(buffer, s, i + 1, charcount + 3) && |EncodeChar(s[i])| == 3
  {
    EncodePrefixLonger(s, i);
    assert |Escape(s[i])| == 3;
    hide Encode, Escape;
    StrcpyEscape(buffer, charcount, s[i]);
    assert buffer[..charcount + 3] == old(buffer[..charcount]) + Escape(s[i]);
  }

  /** Encodes one byte for which there is room. */
  method EncodeOne(s: seq<byte>, buffer: array<byte>, i: nat, charcount: nat) returns (charcount': nat)
    requires i < |s| && Encoding(buffer, s, i, charcount) && charcount <= buffer.Length - RESERVE
    modifies buffer
    ensures Encoding(buffer, s, i + 1, charcount') && charcount' == charcount + |EncodeChar(s[i])|
  {
    hide Encoding, EncodeChar;
    var c := s[i];
    if c == PERCENT {
      StoreEscape(s, buffer, i, charcount);
      return charcount + 3;
    }
    if Printable(c) {
      StorePlain(s, buffer, i, charcount);
      return charcount + 1;
    }
    StoreEscape(s, buffer, i, charcount);
    return charcount + 3;
  }

  /** A NUL the message can be appended at. */
  ghost function FirstNul(buffer: array<byte>, charcount: nat): (end: nat)
    requires Ready(buffer) && buffer.Length - 29 <= charcount <= buffer.Length - 27
    requires charcount >= buffer.Length - 28 ==> buffer[charcount] == NUL
    reads buffer
    ensures charcount <= end <= buffer.Length - 27 && buffer[end] == NUL
  {
    var len := buffer.Length;
    if buffer[charcount] == NUL then charcount else if buffer[len - 28] == NUL then len - 28 else len - 27
  }

  /** Ends the text because of lack of room. There always is enough for the message, which is then
      cut off again by the NUL in front of it. */
  method Truncate(buffer: array<byte>, charcount: nat, ghost text: seq<byte>)
    requires Ready(buffer) && buffer.Length - 29 <= charcount <= buffer.Length - 27
    requires charcount >= buffer.Length - 28 ==> buffer[charcount] == NUL
    requires charcount == |text| && buffer[..charcount] == text && NUL !in text
    modifies buffer
    ensures Ready(buffer) && HoldsString(buffer, text)
  {
    var len := buffer.Length;
    if len - charcount < |TRUNCATED| {
      assert false;
    }
    ghost var before := buffer[..];
    var q := Strcat(buffer, charcount, TRUNCATED, FirstNul(buffer, charcount));
    assert buffer[..charcount] == before[..charcount];
    buffer[charcount] := NUL;
  }

  lemma EncodingStarts(buffer: array<byte>, s: seq<byte>)
    requires Ready(buffer)
    ensures Encoding(buffer, s, 0, 0)
  {
    assert s[..0] == [];
  }

  lemma HasRoom(buffer: array<byte>, s: seq<byte>)
    requires Ready(buffer)
    ensures buffer.Length >= RESERVE
    ensures Cut(s, buffer.Length - RESERVE) == CutFrom(s, 0, 0, buffer.Length - RESERVE)
  {
  }

  /** The encoder stops here, or goes on with one byte more. */
  lemma CutStep(s: seq<byte>, i: nat, used: nat, room: nat)
    requires i < |s|
    ensures CutFrom(s, i, used, room) == if used > room then i else CutFrom(s, i + 1, used + |EncodeChar(s[i])|, room)
  {
    hide EncodeChar;
  }

  /** Ends the text after the last byte. */
  method Finish(s: seq<byte>, buffer: array<byte>, charcount: nat)
    requires Encoding(buffer, s, |s|, charcount)
    modifies buffer
    ensures Ready(buffer) && HoldsString(buffer, Encode(s[..|s|]))
  {
    NoNulInEncoding(s);
    assert s[..|s|] == s;
    hide Encode;
    buffer[charcount] := NUL;
  }

  /** Ends the text early, after i bytes. */
  method FinishEarly(s: seq<byte>, buffer: array<byte>, i: nat, charcount: nat)
    requires Encoding(buffer, s, i, charcount) && charcount > buffer.Length - RESERVE
    modifies buffer
    ensures Ready(buffer) && HoldsString(buffer, Encode(s[..i]))
  {
    NoNulInEncoding(s[..i]);
    hide Encode, Ready, HoldsString;
    Truncate(buffer, charcount, Encode(s[..i]));
  }

  lemma CutEnds(s: seq<byte>, used: nat, room: nat)
    ensures CutFrom(s, |s|, used, room) == |s|
  {
  }

  /** Encodes byte after byte while there is room. */
  method EncodeWhileRoom(s: seq<byte>, buffer: array<byte>, room: nat) returns (i: nat, charcount: nat)
    requires Encoding(buffer, s, 0, 0) && room + RESERVE == buffer.Length
    modifies buffer
    ensures Encoding(buffer, s, i, charcount) && i == CutFrom(s, 0, 0, room)
    ensures i <= |s| && (i < |s| ==> charcount > room)
  {
    hide *;
    i, charcount := 0, 0;
    while i < |s|
      invariant i <= |s| && Encoding(buffer, s, i, charcount)
      invariant CutFrom(s, 0, 0, room) == CutFrom(s, i, charcount, room)
    {
      CutStep(s, i, charcount, room);
      if charcount > room {
        return;
      }
      charcount := EncodeOne(s, buffer, i, charcount);
      i := i + 1;
    }
    CutEnds(s, charcount, room);
  }

  /** Encodes s into the buffer, stopping when the room left might not do for the next byte. */
  method DoSanityInsert(s: seq<byte>, buffer: array<byte>)
    requires Ready(buffer)
    modifies buffer
    ensures Ready(buffer)
    ensures HoldsString(buffer, Encode(s[..Cut(s, buffer.Length - RESERVE)]))
  {
    HasRoom(buffer, s);
    hide *;
    EncodingStarts(buffer, s);
    var i, charcount := EncodeWhileRoom(s, buffer, buffer.Length - RESERVE);
    if i < |s| {
      FinishEarly(s, buffer, i, charcount);
    } else {
      Finish(s, buffer, charcount);
    }
  }

  method NoQuestionableChars(s: seq<byte>) returns (clean: bool)
    ensures clean <==> Clean(s)
    ensures clean <==> forall i | 0 <= i < |s| :: s[i] in {9, 10} || (32 <= s[i] <= 126 && s[i] != 37)
  {
    CleanExactly(s);
    for i := 0 to |s|
      invariant Clean(s[..i])
    {
      var c := s[i];
      if c == PERCENT {
        return false;
      }
      if Printable(c) {
        continue;
      }
      if c == 0x0A || c == 0x09 {
        continue;
      }
      return false;
    }
    assert s[..|s|] == s;
    return true;
  }

  /** What is shown for a null pointer, whenever there is room for it. */
  lemma NoNameIsShown(len: nat)
    requires len >= 39
    ensures Encode(NO_NAME[..Cut(NO_NAME, len - RESERVE)]) == NO_NAME
    ensures |NO_NAME| == 10 && forall i | 0 <= i < 10 :: NO_NAME[i] == "<no-name!>"[i] as int
  {
    PlainSurvives(NO_NAME, len - RESERVE);
    hide Encode, Cut;
  }

  datatype Answer = Original | Buffer

  /** Returns the string itself when it is safe, and otherwise fills the buffer. The buffer is left
      fit for the next call either way. */
  method Sanitized(s: Option<seq<byte>>, outbuf: array<byte>) returns (answer: Answer, ghost text: seq<byte>)
    requires Ready(outbuf) && (s.Some? ==> NUL !in s.value)
    modifies outbuf
    ensures Ready(outbuf)
    ensures answer.Original? <==> s.Some? && Clean(s.value)
    ensures answer.Buffer? ==> HoldsString(outbuf, text)
    ensures s.Some? ==> text == SanitizedText(s.value, outbuf.Length)
    ensures s.None? ==> text == Encode(NO_NAME[..Cut(NO_NAME, outbuf.Length - RESERVE)])
  {
    outbuf[0] := NUL;
    if s.None? {
      DoSanityInsert(NO_NAME, outbuf);
      return Buffer, Encode(NO_NAME[..Cut(NO_NAME, outbuf.Length - RESERVE)]);
    }
    var clean := NoQuestionableChars(s.value);
    if clean {
      return Original, s.value;
    }
    DoSanityInsert(s.value, outbuf);
    return Buffer, Encode(s.value[..Cut(s.value, outbuf.Length - RESERVE)]);
  }
}
