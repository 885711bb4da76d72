# Verified model of readelfobj's object readers

readelfobj reads the headers of ELF, Mach-O and PE object files. Most of it copies fields and prints
them. This project models the parts that do more than that, and proves what they are for:

* **File-space accounting.** Every area of an ELF file that something uses is queued. A report sorts the
  queue and sweeps it once, charging each gap to alignment or to wasted content. The specification is the
  measure of the complement of a union of intervals (`IntervalMeasure`, `SpaceTotals`), and of its part due
  to alignment (`SplitMeasure`); the queue, the sort and the sweep are the class
  `InUseReport.SpaceAccounts`. When the split between the two kinds
  depends on how the sort breaks ties is settled in `SplitOrder`.
* **ELF section groups.** Two passes over the sections build numbered groups out of SHT_GROUP sections
  (System V ABI, chapter 4, "Section Groups") whose byte order is not known, and number the DWARF sections
  that are left. The specification is a partition (`SectionTable`); the passes are the class
  `SectionGroups.ElfGroups`.
* **The Mach-O loader.** A walk over variable-sized load commands, a segment table with one slot per
  segment command, and a section table that is regrown by copying. The tables as values are in
  `MachoTables`, the records in `MachoRecords` and `MachoLayout`, the loader in `MachoLoader.MachoFile`.
  The 32-bit and 64-bit readers are twins in the code and one method here, with a branch wherever they
  differ.
* **The string buffer and its formatter.** A mutable NUL-terminated buffer (`StringBuffer.DwarfString`),
  and the appenders for `%s`, `%d`, `%u`, `%x` and `%X` (`StringPrintf`), specified by a grammar of
  directives and by reading the text back.
* **Separate debug files.** Path joining, the list of candidate paths, the block that holds it
  (pointers and strings in one piece of memory), and the `.gnu_debuglink` section. The strings are real
  buffers (`StringBuffer.DwarfString`) and the list is linked (`StringLists.StringList`).
* **The sanitizer.** Percent-encoding in the manner of section 2.1 of RFC 3986, with truncation, a fast
  path, and a buffer that is used again and again.
* **Support.** Endian-neutral field loads, relocation records, the nibble bit count, and the
  overflow-checking 64-bit arithmetic.

A file is a byte sequence with a file size; `qsort` returns some sorted permutation. Memory is a parameter:
with `Scarce` memory `malloc` may fail whenever it is called, with `Plentiful` memory it does not
(`Outcomes.Malloc`, `Outcomes.MallocAt`), and the contracts say that nothing is then refused for lack of
it. Machine integers are unbounded here, with the 64-bit wrap-around written out (`Words.Wrap`) where the
code can meet it. Ghost parameters and ghost fields only name values that the specifications talk about.
`DwarfString.exhausted` and `MachoFile.refused` record failed allocations, so that what holds "unless
memory ran out" can be said exactly.

Where code and documentation disagree the model follows the code:

* A comment in `src/sanitized.c` says a percent sign becomes `%27`; the code writes `%25`.
* The table behind `getbitsoncount` says that the digit 8 has two bits set.
* `dwarfstring_append_printf_u` returns FALSE even on success; `%-5d` does not left-justify.
* Both group passes start at section 0 but count from 1, so the last section is never looked at.
* The 64-bit Mach-O reader compares a segment name with `___DWARF`, which no known segment is called.
* When the section table cannot be allocated the Mach-O loader stores an error number and reports success.
* `is_wasted_space_zero` reads the same block again and again.

`dafny verify dfyconfig.toml` checks the whole project.

## Model

| member | source | states |
|---|---|---|
| `SpaceTotals.TotalMeasures` | src/readelfobj.c:1861-2000 | for any uses listed by offset and end, one pass that only remembers the greatest end so far totals exactly the uncovered bytes of the span and counts exactly its gaps |
| `SpaceTotals.AddMeasures` | src/readelfobj.c:1868-1999 | the invariant of the sweep: one more use, starting no earlier than the others, keeps totals and end right whatever branch it takes |
| `SpaceTotals.SumIgnoresOrder` | src/readelfobj.c:1844-1856 | two sorted listings of the same areas agree on end, wasted bytes and number of gaps |
| `SpaceTotals.ForcedIsNextMultiple` | src/readelfobj.c:1892-1911 | a gap counts as forced by alignment exactly when it ends at the first multiple of the alignment from its start on, and does not start at one |
| `SplitMeasure.TotalSplits` | src/readelfobj.c:1890-1985 | for any ordered uses, what one pass charges to alignment is exactly the bytes, and the number, of the uncovered runs that end where the first use sorted there begins at the first multiple of its alignment after all bytes used before; defined on covered bytes, without the pass |
| `SplitOrder.SortedAlike` | src/readelfobj.c:1788-1812 | two results of the sort differ, place by place, only in what the comparison does not look at |
| `SplitOrder.SplitIsFixedExactly` | src/readelfobj.c:1890-1985 | for a queue none of whose areas wraps, all results of the sort give the same totals, split and counts included, if and only if no gap is followed by non-empty areas that compare equal, could each come first there, and disagree on whether the gap is forced by alignment |
| `SplitOrder.OpensExactlyAtGaps` | src/readelfobj.c:1890-1891 | an area that no other at its place has to precede follows a gap, in the sense of that condition, if and only if it starts past the first used byte and an uncovered run of the file ends there |
| `SplitOrder.EqualAlignmentSuffices` | src/readelfobj.c:1892-1937 | that is so when areas that compare equal, having the same bounds and name, carry equal alignment |
| `SpaceTotals.SplitCanDependOnOrder` | src/readelfobj.c:1890-1985 | the split can depend on which of two areas that compare equal comes first: three concrete areas |
| `SpaceTotals.HighOffsetIsGreatest` | src/readelfobj.c:1844-1851 | the high offset is attained and is the greatest end, zero-length areas included |
| `InUseOrder.ComproffsetIsTotalOrder` | src/readelfobj.c:1788-1812 | the comparison is total and transitive, and calls equal only areas with the same bounds and name |
| `InUseOrder.ComproffsetIsLexicographic` | src/readelfobj.c:1788-1812 | which area comes first: the smaller offset, then the smaller end, then the name that comes first in the dictionary |
| `InUseOrder.QSort` | src/readelfobj.c:1854-1855 | a sorted permutation |
| `InUseReport.SpaceAccounts.InsertInUse` | src/dwarf_load_elf_headers.c:562-590 | appends to the queue and keeps head, tail and count consistent; lastbyte is the 64-bit end |
| `InUseReport.SpaceAccounts.CopyQueue` | src/readelfobj.c:1842-1851 | the array holds the queue in order, and the greatest end is found |
| `InUseReport.AlignmentGap` | src/readelfobj.c:1892-1960 | a gap is charged to alignment exactly when it is what the next multiple of the alignment forces |
| `InUseReport.SpaceAccounts.Visit` | src/readelfobj.c:1868-1999 | one round of the sweep: the remembered area keeps reaching furthest and the fields advance by what the area adds to the totals |
| `InUseReport.SpaceAccounts.Sweep` | src/readelfobj.c:1861-2000 | the four counters advance by exactly the totals of the sorted areas |
| `InUseReport.SpaceAccounts.ReportWastedSpace` | src/readelfobj.c:1814-2037 | no content, no memory when it is scarce, or a report whose tail compares the greatest end with the file size and which empties the queue; counters that started at zero then measure the uncovered bytes and the gaps of the queue, those of alignment the gaps that alignment calls for, and others advance by the totals of some result of the sort |
| `InUseReport.WastedSpaceIsUncoveredSpace` | src/readelfobj.c:1861-2000 | whatever sorted listing is swept, content waste plus alignment waste is the number of bytes between first and last used byte that no area covers, and the counts add up to the number of gaps |
| `InUseReport.AlignmentWasteIsAlignment` | src/readelfobj.c:1890-1985 | and the alignment part of it is the bytes and number of the gaps that alignment calls for in that listing |
| `InUseReport.TailIsDifference` | src/readelfobj.c:2025-2040 | the tail is exactly the difference between the recorded end and the file size, in the direction it names, or nothing when they agree |
| `InUseReport.ReportIgnoresInsertionOrder` | src/readelfobj.c:1844-1856 | permuting the queue changes neither the sum, nor the number of gaps, nor the tail, nor the split when tied areas agree about the gap before them |
| `InUseReport.SplitIgnoresOrderExactly` | src/readelfobj.c:1844-1856 | the split is the same for every insertion order and every result of the sort if and only if tied areas agree about the gap before them |
| `InUseReport.WholeFileAccounting` | src/readelfobj.c:2025-2040 | for a queue that ends inside the file, covered bytes, both wastes and the reported tail add up to the file size if and only if non-empty areas reach byte 0 and the high offset, or the high offset is 0 |
| `ZeroCheck.IsWastedSpaceZero` | src/readelfobj.c:1734-1786 | decides whether the first block of the gap, of at most 100000 bytes, is zero |
| `ZeroCheck.ExactUpToOneBlock` | src/readelfobj.c:1758-1782 | that answers for the whole gap, on every file, if and only if the gap is at most one block long |
| `FileAccess.ReadRandom` | src/dwarf_object_read_common.c:49-95 | what a read returns, and when it succeeds |
| `FileAccess.ReadErrors` | src/dwarf_object_read_common.c:49-95 | for lengths that are not enormous, which of the two errors a read past the end reports, and that every other read succeeds |
| `GroupWords.GuessIsExact` | src/dwarf_load_elf_headers.c:3301-3321 | taking the smaller reading of a word recovers an index, written in either order, exactly when it is no greater than its byte-swapped value, and always below 65536 |
| `GroupWords.ComdatInEitherOrder` | src/dwarf_load_elf_headers.c:3286-3298 | the flag word is accepted exactly when it is 1 in one byte order |
| `SectionTable.KindsAre` | src/dwarf_load_elf_headers.c:3160-3196 | which sections are group sections, plain, and .dwo sections, in the numbers and names of the format |
| `SectionTable.DwarfNamesAre` | src/dwarf_load_elf_headers.c:3552-3571 | which names are DWARF names; the check for .rel never decides anything |
| `SectionTable.FlaggedBit` | src/dwarf_load_elf_headers.c:3189-3196 | a group flag is bit 9 |
| `SectionTable.GroupReadsBack` | src/dwarf_load_elf_headers.c:3286-3365 | a group written in either byte order, flag word first, is read back on any host if and only if no listed number is greater than its byte-swapped value, and whenever all are below 65536 |
| `SectionTable.GroupDataExactly` | src/dwarf_load_elf_headers.c:3238-3298 | which group sections have data, that it is the bytes of the file at the section's offset, and which check refuses the others |
| `SectionTable.WrittenGroupIsRead` | src/dwarf_load_elf_headers.c:3219-3375 | where the file holds such a group, reading the section records the flag word and the listed numbers if they are distinct, existing, ungrouped sections, and fails otherwise |
| `SectionTable.GroupingGrows` | src/dwarf_load_elf_headers.c:3299-3372 | recording one more acceptable group keeps the partition |
| `SectionTable.NoSectionListedTwice` | src/dwarf_load_elf_headers.c:3347-3361 | in a partition no section is listed twice, within a group or across groups |
| `SectionTable.NumberedIffListed` | src/dwarf_load_elf_headers.c:3362-3369 | a section has a number of 3 or more exactly when some group lists it |
| `SectionGroups.ElfGroups.TakeEntry` | src/dwarf_load_elf_headers.c:3302-3364 | an entry is taken exactly when it names an existing non-zero section that is in no group, which then gets the next number |
| `SectionGroups.ElfGroups.ReadEntries` | src/dwarf_load_elf_headers.c:3301-3365 | either all entries are taken or the first that cannot join stops the loop, with exactly the earlier ones marked |
| `SectionGroups.ElfGroups.ReadGroupData` | src/dwarf_load_elf_headers.c:3238-3298 | the data of the group, or the first failing check in the code's order |
| `SectionGroups.ElfGroups.ReadSectionGroup` | src/dwarf_load_elf_headers.c:3219-3375 | records the whole group and keeps the partition, or fails with the first failing check and changes no array and no count; a group already read is left alone |
| `SectionGroups.ElfGroups.ReadAllGroups` | src/dwarf_load_elf_headers.c:3407-3429 | the first pass: every visited group section has the array its data calls for, in order; a failure names the section it happened at |
| `SectionGroups.ElfGroups.NumberDwarfSections` | src/dwarf_load_elf_headers.c:3433-3469 | the second pass numbers every visited section as its name asks, and fails exactly at a .dwo section that a group lists |
| `SectionGroups.ElfGroups.SetupAllSectionGroups` | src/dwarf_load_elf_headers.c:3398-3478 | on success the arrays partition the grouped sections, next number minus 3 is the group count, all three counters are exact, and number 2 marks exactly the .dwo sections before the last section |
| `SectionTable.NumbersAfterBothPasses` | src/dwarf_load_elf_headers.c:3434-3469 | number 2 marks exactly the visited .dwo sections, number 1 exactly the other visited DWARF sections that no group lists, and every other number is kept |
| `SectionTable.DwoCountIsExact` | src/dwarf_load_elf_headers.c:3445-3460 | the sections counted as .dwo are exactly those that end up with number 2 |
| `MachoRecords.CommandIsEndianNeutral` | src/dwarf_machoread.c:886-893 | a load command reads the same on hosts of either byte order |
| `MachoRecords.SegmentIsEndianNeutral` | src/dwarf_machoread.c:500-556 | so does a segment command |
| `MachoRecords.SectionIsEndianNeutral` | src/dwarf_machoread.c:745-770 | and a section record |
| `MachoLayout.CommandRoundTrip` | src/dwarf_macho_loader.h:277-280 | a load command laid out as its structure says, in either order, is read back as its number and size |
| `MachoLayout.SectionRoundTrip` | src/dwarf_macho_loader.h:463-490 | a section record laid out as its structure says, in either width and order, is read back field by field |
| `MachoLayout.SegmentRoundTrip` | src/dwarf_macho_loader.h:386-418 | likewise a segment command |
| `MachoLayout.SegmentCommandIsRead` | src/dwarf_machoread.c:561-622 | a segment command in the file is read by the walk as a command with its number and size, and by the loader as the segment it was written for, wide exactly for number 0x19 |
| `MachoLayout.OtherCommandIsRead` | src/dwarf_machoread.c:885-903 | a command in the file stands for a segment exactly when its number is 1 or 0x19 |
| `MachoLayout.ReadIsInsideObject` | src/dwarf_machoread.c:885-893 | reads succeed exactly inside the part of the file the object occupies, and give its bytes there |
| `MachoRecords.IsKnownSegname` | src/dwarf_machoread.c:85-118 | true exactly for the ten known names |
| `MachoRecords.IsNotAscii` | src/dwarf_machoread.c:119-131 | true exactly when some byte of the name is not printable ASCII |
| `MachoRecords.WhichSectionsAreInside` | src/dwarf_64machoread.c:374-412 | the checks keep every accepted section of a segment inside the file if and only if the object is 32-bit and the segment is __DWARF, or 32-bit fields cannot reach past the end |
| `MachoLoader.MachoFile.ReadCommand` | src/dwarf_machoread.c:885-903 | the next command exactly when it can be read and ends within the file, and else the error that stops the walk there |
| `MachoLoader.MachoFile.WalkCommands` | src/dwarf_machoread.c:859-908 | command i sits at the start offset plus the sum of all earlier sizes and ends within the file; the segment count is exact; a failure names the command it happened at, and there is none where all commands are in place |
| `MachoTables.WalkedExactly` | src/dwarf_machoread.c:859-908 | what was walked over: the first command at the start, each next one where the one before ends, all inside the file and as the file has them |
| `MachoTables.NothingStops` | src/dwarf_machoread.c:859-908 | where all announced commands lie inside the file one after the other nothing stops the walk |
| `MachoTables.CommandsDoNotOverlap` | src/dwarf_machoread.c:893-903 | commands that were walked over do not overlap and lie inside the file, whatever sizes they claim |
| `MachoLoader.MachoFile.LoadSegmentContent` | src/dwarf_machoread.c:473-558 | a segment command is accepted exactly when it can be read and passes every check; which error an unknown name gives in either width |
| `MachoLoader.MachoFile.LoadSegmentCommands` | src/dwarf_machoread.c:561-622 | every slot of the segment table is filled, with the segment command it stands for, and passed its checks; with memory, success exactly when every segment command can be read and passes |
| `MachoTables.SegmentTableIsBijective` | src/dwarf_machoread.c:603-620 | that table is in order-preserving one-to-one correspondence with the segment commands |
| `MachoLoader.MachoFile.CheckSection` | src/dwarf_machoread.c:746-795 | a section is accepted exactly when it passes every check of its width, and the error each name check reports |
| `MachoLoader.MachoFile.LoadSection` | src/dwarf_64machoread.c:303-419 | a record is accepted exactly when it lies inside the file, can be read and passes the checks |
| `MachoLoader.MachoFile.LoadRecords` | src/dwarf_machoread.c:703-801 | the end of the table becomes the records of the segment, one after the other; what was before stays |
| `MachoLoader.MachoFile.StartTable` | src/dwarf_machoread.c:681-702 | the first segment makes the null entry and its own sections |
| `MachoLoader.MachoFile.Regrow` | src/dwarf_machoread.c:645-680 | later ones leave every earlier entry as it was; the size product of the 32-bit reader is exact |
| `MachoLoader.MachoFile.AddSections` | src/dwarf_machoread.c:624-803 | after success the table has grown by exactly this segment's sections, or by nothing when memory was refused; it fails only for a record that is not acceptable, a wrong object width, or a 32-bit table larger than the file |
| `MachoLoader.MachoFile.LoadSections` | src/dwarf_machoread.c:825-855 | all segments but the three that are skipped; no entry exactly when no table was made; with memory none is left out, and nothing that is sound is refused |
| `MachoLoader.MachoFile.LoadMachoCommands` | src/dwarf_machoread.c:859-914 | on success all three tables are as specified: commands in place, segments one to one, and the null entry followed by the concatenation, in command order, of the sections of every segment not skipped that memory was found for; in 32-bit objects __DWARF sections lie inside the file; contents of every segment lie inside the file; with memory a sound object is never refused and no section is left out |
| `MachoTables.EntriesSurvive` | src/dwarf_machoread.c:667-674 | the table of some segments is a prefix of the table of those and more |
| `MachoTables.EntriesRecordTheirPlace` | src/dwarf_machoread.c:796-800 | entry k of segment s records s and the offset of its record |
| `MachoTables.TableStartsWithNull` | src/dwarf_machoread.c:681-702 | the first entry is zeros but for the offset of the first record, and the rest are all the sections |
| `MachoTables.TableEntries` | src/dwarf_machoread.c:703-801 | record k of the j-th segment in the table is entry 1 + (sections of the segments before it) + k, and is the record at 68*k or 80*k bytes after the segment command |
| `MachoTables.EligibleExactly` | src/dwarf_machoread.c:832-851 | the segments put in the table are exactly those neither skipped nor refused, in ascending order |
| `MachoTables.SkippedExactly` | src/dwarf_machoread.c:835-843 | the three names that are left out, byte by byte; __DWARF is none of them |
| `MachoTables.CompleteUnlessRefused` | src/dwarf_machoread.c:663-666 | a table that was made is complete if and only if no memory was refused for a segment that has sections, although the loader reports success either way |
| `StringBuffer.DwarfString.constructor` | src/dwarf_string.c:62-70 | an empty valid buffer without room |
| `StringBuffer.DwarfString.ConstructFixed` | src/dwarf_string.c:129-144 | an empty buffer with the room asked for, or without any |
| `StringBuffer.DwarfString.ConstructStatic` | src/dwarf_string.c:146-157 | an empty buffer in storage of the caller |
| `StringBuffer.DwarfString.AddTo` | src/dwarf_string.c:75-116 | moves the text to a larger block, or leaves the buffer as it was |
| `StringBuffer.DwarfString.Reset` | src/dwarf_string.c:117-128 | empties the text and keeps the room |
| `StringBuffer.DwarfString.AppendLength` | src/dwarf_string.c:178-206 | the text is the old text and the bytes appended, NUL-terminated inside the storage; unchanged when memory runs out |
| `StringBuffer.DwarfString.Append` | src/dwarf_string.c:208-218 | the same for a C string; a null pointer appends nothing |
| `StringBuffer.DwarfString.Strlen` | src/dwarf_string.c:226-230 | the length of the text, and the place of its NUL |
| `StringBuffer.Perform` | src/dwarf_string.c:62-218 | any sequence of appends, resets and destructions leaves a valid buffer holding exactly the abstract effect of those that succeeded; only appends fail, and only when memory ran out |
| `StringPrintf.AppendSpaces` | src/dwarf_string.c:232-251 | appends exactly that many spaces |
| `StringPrintf.AppendZeros` | src/dwarf_string.c:252-270 | appends exactly that many zeros, and returns true only for more than 40 of them |
| `StringPrintf.FillDigits` | src/dwarf_string.c:835-868 | fills a 36-byte buffer backwards with the digits of the value, never reaching its first ten bytes |
| `StringPrintf.SignedDigits` | src/dwarf_string.c:547-612 | sign and digits of every signed 64-bit value, the most negative one included |
| `StringPrintf.AppendPadded` | src/dwarf_string.c:613-643 | sign and digits padded with zeros after the sign or spaces before it |
| `StringPrintf.AppendPrintfU` | src/dwarf_string.c:685-888 | appends what the specification of the format says, and returns false always |
| `StringPrintf.AppendPrintfI` | src/dwarf_string.c:403-650 | appends what the specification of the format says, and returns true exactly for accepted formats |
| `StringPrintf.AppendPrintfS` | src/dwarf_string.c:272-387 | the same for strings, justified on either side |
| `FormatStrings.NumberReadsBack` | src/dwarf_string.c:547-648 | under every accepted format the text of a number reads back as the number, using up all of it |
| `FormatStrings.StrtolInvertsFormatting` | src/dwarf_string.c:547-648 | strtol inverts the decimal appenders on all signed 64-bit values |
| `FormatStrings.PaddedLength` | src/dwarf_string.c:613-640 | the padded number is as long as the greater of the width and its natural length |
| `FormatStrings.SignShows` | src/dwarf_string.c:547-612 | a minus (45) in front of a negative number, a plus (43) in front of another when asked for, and no sign otherwise |
| `FormatStrings.NumberAlphabet` | src/dwarf_string.c:389-399 | the characters used: digits, small letters under %x, capitals under %X, a sign, and spaces only without zero fill |
| `FormatStrings.ZerosFillAfterSign` | src/dwarf_string.c:622-640 | zero fill is zeros, of the right number, between sign and digits |
| `FormatStrings.JustifiedExactly` | src/dwarf_string.c:341-371 | the justified text is the only one of the right width with the string at its beginning, or at its end, and spaces besides |
| `FormatStrings.LeftJustifiedOnlyWhenFull` | src/dwarf_string.c:613-643 | filled with spaces or zeros, the text is the left-justified number if and only if the number fills the width |
| `FormatStrings.SpacesJustifyRight` | src/dwarf_string.c:613-621 | without zero fill it is the right-justified number |
| `FormatGrammar.AcceptedByU` | src/dwarf_string.c:685-833 | which documented directives the unsigned appender accepts, exactly, that it takes every part as written, and which complaint the others get |
| `FormatGrammar.AcceptedByI` | src/dwarf_string.c:403-546 | the same for the signed appender, for which a minus sign without a plus changes nothing |
| `FormatGrammar.OthersRefusedByI` | src/dwarf_string.c:403-546 | how the signed appender refuses %u, %x and %X: hexadecimal ones as such, %u for want of a d |
| `FormatGrammar.MinusDoesNotJustify` | src/dwarf_string.c:400-402 | a concrete format: with a minus sign and width 5 the number 7 is put on the right |
| `FormatGrammar.AcceptedByS` | src/dwarf_string.c:272-387 | the string appender accepts every `%s` directive with optional minus and width |
| `FormatGrammar.DirectiveReplacedByU` | src/dwarf_string.c:685-888 | what an accepted directive is replaced by, between the text before and after it |
| `FormatGrammar.DirectiveReplacedByI` | src/dwarf_string.c:403-650 | the same for signed numbers |
| `FormatGrammar.DirectiveReplacedByS` | src/dwarf_string.c:272-387 | the same for strings |
| `FormatGrammar.UnsignedFormats` | src/dwarf_string.c:825-833 | what %u, %x and %X append, with the characters as numbers |
| `FormatGrammar.LongFormats` | src/dwarf_string.c:685-888 | what %llx appends, and 0x%08llx; with the text around it |
| `FormatGrammar.SignedFormats` | src/dwarf_string.c:547-648 | what %d and %+d append, with the signs as numbers |
| `FormatGrammar.TextFormats` | src/dwarf_string.c:272-387 | what %s, %3s and %-3s append |
| `NumberText.DigitsReadBack` | src/dwarf_string.c:590-602 | digits in bases 2 to 16 spell the value |
| `NumberText.DigitsAre` | src/dwarf_string.c:391-399 | which bytes are digits of base 10 and 16, and which are white space, to the reading of numbers |
| `NumberText.NoLeadingZero` | src/dwarf_string.c:590-602 | and are as short as possible |
| `NumberText.SixtyFourBitDigits` | src/dwarf_string.c:835-868 | at most 20 decimal and 16 hexadecimal digits |
| `NumberText.DigitsKeepCase` | src/dwarf_string.c:391-399 | decimal digits are 48 to 57, hexadecimal letters 65 to 70 or 97 to 102 as asked |
| `Paths.PathJoin` | src/dwarf_debuglink.c:222-250 | on two buffers, the result is the join of their texts |
| `Paths.JoinAssociative` | src/dwarf_debuglink.c:222-250 | joining is associative |
| `Paths.JoinEmptyLeft` | src/dwarf_debuglink.c:229-232 | the empty string is a left identity |
| `Paths.JoinEmptyRight` | src/dwarf_debuglink.c:235-239 | but a right identity exactly for strings that are empty or end in a slash |
| `Paths.OneSlashBetween` | src/dwarf_debuglink.c:222-250 | two paths are joined by exactly one slash (47), wherever they have one already |
| `Paths.MyDirLen` | src/dwarf_debuglink.c:252-271 | the directory part ends in the last slash, or is empty when there is none |
| `Paths.SplitIsLossless` | src/dwarf_debuglink.c:402-407 | directory part and base name join to the path they came from |
| `Paths.OriginalFullPathIsJoin` | src/dwarf_debuglink.c:433-444 | the full path the code assembles is the path joined to the working directory, and the path itself when it is absolute |
| `DebugPaths.BuildBuildIdFilename` | src/dwarf_debuglink.c:333-357 | the target is joined with the first byte, a slash, the other bytes, in hexadecimal, and .debug |
| `DebugPaths.BuildIdNameSpells` | src/dwarf_debuglink.c:333-357 | the name character by character: small hexadecimal digits, the high one first, a slash after the first byte, and .debug |
| `DebugPaths.BuildIdNameIsInjective` | src/dwarf_debuglink.c:333-357 | the name determines the build-id |
| `DebugPaths.OwnNameIsNoCandidate` | src/dwarf_debuglink.c:491-498 | an object linked to under its own name is not looked for in its own directory |
| `DebugPaths.OriginalIsFullPath` | src/dwarf_debuglink.c:412-444 | an absolute path is its own full path, any other is looked for in the working directory |
| `DebugPaths.PlacesSpelledOut` | src/dwarf_debuglink.c:457-590 | all places searched, in order and byte by byte, for an absolute path, a plain link name and prefixes without a final slash |
| `DebugPaths.CandidatesAreCStrings` | src/dwarf_debuglink.c:457-590 | no candidate holds a NUL |
| `StringLists.StringList.AddNew` | src/dwarf_debuglink.c:273-312 | the string goes to the end of the linked list, into the first entry or a new one, or leaves an empty entry when memory runs out for the copy; a failed allocation of the entry changes nothing |
| `StringLists.StringList.AddUnless` | src/dwarf_debuglink.c:469-487 | the list grows by the string unless it is the original path |
| `StringLists.StringList.Walk` | src/dwarf_debuglink.c:604-610 | following the links visits all strings, first to last |
| `LinkedToPath.AddBuildIdPaths` | src/dwarf_debuglink.c:457-488 | adds the build-id file under each prefix, in order, but never the original object |
| `LinkedToPath.AddLinkPlaces` | src/dwarf_debuglink.c:489-590 | adds the linked file in the directory, in .debug, and under each prefix, in that order |
| `LinkedToPath.CollectCandidates` | src/dwarf_debuglink.c:378-590 | the list holds the specified candidates unless memory ran out for a buffer, and C strings in any case |
| `LinkedToPath.ConstructLinkedToPath` | src/dwarf_debuglink.c:378-645 | on success the block reads back as the strings of the list, and unless memory ran out for a buffer these are the candidates in search order, or one empty string when there are none; with memory it succeeds, for every absolute path and every relative one whose working directory is known |
| `PathBlock.ImageStep` | src/dwarf_debuglink.c:628-637 | one more string and pointer written over the zeroed block |
| `PathBlock.ImageHolds` | src/dwarf_debuglink.c:593-642 | the finished block reads back: every pointer leads to its string inside the block and past the pointers, none overlap, the slot after the last is null |
| `PathBlock.Pack` | src/dwarf_debuglink.c:593-642 | packing returns such a block for any list of C strings |
| `Debuglink.CheckStringValid` | src/dwarf_debuglink.c:126-169 | true exactly when a NUL ends the string inside the area |
| `Debuglink.ExtractDebuglink` | src/dwarf_debuglink.c:648-723 | out of memory when it is scarce, no entry for an empty section, the error of the read, or what the section says |
| `Debuglink.EncodedIsExtracted` | src/dwarf_debuglink.c:706-721 | name, NUL, padding and CRC are extracted again exactly when the length of the name fits 32 bits |
| `Debuglink.ExtractedIsEncoded` | src/dwarf_debuglink.c:697-721 | every accepted section is such an encoding, of size 4*ceil((namelen+1)/4)+4, with the CRC in its last four bytes |
| `PercentEncoding.DecodeEncode` | src/sanitized.c:140-171 | percent-decoding undoes the encoding |
| `PercentEncoding.EncodeCharIs` | src/sanitized.c:140-171 | bytes 32 to 126 but the percent sign stand for themselves, any other becomes %xx with small digits |
| `PercentEncoding.CutIsFirst` | src/sanitized.c:124-139 | truncation happens at the first byte that finds more than the length less 30 used up |
| `PercentEncoding.SanitizedIsReversible` | src/sanitized.c:238-252 | decoding the result gives back the whole string unless it was truncated, and then the part that was encoded, on both paths |
| `PercentEncoding.WhenNothingIsLost` | src/sanitized.c:124-139 | the whole string comes back if and only if the fast path applies or the encoding of all but its last byte fits the length less 30 |
| `PercentEncoding.SanitizedIsSafe` | src/sanitized.c:238-252 | every byte ever returned is 9, 10 or in 32 to 126 |
| `PercentEncoding.CleanExactly` | src/sanitized.c:183-216 | the strings shown as they are hold only tabs, newlines and bytes 32 to 126 other than 37 |
| `PercentEncoding.FastPathAgrees` | src/sanitized.c:183-216 | where the fast path applies the encoder would give the same text unless there is a tab or a newline |
| `Sanitizer.NoQuestionableChars` | src/sanitized.c:183-216 | the scan decides whether the string can be shown as it is |
| `Sanitizer.Truncate` | src/sanitized.c:127-139 | the message is appended without leaving the buffer, and cut off again |
| `Sanitizer.DoSanityInsert` | src/sanitized.c:117-175 | the buffer holds the encoded prefix and is fit for another call |
| `Sanitizer.Sanitized` | src/sanitized.c:238-252 | returns the string or the buffer as specified, and keeps the buffer fit, so that no sequence of calls writes outside it |
| `Sanitizer.NoNameIsShown` | src/sanitized.c:241-245 | a null pointer is shown as `<no-name!>`, whenever the buffer has 39 bytes |
| `Sanitizer.ZeroedIsReady` | src/sanitized.c:112-116 | a zeroed buffer is fit for the first call |
| `ByteOrder.MemcpySwapBytes` | src/dwarf_object_read_common.c:102-134 | lengths 2, 4 and 8 are reversed, others copied, and nothing else is written |
| `ByteOrder.ValueByteByByte` | src/dwarf_load_elf_headers.c:88-101 | the first byte is the least significant in one order, the last in the other |
| `ByteOrder.FieldLoadIsEndianNeutral` | src/dwarf_load_elf_headers.c:88-101 | a field load gives the value in the file's order on hosts of either order |
| `ByteOrder.StoredRoundTrip` | src/dwarf_object_read_common.c:102-134 | a stored value that fits reads back in the same order |
| `Relocations.LoadSigned32IsTwosComplement` | src/dwarf_reading.h:173-192 | sign extension gives the two's complement value on either host |
| `Relocations.Rela32RoundTrip` | src/dwarf_load_elf_headers.c:1307-1316 | offset, info, symbol, type and signed addend come back |
| `Relocations.Rela64RoundTrip` | src/dwarf_load_elf_headers.c:1352-1379 | the same for 64-bit records on machines with the ordinary layout |
| `Relocations.Mips64RoundTrip` | src/dwarf_load_elf_headers.c:1357-1365 | on little-endian MIPS everything comes back but the first type, which does exactly when it is below 128 or plain chars are unsigned |
| `Relocations.Sparc64RoundTrip` | src/dwarf_load_elf_headers.c:1366-1372 | on SPARCV9 too, but for the flag that there is an addend, which stays clear |
| `Relocations.GenericRelFromRela32` | src/dwarf_load_elf_headers.c:1276-1318 | accepted exactly when made of whole records and smaller than the file; every entry decoded, none beyond touched |
| `Relocations.GenericRelFromRela64` | src/dwarf_load_elf_headers.c:1321-1382 | the same for 64-bit tables |
| `Relocations.Table32RoundTrip` | src/dwarf_load_elf_headers.c:1307-1316 | every entry of an encoded table comes back, in any byte order on any host |
| `Relocations.Table64RoundTrip` | src/dwarf_load_elf_headers.c:1352-1379 | the same for 64-bit tables |
| `BitsOn.GetBitsOnCount` | src/dwarf_load_elf_headers.c:135-154 | the population count plus the number of hexadecimal digits that are 8 |
| `BitsOn.ExactWithoutEights` | src/dwarf_load_elf_headers.c:135-154 | that count is the population count if and only if no hexadecimal digit is 8 |
| `SafeArithmetic.Mult` | src/dwarf_safe_arithmetic.c:117-147 | an error means an overflow, and a product that fits is exact |
| `SafeArithmetic.MultIsExactOnlyWhenSmaller` | src/dwarf_safe_arithmetic.c:135-146 | the error is right in both directions if and only if the product fits or its truncation is neither zero nor as large as the larger factor |
| `SafeArithmetic.DoublingIsExactButForOneNumber` | src/dwarf_safe_arithmetic.c:135-146 | for doubling that means every number but 2^63 |
| `SafeArithmetic.TableSizesAreExact` | src/dwarf_machoread.c:573-576 | the sizes the Mach-O loader computes for its segment and section tables are always exact |
| `SafeArithmetic.MultMissesAnOverflow` | src/dwarf_safe_arithmetic.c:135-146 | some overflows are not noticed: a concrete product |
| `SafeArithmetic.AddIsExactButForOneSum` | src/dwarf_safe_arithmetic.c:151-170 | the error is right in both directions unless the sum is exactly 2^64 |

## Left out

- InUseReport.SpaceAccounts.Sweep: says nothing about areas whose end exceeds 64 bits, which the sweep mistakes for areas near the start of the file.
- InUseReport.SpaceAccounts.InsertInUse: the exit of the program when memory runs out is a result that is false.
- SectionGroups.ElfGroups.SetupAllSectionGroups: a group section with an entry size of zero, by which the code divides, is excluded.
- MachoLoader.MachoFile.LoadMachoCommands: says nothing about the tables after a failure, which callers do not use, and takes the file size to be below 2^63.
- MachoRecords.WhichSectionsAreInside: is about the checks for a non-empty file whose inner offset plus size fits 64 bits.
- LinkedToPath.ConstructLinkedToPath: the buffers are made where they are used instead of all at the start, and are not freed; the block is laid out from the strings after one walk over the list; what the list holds after an append was ignored for lack of memory is said only to be C strings.
- Debuglink.ExtractDebuglink: section contents that were loaded earlier and are read into again are not told apart from new ones.
- Sanitizer.Sanitized: for buffers of at least 30 bytes; the subtraction of 30 would wrap below that.
- StringBuffer.DwarfString.AddTo: the wrap-around of a size_t for lengths near 2^64, and the freeing of the old block.
- All printing, option parsing and the program's entry points: user interface.
- Opening, seeking and reading: `FileAccess.ReadRandom` on a byte sequence stands for them.
- Loading of the ELF and Mach-O headers themselves, universal binaries, and the loading of section contents: straight-line copies and checks.
- Relocation tables without addends, relocation names, and the check of the build-id note: easy variants of what is here.
- Decompression of sections: it belongs to zlib and zstd.
- The PE reader and the object detector: field copies and magic numbers.
- `src/dwarfstring.c`: an older copy of the string buffer.
- Branches for `_WIN32`.
