# Verified models of GNU BFD

This project models five parts of the BFD library and proves what they are for.

- **`ar` archives** (`bfd/archive.c`, `bfd/archive64.c`). The writer computes symbol-map offsets by arithmetic before
  any member is written, builds the long-name table in two passes, and emits headers, contents and padding. The
  reader recovers all of it from bytes. `Bytes`, `ArHeader`, `ArNames`, `ArMap`, `ArMapWriter`, `ArMapReader` and
  `Archive` hold the model; `ArWriter` the writer's loops; `ArMapRoundTrip`, `ArchiveRoundTrip`, `ArchiveOpen`,
  `ArchiveTheorem` and `ArchiveMain` lead to the round trip `ArchiveMain.ArchiveRoundTrips`, which `ArchiveRun` states
  of the code; `ArchiveForeign` is about maps of other archivers, and `ArCache` is the table of opened elements.
- **The a.out final link** (`bfd/aoutx.h`). `AoutSymbols` specifies what writing an input's symbols does to the output
  symbol table, the hash entries and the symbol map, and proves what every step of every run keeps; `AoutFate` tells
  what becomes of each symbol of an input before the walk over them; `AoutCopied` says what each copied symbol holds,
  `AoutValues` what value and type each symbol is written with; `AoutStabs`, `AoutDedup`, `AoutBlocks` and
  `AoutNesting` treat header blocks; `AoutLink` is the code that updates the link's state, proved against that
  specification. `AoutReloc` rewrites relocs and compares partial links with direct ones, `AoutSpace` follows the
  cursors into the space reserved for relocs, and `AoutLayout` lays out text, data and bss.
- **The ARC global offset table** (`bfd/arc-got.h`): `ArcGot`.
- **The two-pass printf** (`bfd/bfd.c`): `DoPrint`, and `DoPrintText` on what it prints in terms of the format's text.
- **The section list** (`bfd/bfd-in2.h`): `SectionList`.

`Words` and `Align` are about wrap-around, signed conversion and rounding up.

A file is a sequence of bytes. Integers are unbounded; where the code relies on or suffers from a machine width, the
width is written out (`U32`, `U64`, `S32`, `S64`). An abort, or a read past the end of a buffer, is an error result.

## Where the code departs from its comments or its purpose

The models follow the code. For each of these one lemma gives the exact condition and another an input that fails:

- The Berkeley map writer counts the contents of thin members, which are not in the file: its offsets are right for a
  thin archive exactly while earlier members are empty (`ArMap.BsdPosRight`, `ArMap.BsdThinWrong`).
- The System 5 and 64-bit map writers do not count the BSD 4.4 names that follow headers (`ArMap.CoffPosRight`). No
  target pairs them with such names, but the Berkeley writer of a BSD 4.4 target falls back to the 64-bit one when an
  offset is past 4 GiB, and then its map is wrong (`ArMapWriter.Bsd64Wrong`).
- The comment in the ZMAGIC layout has the text padded only if the data comes after it, but the pad is unsigned, so it
  is also used when it is negative (`AoutLayout.ZApartIff`, `AoutLayout.ZOverlapExample`).
- An NMAGIC bss gets the address before the padding that was added for it (`AoutLayout.NReachesBssIff`,
  `AoutLayout.NMissesBss`); an OMAGIC padding is cut to an int (`AoutLayout.OReachesBssIff`, `AoutLayout.OMissesBss`).
- N_EXT turns N_WEAKD into N_WEAKB and N_WEAKA into N_WEAKT (`AoutSymbols.OtherTypeRightIff`,
  `AoutSymbols.WeakDataMistyped`).
- A debugging symbol with the type bits of N_INDR, as N_MAIN has, makes the symbol after it keep its old address
  (`AoutCopied.AllMovedIff`, `AoutCopied.AfterStabExact`, `AoutCopied.AfterMain`).
- An N_BINCL that such a symbol has passed through is not looked up, so a block can be written twice
  (`AoutBlocks.WholeLink`, `AoutBlocks.RepeatedByPassing`).
- An N_EXCL in an input is copied whether or not its block is in the link (`AoutBlocks.WholeLink`,
  `AoutBlocks.LoneReference`).
- Keeping symbols by name can break the nesting of header blocks (`AoutNesting.FileNestedIff`,
  `AoutNesting.StripSomeNestedIff`, `AoutNesting.StripSomeBreaks`).
- A partial link does not change the index of a section reloc, not even if the section goes into another one, and does
  not preserve every pc-relative reloc (the `PreservedIff` lemmas of `AoutReloc`; `MisplacedSection`,
  `SlippedSection`, `DefinedChanged` and `UndefinedChanged` there).
- The printf scanner never accepts a format that uses an argument twice (`DoPrint.ScanSucceedsIff`,
  `DoPrint.ReusedExample`).

## Model

| member | source | states |
|---|---|---|
| ArchiveMain.ArchiveRoundTrips | bfd/archive.c:2130-2264 | end to end, for every list of representable members, every symbol map, every name style and every map format, thin archives included: opening the written bytes succeeds, the walk yields exactly the members in order with their names, sizes, dates, owners, modes and contents and then stops, the bytes the reader passes over are as written, and the header read at a map symbol's offset is that of the member that defines it if and only if the map writer reckons right for it (`Leads`) |
| ArchiveMain.MembersBack | bfd/archive.c:2231-2264 | a walk over a file that holds the written members finds each of them, at the position the layout predicts |
| ArchiveMain.CoffBack | bfd/archive.c:2699-2838 | the System 5 map, 32- or 64-bit, is read back, and an offset is the position of the member that defines the symbol if and only if no BSD 4.4 name precedes that member |
| ArchiveMain.Sym64Back | bfd/archive64.c:160-265 | the same for the 64-bit map |
| ArchiveMain.BsdBack | bfd/archive.c:2462-2624 | the Berkeley map is read back, and an offset is the position of the member if and only if the archive is ordinary or all earlier members are empty, or, past 4 GiB, no BSD 4.4 name precedes the member |
| ArchiveMain.OrdinaryLeads | bfd/archive.c:2462-2756 | every symbol of an archive leads to its member, except in thin Berkeley archives and in BSD 4.4 ones whose map is not a 32-bit Berkeley one |
| ArchiveMain.OpensAs | bfd/archive.c:890-925 | opening a written archive leaves its map, its names and the position of its first member |
| ArchiveMain.RestBack | bfd/archive.c:2178-2230 | the bytes of a written archive that its reader passes over: the date, owner and mode of the map, the NULs after its strings, the blank fields of the name table, and the newlines that make sizes even |
| ArchiveRoundTrip.MemberRest | bfd/archive.c:1924-1944 | in the file bytes 16 to 48 of a member's header are its date, owner and mode, and its contents are followed by a newline if their size is odd |
| ArchiveForeign.SecondMapSkipped | bfd/archive.c:1163-1173 | a second System 5 map, as PE archives have, is skipped: the symbols are the first one's and the archive goes on after the second |
| ArchiveForeign.SortedMapFound | bfd/archive.c:1215-1234 | a Berkeley map under the name __.SYMDEF SORTED, as Mach-O archives have, is found and read |
| ArchiveRun.WriteThenRead | bfd/archive.c:2130-2264 | the writer, the opener and the walk run one after the other: the members written are found, and a map symbol leads to its member under that exact condition |
| ArWriter.WriteArchive | bfd/archive.c:2130-2264 | the writer fails exactly when a size does not fit its ten digits, and otherwise writes magic string, map, name table and members byte for byte as specified |
| ArWriter.WriteMembers | bfd/archive.c:2231-2264 | the loop over members writes header, contents and padding of each, or fails exactly when some size does not fit |
| ArWriter.WriteHeader | bfd/archive.c:1791-1841 | both header writers: the size field counts a BSD 4.4 name, which follows the header padded to a multiple of four |
| ArWriter.Construct44 | bfd/archive.c:1748-1787 | BSD 4.4 targets: exactly the names that are too long or contain a space leave the header |
| ArWriter.BuildNames | bfd/archive.c:2180-2188 | the name table, and the name field of every header, for each name style |
| ArWriter.BuildMap | bfd/archive.c:2298-2443 | the symbols are gathered in member order and the map of the target's kind is made of them |
| ArWriter.BuildTable | bfd/archive.c:2200-2222 | the name table's own header and padding |
| ArWriter.CopyContents | bfd/archive.c:2243-2257 | copying through the bounded buffer copies everything |
| ArHeader.SizeFitsIff | bfd/archive.c:221-238 | a size fits the header field if and only if it is below 10^10 |
| ArHeader.ReadHeader | bfd/archive.c:504-643 | reading a header on any bytes: an element, if any, starts at the position asked for and its data lies at least one header further, inside the file |
| ArHeader.ReadPlain | bfd/archive.c:589-622 | a name stored in the header is read back |
| ArHeader.ReadTabled | bfd/archive.c:452-484 | a reference into the name table is read back as the string at that offset |
| ArHeader.ReadBsd44 | bfd/archive.c:557-587 | a BSD 4.4 name is read back and subtracted from the size |
| ArHeader.ParsePrintedSize | bfd/archive.c:535-543 | printing a size and scanning it is the identity |
| ArHeader.NumbersRead | bfd/archive.c:452-565 | what the reader makes of the numbers in a name field: strtol refuses what a long cannot hold, and atoi cuts to 32 bits with their sign |
| ArNames.ConstructTable | bfd/archive.c:1562-1742 | both passes together: the table is exactly the specified one, every header field is what the name calls for, and the traditional format gets no table |
| ArNames.SizeTable | bfd/archive.c:1578-1657 | the sizing pass computes exactly the length of the table |
| ArNames.FillTable | bfd/archive.c:1671-1738 | the filling pass writes exactly the bytes that were reserved, including the reuse of a repeated path in thin archives |
| ArNames.FillOne | bfd/archive.c:1700-1737 | one member of the filling pass: its entry and the offset its header refers to |
| ArNames.FixShortName | bfd/archive.c:1641-1657 | short names are put back into the header unless they are already in normal form |
| ArNames.EntryAtOffset | bfd/archive.c:1716-1735 | every member that uses the table finds its own name at its offset |
| ArNames.FixNamesInPlace | bfd/archive.c:1312-1330 | the in-place rewriting of newlines, slashes and backslashes |
| ArNames.LookupEntry | bfd/archive.c:1312-1330 | after the rewriting, the entry is a C string equal to the name stored |
| ArNames.TableNamesBack | bfd/archive.c:452-484 | build, pad, rewrite, look up: every member gets its name back |
| ArMap.CoffPosRight | bfd/archive.c:2726-2753 | the System 5 and 64-bit map writers and the contents writer agree on a member's position if and only if no BSD 4.4 name precedes it |
| ArMap.BsdPosRight | bfd/archive.c:2484-2502 | the Berkeley map writer agrees with the contents writer, for thin archives if and only if all earlier members are empty |
| ArMap.BsdThinWrong | bfd/archive.c:2494-2500 | a thin archive of two members on a Berkeley target, with the positions its map and its 64-byte name table give, for which the map is wrong |
| ArMap.CoffPosEven | bfd/archive64.c:221-243 | the System 5 and 64-bit writers reckon the same positions, always even |
| ArMap.Collect | bfd/archive.c:2335-2432 | the gathering loop: exactly the wanted symbols, in member order, with their string offsets |
| ArMap.CollectedIsGood | bfd/archive.c:2375-2430 | what it gathers is in member order, and string offsets are the lengths of what precedes |
| ArMap.CollectedExactly | bfd/archive.c:2375-2430 | the map has exactly the exported and common symbols that are not undefined, each with its name and member, in order |
| ArMapWriter.CoffPrepass | bfd/archive.c:2726-2756 | the pre-pass switches formats if and only if some symbol's offset is at least 2^32 |
| ArMapWriter.CoffEmit | bfd/archive.c:2786-2816 | the emitting loop writes one offset per symbol, and its truncation error occurs exactly past 4G |
| ArMapWriter.CoffWriteArmap | bfd/archive.c:2699-2838 | so it never occurs after the pre-pass: the writer always succeeds, in the format the offsets call for |
| ArMapWriter.Sym64WriteArmap | bfd/archive64.c:160-265 | the 64-bit writer |
| ArMapWriter.Sym64Emit | bfd/archive64.c:221-243 | its loop writes exactly one offset per symbol |
| ArMapWriter.BsdPrepass | bfd/archive.c:2483-2515 | the Berkeley pre-pass, as exact |
| ArMapWriter.BsdEmit | bfd/archive.c:2559-2597 | the Berkeley emitting loop |
| ArMapWriter.BsdWriteArmap | bfd/archive.c:2462-2624 | the Berkeley writer never reports truncation |
| ArMapWriter.Bsd64Wrong | bfd/archive.c:2505-2512 | a 4 GiB member with a long BSD 4.4 name before another one: the Berkeley writer falls back to the 64-bit map, whose offset is short by the length of that name |
| ArMapReader.CoffSlurpArmap | bfd/archive.c:1067-1181 | reading a System 5 map from any bytes, with every error case and the second PE map |
| ArMapReader.Sym64SlurpArmap | bfd/archive64.c:38-151 | reading a 64-bit map from any bytes |
| ArMapReader.BsdSlurpArmap | bfd/archive.c:981-1063 | reading a Berkeley map from any bytes, including string offsets out of range |
| ArMapRoundTrip.CoffMapBack | bfd/archive.c:1067-1181 | slurping a written System 5 map gives back the names and offsets, and the position after the padded map |
| ArMapRoundTrip.Sym64MapBack | bfd/archive64.c:94-143 | the same for the 64-bit map |
| ArMapRoundTrip.BsdMapBack | bfd/archive.c:981-1061 | the same for the Berkeley map |
| Archive.WalkIsBounded | bfd/archive.c:852-880 | on every byte string, with 64-bit wrap-around: headers are at least 60 bytes apart, so at most filesize/60 members are returned |
| Archive.WalkArchive | bfd/archive.c:852-880 | opening next elements until it fails terminates and returns the specified walk |
| Archive.ReaderIsGood | bfd/archive.c:504-643 | the header reader moves forward and stays inside the file, whatever the bytes |
| Archive.SlurpNameTable | bfd/archive.c:1253-1340 | reading the name table from any bytes, and the position of the first member |
| ArchiveOpen.OpenArchiveFile | bfd/archive.c:890-925 | opening an archive from any bytes |
| ArchiveOpen.SlurpMap | bfd/archive.c:1187-1238 | which of the map readers applies |
| ArchiveOpen.NamesSlurped | bfd/archive.c:1253-1340 | a written name table is slurped, and skipped with its padding |
| ArchiveOpen.ShortNotSpecial | bfd/archive.c:1196-1209 | a representable name in a header is never taken for a map or a name table |
| ArchiveTheorem.CoffSlurped | bfd/archive.c:1187-1238 | a System 5 map after the magic string is found and read |
| ArchiveTheorem.Sym64Slurped | bfd/archive.c:1187-1238 | the same for a 64-bit map |
| ArchiveTheorem.BsdSlurped | bfd/archive.c:1187-1238 | the same for a Berkeley map |
| ArchiveTheorem.NoMapSlurped | bfd/archive.c:1187-1238 | without a map none is found, whatever the first member |
| ArchiveTheorem.RestOpens | bfd/archive.c:1253-1340 | after the map, the name table and the first member's position are recovered |
| ArchiveRoundTrip.MemberBack | bfd/archive.c:504-643 | every written member is read back from its place with its contents |
| ArchiveRoundTrip.BlocksWalk | bfd/archive.c:852-880 | blocks laid one after the other are walked in order, and the walk stops at the end |
| ArCache.ArchiveFile.GetEltAtFilepos | bfd/archive.c:674-799 | a lookup returns the element a fresh parse at that position would give, the cached one if there is one; exactly when it fails; what is cached after it |
| ArCache.ArchiveFile.OpenNext | bfd/archive.c:852-880 | the next element, through the cache |
| ArCache.ArchiveFile.Close | bfd/archive.c:2859-2880 | unlinking removes exactly the element's own slot, and the run-time assertion that the slot holds the element always holds |
| ArCache.ArchiveFile.CloseCached | bfd/archive.c:2900-2911 | closing the archive closes every cached element once |
| ArCache.ArchiveFile.OneLiveElementPerPosition | bfd/archive.c:373-399 | in every reachable state, at most one live element is linked for a position |
| ArCache.WalkElements | bfd/archive.c:838-880 | whatever the cache holds, a walk through it returns exactly what re-reading would, up to the first member of a nested archive |
| ArCache.NoneNested | bfd/archive.c:706-729 | that is all of it in an archive without nested members |
| AoutSymbols.RunKeeps | bfd/aoutx.h:5430-5600 | between any two steps of any run: an entry with an index is written, its slot holds it, no two entries share a slot; from any step on no index changes and no symbol is lost |
| AoutSymbols.WriteSymbolsKeeps | bfd/aoutx.h:4784-5262 | one input file keeps that, and every cell of its symbol map is negative or the index of an output symbol of the right name |
| AoutSymbols.StepKeeps | bfd/aoutx.h:4839-5245 | one symbol keeps that |
| AoutSymbols.WriteOtherKeeps | bfd/aoutx.h:3590-3707 | so does a symbol no input wrote |
| AoutSymbols.ForceKeeps | bfd/aoutx.h:4430-4452 | so does a stripped symbol that is needed after all; it gets the next index unless the link knows nothing of it |
| AoutSymbols.RelocIndexRight | bfd/aoutx.h:3749-3763 | a reloc whose symbol was not copied gets the index of an output symbol of that name |
| AoutSymbols.OtherTypeRightIff | bfd/aoutx.h:3645-3664 | the type written for a defined symbol names its section if and only if it is not a weak data or absolute symbol |
| AoutSymbols.WeakDataMistyped | bfd/aoutx.h:3652-3663 | a weak data symbol, written with the type of a weak bss symbol |
| AoutLink.FinalLink.WriteSymbols | bfd/aoutx.h:4784-5262 | the loop over an input's symbols, with its symbol map and hash pointers updated in place, and symoff at the symbol position plus twelve times the count after it |
| AoutLink.FinalLink.CopySymbol | bfd/aoutx.h:4849-4884 | one round: marked symbols, pass-through and skipping |
| AoutLink.FinalLink.NamedSymbol | bfd/aoutx.h:4886-5245 | one round: resolution, stripping, value and type, discarding, header blocks |
| AoutLink.FinalLink.HeaderSymbol | bfd/aoutx.h:5119-5217 | the N_BINCL case |
| AoutLink.FinalLink.Include | bfd/aoutx.h:5163-5184 | looking a block up by name and total, and entering it if new |
| AoutLink.FinalLink.ResolveEntry | bfd/aoutx.h:4901-4912 | following indirect and warning entries to the base symbol |
| AoutLink.FinalLink.WriteOther | bfd/aoutx.h:3590-3707 | writing a symbol no input wrote |
| AoutLink.FinalLink.RelocIndex | bfd/aoutx.h:4430-4462 | the index of a reloc's symbol |
| AoutLink.FinalLink.RunActions | bfd/aoutx.h:5460-5580 | any run of these steps |
| AoutLink.FinalLink.StringTable | bfd/aoutx.h:5603-5607 | the string table starts exactly where the symbols end |
| AoutFate.WritesAsTold | bfd/aoutx.h:4784-5262 | the symbols a file adds to the output, told before the walk from the file, the table of totals and the written flags of the hash entries: its name, then each symbol that is not dropped, skipped, stripped, discarded or written already, in order, as it stands or as its image |
| AoutFate.TableAsTold | bfd/aoutx.h:5163-5189 | the table of totals after a file holds what it held before and the totals of the kept blocks that are handled for themselves |
| AoutFate.StepAt | bfd/aoutx.h:4839-4880 | at every symbol the table of totals, the written flags, the cells marked ahead and the pass and skip flags are as told |
| AoutFate.StepDoes | bfd/aoutx.h:4839-5245 | one symbol: what is written, what happens to the next symbol, which cells are marked and which entry becomes written |
| AoutFate.OneWay | bfd/aoutx.h:4849-4880 | a symbol is dropped, passed through or skipped, and never two of these |
| AoutBlocks.WholeLink | bfd/aoutx.h:5440-5600 | from the start of a link, for every order of its steps and every input: the symbol table is right, each block of a name and total is expanded at most once if and only if no start that is passed through has its block started elsewhere too, and all references follow their blocks if and only if each copied N_EXCL has an earlier start of its block in its own input or one before |
| AoutBlocks.PlainLink | bfd/aoutx.h:5119-5217 | if no header mark directly follows a symbol that redirects: each block is expanded at most once, and all references follow their blocks if and only if each copied N_EXCL has an earlier kept N_BINCL of its name with its value as the total |
| AoutBlocks.RunTable | bfd/aoutx.h:5163-5189 | after any number of steps the table of totals holds what it held at the start and exactly the blocks that earlier inputs started |
| AoutBlocks.UptoShown | bfd/aoutx.h:5163-5245 | before any symbol of any input, the blocks written out are exactly those started by earlier symbols |
| AoutBlocks.RepeatedByPassing | bfd/aoutx.h:4866-4872 | N_MAIN and then an N_BINCL of a block that is there already: it is passed through and the block is repeated |
| AoutBlocks.LoneReference | bfd/aoutx.h:5220-5245 | an N_EXCL whose block no file of the link contains: copied, and following nothing |
| AoutDedup.RunBlocks | bfd/aoutx.h:5119-5217 | any run from any state: uniqueness and backing of the output, as conditions on each file as it is met |
| AoutDedup.FileBlocks | bfd/aoutx.h:4784-5262 | one input file, whatever it holds: blocks stay unique if and only if none is repeated by one that is passed through, and all references follow their blocks if and only if the copied ones do |
| AoutDedup.UniqueIff | bfd/aoutx.h:5163-5217 | the same after each symbol of the file, with exactly the blocks that are then written out |
| AoutDedup.BackedIff | bfd/aoutx.h:5186-5193 | a reference that the link makes always follows its block |
| AoutNesting.FileNestedIff | bfd/aoutx.h:4784-5262 | a file leaves the output well nested if and only if its surviving marks are, whatever is stripped |
| AoutNesting.StripSomeNestedIff | bfd/aoutx.h:4935-4939 | symbols kept by name, ends of one name: nesting is kept if and only if the ends are kept with all starts, or without the ends no start is kept but duplicates |
| AoutNesting.StripSomeBreaks | bfd/aoutx.h:4935-4939 | a block kept by its name, with an end that is not: the output is not well nested |
| AoutNesting.EndsKeptIff | bfd/aoutx.h:4924-4950 | if all ends are kept, nesting is kept if and only if all starts are |
| AoutNesting.EndsLostNest | bfd/aoutx.h:4924-4950 | if no end is kept, exactly the starts that survive are left open |
| AoutNesting.AlikeWellNested | bfd/aoutx.h:5186-5215 | a well-nested file whose blocks keep both marks or neither leaves well-nested marks |
| AoutNesting.WholeStabsAlike | bfd/aoutx.h:4924-4950 | so it is unless symbols are kept by name, if no mark directly follows a symbol that redirects |
| AoutNesting.RunNested | bfd/aoutx.h:5440-5600 | over any run of such files the output is well nested |
| AoutNesting.PlainNested | bfd/aoutx.h:4924-4950 | from the start of a link: well-nested inputs without marks after redirecting symbols give a well-nested output, unless symbols are kept by name |
| AoutNesting.EndOf | bfd/aoutx.h:5131-5138 | an end belongs to the innermost open block and to no other |
| AoutCopied.SectionSymbolHeld | bfd/aoutx.h:4951-5080 | after all symbols of a file, the slot of a copied section symbol holds its address moved with its section, or its old one if it was passed through |
| AoutCopied.AllMovedIff | bfd/aoutx.h:4951-5080 | all copied section symbols of a file move with their sections if and only if none of a section that moves is passed through, which is told before the walk from the file, the table of totals and the written flags of the hash entries |
| AoutCopied.LocalPassed | bfd/aoutx.h:4964-4979 | the symbol after a local one is passed through if and only if that one has the type bits of N_INDR or is N_WARNING, is written, and is itself neither dropped nor passed through nor skipped |
| AoutCopied.PlainFileMoves | bfd/aoutx.h:4866-4872 | so they do in a file without symbols of N_INDR's type bits or N_WARNING |
| AoutCopied.AfterStabExact | bfd/aoutx.h:4964-4979 | of two kept debugging symbols in a row, the second is copied as it stands if the first has N_INDR's type bits, and moves otherwise |
| AoutCopied.AfterMain | bfd/aoutx.h:4964-4979 | N_MAIN has these bits: an N_FUN after it keeps its old address |
| AoutCopied.StepPasses | bfd/aoutx.h:4964-4979 | when exactly the next symbol is passed through |
| AoutStabs.AddName | bfd/aoutx.h:5147-5159 | the character sum of a name without the digits after an open parenthesis, modulo 2^64 |
| AoutStabs.FileNumberIgnored | bfd/aoutx.h:5147-5159 | digits right after a parenthesis add nothing to a name's sum, and all other characters do |
| AoutStabs.TotalRenumbered | bfd/aoutx.h:5131-5162 | so blocks that differ only in file numbers have the same total |
| AoutStabs.HeaderTotal | bfd/aoutx.h:5131-5162 | the total of a block: over its own symbols, blocks inside it left out |
| AoutStabs.TotalIsOwnedSum | bfd/aoutx.h:5131-5215 | the summing walk and the marking walk agree: the total is over exactly the symbols a duplicate drops |
| AoutStabs.MarkHeader | bfd/aoutx.h:5190-5215 | a duplicate block's own symbols and its end are marked, and nothing else |
| AoutReloc.RewriteRelocs | bfd/aoutx.h:4331-4523 | the in-place rewriting loop of a relocatable link: each reloc moves with its section; one against a defined symbol gets that symbol's section for an index, one against any other symbol the symbol map's, and one against a section keeps its own |
| AoutReloc.SectionRelocPreservedIff | bfd/aoutx.h:4485-4520 | section relocs: partial link and then final link store what one direct link stores if and only if the final link moves the section of the index as far as the one its contents went to, and the reloc does not slip |
| AoutReloc.SameKindPreservedIff | bfd/aoutx.h:4485-4520 | for a section that keeps its kind, if and only if the reloc does not slip: pc-relative with pcrel_offset, in a section that gets another address |
| AoutReloc.MisplacedSection | bfd/aoutx.h:4485-4497 | a plain reloc against data that a partial link puts into the text is changed |
| AoutReloc.SlippedSection | bfd/aoutx.h:4499-4511 | a pc-relative reloc with pcrel_offset that slips |
| AoutReloc.DefinedRelocPreservedIff | bfd/aoutx.h:4385-4425 | external relocs made section relocs: when exactly the value is preserved |
| AoutReloc.DefinedChanged | bfd/aoutx.h:4412-4425 | one that is changed |
| AoutReloc.UndefinedRelocPreservedIff | bfd/aoutx.h:4426-4475 | external relocs that stay external, whose symbol the final link looks up by the index that the partial link wrote: when exactly the value is preserved |
| AoutReloc.UndefinedChanged | bfd/aoutx.h:4464-4475 | one that is changed |
| AoutReloc.ZeroVmaPreservedIff | bfd/aoutx.h:4533-4619 | with sections at address zero and no pcrel_offset, every reloc is preserved but a section reloc whose section goes astray |
| AoutReloc.RewriteChain | bfd/aoutx.h:4485-4520 | any number of partial links rewrites a section reloc as one with summed offsets does, but for the drift of its section |
| AoutReloc.RewriteChainIff | bfd/aoutx.h:4485-4520 | so the rewritten relocs are the same if and only if that drift is zero |
| AoutReloc.ChainPreservedIff | bfd/aoutx.h:4565-4619 | a final link after any number of partial ones stores what one direct link stores if and only if drift and slip cancel |
| AoutReloc.NoDrift | bfd/aoutx.h:4485-4497 | sections that keep their kind do not drift |
| AoutReloc.IndexBack | bfd/aoutx.h:3929-3942 | the section index a defined external reloc gets names its output section |
| AoutReloc.IndexNames | bfd/aoutx.h:3929-3942 | which section the type bits of an index name |
| AoutReloc.FinalStores | bfd/aoutx.h:4524-4619 | what a final link stores for an external reloc: the symbol's address and the addend, less the section's or the word's own address if it is pc-relative |
| AoutReloc.SectionRelocMeans | bfd/aoutx.h:4565-4619 | a section reloc stores what an external one against a symbol in that section does |
| AoutReloc.SpotPreserved | bfd/aoutx.h:4519-4523 | both ways relocate the same word of the output section, in the same way |
| AoutValues.OtherWritten | bfd/aoutx.h:3590-3700 | whether a symbol no input wrote is written, and which: a definition with the address a final link stores for a word against it, as far from a section symbol of its section as in the input; a common symbol with its size; an undefined one with zero |
| AoutValues.GlobalWritten | bfd/aoutx.h:4985-5080 | a global symbol copied from an input gets the value of its base symbol in the hash table likewise, and a type that names the section, except for weak data and absolute ones with N_EXT |
| AoutValues.LocalWritten | bfd/aoutx.h:4993-5020 | a local symbol of no section: a set element moves with its section, any other is written as zero |
| AoutValues.OutputAt | bfd/aoutx.h:5220-5245 | where in the output the symbol written for an input's symbol is |
| AoutValues.WrittenIff | bfd/aoutx.h:4924-5115 | a symbol that is handled for itself is written if and only if neither its type nor its name is stripped or discarded |
| AoutValues.AllStripped | bfd/aoutx.h:4924-4930 | when everything is stripped an input adds nothing to the output |
| AoutValues.FileSymbolIs | bfd/aoutx.h:4807-4830 | the symbol that names the object file stands where its text begins in the output, and is there unless stripped or discarded |
| AoutValues.UndefinedByName | bfd/aoutx.h:4426-4462 | with the index that the link gives an undefined symbol, a final link that knows the output's symbols by name treats the reloc as the direct link does, except exactly for a pc-relative one from a section that changed its address |
| AoutSpace.RelocSpace.LinkInput | bfd/aoutx.h:4758-4775 | an input's relocs are written once, and both run-time assertions hold |
| AoutSpace.RelocSpace.LinkInputs | bfd/aoutx.h:5520-5552 | the pass over all link orders handles exactly the inputs they mention, each once |
| AoutSpace.RelocSpace.RelocLinkOrder | bfd/aoutx.h:3910-3922 | one linker-made reloc stays within its region |
| AoutSpace.RelocSpace.LinkRelocOrders | bfd/aoutx.h:5560-5580 | after all link orders, text relocs end before data relocs and data relocs before symbols |
| AoutSpace.RelocSpace.WithinRegions | bfd/aoutx.h:5368-5429 | in every state of the link both cursors are inside the regions reserved |
| AoutSpace.UsedAllIff | bfd/aoutx.h:5368-5429 | the reservation is used up if and only if every input with relocs is handled and marked |
| AoutLayout.AdjustO | bfd/aoutx.h:904-960 | OMAGIC: the layout assigned step by step |
| AoutLayout.AdjustN | bfd/aoutx.h:1070-1109 | NMAGIC: likewise |
| AoutLayout.AdjustZ | bfd/aoutx.h:963-1067 | ZMAGIC: likewise |
| AoutLayout.ZTextEndAlignedIff | bfd/aoutx.h:985-1020 | the address after the padded text is page aligned exactly when the text address is the user's, or its default is a page multiple, or it is zero and does not count the header |
| AoutLayout.ZApartIff | bfd/aoutx.h:1022-1037 | header, text and data do not overlap in the file, except exactly if a contiguous target has data placed by the user below the text's end, or the disk block is smaller than the header |
| AoutLayout.ZOverlapExample | bfd/aoutx.h:1029-1036 | such an overlap: the pad is unsigned, although the comment has it used only if positive |
| AoutLayout.ZSamePhase | bfd/aoutx.h:1022-1037 | text and data are displaced alike modulo the page size, so that one mapping serves both |
| AoutLayout.ZDataSizes | bfd/aoutx.h:1046-1066 | a_data is a page multiple, and a_data + a_bss is the larger of a_data and data plus bss when the bss abuts |
| AoutLayout.ZPlaced | bfd/aoutx.h:963-1067 | ZMAGIC: the user's addresses are kept, and what has none follows what comes before it |
| AoutLayout.ZTextSize | bfd/aoutx.h:1022-1045 | the text size in the header is the distance between text and data in the file, with the header if that counts |
| AoutLayout.OReachesBssIff | bfd/aoutx.h:904-960 | OMAGIC: the user's addresses are kept, file ranges are consecutive, and the data reaches the bss, and its memory the end of the bss, if and only if the hole between them, by the inputs, fits a non-negative int |
| AoutLayout.NReachesBssIff | bfd/aoutx.h:1070-1109 | NMAGIC: file ranges are consecutive, and the bss address is where padded data ends, and memory ends with the bss, if and only if no padding was needed |
| AoutLayout.NPlaced | bfd/aoutx.h:1070-1109 | NMAGIC: the user's addresses are kept, and the data starts at the next segment |
| AoutLayout.OMissesBss | bfd/aoutx.h:946-955 | a bss 2^31 bytes away that the padding, cut to an int, does not reach |
| AoutLayout.NMissesBss | bfd/aoutx.h:1094-1105 | a bss whose address is not where the padded data ends |
| Align.BfdAlignRounds | bfd/bfd-in2.h:149-159 | BFD_ALIGN gives the least multiple that is not below |
| Align.AlignPowerRounds | bfd/bfd-in2.h:149-150 | so does align_power |
| Align.BfdAlignWraps | bfd/bfd-in2.h:149-159 | at the top of the address space BFD_ALIGN gives all ones |
| ArcGot.Got.FillGotInfo | bfd/arc-got.h:217-264 | a request for a new kind appends one entry, one slot of four or eight bytes and its relocs; any other request changes nothing |
| ArcGot.Got.Allocate | bfd/elf32-arc.c:2795-2799 | the contents are allocated, all zero, once the size is known |
| ArcGot.Got.AddSymbolRef | bfd/arc-got.h:199-215 | one word, and the space of one reloc if needed |
| ArcGot.Got.Relocate | bfd/arc-got.h:325-452 | an entry that is resolved at link time is filled once: its words are the symbol's address or TLS offsets, or stay zero for an undefined weak symbol; no other byte changes, and what was filled before stays |
| ArcGot.Got.CreateDynRelocs | bfd/arc-got.h:455-540 | an entry's relocs are emitted at most once and fit the reservation |
| ArcGot.Got.EmitRelocs | bfd/arc-got.h:464-538 | which relocs an entry gets, for every kind, pic setting and dynamic index |
| ArcGot.Got.CreateForSymbol | bfd/arc-got.h:542-558 | all entries of a symbol |
| ArcGot.Got.EntriesApart | bfd/arc-got.h:79-127 | in every reachable state: a symbol has one entry per kind, and any two entries have disjoint bytes |
| ArcGot.Got.EntriesCover | bfd/arc-got.h:199-263 | every byte of the grown part belongs to an entry |
| ArcGot.Got.RelocsFit | bfd/arc-got.h:455-540 | in every reachable state: emitted relocs never exceed the reservation, each is for a word of the table, and no two for the same |
| ArcGot.GotEntryForType | bfd/arc-got.h:79-92 | finding the entry of a kind |
| ArcGot.NewGotEntryToList | bfd/arc-got.h:94-127 | appending an entry unless one of its kind is there |
| ArcGot.TiledCovers | bfd/arc-got.h:199-217 | slots allocated one after the other tile the grown part |
| ArcGot.RoomFor | bfd/arc-got.h:455-540 | what an entry emits is at most what was counted when it was made |
| ArcGot.EmitsWhat | bfd/arc-got.h:455-540 | which relocs an entry gets, of which type, against which symbol and with which addend |
| ArcGot.CostUsedIff | bfd/arc-got.h:455-540 | what was counted for an entry is used up if and only if it is not a normal one that needs no reloc after all |
| ArcGot.FilledHolds | bfd/arc-got.h:335-440 | the words that filling an entry leaves: a symbol's address, its offset from the thread pointer, or its offset in its module after a zero |
| DoPrint.ScanSucceedsIff | bfd/bfd.c:1300-1496 | the scan succeeds if and only if the format is well formed and asks for each of 0..n-1, n at most nine, exactly once |
| DoPrint.ReusedRefused | bfd/bfd.c:1473-1493 | so a format that asks twice for one argument is never accepted |
| DoPrint.ReusedExample | bfd/bfd.c:1300-1496 | such a format, well formed |
| DoPrint.PrintsTheVarargs | bfd/bfd.c:1031-1296 | then printing through the scanned array prints every vararg at its position with the kind asked for, as if read directly |
| DoPrint.PrintFormat | bfd/bfd.c:1498-1507 | scan and print together |
| DoPrint.Scan | bfd/bfd.c:1300-1496 | the scanner, against its specification |
| DoPrint.ScanDirective | bfd/bfd.c:1320-1470 | one directive of the scanner |
| DoPrint.Fetch | bfd/bfd.c:1473-1493 | the loop that fetches the arguments |
| DoPrint.Print | bfd/bfd.c:1031-1296 | the printer, against its specification |
| DoPrint.PrintDirective | bfd/bfd.c:1058-1290 | one directive of the printer: its specifier, argument and kind |
| DoPrint.ScanHolds | bfd/bfd.c:1473-1493 | after a successful scan the array holds for each request the vararg at its position |
| DoPrint.UnnumberedAccepted | bfd/bfd.c:1300-1496 | a format without argument numbers is accepted if and only if it asks for at most nine |
| DoPrintText.PrintedAsWritten | bfd/bfd.c:1031-1296 | what comes out is the format piece by piece: text as it stands, a percent sign for two, and each directive without its argument number, with its stars replaced by the decimal varargs asked for, and with the vararg asked for last |
| DoPrintText.FormatBack | bfd/bfd.c:1031-1296 | without argument numbers and stars the texts printed for are, put together, the format |
| DoPrintText.SpecifierSpells | bfd/bfd.c:1058-1175 | a directive's specifier and suffix are its slice of the format, character by character |
| DoPrintText.NumberIsDecimal | bfd/bfd.c:1096-1110 | a star's text is the decimal form of its value |
| DoPrintText.SuffixIs | bfd/bfd.c:1234-1286 | the character after %p that says what to print is kept from printf |
| DoPrintText.KindsAre | bfd/bfd.c:1176-1290 | the kinds of argument the conversions take |
| SectionList.Bfd.Remove | bfd/bfd-in2.h:2489-2502 | removing a section removes it from the sequence and keeps next, prev, head and tail consistent |
| SectionList.Bfd.Append | bfd/bfd-in2.h:2504-2519 | appending |
| SectionList.Bfd.Prepend | bfd/bfd-in2.h:2521-2536 | prepending |
| SectionList.Bfd.InsertAfter | bfd/bfd-in2.h:2538-2549 | inserting after a section |
| SectionList.Bfd.InsertBefore | bfd/bfd-in2.h:2551-2562 | inserting before a section |
| SectionList.Bfd.RemovedFromList | bfd/bfd-in2.h:2564-2568 | true exactly for the sections not in the list, although they keep their stale pointers |

## Left out

- Nested archives inside thin ones, and relative paths: a thin member that refers into another archive cannot be opened here.
- ArCache.ArchiveFile.GetEltAtFilepos: whether a thin member's own file can be opened is a parameter; copying of flags to the element is not modelled.
- ArHeader.ReadHeader: the variant with a second magic string is not modelled.
- ArNames.ConstructTable: the normalisation of file names is a parameter, and the truncating name writers of BSD and GNU are not modelled.
- ArNames.FillTable: the form offset:origin, for members of archives flattened into a thin one, is not modelled.
- ArNames.FillOne: likewise.
- ArWriter.WriteArchive: names are taken as normalised; dates, owners and modes are 32 given bytes; a first member called `__.SYMDEF` is not dropped; the armap timestamp is not updated.
- ArWriter.BuildMap: reading each member's symbols is replaced by given symbols, and the plugin and slim-LTO checks are not modelled.
- ArchiveMain.ArchiveRoundTrips: symbol names are NUL-free; the map, its strings and the name table are below 4 GiB and the file below 2^63 bytes.
- ArchiveOpen.OpenArchiveFile: the check that the first object of an archive with a map is for this target is not modelled.
- HP-UX and VMS archive variants, and `ranlib` date checks.
- AoutSymbols.RunKeeps: dynamic objects and back-end hooks, and writing the string table are not modelled; names stand in place of string table indices.
- AoutSymbols.WriteSymbolsKeeps: symbol values are those handed to the word writer, before truncation to 32 bits.
- AoutFate.WritesAsTold: types are bytes and debugging symbols have no hash entries, which is how the link's first pass leaves them (`bfd/aoutx.h:3036-3041`).
- AoutReloc.RewriteRelocs: base-relative relocs (RELOC_BASE10, BASE13, BASE22) and the byte packing of reloc records are not modelled; the index of an undefined symbol comes from a map without gaps, which AoutSymbols.RelocIndexRight provides.
- AoutReloc.ZeroVmaPreservedIff: the value is the one handed to `_bfd_relocate_contents`, whose shifting, masking and overflow checks are not modelled.
- Standard (non-extended) relocs, and the CRIS and ns32k variants.
- AoutLayout.AdjustZ: the choice among the three magic numbers is not modelled.
- AoutLayout.ZApartIff: holds for sizes and addresses below 2^59, where no sum wraps around.
- AoutSpace.RelocSpace.LinkInputs: section contents are not modelled, and only relocatable links write relocs.
- ArcGot.Got.FillGotInfo: the linked lists of entries are sequences, so sharing of nodes is not captured; recording a symbol as dynamic always succeeds, and its index is a parameter of the later phases.
- ArcGot.Got.Relocate: the write of a non-pic GOT word in `bfd/elf32-arc.c`, and lists shared by indirect symbols, are not modelled.
- DoPrint.Print: the callback prints all it is given; what `%pA` and `%pB` print of a section or file, the return value, and the capacity of the specifier buffer are not modelled.
- DoPrint.Scan: only hosts without the I64 length modifier.
- SectionList.Bfd.Remove: section counts and target indices are not part of the list.
- The PLT of ARC, core files, architecture tables, and the gas passes described in the repository's README: declarations, tables or code that is not in the library.
- File I/O, memory allocation and error messages.
