# Models and proofs for the linker and object-file code

This project models the parts of the repository with the most state and arithmetic, and proves what they
promise: the a.out final link, the archive writer and reader, in-memory files, the two format-string walkers,
the section list, the ARC GOT allocator, and the olnk layout and relocation core. `dafny verify dfyconfig.toml`
checks everything.

Each loop that changes something step by step is a method on a class, an array or a field, proved equal to a
pure function of its inputs or of the old state; the theorems are lemmas about those functions, and loops'
postconditions carry them over to the methods. Numbers are unbounded unless the source's width matters; where
it does, wrap-around and truncation are written out (`% U64`, `Plus`, `Unsigned`, `ToInt`).

| file | what it models |
|---|---|
| Basics, AoutTypes | optional values, bytes, machine words; the types of a.out symbols |
| AoutSymbols, LinkRuns, FinalLink | the symbol pass of the a.out final link: one turn of the loop over an input file's symbols, whole links as runs over events, and the imperative loops with their buffer and position in the file |
| SymbolRecords | what every record of a link says, in terms of the sections, hash entries and options |
| HeaderGroups, GroupSteps, GroupRuns | the groups of stabs headers: which symbols belong to one, what a file and a whole link do to them |
| AoutRelocate, SectionRelocs | extended relocation records through a relocatable link and a final link, one record and a whole section |
| AoutLayout, Alignment | the OMAGIC, NMAGIC and ZMAGIC layouts, in 64-bit words |
| RelocRecords | standard, extended and ns32k relocation records, written and read |
| FormatWalkers | the walk that finds out which arguments a format needs, and the one that prints, with the specifiers it hands on |
| MemoryFile | a growable buffer behind a position, nested archive elements, and the sequence of calls to the stream |
| SectionList | doubly linked lists of sections, several at a time, with the stale pointers of removed sections |
| ArchiveBytes, LongNames, ArchiveMembers, ArchiveReader | archive fields, the table of long names, members, and the iteration over them |
| ArchiveNames, NamedArchives | names in headers, cut, padded or put after them; names followed through a whole archive |
| ArchiveMap, ArchiveMapWriter, ArchiveMapReader | the symbol map in its three formats |
| ArchiveWhole, ArchiveRoundTrip | whole archives written and opened, and the way from what is written to what is found |
| ArcGot, GotRuns, GotRelocs | GOT lists, slots, reserved relocations of the ARC linker, and the relocations that each entry ends with |
| StableSort, OutputLayout, ComputeOffsets, RelocationPlan | the olnk layout builder, its second offset pass, and the relocation planner |

## What the proofs found

Some statements that the source's comments or names suggest hold only under a condition. The code is modelled
as it is, the exact condition is proved, as an equivalence, in each case, and beside it stands an input that
fails:

- A weak symbol in the data or absolute section that is written from the hash table reads back as another weak
  type, because the external bit is added to the type (`LinkRuns.DefinedSymbolReadsBack`, `WeakMisreads`).
- A stabs group whose opening symbol comes right after an indirect or warning symbol that is dealt with as one is
  passed through without being remembered or replaced, or loses that symbol: the loop takes it for the symbol that
  the one before stands for. The groups of a link are dealt with as they should if and only if no opening symbol is met that way
  (`GroupSteps.GroupsAreTrue`, `GroupRuns.GroupsAreTrueInRuns`; `OpeningIsLost`, `GroupIsForgotten`). Without
  skipped opening symbols the output nests if and only if no closing symbol is skipped
  (`GroupRuns.OutputGroupsNest`; `ClosingIsLost`); in general its depth is given by `OutputDepthOfRuns`. Stab types
  with the bits of N_INDR, such as 0x2a, count as indirect in the code.
- A relocatable link followed by a final link differs from one direct link for some pc-relative records
  (`AoutRelocate.TwoLinksAreOne`, `OneIsHarmed`).
- The test whether a section was removed from a list is wrong for a section that is now on another BFD's list
  and not the last there (`SectionList.World.RemovalTestIsExact`, `SectionList.RemovalTestFails`).
- COFF and 64-bit map offsets are off behind a member whose name follows its header, also when the BSD writer
  falls back to the 64-bit format; BSD map offsets are off in thin archives (`ArchiveMap.OffsetIsPosition`,
  `MissesNameAfter`, `MissesThin`, and for whole files `ArchiveRoundTrip.ExportLeadsToMember`).
- In a thin archive, the place of a member of a nested archive is cut if it does not fit its header behind the table
  index, and runs on into the date if it fills a field of 16 bytes: it comes back if and only if the header spells it
  and no digit follows (`LongNames.FieldReadsBack`; `PlaceIsCut`, `PlaceRunsOn`).
- A short name with a slash is cut at it when it is read; one with a space only where slashes do not end names, or
  where the name leaves no room for one (`ArchiveNames.ShortNameReadsBack`, `SpaceIsCut`, and for
  whole files `NamedArchives.NamesAreFound`). Names put after the headers have no such exceptions
  (`NamedArchives.AllNamesAreFound`).
- `compute_offsets` accepts a layout in which the alignment step wraps around
  (`ComputeOffsets.MissesExactlyTheWraps`, `MissesOne`).
- An OMAGIC file is not padded up to a .bss that is 2^31 bytes or more away (`AoutLayout.OMagicReachesBss`,
  `OMagicMissesOne`); NMAGIC puts .bss at the unpadded end of the data (`AoutLayout.NMagicEnds`,
  `NMagicMissesOne`).
- The comment that contiguous mapping only pads the text when the data comes after it does not agree with the
  code, which compares an unsigned difference with zero (`AoutLayout.ContiguousIsIntended`). Where the data lies
  inside the padded text, the text is cut down to it (`ContiguousCuts`, `CutsOne`); where it lies before the text,
  the text is padded by the distance as it wraps around (`ContiguousOverflows`, `OverflowsOne`).
- Standard howtos 8, 16, 32 and 40 do not read back (`RelocRecords.StdRoundTrip`), nor do the two placeholder
  rows of the extended table, nor an address or addend that is not a sign extension of 32 bits
  (`RelocRecords.ExtRoundTrip`; `StdMisreads`, `ExtMisreads`). The extended reader compares the index with the
  symbol count with `>`, the standard one with `>=`; the proof shows that this makes no difference.

## Constants and assumptions

Masks, symbol types and record sizes are named constants with the values of the a.out, ar and nlist headers of
the GNU toolchain, which are not part of the modelled files. A plain `char` is taken as signed, `unsigned int`
has 32 bits, `long` and `bfd_vma` have 64, and `struct carsym` has 16 bytes. The archive format is that of
"Archive File" in chapter 7 of the System V ABI, edition 4.1, with the BSD variants of the code. The rule for
switching between reading and writing is that of `fopen()` in IEEE Std 1003.1-2017.

## Model

| member | source | states |
|---|---|---|
| HeaderGroups.MarksAreTheGroup | tooling/bfd-scrape/bfd/aoutx.h:5187-5210 | the marking loop of a repeated header marks exactly the symbols that sit directly in the group, at nesting 0, or close it, and changes no other place of the map |
| HeaderGroups.TotalIsOverTheGroup | tooling/bfd-scrape/bfd/aoutx.h:5119-5152 | the total that identifies a header adds up exactly the symbols that replacing it would drop, except for the closing one |
| HeaderGroups.TotalIgnoresFileNumbers | tooling/bfd-scrape/bfd/aoutx.h:5136-5150 | a name adds to the total the sum of its characters outside the runs of digits right after an open parenthesis: exactly the file numbers are ignored |
| HeaderGroups.CharIsSigned | tooling/bfd-scrape/bfd/aoutx.h:5136-5150 | each of them as a signed byte |
| GroupSteps.FlaggedStep | tooling/bfd-scrape/bfd/aoutx.h:4862-4873 | a symbol met with a flag set is passed through unchanged, whatever it is, or skipped |
| GroupSteps.LocalStep | tooling/bfd-scrape/bfd/aoutx.h:5073-5250 | a symbol without a hash entry that opens no group: the flag it sets, whether it is discarded, and its record |
| GroupSteps.GlobalStep | tooling/bfd-scrape/bfd/aoutx.h:4874-5066 | a symbol with a hash entry: which flag it sets, by its type, the entry it resolves to and whether that is written; it never writes a bracket |
| GroupSteps.StepGroup | tooling/bfd-scrape/bfd/aoutx.h:5112-5210 | one turn of the loop at an opening symbol that is not flagged: a group entered before becomes N_EXCL and its symbols are marked, another stays N_BINCL and is remembered |
| GroupSteps.StepFacts | tooling/bfd-scrape/bfd/aoutx.h:4842-5250 | one turn at any symbol keeps the facts: which flag is set and which hash entries are written, both given by the input alone; which headers are known; what is marked ahead and left out behind; and the record of every group |
| GroupSteps.FileFacts | tooling/bfd-scrape/bfd/aoutx.h:4777-5256 | so they hold after every symbol of any input file, with nothing stripped and no stab discarded |
| GroupSteps.SettledIsRight | tooling/bfd-scrape/bfd/aoutx.h:4842-5250 | which opening symbols of a file enter no group is determined by the symbols before them |
| GroupSteps.GroupsAreTrue | tooling/bfd-scrape/bfd/aoutx.h:4842-5250 | for one file: all its groups are remembered, replaced if repeated, and what repeated ones drop is left out, after every symbol, if and only if no opening symbol comes right after an indirect or warning symbol that sets a flag: one that is neither dropped nor discarded nor itself passed through or skipped |
| GroupSteps.OutputDepth | tooling/bfd-scrape/bfd/aoutx.h:5112-5250 | for any file, nested or not, the nesting depth of the output after every symbol, from the input alone, negative depths included |
| GroupSteps.LevelIs | tooling/bfd-scrape/bfd/aoutx.h:5112-5250 | in a file that nests this is the number of open groups that were kept, plus the closing symbols skipped, less the opening ones skipped |
| GroupSteps.OpeningIsLost | tooling/bfd-scrape/bfd/aoutx.h:4866-4990 | an opening symbol right after an indirect symbol whose target is defined is skipped, its closing one is written, and the output does not nest |
| GroupSteps.ClosingIsLost | tooling/bfd-scrape/bfd/aoutx.h:4866-4990 | with the closing symbol right after it, the output stays one level deep |
| GroupSteps.GroupIsForgotten | tooling/bfd-scrape/bfd/aoutx.h:4862-4990 | an opening symbol right after a stab of type 0x2a is passed through, and its group is not remembered |
| GroupRuns.HistoryIsKnown | tooling/bfd-scrape/bfd/aoutx.h:4777-5256 | after any run of input files, forced symbols and other symbols, the table of headers knows exactly the groups that were entered |
| GroupRuns.RepeatedGroupsGo | tooling/bfd-scrape/bfd/aoutx.h:5112-5210 | in any run, a group entered stays N_BINCL iff no group entered before it, in this file or an earlier one, has its name and total, and becomes N_EXCL otherwise; a symbol, local or global, at depth 0 of a repeated group or closing it is left out, and no record of the file belongs to a local one; of the other local symbols exactly the discarded and the skipped ones are left out |
| GroupRuns.GroupsAreTrueInRuns | tooling/bfd-scrape/bfd/aoutx.h:4777-5256 | over any run: the groups of every file are remembered, replaced if repeated, and what repeated ones drop is left out, if and only if no file has an opening symbol right after a symbol that sets a flag |
| GroupRuns.OutputDepthOfRuns | tooling/bfd-scrape/bfd/aoutx.h:4777-5256 | over any run, of files nested or not, the depth of the output's N_BINCL/N_EINCL stream, from the levels of the files |
| GroupRuns.OutputGroupsNest | tooling/bfd-scrape/bfd/aoutx.h:4777-5256 | over any run of files that nest, with no opening symbol skipped, the output nests if and only if no closing symbol is skipped, and never closes more than it opens |
| GroupRuns.LocalsSayInRuns | tooling/bfd-scrape/bfd/aoutx.h:4842-5250 | over runs that strip nothing, exactly which symbols are passed through: every record of a local symbol is unchanged if the symbol comes right after one that sets a flag, and says what its type says otherwise |
| LinkRuns.LocalsAreMapped | tooling/bfd-scrape/bfd/aoutx.h:5213-5238 | every record that an input file adds for a local symbol is the one the symbol map has for it |
| LinkRuns.DefinedSymbolReadsBack | tooling/bfd-scrape/bfd/aoutx.h:3617-3651 | a defined symbol of the hash table is written with a type that reads back as its section and strength, exactly unless it is weak and in the data or absolute section, where the external bit turns one weak type into another |
| LinkRuns.WeakMisreads | tooling/bfd-scrape/bfd/aoutx.h:3617-3651 | such an input: weak data reads back as weak .bss, a weak absolute symbol as weak text |
| LinkRuns.StepAdds | tooling/bfd-scrape/bfd/aoutx.h:4842-5250 | one turn of the loop adds at most one record, numbers at most one hash entry, and the new map entry is -1, the number of the new record, or the index of an entry already written |
| LinkRuns.StepTrue | tooling/bfd-scrape/bfd/aoutx.h:4842-5250 | every turn of the loop keeps the three facts that indices, records and map entries are true |
| LinkRuns.FileRunTrue | tooling/bfd-scrape/bfd/aoutx.h:4777-5256 | so does a whole input file, from the symbol that names it on |
| LinkRuns.IndicesAreRecordNumbers | tooling/bfd-scrape/bfd/aoutx.h:4777-5256 | over every run of input files, forced symbols and other symbols: each hash entry has at most one record, every index that is not negative is the number of its entry's record, and each record belongs to the symbol it names |
| LinkRuns.SymbolMapIsTrue | tooling/bfd-scrape/bfd/aoutx.h:4847-4852 | when an input file is done, every map entry that is not -1 is the number of the record of the symbol it stands for, and the file has added at most one record more than it has symbols |
| LinkRuns.EverySymbolOnce | tooling/bfd-scrape/bfd/aoutx.h:5548-5551 | with nothing stripped, after the final walk over the hash table every real entry has exactly one record |
| LinkRuns.ForceTrue | tooling/bfd-scrape/bfd/aoutx.h:4093-4108 | a symbol forced out because a relocation needs its number keeps the indices and records true |
| LinkRuns.OtherTrue | tooling/bfd-scrape/bfd/aoutx.h:3584-3701 | writing out a hash entry that no input file has put out keeps them true |
| SymbolRecords.RecordsSay | tooling/bfd-scrape/bfd/aoutx.h:4777-5256 | over every run of input files, forced and other symbols, what each record says, section by section: a symbol of text, data or .bss, weak or not, keeps its place relative to its section as the link moves it, modulo the word; absolute, indirect, warning and stab symbols stay as they are, elements of sets go with their section; a symbol with a hash entry takes the address, section and strength of the definition it comes to, the size of a common one, or none; the symbol that opens a group carries the group's total; each has its symbol's name, or its entry's, and the symbol's other fields; and only symbols that the way of stripping and of discarding keeps have a record |
| SymbolRecords.StartSays | tooling/bfd-scrape/bfd/aoutx.h:4799-4825 | an input file has a symbol of its own, with its name, at the beginning of its text, if and only if not everything is stripped or discarded and, where only some names are kept, its name is one of them |
| SymbolRecords.GlobalStepSays | tooling/bfd-scrape/bfd/aoutx.h:4874-5066 | a symbol with a hash entry has a record, with its own number, exactly if the entry has none yet and the way of stripping keeps it; one whose entry is written shares its number; and from then on the entry counts as written, stripped or not |
| SymbolRecords.OtherRecordSays | tooling/bfd-scrape/bfd/aoutx.h:3606-3660 | the record of a hash entry that is written outside the input files: type, address or size, by what the entry is |
| SymbolRecords.LocalsKept | tooling/bfd-scrape/bfd/aoutx.h:4985-5100 | for a file without indirect or warning symbols, repeated groups or hash entries: each symbol has a record if and only if the way of stripping (all, debugger, some) and the way of discarding local symbols (all, labels) both keep it |
| SymbolRecords.ForcedByEvents | tooling/bfd-scrape/bfd/aoutx.h:4093-4108 | over any run only entries that a relocation forced out override stripping |
| SymbolRecords.OtherKept | tooling/bfd-scrape/bfd/aoutx.h:3593-3605 | a hash entry outside the files is written if and only if it has no record yet, is a real symbol, and is forced or kept by the way of stripping; for a warning, the entry it warns of |
| FinalLink.HeaderTotal | tooling/bfd-scrape/bfd/aoutx.h:5119-5152 | the scan over the symbols of a group, in 64-bit words, computes the total of the specification |
| FinalLink.AddName | tooling/bfd-scrape/bfd/aoutx.h:5136-5150 | the loop over a name, with its inner loop over digits, adds the name's sum to the total, wrap-around included |
| FinalLink.PastDigits | tooling/bfd-scrape/bfd/aoutx.h:5144-5147 | the inner loop stops at the first character that is not a digit |
| FinalLink.Linker.MarkDuplicates | tooling/bfd-scrape/bfd/aoutx.h:5187-5210 | the marking loop changes the symbol map in place as the specification says, and nothing else |
| FinalLink.Linker.BaseSymbol | tooling/bfd-scrape/bfd/aoutx.h:4894-4905 | the loop over indirect and warning entries ends, at the base symbol |
| FinalLink.Linker.EnterHeader | tooling/bfd-scrape/bfd/aoutx.h:5112-5210 | the scans at an opening symbol compute the type it is written with, the marks and the table of headers |
| FinalLink.Linker.EmitSymbol | tooling/bfd-scrape/bfd/aoutx.h:5213-5238 | a record goes into the buffer and its number into the symbol map |
| FinalLink.Linker.WriteGlobal | tooling/bfd-scrape/bfd/aoutx.h:4874-5066 | the loop body for a symbol with a hash entry: the whole new state, skipped and stripped cases included |
| FinalLink.Linker.PlaceSymbol | tooling/bfd-scrape/bfd/aoutx.h:5073-5250 | the rest of the loop body, from the discard test on: the whole new state |
| FinalLink.Linker.WriteSymbol | tooling/bfd-scrape/bfd/aoutx.h:4842-5236 | one turn of the loop is one step of the specification |
| FinalLink.Linker.WriteSymbols | tooling/bfd-scrape/bfd/aoutx.h:4777-5256 | one input file: the loop ends in the state of the specification, within a buffer of one record more than it has symbols, and the buffer is written out |
| FinalLink.Linker.StartFile | tooling/bfd-scrape/bfd/aoutx.h:4799-4846 | the symbol that names the file and the cleared map |
| FinalLink.Linker.Flush | tooling/bfd-scrape/bfd/aoutx.h:5242-5253 | the buffered records go to the current position, which advances by exactly their number times the record size |
| FinalLink.Linker.WriteRecord | tooling/bfd-scrape/bfd/aoutx.h:3684-3701 | a single record goes to the current position, which advances by the record size |
| FinalLink.Linker.RecordsApart | tooling/bfd-scrape/bfd/aoutx.h:5242-5253 | the records in the file do not overlap |
| FinalLink.Linker.WriteOtherSymbol | tooling/bfd-scrape/bfd/aoutx.h:3584-3701 | writing out a hash entry: the whole new state, stripped and already written cases included |
| FinalLink.Linker.ForceSymbol | tooling/bfd-scrape/bfd/aoutx.h:4093-4108 | forcing a symbol out sets its index to -2, which overrides stripping, and ends with its number |
| FinalLink.Linker.Handle | tooling/bfd-scrape/bfd/aoutx.h:5260-5313 | one event of the link is one step of the specification |
| FinalLink.Linker.LinkAll | tooling/bfd-scrape/bfd/aoutx.h:5513-5551 | the symbol side of the whole link ends in the state of the specification, in which all indices and records are true |
| FinalLink.MaxSymCount | tooling/bfd-scrape/bfd/aoutx.h:5403-5405 | the loop over the input files finds the largest symbol count |
| FinalLink.Link | tooling/bfd-scrape/bfd/aoutx.h:5453-5464 | a symbol map of the largest count and an output buffer of one record more suffice for every input file of every link |
| AoutRelocate.TwoLinksAreOne | tooling/bfd-scrape/bfd/aoutx.h:4366-4612 | for any extended record: a relocatable link followed by a final link patches the same place as one direct final link, and the same word for all addresses that give the same final layout, if and only if the record survives: it is not pc-relative, or it is against a section without pcrel_offset or an undefined external with it, or the addresses happen to agree |
| AoutRelocate.OneIsHarmed | tooling/bfd-scrape/bfd/aoutx.h:4366-4612 | a record that does not survive: a pc-relative section record whose addend does not count its place, for which the two ways patch different words |
| AoutRelocate.SectionPatch | tooling/bfd-scrape/bfd/aoutx.h:3922-3936 | what a final link patches for a record against a section: for one of type N_TEXT the word, or for a pc-relative record the place plus the word, is the address the record had in the input moved with the text section; N_DATA with the data section, N_BSS with .bss; N_ABS does not move |
| AoutRelocate.SymbolPatch | tooling/bfd-scrape/bfd/aoutx.h:4531-4612 | for a record against a symbol: the address of its definition plus the addend, or the addend alone where it has none |
| AoutRelocate.SectionRewritten | tooling/bfd-scrape/bfd/aoutx.h:4498-4512 | a relocatable link leaves the record against the same section, and moves its addend as that section, named by the type, has moved; less the move of the place for a pc-relative record without pcrel_offset |
| AoutRelocate.SymbolRewritten | tooling/bfd-scrape/bfd/aoutx.h:4384-4496 | a record against a symbol that is defined becomes one against the output section of the definition, with its address in the addend; against any other it stays, with the new number |
| AoutRelocate.RewrittenSound | tooling/bfd-scrape/bfd/aoutx.h:4366-4517 | a record rewritten by a relocatable link refers to a symbol or section that the next link has |
| AoutRelocate.AddendSame | tooling/bfd-scrape/bfd/aoutx.h:4366-4517 | how the rewritten addend differs from the old one, modulo the word size |
| AoutRelocate.DriftOfTwoLinks | tooling/bfd-scrape/bfd/aoutx.h:4366-4612 | the two patched sums differ by the drift and a whole number of words |
| SectionRelocs.NumberOf | tooling/bfd-scrape/bfd/aoutx.h:4420-4457 | the number a rewritten record gets, forcing the symbol out if it has none |
| SectionRelocs.RewriteRecord | tooling/bfd-scrape/bfd/aoutx.h:4366-4517 | the relocatable branch of the loop body is the rewriting of the specification |
| SectionRelocs.RewriteSection | tooling/bfd-scrape/bfd/aoutx.h:4288-4526 | the loop rewrites all records of a section in place, and the symbols it forces out go through the linker |
| SectionRelocs.PatchRecord | tooling/bfd-scrape/bfd/aoutx.h:4517-4612 | the final branch of the loop body computes the place and value of the record's patch |
| SectionRelocs.PatchSection | tooling/bfd-scrape/bfd/aoutx.h:4288-4612 | the loop of a final link computes every record's patch |
| SectionRelocs.SectionsAgree | tooling/bfd-scrape/bfd/aoutx.h:4288-4612 | a section put through a relocatable and then a final link gets the patches of one direct final link iff every one of its records survives |
| SectionRelocs.NewIndexIsTrue | tooling/bfd-scrape/bfd/aoutx.h:4420-4457 | a record that stays against a symbol gets the number of that symbol's record, or of the record of its hash entry; only a local symbol that was left out is unattached |
| SectionRelocs.CutIs | tooling/bfd-scrape/bfd/aoutx.h:4498-4512 | a record holds a number below 2^24 as it is |
| FormatWalkers.Scan | tooling/bfd-scrape/bfd/bfd.c:1316-1531 | the first walk, argument by argument: it aborts, overflows or fetches exactly as the grammar of formats says, and returns the number of arguments |
| FormatWalkers.ScanConversion | tooling/bfd-scrape/bfd/bfd.c:1335-1501 | one conversion of the first walk: what it consumes and which arguments it notes with which types |
| FormatWalkers.ScanNumber | tooling/bfd-scrape/bfd/bfd.c:1357-1406 | a width or precision of the first walk, a star with or without a position included |
| FormatWalkers.ScanTail | tooling/bfd-scrape/bfd/bfd.c:1408-1500 | length modifiers and the conversion letter, and the type they give the argument |
| FormatWalkers.LettersAre | tooling/bfd-scrape/bfd/bfd.c:1358-1418 | which characters are flags and which length modifiers |
| FormatWalkers.LettersTake | tooling/bfd-scrape/bfd/bfd.c:1408-1500 | the type the first walk notes for a conversion is the one that the C library takes for its length modifiers and letter, or a pointer for %p with any modifiers; it notes none exactly for letters that are no conversion |
| FormatWalkers.TableHolds | tooling/bfd-scrape/bfd/bfd.c:1447-1496 | a table from specifier letters to C types, of which the rules for letters and modifiers are the closure: d to int, ld to long, lld to long long, f to double, Lf to long double, s and p to pointers, and the h forms |
| FormatWalkers.TakesOne | tooling/bfd-scrape/bfd/bfd.c:1408-1500 | the rules give each specifier one type |
| FormatWalkers.Fetch | tooling/bfd-scrape/bfd/bfd.c:1503-1530 | the loop that fetches the arguments stops at the first that has no type |
| FormatWalkers.Pigeonhole | tooling/bfd-scrape/bfd/bfd.c:1503-1530 | a list of n numbers that has every number below n has each exactly once |
| FormatWalkers.EachArgumentOnce | tooling/bfd-scrape/bfd/bfd.c:1316-1531 | if the first walk fetches n arguments then positional, natural and star indices are a permutation of 0 to n-1, and each is read through the member that was filled |
| FormatWalkers.FetchesExactly | tooling/bfd-scrape/bfd/bfd.c:1316-1531 | the first walk fetches the arguments if and only if the format is complete, calls for at most nine reads, and leaves no index below their number out |
| FormatWalkers.FetchedAsCalled | tooling/bfd-scrape/bfd/bfd.c:1316-1531 | when the first walk fetches the arguments, each is fetched with the type that the text of its call in the format takes: an int for a star, and what modifiers and letter say for a conversion |
| FormatWalkers.PositionalWalk | tooling/bfd-scrape/bfd/bfd.c:1335-1355 | an example: positions in a format are counted from one |
| FormatWalkers.StarredWalk | tooling/bfd-scrape/bfd/bfd.c:1357-1406 | an example: a starred width comes before its value, a precision in digits takes no argument |
| FormatWalkers.PercentWalk | tooling/bfd-scrape/bfd/bfd.c:1486-1500 | an example: a doubled percent sign takes nothing, and the letter behind %p belongs to it |
| FormatWalkers.PrintConversion | tooling/bfd-scrape/bfd/bfd.c:1060-1308 | one conversion of the second walk reads the very arguments that the first one noted, with its own loops and its own, different, switch, and hands on a specifier that matches its value |
| FormatWalkers.SpecifierMatches | tooling/bfd-scrape/bfd/bfd.c:1084-1188 | the specifier put together for the C library, with flags, width, precision and letters copied, positions left out and stars replaced by digits, is one complete conversion, and by its letters alone, after the rules of the C library for each letter and length modifier, it calls for exactly one argument, of the type that is passed with it, even where a width begins with zeros |
| FormatWalkers.PrintStars | tooling/bfd-scrape/bfd/bfd.c:1100-1150 | so do its width and precision, which go into the specifier as digits |
| FormatWalkers.Print | tooling/bfd-scrape/bfd/bfd.c:1047-1312 | the second walk over a format for which the first one fetched: every read is of a filled argument through its own member, the sequence of reads is that of the first walk, and every specifier handed on calls for exactly the value that goes with it |
| MemoryFile.Bfd.MemoryRead | tooling/bfd-scrape/bfd/bfdio.c:767-785 | reading from the buffer gives what the stream holds at the position, cut at its end |
| MemoryFile.Bfd.MemoryWrite | tooling/bfd-scrape/bfd/bfdio.c:787-814 | writing to the buffer writes the stream, on a BFD opened for reading too as long as its buffer holds it or is enlarged, and keeps a writable BFD's capacity rounded up to 128 with zeros beyond the size |
| MemoryFile.Bfd.MemorySeek | tooling/bfd-scrape/bfd/bfdio.c:822-874 | a seek past the end grows a writable stream by zeros, stops at the end of any other, and resets the position before the start |
| MemoryFile.Bfd.SeekStream | tooling/bfd-scrape/bfd/bfdio.c:561-591 | the shortcut for a seek that does not move never leaves a read and a write adjacent in the trace of calls |
| MemoryFile.Bfd.SeekBetween | tooling/bfd-scrape/bfd/bfdio.c:365-370 | a read after a write, or a write after a read, is parted by exactly one seek that moves nothing |
| MemoryFile.Bfd.Outermost | tooling/bfd-scrape/bfd/bfdio.c:329-345 | the walk through containing archives ends at the one that owns the stream, with the sum of the origins |
| MemoryFile.Bfd.Seek | tooling/bfd-scrape/bfd/bfdio.c:535-591 | a seek on an element nested to any depth is a seek of the stream at the element's place |
| MemoryFile.Bfd.Tell | tooling/bfd-scrape/bfd/bfdio.c:441-462 | the position told is the stream's less the element's place |
| MemoryFile.Bfd.Read | tooling/bfd-scrape/bfd/bfdio.c:325-378 | a read on an element gives the stream's bytes, cut at the end of the element; the trace keeps its reads and writes separated |
| MemoryFile.Bfd.Write | tooling/bfd-scrape/bfd/bfdio.c:393-428 | a write on an element writes the stream, under the same condition; the trace keeps its reads and writes separated |
| MemoryFile.SeekThenTell | tooling/bfd-scrape/bfd/bfdio.c:441-591 | at any depth of nesting, a seek from the start to p that succeeds is told back as p |
| MemoryFile.StreamIsLastWrites | tooling/bfd-scrape/bfd/bfdio.c:767-874 | after every run of reads, writes and seeks on a writable BFD, the stream reaches exactly to the furthest position ever held, and holds at each place the last byte written there, or zero in a hole |
| MemoryFile.ReadsLastWrites | tooling/bfd-scrape/bfd/bfdio.c:325-378 | so a read returns the last bytes written, as many as it asks for unless its element or the stream ends before, and fails exactly if the position is not inside its element |
| MemoryFile.ReadMoves | tooling/bfd-scrape/bfd/bfdio.c:325-378 | and the position moves by what was read |
| MemoryFile.SeekLeaves | tooling/bfd-scrape/bfd/bfdio.c:822-874 | when a seek succeeds, where it ends, and what it leaves in the stream: it only ever adds zeros, up to the place, for a writable one |
| MemoryFile.SeeksInRun | tooling/bfd-scrape/bfd/bfdio.c:535-591 | in any run a seek ends where it says, from the position or from the start of its element, or at 0 |
| MemoryFile.StreamOf | tooling/bfd-scrape/bfd/bfdio.c:329-360 | an element uses its archive's stream, at its own origin there and with reads bounded by its size, exactly if the archive is not thin and is accessed the same way |
| MemoryFile.Perform | tooling/bfd-scrape/bfd/bfdio.c:325-591 | any list of seeks, reads and writes on any elements of one writable BFD carries out the run: the stream ends as the run says, every read gives what it gives there, and in the trace of calls no read and write are adjacent |
| SectionList.Bfd.Remove | tooling/bfd-scrape/bfd/bfd.c:619-632 | removing a section takes it out of the sequence of sections, keeps the links well formed, and leaves its own pointers as they were |
| SectionList.Bfd.Append | tooling/bfd-scrape/bfd/bfd.c:634-649 | appending puts a section at the end of the sequence |
| SectionList.Bfd.Prepend | tooling/bfd-scrape/bfd/bfd.c:651-666 | prepending puts it in front |
| SectionList.Bfd.InsertAfter | tooling/bfd-scrape/bfd/bfd.c:668-679 | inserting after a section puts it there |
| SectionList.Bfd.InsertBefore | tooling/bfd-scrape/bfd/bfd.c:681-692 | inserting before a section puts it there |
| SectionList.World.Remove | tooling/bfd-scrape/bfd/bfd.c:619-632 | over several lists and all sections that were ever on one: removal keeps every list well formed and every stale pointer harmless |
| SectionList.World.Append | tooling/bfd-scrape/bfd/bfd.c:634-649 | so does appending |
| SectionList.World.Prepend | tooling/bfd-scrape/bfd/bfd.c:651-666 | so does prepending |
| SectionList.World.InsertAfter | tooling/bfd-scrape/bfd/bfd.c:668-679 | so does inserting after |
| SectionList.World.InsertBefore | tooling/bfd-scrape/bfd/bfd.c:681-692 | so does inserting before |
| SectionList.World.RemovalTestIsExact | tooling/bfd-scrape/bfd/bfd.c:694-698 | for every section that was ever on a list, however its old neighbours moved since, the removal test of a BFD is true iff the section is not on that BFD's list now; unless it is on another BFD's list and not the last there |
| SectionList.RemovalTestFails | tooling/bfd-scrape/bfd/bfd.c:694-698 | five operations after which the test says that a section is on the list it was removed from |
| LongNames.TableLength | tooling/bfd-scrape/bfd/archive.c:1587-1667 | the first pass computes the specified length of the table |
| LongNames.FillTable | tooling/bfd-scrape/bfd/archive.c:1682-1752 | the second pass fills a buffer of that length completely and sets each header's name field, reusing the entry of a repeated path |
| LongNames.PassesAgree | tooling/bfd-scrape/bfd/archive.c:1587-1752 | the second pass fills exactly the number of bytes that the first one counted, repeated thin-archive paths included, or there is no table at all |
| LongNames.CleanUp | tooling/bfd-scrape/bfd/archive.c:1328-1342 | the clean-up loop, in place, is the cleaning of the specification: newlines end names, a slash before one ends them instead, backslashes become slashes |
| LongNames.EntryReadsBack | tooling/bfd-scrape/bfd/archive.c:1323-1342 | an entry of the table, cleaned up, is its name if and only if the name has no newline, no backslash, and no trailing slash where none is added |
| LongNames.FieldReadsBack | tooling/bfd-scrape/bfd/archive.c:449-481 | a header's index field, with whatever follows it in the header, opens if and only if its numbers are ones that strtol takes; then it gives back the index, and in a thin archive the place in a containing archive, if and only if the header spells both and no digit follows |
| LongNames.LongNamesReadBack | tooling/bfd-scrape/bfd/archive.c:1573-1753 | a member's header, if it opens, leads back to its name through the table as it is read, exactly if the name is one that survives, and to its place in a containing archive, exactly if the header spells it |
| LongNames.SpelledNumber | tooling/bfd-scrape/bfd/archive.c:1736-1745 | text that begins like a number reads as it if and only if it spells it out and has no more digits |
| LongNames.BlanksAre | tooling/bfd-scrape/bfd/archive.c:458-468 | the blanks in front of a number |
| LongNames.LongIs | tooling/bfd-scrape/bfd/archive.c:458-470 | the numbers that are taken without an error are the 64-bit ones |
| LongNames.IndexOutside | tooling/bfd-scrape/bfd/archive.c:458-464 | a number that is not a place in the table is refused |
| LongNames.PlaceReadsIff | tooling/bfd-scrape/bfd/archive.c:1736-1745 | so the place reads back exactly if it fits a field of less than 16 bytes; in one of 16 also if it ends with the field and no digit follows |
| LongNames.RoomOpens | tooling/bfd-scrape/bfd/archive.c:449-481 | and a header opens wherever the field has room for a space after the text, or before what is cut |
| LongNames.PlaceIsCut | tooling/bfd-scrape/bfd/archive.c:1736-1745 | a place behind a table index of four digits that does not come back |
| LongNames.PlaceRunsOn | tooling/bfd-scrape/bfd/archive.c:1736-1745 | one that fills a field of 16 bytes, and does not come back if a date follows |
| ArchiveNames.TruncateBsd | tooling/bfd-scrape/bfd/archive.c:2071-2093 | the BSD way to fit a name into the field: cut, or ended by the pad character where there is room |
| ArchiveNames.TruncateGnu | tooling/bfd-scrape/bfd/archive.c:2103-2129 | the GNU way, which keeps a .o at the end of a name that is cut |
| ArchiveNames.TruncateName | tooling/bfd-scrape/bfd/archive.c:2034-2069 | the default way, which leaves the field alone for a name that is too long, and the choice between them |
| ArchiveNames.FieldShows | tooling/bfd-scrape/bfd/archive.c:2034-2129 | what a field shows of a name in each style: short names padded, with nothing else in the field touched; longer ones cut without padding by BSD, cut with their .o kept by GNU, and left to the table otherwise |
| ArchiveNames.RightField | tooling/bfd-scrape/bfd/archive.c:1651-1666 | the first pass over the members puts a field right that does not show its short name |
| ArchiveNames.AnyStyleIsRighted | tooling/bfd-scrape/bfd/archive.c:1651-1666 | so that the field is the same whichever way the name was fitted in before |
| ArchiveNames.NumberNames | tooling/bfd-scrape/bfd/archive.c:1767-1796 | the loop of the BSD 4.4 writer: the length of every name that is too long or has a space goes into its field, and no other field changes |
| ArchiveNames.OthersWouldBeCut | tooling/bfd-scrape/bfd/archive.c:1767-1796 | of the names without a slash, exactly those go after their headers that would not come back from the field |
| ArchiveNames.NumberReadsBack | tooling/bfd-scrape/bfd/archive.c:554-561 | such a field is taken for one, and gives the padded length |
| ArchiveNames.ShortNameReadsBack | tooling/bfd-scrape/bfd/archive.c:586-608 | a short name reads back from its field if and only if it has no slash, and no space either unless the padding is a slash with room for it |
| ArchiveNames.SpaceIsCut | tooling/bfd-scrape/bfd/archive.c:586-608 | such a name: three characters, the middle one a space |
| ArchiveNames.ShortFieldIsPlain | tooling/bfd-scrape/bfd/archive.c:542-586 | and its field is taken neither for an index into the table nor for the length of a name after the header |
| ArchiveMembers.Output.WriteHeader | tooling/bfd-scrape/bfd/archive.c:1814-1852 | a header, with the name after it padded to a multiple of four where it goes there |
| ArchiveMembers.Output.CopyContents | tooling/bfd-scrape/bfd/archive.c:2237-2264 | copying through the buffer writes exactly the contents |
| ArchiveMembers.Output.WriteMember | tooling/bfd-scrape/bfd/archive.c:2242-2272 | one member: header, contents and the byte that makes their number even; only the header in a thin archive |
| ArchiveMembers.Output.WriteMembers | tooling/bfd-scrape/bfd/archive.c:2242-2272 | all members, one after the other |
| ArchiveMembers.PartsAre | tooling/bfd-scrape/bfd/archive.c:1814-1852 | where each part of a member is: field, size and end of the header, the name behind it and its zeros, and the contents, with a newline behind them exactly if their length is odd |
| ArchiveMembers.MemberIsThere | tooling/bfd-scrape/bfd/archive.c:2242-2272 | each member's bytes stand at its position, which is the end of the one before |
| ArchiveMembers.PositionsAreEven | tooling/bfd-scrape/bfd/archive.c:2267-2271 | every header is written at an even position |
| ArchiveBytes.DecimalReadsBack | tooling/bfd-scrape/bfd/archive.c:217-239 | a decimal number reads back, whatever follows it that is not a digit |
| ArchiveReader.ReadAll | tooling/bfd-scrape/bfd/archive.c:849-877 | opening one member after the other, until there is none, visits the specified list |
| ArchiveReader.PositionsIncrease | tooling/bfd-scrape/bfd/archive.c:849-877 | on any file whatever, the positions of the headers visited strictly increase, by at least a header's length: the guard against looping suffices |
| ArchiveReader.SizeReadsBack | tooling/bfd-scrape/bfd/archive.c:535-545 | the size field reads back as the size that was written |
| ArchiveReader.SignedSize | tooling/bfd-scrape/bfd/archive.c:534-538 | sscanf also takes a sign: a negative size wraps around |
| ArchiveReader.SizeNeedsDigits | tooling/bfd-scrape/bfd/archive.c:534-538 | and without a digit there is no size |
| ArchiveReader.HeaderReadsBack | tooling/bfd-scrape/bfd/archive.c:520-545 | so does a whole header |
| ArchiveReader.MemberReadsBack | tooling/bfd-scrape/bfd/archive.c:498-640 | reading the header of a written member gives its size, its place, and the name that its fields decode to, which for BSD 4.4 padded names is the member's own name |
| ArchiveReader.WriteThenIterate | tooling/bfd-scrape/bfd/archive.c:2242-2272 | write then iterate is the identity: from where the first member was written, the reader visits exactly the written members, in order, each at its position, with its size and what its header decodes to as a name; NamedArchives says when that is the member's name |
| ArchiveReader.WriteThenRead | tooling/bfd-scrape/bfd/archive.c:671-789 | and each element's contents are the member's |
| ArchiveMap.ComputeMap | tooling/bfd-scrape/bfd/archive.c:2336-2445 | the loop over members and symbols drops old maps from the front, collects the wanted symbols in order, and adds up the bytes of their names |
| ArchiveMap.MapIsExports | tooling/bfd-scrape/bfd/archive.c:2376-2384 | the map holds an entry for a name and a member if and only if a symbol of that name in it is common, or is global, weak, indirect or unique and defined |
| ArchiveMap.NoReferenceIsListed | tooling/bfd-scrape/bfd/archive.c:2391-2396 | no name is listed for a member in which every symbol of that name is undefined, or is local |
| ArchiveMap.MapIsOrdered | tooling/bfd-scrape/bfd/archive.c:2341-2345 | entries come in the order of their members, which is what the loops of the writers rely on |
| ArchiveMap.OffsetAgainstPosition | tooling/bfd-scrape/bfd/archive.c:2492-2520 | for each of the three writers, how far its offset of a member is from the place where the member is written |
| ArchiveMap.OffsetIsPosition | tooling/bfd-scrape/bfd/archive.c:2707-2824 | an offset is the exact position of the member's header if and only if: for the BSD map, the archive is not thin or all members before are empty; for the COFF and 64-bit maps, no name follows a header before it |
| ArchiveMap.MissesNameAfter | tooling/bfd-scrape/bfd/archive.c:2734-2764 | an archive in which COFF and 64-bit maps point four bytes before the second header |
| ArchiveMap.MissesThin | tooling/bfd-scrape/bfd/archive.c:2492-2524 | a thin archive in which the BSD map points two bytes behind the second header |
| ArchiveMapWriter.SizesFit | tooling/bfd-scrape/bfd/archive.c:217-239 | a map's size always fits its header, so that writing the size cannot fail |
| ArchiveMapWriter.BsdScan | tooling/bfd-scrape/bfd/archive.c:2492-2524 | the BSD writer's scan finds whether an offset is past 4 GB |
| ArchiveMapWriter.CoffScan | tooling/bfd-scrape/bfd/archive.c:2734-2764 | so does the COFF writer's |
| ArchiveMapWriter.WriteBsdCells | tooling/bfd-scrape/bfd/archive.c:2565-2604 | the second pass of the BSD writer writes every symbol's name index and offset, or stops at one past 4 GB |
| ArchiveMapWriter.WriteCoffCells | tooling/bfd-scrape/bfd/archive.c:2792-2824 | so does that of the COFF writer, with the offset alone |
| ArchiveMapWriter.WriteIrixCells | tooling/bfd-scrape/bfd/archive64.c:217-243 | the 64-bit writer's loop writes every symbol's offset |
| ArchiveMapWriter.WriteIrix | tooling/bfd-scrape/bfd/archive64.c:160-261 | the whole 64-bit map |
| ArchiveMapWriter.WriteCoff | tooling/bfd-scrape/bfd/archive.c:2707-2841 | the whole COFF map, or the 64-bit one if and only if an offset is past 4 GB; the 'file truncated' branch of the second pass is unreachable |
| ArchiveMapWriter.WriteBsd | tooling/bfd-scrape/bfd/archive.c:2470-2627 | the whole BSD map, or the 64-bit one if and only if an offset is past 4 GB; the 'file truncated' branch is unreachable |
| ArchiveMapReader.ReadCarsyms | tooling/bfd-scrape/bfd/archive.c:1143-1151 | the loop over a COFF or 64-bit map, in which the names follow one another |
| ArchiveMapReader.ReadBsdEntries | tooling/bfd-scrape/bfd/archive.c:1025-1039 | the loop over a BSD map, which stops at a name index out of range |
| ArchiveMapReader.BadNamesStop | tooling/bfd-scrape/bfd/archive.c:1032-1043 | the entries of a BSD map are refused exactly if one of them gives a place that is not inside the names |
| ArchiveMapReader.ChecksAreEnough | tooling/bfd-scrape/bfd/archive64.c:93-111 | the check that a computed size has not wrapped around is exact, so that the reader stays inside the map |
| ArchiveMapReader.SizesAreTrue | tooling/bfd-scrape/bfd/archive.c:2476-2480 | below 4 GB the sizes that the writers compute in unsigned int are the true ones |
| ArchiveMapReader.ContentsLength | tooling/bfd-scrape/bfd/archive.c:2707-2841 | a map's contents are exactly as long as its header says, in all three formats |
| ArchiveMapReader.CoffReadsBack | tooling/bfd-scrape/bfd/archive.c:1064-1159 | the contents of a COFF map read back as the list of names and offsets |
| ArchiveMapReader.BsdReadsBack | tooling/bfd-scrape/bfd/archive.c:978-1058 | so do those of a BSD map, in either byte order |
| ArchiveMapReader.NamesAreCounted | tooling/bfd-scrape/bfd/archive.c:2606-2624 | the word before the names of a BSD map is the number of bytes behind it, padding included |
| ArchiveMapReader.IrixReadsBack | tooling/bfd-scrape/bfd/archive64.c:38-153 | so do those of a 64-bit map |
| ArchiveMapReader.MapReadsBack | tooling/bfd-scrape/bfd/archive.c:1184-1209 | the round trip through a file: reading a written map, in whichever format, gives its names, each with the offset the writer computed, and the place of the first member; unless a COFF map is followed by what looks like a second one, which is skipped |
| ArchiveWhole.WriteArchive | tooling/bfd-scrape/bfd/archive.c:2141-2275 | a whole archive: magic string, map, table of long names with its padding, and the members without the old maps in front |
| ArchiveWhole.WriteTable | tooling/bfd-scrape/bfd/archive.c:2210-2232 | the table with its header and padding, or failure exactly if its size does not fit the header |
| ArchiveWhole.TextsAre | tooling/bfd-scrape/bfd/archive.c:2199-2202 | the magic strings and the names of the maps, as text |
| ArchiveWhole.TableReadsBack | tooling/bfd-scrape/bfd/archive.c:1264-1351 | reading the table gives its cleaned-up bytes and the place after it |
| ArchiveRoundTrip.FrontLength | tooling/bfd-scrape/bfd/archive.c:2476-2489 | the place of the first member that the map's writer computes ahead is where the members begin |
| ArchiveRoundTrip.TableIsThere | tooling/bfd-scrape/bfd/archive.c:1264-1301 | what the reader of the table needs holds of the file that was written, with a table or without |
| ArchiveRoundTrip.NoSecondMap | tooling/bfd-scrape/bfd/archive.c:1160-1171 | nothing behind a written COFF map is skipped as a second one |
| ArchiveRoundTrip.NoMapFound | tooling/bfd-scrape/bfd/archive.c:1184-1209 | without a map, nothing in the file is taken for one |
| ArchiveRoundTrip.FileOpens | tooling/bfd-scrape/bfd/archive.c:887-915 | opening the file that writing an archive makes gives the symbols with the offsets the writer computed, the cleaned-up table, and the place of the first member; for every archive with or without a map and a table, under conditions on what is written only |
| ArchiveRoundTrip.OpensAndIterates | tooling/bfd-scrape/bfd/archive.c:849-915 | and reading it from end to end finds exactly the written members |
| ArchiveRoundTrip.MapLeadsToMembers | tooling/bfd-scrape/bfd/archive.c:2141-2275 | the offset that the opened archive gives for a symbol is the place where the reader finds the member that exports it, if and only if no member before it is one whose length its map miscounts |
| ArchiveRoundTrip.ExportLeadsToMember | tooling/bfd-scrape/bfd/archive.c:2141-2275 | from end to end: for every symbol that a member exports, the file that is written, once opened, has an entry, which leads to that member under exactly that condition; and there is no entry for anything that no member exports |
| NamedArchives.TabledReadsBack | tooling/bfd-scrape/bfd/archive.c:542-553 | a header of an archive with a table of long names leads the reader to the member's name, exactly if it is one that survives the table, and to its place, exactly if the header spells it |
| NamedArchives.ShortReadsBack | tooling/bfd-scrape/bfd/archive.c:586-608 | one whose name is short, and that is taken for a name, gives the name it shows, exactly if that has no slash, nor a space that ends it |
| NamedArchives.NamesAreFound | tooling/bfd-scrape/bfd/archive.c:1573-1753 | from end to end: an archive written with a table of long names, opened and read again, shows the members in order, every name of the table if and only if it is one that survives, and every short name if and only if it has no slash, nor a space that ends it |
| NamedArchives.AllNamesAreFound | tooling/bfd-scrape/bfd/archive.c:1767-1796 | from end to end the BSD 4.4 way: every member is found by its name, whatever its length, and with spaces |
| NamedArchives.LengthFits | tooling/bfd-scrape/bfd/archive.c:1767-1796 | a name below 4 GB has room for its length in the header |
| ArcGot.Got.EntryForType | tooling/bfd-scrape/bfd/arc-got.h:80-93 | the search through a list finds the entry of a type, or that there is none |
| ArcGot.Got.NewEntry | tooling/bfd-scrape/bfd/arc-got.h:95-127 | an entry goes to the end of a list that has none of its type |
| ArcGot.Got.AddReference | tooling/bfd-scrape/bfd/arc-got.h:199-214 | one reference: space for a relocation, the symbol made dynamic, and a word of .got |
| ArcGot.Got.FillForReloc | tooling/bfd-scrape/bfd/arc-got.h:217-263 | a request: the whole new state for every type, failures of recording a symbol included |
| ArcGot.Got.CreateForEntry | tooling/bfd-scrape/bfd/arc-got.h:455-540 | the relocations that one entry gets, and its mark |
| ArcGot.Got.CreateForList | tooling/bfd-scrape/bfd/arc-got.h:542-559 | and those of a whole list |
| GotRuns.FillOnce | tooling/bfd-scrape/bfd/arc-got.h:223-224 | a repeated request changes nothing, and every request is a repeated one once it has succeeded |
| GotRuns.FillDecides | tooling/bfd-scrape/bfd/arc-got.h:199-263 | a new request fails exactly if its type is unknown or an undecided symbol cannot be recorded; then no word of .got is taken, though space for a relocation is; if it succeeds, an undecided symbol is as it was recorded, and no other changes |
| GotRuns.RunDecides | tooling/bfd-scrape/bfd/arc-got.h:80-559 | so over any run in which recording works, every global symbol with an entry is dynamic or forced to be local |
| GotRuns.FillKeeps | tooling/bfd-scrape/bfd/arc-got.h:217-263 | a successful request keeps the invariant of lists, sizes and relocations |
| GotRuns.OneEntryFits | tooling/bfd-scrape/bfd/arc-got.h:455-540 | one entry never gets more relocations than were reserved for it |
| GotRuns.EmitOneKeeps | tooling/bfd-scrape/bfd/arc-got.h:455-540 | emitting for an entry keeps the invariant |
| GotRuns.SlotsTile | tooling/bfd-scrape/bfd/arc-got.h:226-258 | every word by which .got has grown belongs to exactly one slot |
| GotRuns.RunsTile | tooling/bfd-scrape/bfd/arc-got.h:80-559 | over any successful run of requests and emissions: at most one entry of a type in each list; slots pairwise disjoint and covering exactly the growth of .got; and the relocations emitted fit the space reserved, each filling a word of its own |
| GotRelocs.FinishRelocates | tooling/bfd-scrape/bfd/arc-got.h:455-559 | at the end of any successful run, emitting a list gives each of its entries exactly the relocations of its kind: an entry for initial-exec TLS one of type TPOFF at its word; one for general-dynamic TLS DTPMOD at the first word and DTPOFF at the second, all with the index of the dynamic symbol or 0; a normal one RELATIVE, GLOB_DAT with the symbol's own index, or none, each under its condition on the symbol and the link |
| GotRelocs.EntryRelocated | tooling/bfd-scrape/bfd/arc-got.h:455-540 | so for the relocations that one entry gets |
| GotRelocs.EmitFinishes | tooling/bfd-scrape/bfd/arc-got.h:530-540 | emitting a list marks every entry of it as done |
| GotRelocs.RunLeaves | tooling/bfd-scrape/bfd/arc-got.h:455-559 | and no later request or emission adds a relocation to the words of an entry that has its own |
| StableSort.SortStable | src/olnk/output_builder.cpp:112-122 | the modelled sort is stable; with the next two this fixes its result |
| StableSort.SortSorts | src/olnk/output_builder.cpp:112-122 | its result is sorted |
| StableSort.SortKeepsAll | src/olnk/output_builder.cpp:112-122 | and has the same elements, as often |
| StableSort.SortOrderFree | src/olnk/output_builder.cpp:112-122 | any order of the same elements sorts to the same sequence, if no two different ones compare equal |
| Alignment.CeilingIsLeast | src/olnk/output_builder.cpp:46-57 | the aligned place is the least multiple that is not before the value |
| OutputLayout.AlignWraps | src/olnk/output_builder.cpp:81-84 | the wrapped result of aligning is smaller than the value exactly if the true one does not fit 64 bits |
| OutputLayout.LayoutIsOrdered | src/olnk/output_builder.cpp:80-98 | sections are in order and do not overlap |
| OutputLayout.SectionIsPlaced | src/olnk/output_builder.cpp:80-98 | every section is aligned, begins no earlier than the base and ends no later than the layout |
| OutputLayout.LayoutIsLeast | src/olnk/output_builder.cpp:80-98 | the layout is minimal: in any other placement in the same order no section begins earlier |
| OutputLayout.OutputBuilder.AddSection | src/olnk/output_builder.cpp:61-64 | a section is added behind the others, whatever it is |
| OutputLayout.OutputBuilder.NormalizeInputs | src/olnk/output_builder.cpp:104-123 | alignments of 0 become 1 in place, and the inputs are sorted |
| OutputLayout.OutputBuilder.LayOut | src/olnk/output_builder.cpp:77-101 | the loop succeeds exactly if the unbounded layout ends below 2^64, and then the image has it |
| OutputLayout.OutputBuilder.Build | src/olnk/output_builder.cpp:66-101 | build is true if and only if the image is there and the unbounded layout of the sorted sections ends below 2^64; then the image has exactly that layout |
| OutputLayout.OrderFree | src/olnk/output_builder.cpp:104-123 | sections with distinct kind, name and ordinal are laid out alike whatever order they were added in |
| OutputLayout.PreparedIs | src/olnk/output_builder.cpp:104-123 | what is laid out are the inputs with normal alignments, each once, in the order of the comparison |
| OutputLayout.PreparedInOrder | src/olnk/output_builder.cpp:104-123 | they stand in the order unknown, code, read-only data, data, .bss, TLS, debug; those of a kind byte by byte by their names; those of a name by their ordinals |
| OutputLayout.NormalIs | src/olnk/output_builder.cpp:104-111 | setting an alignment of 0 to 1 moves nothing |
| OutputLayout.EntryIsPlaced | src/olnk/output_builder.cpp:80-98 | the image's entry of a section has its name, kind, size and alignment, and an aligned offset behind which the next begins no earlier than it ends |
| ComputeOffsets.ComputeOffsets | src/olnk/compute_offsets.cpp:31-50 | the second pass, in place: it succeeds exactly if no size wraps around, with the wrapped offsets |
| ComputeOffsets.AgreesWithBuild | src/olnk/compute_offsets.cpp:31-50 | when the builder succeeds, so does the pass, with the same offsets |
| ComputeOffsets.SlotKeeps | src/olnk/compute_offsets.cpp:36-41 | a slot keeps its size, and its alignment unless that is 0; without one it goes right behind the slot before it |
| ComputeOffsets.MissesExactlyTheWraps | src/olnk/compute_offsets.cpp:40-46 | when the pass succeeds, the builder does if and only if no alignment step wrapped around |
| ComputeOffsets.MissesOne | src/olnk/compute_offsets.cpp:40-46 | an input for which the pass succeeds with an offset before the base, while the builder fails |
| RelocationPlan.Planner.Add | src/olnk/relocation.cpp:45-48 | a record is added behind the others |
| RelocationPlan.Planner.FinalizeOrder | src/olnk/relocation.cpp:50-62 | the records are put into the order of the comparison |
| RelocationPlan.OrderFree | src/olnk/relocation.cpp:50-62 | records with distinct offset, kind and ordinal come out alike whatever order they were added in, each once and sorted |
| RelocationPlan.OrderedByOffset | src/olnk/relocation.cpp:50-62 | they come out by offset, then by kind in the order of their declaration, then by ordinal |
| RelocationPlan.ApplyRelocations | src/olnk/relocation.cpp:114-133 | the loop applies every record at its place |
| RelocationPlan.AppliedIsExact | src/olnk/relocation.cpp:73-133 | for an addend above the least one: applied if and only if the kind is supported and place, target plus addend and, if pc-relative, the distance are all in [0, 2^64); then the value is exact; an overflow has no value unless only the distance does not fit |
| RelocationPlan.LeastAddend | src/olnk/relocation.cpp:99-101 | the same for the least addend, where its negation wraps around to itself |
| RelocRecords.SwapStdOut | tooling/bfd-scrape/bfd/aoutx.h:1925-2019 | writing a standard record fills all its bytes |
| RelocRecords.StdTypeReadsBack | tooling/bfd-scrape/bfd/aoutx.h:2219-2250 | the bits of the type byte are found where they were put, in both byte orders |
| RelocRecords.HowtosAre | tooling/bfd-scrape/bfd/aoutx.h:225-269 | which numbers of the table are howtos |
| RelocRecords.StdRoundTrip | tooling/bfd-scrape/bfd/aoutx.h:2202-2274 | a standard record reads back: its address; its howto, exactly for numbers 0 to 7, 9 and 10; and what it is against, exactly if the reader knows the symbol's number and a section is not taken for a symbol because the howto is base-relative |
| RelocRecords.StdRefers | tooling/bfd-scrape/bfd/aoutx.h:1925-2274 | in the symbol's own terms: a record against an undefined, common, absolute or weak symbol reads back as one against that symbol, one against any other as one against its section, with the section's address taken off the addend |
| RelocRecords.StdMisreads | tooling/bfd-scrape/bfd/aoutx.h:2202-2274 | such howtos: one relative to the GOT reads back as a base-relative one of 32 bits, one for a jump table as none |
| RelocRecords.SwapExtOut | tooling/bfd-scrape/bfd/aoutx.h:2028-2093 | writing an extended record fills all its bytes |
| RelocRecords.ExtRoundTrip | tooling/bfd-scrape/bfd/aoutx.h:2144-2199 | an extended record reads back: every howto but the two placeholders; address and addend exactly if they are sign extensions of 32 bits as written; and what it is against exactly under a condition on the symbol, howto and symbol count |
| RelocRecords.ExtRefers | tooling/bfd-scrape/bfd/aoutx.h:2028-2199 | in the symbol's own terms: against an absolute symbol nothing is kept, against an undefined or global one the symbol, against a section symbol its section |
| RelocRecords.ExtMisreads | tooling/bfd-scrape/bfd/aoutx.h:2144-2199 | such a record: a placeholder reads back as the howto of type 0, and an address of 2 GB as one at the end of the address space |
| RelocRecords.PutReloc | tooling/bfd-scrape/bfd/aout-ns32k.c:171-196 | writing an ns32k record fills all its bytes |
| RelocRecords.Ns32kRoundTrip | tooling/bfd-scrape/bfd/aout-ns32k.c:144-166 | all 18 ns32k howtos, any 24-bit index, the external and the pc-relative bit read back |
| AoutLayout.AlignPowerIs | tooling/bfd-scrape/bfd/bfd-in.h:142-143 | align_power is the least multiple of a power of two, or 0 if that does not fit |
| AoutLayout.BfdAlignIs | tooling/bfd-scrape/bfd/bfd-in.h:149-152 | BFD_ALIGN is the least multiple, or the last word if that does not fit |
| AoutLayout.AdjustO | tooling/bfd-scrape/bfd/aoutx.h:903-959 | the OMAGIC layout, as set in the sections and the header |
| AoutLayout.AdjustN | tooling/bfd-scrape/bfd/aoutx.h:1069-1109 | the NMAGIC layout |
| AoutLayout.PlaceText | tooling/bfd-scrape/bfd/aoutx.h:978-1021 | the text of a ZMAGIC file, with the padding for an unusual address and up to a page |
| AoutLayout.PlaceData | tooling/bfd-scrape/bfd/aoutx.h:1023-1042 | its data, and the text padded up to it where both are mapped contiguously |
| AoutLayout.PlaceBss | tooling/bfd-scrape/bfd/aoutx.h:1048-1066 | its padded data, and what the header says of .bss |
| AoutLayout.AdjustZ | tooling/bfd-scrape/bfd/aoutx.h:962-1067 | the whole ZMAGIC layout |
| AoutLayout.AdjustSizesAndVmas | tooling/bfd-scrape/bfd/aoutx.h:1112-1190 | which layout is chosen, for the text size rounded up to its alignment |
| AoutLayout.OMagicFollows | tooling/bfd-scrape/bfd/aoutx.h:903-959 | OMAGIC file positions are prefix sums, and so are the addresses that the user did not set |
| AoutLayout.OMagicReachesBss | tooling/bfd-scrape/bfd/aoutx.h:945-956 | the data is padded up to a .bss at an address the user set if and only if that is less than 2^31 bytes after the data: the padding goes through an int |
| AoutLayout.OMagicMissesOne | tooling/bfd-scrape/bfd/aoutx.h:945-956 | a .bss 2 GB behind the data, to which nothing is padded |
| AoutLayout.NMagicFollows | tooling/bfd-scrape/bfd/aoutx.h:1069-1109 | NMAGIC: the text comes right after the header in the file and the data right after the text; in memory the data begins on the next segment, and .bss at the end of the data, where the user did not set an address |
| AoutLayout.NMagicEnds | tooling/bfd-scrape/bfd/aoutx.h:1093-1105 | for alignments up to 2^63: the NMAGIC data ends, as the header has it, aligned for .bss if and only if that is less than 2^31 bytes on; .bss itself is put at the unpadded end, which is where the header's data ends exactly if the padding comes to nothing as an int |
| AoutLayout.NMagicGap | tooling/bfd-scrape/bfd/aoutx.h:1093-1105 | with alignments below 2^31 that is the case exactly if the data ends aligned already |
| AoutLayout.NMagicMissesOne | tooling/bfd-scrape/bfd/aoutx.h:1093-1105 | an input where .bss comes 15 bytes before the end of the data as the header has it |
| AoutLayout.ZMagicCovers | tooling/bfd-scrape/bfd/aoutx.h:1048-1066 | a_data is the least page multiple that holds the data aligned for .bss, and a_data + a_bss covers both, with the exact sum |
| AoutLayout.ContiguousMeets | tooling/bfd-scrape/bfd/aoutx.h:1030-1038 | mapped contiguously, the text ends exactly at the data, in memory and in the file |
| AoutLayout.ContiguousIsIntended | tooling/bfd-scrape/bfd/aoutx.h:1030-1038 | the text is padded just when the data comes after it, as the comment has it, if and only if the data does come after it, or the text wraps around the address space and ends exactly at it: the comparison with zero is on an unsigned number |
| AoutLayout.ContiguousCuts | tooling/bfd-scrape/bfd/aoutx.h:1030-1038 | data inside the padded text cuts the text down to end there |
| AoutLayout.ContiguousOverflows | tooling/bfd-scrape/bfd/aoutx.h:1030-1038 | data in front of the text pads the text by the wrapped distance, to more than its own length |
| AoutLayout.CutsOne | tooling/bfd-scrape/bfd/aoutx.h:1030-1038 | an input of the first kind: half a page of text is lost |
| AoutLayout.OverflowsOne | tooling/bfd-scrape/bfd/aoutx.h:1030-1038 | an input of the second kind: the text is padded to almost the whole address space |
| AoutLayout.TextEndsOnPage | tooling/bfd-scrape/bfd/aoutx.h:985-1021 | the padded text ends on a page if the user set its address; otherwise exactly as far past one as its address is from where its padding was counted |

## Left out

- Symbol tables: section symbols, N_INDR, N_WARNING, N_SET types, stripping and discarding are modelled in every step.
- GroupSteps.FileFacts: not claimed for links that strip symbols or discard all local ones, in which stabs go with the rest; the other lemmas about header groups over files and runs likewise, through `Plain`. That stabs have no hash entries is taken from aoutx.h:3028-3030.
- String tables: records carry names instead of offsets into a string table; its hashing is not modelled.
- Dynamic linking: the hooks for dynamic objects, `check_dynamic_reloc` and `write_dynamic_symbol`, and RELOC_BASE10, RELOC_BASE13 and RELOC_BASE22 in the relocation passes; the record reader in RelocRecords has the last three.
- Section contents: the final link's relocation of contents is modelled by the place and the value of each patch, after the contract in the comment at aoutx.h:4591; how bits are inserted into instructions is not.
- Standard records in the two-link theorem: only extended records carry their addend, so the theorem is about those.
- Format walkers: the Windows I64 branch, formats that contain a NUL, the 128 bytes of the specifier's buffer, and print callbacks that fail or report another length; the digits that sprintf makes of a width or precision are an input, whose `abs` is taken to be defined.
- Memory files: allocation failure, wrap-around of position plus size in 64 bits, file-backed streams, stat, flush and mmap.
- MemoryFile.Bfd.MemoryWrite: not claimed for a write past the end of a read-only BFD's buffer whose capacity is not rounded up, which the code neither refuses nor makes room for; `MemoryFile.Bfd.Write` likewise.
- MemoryFile.Perform: runs are on a writable BFD, where seeks never stop at the end.
- Section list: nothing but the list operations; section counts and hash tables of sections are not part of the list.
- Long names: paths stand for file names, so that the comparison of name pointers in archives that are not thin never finds two equal ones; `adjust_relative_path` and normalizing are inputs.
- LongNames.FieldReadsBack: not claimed for table indices that leave less than three bytes of their field, which a table whose size has at most ten digits does not need, nor for places of 2^63 and more; `LongNames.LongNamesReadBack` likewise.
- NamedArchives.NamesAreFound: not claimed for members whose header does not open because a place runs on into too many digits, and for short names whose fields are taken for an index or a length: those that begin with a slash, empty ones, those with a leading space where no slash follows, and #1/ with a digit.
- Archive members: dates, owners and modes are 32 bytes given as input; the element cache, plugins, members of nested thin archives opened from other files, and the case that a header written by the generic writer happens to carry a BSD 4.4 name.
- Archive maps: offsets beyond 2^63, the rewriting of the BSD map's timestamp, ECOFF and Mach-O map names, errors by their codes (all that stop the reader are one), and maps whose size reaches 4 GB in unsigned int for the round trips (the writers' sizes are modelled with their wrap-around, up to `BFD_ALIGN` at the very end of the range).
- Archive reading: what follows the first unreadable header is not looked at, as in the source; a first member that could be taken for a map, a second map or a table of names is excluded from the whole-archive theorems by `CanBeRead`, a condition on what is written, and read as the code does by `Slurp` and `SlurpTable`.
- GOT allocator: contents of .got (`relocate_fix_got_relocs_for_got_info`), the addend that is read from them, and `bfd_elf_link_record_dynamic_symbol`, whose outcome is an input; runs stop at the first request that fails.
- olnk: vectors' allocation, and `std::stable_sort` itself, which is modelled by the function it computes, proved sorted, stable and a permutation.
- RelocationPlan.LeastAddend: the negation of the least 64-bit number is undefined in C++; the lemma is for hosts where it wraps around to itself, and `AppliedIsExact` takes what it gives as an input.
- AoutLayout: a backend is taken to exist, page and segment sizes are positive words, and theorems about alignment take them as powers of two; `.bss` addresses in NMAGIC files are not claimed to be aligned, since the code does not align them.
- Everything else of the repository: other object formats, hash tables, file and locale code, the Lua files, registries and plugins, which would add only getters or the same patterns again.
