# Verified model of the page-table translator, the runlist parser and the device arithmetic

This project models, in Dafny 4.11, the three parts of SIFT that compute rather than talk to a
device, and proves what they promise. `dafny verify dfyconfig.toml` checks all of it.

**Page-table translation** (`src/xlator/xlator.c`). `PageTable.dfy` gives the meaning of a table: a
recursive walk that reads every entry from memory. Memory is an immutable pair of maps, one for each
aperture, and the context registers are a record. `WalkHelpers.dfy` is the code's own form: a class
whose arrays hold the last entry address and word of each level, the decoded directory entries and
the level geometry, with loops whose unsigned counters leave by wrapping. `Translator.dfy` is the
loop over a range, with the bound that grows while it runs and the list linked on the heap
(`Lists.dfy`); `RangeLoop.dfy` specifies it round by round, cache and wrapping cursor included.

- `EntryFormats.dfy`, `WalkWords.dfy`: every field of an entry, the address of every entry and the
  report of a walk in plain arithmetic on the words in memory; a walk reads exactly the words so
  determined.
- `CachedWalk.dfy`: one walk from any cache lines reads the words of the plain walk exactly when the
  lines agree with memory; and the walks of any addresses in any order do, from a fresh cache, exactly
  when the table is transparent to a cache whose key is an address without its aperture.
- `ConsecutiveWalks.dfy`: the walks of one range, each of which starts where the block before it ends,
  read what the plain walks read under a weaker condition, which is exact on tables whose blocks fit.
- `Blocks.dfy`: the walk is constant over each table slot; over the blocks it reports it is constant
  exactly when it agrees wherever a block crosses into another slot; and the blocks lie inside their
  slots exactly when they fit them. The blocks of such a table partition the address space.
- `Fragments.dfy`, `RangeMeaning.dfy`, `RangeResults.dfy`, `RangeRuns.dfy`: a listed range tiles the
  addresses asked for, translates each of them as the plain walk does, and is listed exactly when
  every page can be walked and does not overlap what precedes it.
- `RangeOutcomes.dfy`: exactly when a range ends the process and when it is refused, and what the
  fragments of a list carry besides the translation.
- `EndlessLoops.dfy`, `CombinedLoops.dfy`: exactly when the loop over a range does not end, without and
  with combining.
- `Translations.dfy`: the translation of one address, and exactly when it succeeds.
- `Geometry.dfy`: the level indices are a mixed-radix decomposition of an address, exactly when the
  root table has a fitting size.
- `Limits.dfy`, `RangeLimits.dfy`: concrete tables and ranges, at least one for each premise below that
  is about tables and ranges, on which the premise fails, with what the code makes of them.

**Runlists** (`src/pm4/rls_parser.cc`, `src/pm4/pm4.cc`). `RlsText.dfy` holds the three line
patterns, `RlsGrammar.dfy` what they match as concatenations, `RlsSections.dfy` the meaning of a dump
line by line, `RlsParsing.dfy` the resumable state machine over byte offsets and the two entry points,
`Packets.dfy` the two-pass packet framing and the body decoders, `PacketEncoding.dfy` an encoder
written from the field positions, and `RlsPrinting.dfy` a printer of dumps. The encoder and the
printer are reference definitions: the repository has neither, and the round trips are stated against
them.

**Addresses and resources** (`src/sift/partition.cc`, `src/sift/device.cc`, `src/sift/engine.cc`).
`Hive.dfy` decodes XGMI hive addresses by wrapping subtraction and follows reads and writes to a file,
`DebugFs.dfy` finds that file by the bus address of a node, `Xcc.dfy` assigns compute dies with a shared
cursor, and `Devices.dfy` groups nodes into devices and global handles.

`Words.dfy` holds 64-bit and 32-bit arithmetic with the wrap written out, and bit operations defined
bit by bit; `BitFields.dfy` words packed from fields, and the laws of the operations for each bit;
`Options.dfy` the option type.

## Premises

The code relies on the following without checking them. A walk, and the two translations as methods,
need none of them but that the loop ends: their contracts speak of the loop with its cache. That the
loop reads what the table says needs the first; what its result means for an address, and when there
is one, needs the second and the third.

- `ConsecutiveWalks.ReadsTable`: either the table is transparent (`CachedWalk.CacheTransparent`: no
  entry in use lies at address zero unless it holds zero, and two entries in use at one level under one
  numeric address hold the same word), or its blocks fit their slots and only the half about address
  zero is asked (`LoopReadsTable`). The frame-buffer offset of every set of registers is aligned as the
  second case needs (`Translator.RegistersReadTable`). It is sufficient for every range of the table;
  three statements are exact: `CachedWalk.WalkAgreesIff` for one walk, `CachedWalk.CacheAgreesIff` for
  walks of arbitrary addresses in any order, which the translator does not make, and
  `ConsecutiveWalks.ConsecutiveRunIff` for consecutive walks on a table whose blocks fit.
  `OrdinaryTablesAreTransparent` says that any table without an entry at address zero and with one
  aperture for each address of a level is transparent. `RangeLimits.AperturesConfused` is a range that
  is listed without an error and wrongly, on a table with tables at one numeric address in both
  apertures; `Limits.MappedPageLost` is a table at address zero.
- `Blocks.UniformTable`: the walk is constant over every block it reports. `UniformIff` reduces this to
  the places where a block crosses from one slot into the next, and `AlignedTableIsUniform` shows that
  there are none if the table starts on a boundary of the largest slot and no last-level directory
  entry has a block fragment size above the page table block size. `Limits.MisalignedStart` and
  `Limits.OversizedFragment` are tables that break the one and the other.
- `Fragments.Unwrapped`: the end of the range, and the end as the first page moves it, stay below 2^64.
  `Fragments.WrappedRange` and `Fragments.WrappedEnd` say what is listed otherwise, and
  `RangeLimits.RangePastTheEnd` is such a range.
- `RangeLoop.Ends`: the loop ends. Past the page that ends at 2^64 its cursor is zero again, below the
  bound; `RangeResults.SeparateRangeListedIff` and `RangeRuns.CombinedRangeListedIff` say exactly when it
  gets there (the result `TopReached`), which is only if the end of the range as moved lies on that
  page. Such a range is never listed (`EndlessLoops.NotListedAtTop`): the loop goes round for ever if no
  page in the whole address space stops it, which `EndlessLoops.SeparateEndsIff` and
  `CombinedLoops.CombinedEndsIff` make exact, and otherwise ends with an error.
  `RangeLimits.EndlessRange` is a table and a range on which it never ends, combined or not, and
  `RangeLimits.CursorWraps` a range of a valid page after which the cursor is zero.
- The rounded sizes of the nodes of a hive add up to less than 2^64.
- A runlist text is shorter than the largest `size_t`. The model reads a text as the characters before
  the NUL that ends it in the source, so that a text has none inside; no result needs to say so.

## Where the code differs from what one may expect

- `sdma_enable` is decoded from bits 7 down to 0, so that a nonzero `num_gws` sets it
  (`src/pm4/pm4.cc:254-255`). `PacketEncoding.RoundTripIff` gives the exact condition and
  `PacketEncoding.SdmaReadFromGws` a packet.
- Combining pages is not only a shorter way to write the same list: a range in which a page is mapped
  again just after its run is listed page by page and rejected with combining
  (`RangeLimits.CombiningRejects`). `RangeRuns.CombinedRangeListedIff` gives the exact condition.
- A translation of one address asks for the bytes up to the end of its 4 KiB page, and the bound then
  grows by the bytes of the page before the address (`src/xlator/xlator.c:626`,
  `src/xlator/xlator.c:702-706`). So on a 4 KiB page every address but the first makes the loop walk the
  next page as well, and the translation of a mapped address fails if that page overlaps
  (`RangeLimits.NextPageOverlaps`) and ends the process if its entry cannot be read
  (`RangeLimits.NextPageUnreadable`). `Translations.TranslatesIff` gives the exact condition for pages
  of all sizes, `Translations.FurtherPagesIff` says when no further page is walked, and
  `Translations.SmallPageIff` spells both out for 4 KiB pages.
- An address in the last 4 KiB of the address space is translated successfully, without a walk, to
  itself and as invalid.
- A read of another node's hive address searches for a partition, a read of the own card does not; a
  write always searches (`src/sift/partition.cc:142`, `src/sift/partition.cc:179`).
  `Hive.ReadsMeetWritesIff` says exactly when the two go to the same offset of the same partition,
  `Hive.AccessesMeetIff` when they reach the same offset of the same VRAM file, and
  `Hive.SecondPartitionReadsElsewhere` is a hive where the partitions differ, and the files do if their
  directories differ. The directory is found by domain, bus and device number
  (`src/sift/partition.cc:81-88`), so the partitions of one device share it: reads and writes meet
  whenever device ids and cards agree (`DebugFs.ReadsMeetWrites`). That needs location ids of 16 bits: a
  longer one runs into the domain in the key by which nodes are grouped into devices
  (`src/sift/engine.cc:72`, `DebugFs.WideLocation`).
- A handle returned by a device is resolved in the order of the sorted devices, not in the order in
  which it was numbered. `Devices.HandlesAreOwnIff` says exactly when that makes no difference,
  `Devices.SwappedHandles` shows two nodes where it does, and `Devices.HandlesReachEachNodeOnce` what
  holds in any case.
- A translation of zero bytes, and of a range that passes 2^64, lists one fragment of size zero.
- The wildcard of the data-line pattern does not match a carriage return, and the trailing space of the
  node-line pattern does. So of a dump with carriage returns every node is found and no data: the
  series is empty, without an error (`RlsSections.ReturnsLoseRunlists`).

## Model

| member | source | states |
|---|---|---|
| Words.GetBitsIsMaskAndShift | src/xlator/xlator.c:155-159 | the bit-by-bit field is what the doubled mask and the shift compute in 64 bits, also for bit 63 |
| Words.GetBitsValue | src/pm4/pm4.cc:29-33 | a field is a quotient by a power of two modulo another one |
| Words.IntRoundTrip | src/pm4/rls_parser.cc:32-37 | a signed 32-bit number comes back from its unsigned form |
| Words.IntOfWord | src/pm4/rls_parser.cc:32-37 | the signed form of a word lies in the signed range, has its low 32 bits, and is the word itself below 2^31 |
| BitFields.OrBit | src/sift/engine.cc:72 | a bit of a disjunction is set if and only if it is set in one of the two words |
| BitFields.ShlMod | src/xlator/xlator.c:587-594 | a left shift is a product by a power of two modulo 2^64 |
| EntryFormats.PdeByArithmetic | src/xlator/xlator.c:228-238 | each field of a directory entry as a quotient and a remainder of the raw word |
| EntryFormats.PteByArithmetic | src/xlator/xlator.c:240-259 | each of the fifteen fields of a page entry as a quotient and a remainder of the raw word |
| PageTable.PteBaseRange | src/xlator/xlator.c:240-259 | page bases have 48 bits and are multiples of 4 KiB |
| WalkHelpers.WalkHelper.Populate | src/xlator/xlator.c:557-621 | the helper describes the registers' table, its cache is blank and every level holds its geometry |
| WalkHelpers.ConfigByArithmetic | src/xlator/xlator.c:583-600 | the control fields, the joined and shifted halves and the shifted offset, in plain arithmetic |
| WalkWords.LevelByArithmetic | src/xlator/xlator.c:609-619 | slot size, number of slots and span of a level, in plain arithmetic |
| WalkHelpers.WalkHelper.FillLevels | src/xlator/xlator.c:609-619 | the counter that leaves by wrapping fills exactly the levels of the table |
| WalkHelpers.ShiftWraps | src/xlator/xlator.c:610-611 | the shift of level i is the block size plus 12 plus 9 i, across the unsigned wrap at level zero |
| WalkHelpers.WalkHelper.FetchEntry | src/xlator/xlator.c:308-314 | a hit returns the line's word, a miss reads memory and replaces the line of its level only |
| WalkHelpers.WalkHelper.ReadEntry | src/xlator/xlator.c:294-314 | one round of the loop decodes the directory entry and fetches the entry below it unless it is a page entry |
| WalkHelpers.WalkHelper.DescendTable | src/xlator/xlator.c:288-315 | the loop over the wrapping depth is the cached descent; array indices stay in range and it ends |
| WalkHelpers.WalkHelper.FinishWalk | src/xlator/xlator.c:317-367 | the reported size, mask and entry in the large-page, page-table and translate-further cases |
| WalkHelpers.WalkHelper.WalkPt | src/xlator/xlator.c:281-368 | a walk returns the outcome of the cached walk from the helper's lines and leaves its lines |
| WalkWords.EntryAddress | src/xlator/xlator.c:302-307 | an entry is read in the memory its directory entry names, at eight times its index plus the base, less the frame-buffer offset in video memory only, modulo 2^64 |
| WalkWords.PlainAddress | src/xlator/xlator.c:302-307 | if nothing wraps, that is the plain sum, with the index a remainder by 512 or by the slots of a root of a power of two |
| WalkWords.DescentIff | src/xlator/xlator.c:288-315 | the words of a walk and why it stops: the root entry, then each word read below the one before, up to a page entry or a failed read |
| WalkWords.WalkReports | src/xlator/xlator.c:317-367 | the entry, the size and the failure that a walk reports, from those words; with translate-further, from the word at the further address |
| WalkWords.OffsetInVideoOnly | src/xlator/xlator.c:302-304 | one page reached through tables in video memory below the offset, and through tables in system memory without it |
| CachedWalk.WalkAgreesIff | src/xlator/xlator.c:288-315 | a walk from any lines reads the words of the plain walk if and only if each line with the address of an entry it uses holds that entry's word; it leaves the entries it used |
| CachedWalk.CachedWalkIsWalk | src/xlator/xlator.c:281-368 | under transparency a walk from any sound cache is the plain walk and leaves a sound cache |
| CachedWalk.RunsAgree | src/xlator/xlator.c:281-315 | so is every run of walks that share one cache |
| CachedWalk.CacheAgreesIff | src/xlator/xlator.c:306-314 | walks of any addresses in any order, from a blank cache, read what the plain walks read if and only if the table is transparent |
| CachedWalk.OrdinaryTablesAreTransparent | src/xlator/xlator.c:606-607 | no entry at address zero and one aperture for each address of a level are enough |
| ConsecutiveWalks.ConsecutiveRunIff | src/xlator/xlator.c:692-750 | on a table whose blocks fit, walks that each start where the block before ends read what the plain walks read if and only if no level is first used at address zero, unless the entry there is zero |
| ConsecutiveWalks.LoopReadsTable | src/xlator/xlator.c:690-750 | on a transparent table, or one whose blocks fit without a nonzero entry at address zero, the loop with its cache ends with a result if and only if the loop of plain walks does |
| Translator.RegistersReadTable | src/xlator/xlator.c:574-621 | the frame-buffer offset is aligned as this needs, also where its 32-bit shift loses bits |
| RangeLimits.AperturesConfused | src/xlator/xlator.c:308-309 | two tables at one address in different apertures: a range over both is listed, and its second block, which is mapped, as invalid |
| Limits.MappedPageLost | src/xlator/xlator.c:606-607 | a table at address zero: a mapped page is reported invalid from the zeroed cache |
| Blocks.WalkConstantOnSlot | src/xlator/xlator.c:306-355 | on every table, aligned or not, the walk is constant over the table slot it uses |
| Blocks.ReportBounds | src/xlator/xlator.c:325-334 | a report lies between 4 KiB and 8 TiB |
| Blocks.WalkConstantOnBlock | src/xlator/xlator.c:288-364 | a reported block that fits its slot is walked to one entry and size |
| Blocks.BlocksInSlotsIff | src/xlator/xlator.c:306-334 | every reported block lies in one slot if and only if each is no larger than its slot and the table starts on a boundary of its size |
| Blocks.UniformIff | src/xlator/xlator.c:288-364 | the walk is constant over every reported block if and only if it agrees wherever a block crosses into another slot |
| Blocks.AlignedTableIsUniform | src/xlator/xlator.c:288-364 | it is on a table with an aligned start and fragments no larger than the block size, whose blocks all fit their slots |
| Blocks.BlocksEqualOrDisjoint | src/xlator/xlator.c:288-364 | on a uniform table two reported blocks that share an address are the same block |
| Blocks.NextBlockStarts | src/xlator/xlator.c:698-751 | the address after a reported block starts the next one |
| Limits.OversizedFragment | src/xlator/xlator.c:333 | with a fragment above the block size, one reported block is walked to two pages |
| Limits.MisalignedStart | src/xlator/xlator.c:291-306 | with a start off the block boundary, one reported 2 MiB block is walked to two pages |
| Geometry.MaskKeepsIff | src/xlator/xlator.c:306 | masking by a count less one keeps every smaller index if and only if the count is a power of two |
| Geometry.MixedRadixIff | src/xlator/xlator.c:609-619 | the weighted indices and the offset add up to the address, for all addresses, if and only if the root table fits |
| Geometry.DistinctSlotsDistinctIndices | src/xlator/xlator.c:306 | addresses with equal indices at all levels lie in the same slot |
| RangeResults.OverlapIsPhysical | src/xlator/xlator.c:34-79 | for a page that follows its predecessor the overlap test is the intersection of the physical ranges |
| RangeResults.OverlapMeans | src/xlator/xlator.c:34-79 | for any two fragments the overlap test is the second starting inside the first, or intersecting physical ranges |
| RangeResults.ContiguityIsOneRun | src/xlator/xlator.c:645-671 | for any two fragments the contiguity test is adjacency with both invalid, or both valid with adjacent memory and equal attributes |
| Fragments.AllAttributes | src/xlator/xlator.c:657-670 | the attributes that have to agree are the fourteen fields other than the page base |
| RangeMeaning.GrowMeans | src/xlator/xlator.c:645-671 | a fragment grown by a contiguous page still means the plain walk at each of its addresses |
| RangeMeaning.StepBuilding | src/xlator/xlator.c:694-722 | the next page starts where the last ends; the code-bug exit cannot be reached |
| RangeResults.RangeIsTiled | src/xlator/xlator.c:690-751 | the list starts at the block of the address, has no gap or overlap, and its last page starts before the grown bound |
| RangeResults.TiledMapping | src/xlator/xlator.c:690-751 | a tiling list of faithful fragments translates each of its addresses as the plain walk |
| RangeLoop.RangeRounds | src/xlator/xlator.c:690-750 | from any cursor, the rounds of plain walks come to what the recursion over the addresses gives, or to a cursor that has wrapped to zero below the bound |
| RangeResults.RangeMapsPages | src/xlator/xlator.c:690-751 | a listed range maps exactly the addresses from the start of its first page to the end of its last, each as its plain walk |
| RangeResults.RangeTranslates | src/xlator/xlator.c:673-777 | on a uniform table every address of a listed range has the physical address, attributes and validity of its plain walk, combined or not |
| RangeResults.CombiningPreservesTranslation | src/xlator/xlator.c:720-749 | if combining succeeds so does not combining, and the two lists translate every address of the space alike, those asked for and all others |
| RangeResults.CombinedListIsCanonical | src/xlator/xlator.c:720-722 | no two neighbours of a combined list are both invalid, or valid with adjacent memory and equal attributes |
| RangeResults.SeparateRangeListedIff | src/xlator/xlator.c:690-751 | without combining a range is listed if and only if every address is walked, no page overlaps the one before, and it ends below the top page; its cursor wraps if and only if it ends on the top page instead |
| RangeRuns.OverlapIsTranslation | src/xlator/xlator.c:59-76 | a page overlaps the fragment under construction if and only if some address of it is translated into the page |
| RangeRuns.CombinedRangeListedIff | src/xlator/xlator.c:690-751 | with combining a range is listed if and only if every address is walked, no page is one its preceding run translates into, and it ends below the top page; its cursor wraps if and only if it ends on the top page instead |
| RangeOutcomes.SeparateRangeFailsIff | src/xlator/xlator.c:690-718 | without combining a range ends the process if and only if the first address that is not walked has an unreadable entry and no page before it overlaps; otherwise it is listed, wraps or is refused |
| RangeOutcomes.CombinedRangeFailsIff | src/xlator/xlator.c:690-722 | the same with combining, with runs in place of pages |
| RangeOutcomes.RangeStartsPages | src/xlator/xlator.c:708-775 | every fragment of a list starts at a page and carries its entry and base; without combining it is that page |
| RangeLimits.CombiningRejects | src/xlator/xlator.c:714-722 | a range listed page by page and rejected with combining |
| Fragments.UnwrappedRange | src/xlator/xlator.c:690-706 | without a wrap the loop's bound is the end of the range plus what the first page starts before it |
| Fragments.WrappedRange | src/xlator/xlator.c:689-690 | a range that passes 2^64 walks nothing and lists one empty fragment |
| Fragments.WrappedEnd | src/xlator/xlator.c:702-706 | if only the moved bound passes 2^64, the first page is all that is listed |
| RangeLimits.CursorWraps | src/xlator/xlator.c:690-750 | a range in the top 2 MiB page after which the cursor is zero and below the bound |
| EndlessLoops.SeparateEndlessIff | src/xlator/xlator.c:690-751 | without combining the loop of plain walks never ends if and only if the range ends on the top page, every address is walked and no page overlaps the one before it, the last page coming before the first |
| EndlessLoops.SeparateEndsIff | src/xlator/xlator.c:690-751 | so for the loop with its cache: it ends if and only if the range ends below the top page or the space cannot be translated all around |
| EndlessLoops.NotListedAtTop | src/xlator/xlator.c:690-751 | a range that ends on the top page is never listed, combined or not |
| EndlessLoops.LoopResult | src/xlator/xlator.c:690-751 | on a table it reads, the loop with its cache ends with the result of the recursion and no other, if the cursor does not wrap |
| EndlessLoops.LoopListsIff | src/xlator/xlator.c:673-777 | on a uniform table it reads, the loop with its cache ends with a list if and only if the recursion over the range gives that list, also where the cursor wraps |
| CombinedLoops.CombinedEndlessIff | src/xlator/xlator.c:690-751 | with combining the loop of plain walks never ends if and only if the range ends on the top page, every address is walked and no page maps a byte of the run before it, where runs go on around the end of the space |
| CombinedLoops.CombinedEndsIff | src/xlator/xlator.c:690-751 | so for the loop with its cache: it ends if and only if the range ends below the top page or some page cannot be walked or meets its run |
| CombinedLoops.CombiningEnds | src/xlator/xlator.c:714-722 | a range whose loop ends page by page also ends with combining |
| CombinedLoops.UnmappedRangeIsEndless | src/xlator/xlator.c:690-751 | where nothing is mapped, a range that ends on the top page never ends, combined or not |
| RangeLimits.EndlessRange | src/xlator/xlator.c:690-750 | a table of two invalid blocks and a range in the upper one whose loop never ends, combined or not |
| Translator.NextPage | src/xlator/xlator.c:692-714 | one walk with masking gives the page of the cached walk from the helper's lines, and leaves its lines |
| Translator.SiftXlatorTranslateRange | src/xlator/xlator.c:673-777 | whenever the loop ends, on any table and any range, the heap list holds the fragments it ends with, in order, or the status says why there is none |
| Translator.StatusOfRange | src/xlator/xlator.c:692-777 | the status in terms of the table: success, refusal and the end of the process are a list, a rejected and a terminated range |
| Translator.SiftXlatorTranslate | src/xlator/xlator.c:623-643 | whenever the loop ends, success gives the base of the walked entry plus the offset in its page, with its size and entry, which is the plain walk's on a table the loop reads; there, if it is uniform, it succeeds if and only if the address and the pages up to the moved bound are walked without overlap |
| Translations.PageTranslates | src/xlator/xlator.c:632-640 | the mask and the subtraction give the page base plus the offset of the address in its page, for every size of page |
| Translations.TranslationByArithmetic | src/xlator/xlator.c:632-640 | what is reported: the entry, its validity, the page size, and the base plus the remainder of the address by that size |
| Translations.ZeroFragmentIsBlank | src/xlator/xlator.c:689 | the fragment that an empty range lists is blank, with the flags of an entry of zeros |
| Translations.FurtherPagesIff | src/xlator/xlator.c:626-706 | no page after that of the address is walked if and only if its offset o and size s satisfy o + (o - o mod 4096) + 4096 <= s |
| Translations.TranslatesIff | src/xlator/xlator.c:623-643 | an address is translated if and only if it is walked, and so is every address up to the moved bound unless the page is enough, and no page overlaps |
| Translations.LoopTranslatesIff | src/xlator/xlator.c:623-643 | so for the loop with its cache, also where its cursor wraps |
| Translations.SmallPageIff | src/xlator/xlator.c:623-643 | on a 4 KiB page, an aligned address needs its page alone and any other the next page too |
| RangeLimits.NextPageOverlaps | src/xlator/xlator.c:626-718 | a valid address that is not translated, because the next page maps the same memory |
| RangeLimits.NextPageUnreadable | src/xlator/xlator.c:626-706 | a valid address whose translation ends the process, because the next entry cannot be read |
| Translations.TranslationAgreesWithLists | src/xlator/xlator.c:623-643 | that is also what any listed range that holds the address says, combined or not |
| RlsText.ParseDataSection | src/pm4/pm4.cc:72-95 | the dwords are the leftmost non-overlapping groups of eight hex digits |
| RlsGrammar.CharacterClasses | src/pm4/pm4.cc:25-27 | the spaces, digits and hex digits of the patterns, as lists of characters |
| RlsGrammar.DigitValues | src/pm4/pm4.cc:42-43 | the value of each digit, in either case |
| RlsGrammar.NodeLineIff | src/pm4/pm4.cc:25-54 | a line is a node line if and only if it is spaces, the two numbers with their literals, and spaces; the ids are the numbers modulo 2^32, and an error from 2^64 on |
| RlsGrammar.DataLineIff | src/pm4/pm4.cc:56-70 | a line is a data line if and only if it is spaces, eight hex digits, a colon and data without a line terminator, which is what is decoded |
| RlsGrammar.CellsMatch | src/pm4/pm4.cc:72-95 | groups of eight digits with anything but digits between them, or nothing, are decoded to their values |
| RlsParsing.RlsParser.ParseNode | src/pm4/rls_parser.cc:19-46 | next state and ids for a match that is wanted, one that is not, no match and an overflow |
| RlsParsing.RlsParser.ParseData | src/pm4/rls_parser.cc:79-112 | a data line is buffered, any other line ends the section and is not consumed |
| RlsParsing.RlsParser.BuildEntries | src/pm4/rls_parser.cc:48-78 | the buffered lines are joined in order and decoded, and the buffer is left empty |
| RlsParsing.RlsParser.Parse | src/pm4/rls_parser.cc:114-158 | one call takes the next wanted section of the remaining lines; the offset strictly advances and the rest is exactly what was not taken |
| RlsParsing.SiftPm4ParseRunlist | src/pm4/pm4.cc:304-341 | the first section with the wanted ids decides the result |
| RlsParsing.SiftPm4ParseRunlists | src/pm4/pm4.cc:343-402 | the heap list holds the runlists of the dump in order; a thrown error is a failure |
| RlsSections.BuildIff | src/pm4/rls_parser.cc:48-78 | a section has entries if and only if its dwords are a tiling of acceptable frames, and is undefined if and only if the first frame that is not decoded is too short |
| RlsSections.SeriesIsDecodingPrefix | src/pm4/pm4.cc:352-389 | the series is the longest prefix of the sections that are not empty and decode |
| RlsSections.SearchEnds | src/pm4/rls_parser.cc:19-46 | a search ends at the first line that is a node line it wants, with its ids and the run of data lines after it, or that overflows |
| RlsSections.SeriesOutcome | src/pm4/pm4.cc:352-400 | what the series is in every case: its decoding prefix, unless the next section is read past the buffer or a node line overflows after the last one |
| RlsSections.TargetedAgreesWithFull | src/pm4/pm4.cc:304-341 | a node listed by the full parse is found by the targeted parse, with the entries of its first section |
| RlsSections.DataIsNotNode | src/pm4/pm4.cc:25-27 | no line is both a data line and a node line |
| RlsSections.SkipSection | src/pm4/rls_parser.cc:30-39 | a targeted search passes over the whole section of another node |
| RlsText.NodeLineWithReturn | src/pm4/pm4.cc:25-54 | a carriage return at the end of a line changes nothing for the node pattern |
| RlsSections.ReturnsLoseRunlists | src/pm4/rls_parser.cc:79-112 | of a dump whose lines end in carriage returns nothing is listed and no node has entries, whatever it holds; only a node line that overflows still throws |
| Packets.ParseRunlistEntries | src/pm4/pm4.cc:163-210 | the two passes agree on the frames and yield one entry for each, or the error of the first that fails |
| Packets.FrameParsedIff | src/pm4/pm4.cc:97-155 | a frame cut by its own count is decoded if and only if its opcode, type bits and body are acceptable; the undersized branch is dead |
| Packets.HeaderByArithmetic | src/pm4/pm4.cc:105-117 | opcode, frame size and type bits of a header as quotients and remainders |
| Packets.FrameOutcome | src/pm4/pm4.cc:97-155 | a frame is refused if and only if it has no type bits or an opcode other than 0xA1 and 0xA2, and is read past the buffer if and only if its header is good and its body too short |
| Packets.EntriesAcceptedIff | src/pm4/pm4.cc:163-210 | a buffer is decoded if and only if it is not empty, its frames tile it and each is acceptable |
| Packets.RefusedIff | src/pm4/pm4.cc:163-210 | a buffer is refused if and only if it is empty, its frames do not tile it, or the first frame that is not decoded has a bad header; otherwise that frame is read past the end |
| Packets.EntriesMatchFrames | src/pm4/pm4.cc:172-204 | there is one entry for each frame of the first pass, with the count of its header |
| PacketEncoding.HeaderRoundTrip | src/pm4/pm4.cc:105-117 | opcode, count and type of an encoded header are decoded again |
| PacketEncoding.MapProcessDecodes | src/pm4/pm4.cc:234-268 | every field of an encoded body is decoded again, except that sdma_enable is also set by num_gws |
| PacketEncoding.MapQueuesDecodes | src/pm4/pm4.cc:270-289 | every field of an encoded body is decoded again |
| PacketEncoding.PacketRoundTrip | src/pm4/pm4.cc:97-155 | an encoded packet anywhere in a buffer is framed and decoded to its header and body |
| PacketEncoding.EncodingsParse | src/pm4/pm4.cc:163-210 | the concatenated encodings of any packets, with any ignored tail, are decoded to their list |
| PacketEncoding.RoundTripIff | src/pm4/pm4.cc:254-255 | the list is the original one if and only if each packet has sdma_enable set or num_gws zero |
| PacketEncoding.SdmaReadFromGws | src/pm4/pm4.cc:254-255 | a packet with one GWS and SDMA disabled is decoded as enabling SDMA |
| RlsPrinting.NodeLineRoundTrip | src/pm4/pm4.cc:36-54 | a printed node line gives back its numbers cut to 32 bits, and an error if one does not fit 64 |
| RlsPrinting.IdLineRoundTrip | src/pm4/rls_parser.cc:19-46 | the line printed for any two signed 32-bit ids gives back these ids |
| RlsPrinting.DataLineRoundTrip | src/pm4/pm4.cc:56-95 | a printed data line gives back its dwords, without the address column |
| RlsPrinting.LinesRoundTrip | src/pm4/rls_parser.cc:116-125 | joined lines are split again at the newlines, and what follows the last newline is no line |
| RlsPrinting.DumpRoundTrip | src/pm4/rls_parser.cc:114-158 | a printed dump, with other lines before and between its sections, is grouped back into them |
| RlsPrinting.RunlistTextRoundTrip | src/pm4/pm4.cc:343-389 | packets, encoded, broken into lines anyhow and printed with any other lines between, are parsed to their integer ids, headers and bodies |
| RlsPrinting.TargetedTextRoundTrip | src/pm4/pm4.cc:304-341 | a search of such a text for integer ids gives the packets of the first section with these ids, or nothing if there is none |
| Hive.HoleIsLost | src/sift/partition.cc:153-160 | an address in a rounding hole wraps and matches no later node |
| Hive.RoundUpToGib | src/sift/partition.cc:156-158 | a node takes the least multiple of 2^30 that is not below its size |
| Hive.DecodeIff | src/sift/partition.cc:139-160 | an address is decoded to a node and an offset if and only if it is that offset in that node |
| Hive.EveryPairDecoded | src/sift/partition.cc:139-160 | every offset in every node is the decoding of an address |
| Hive.ReadVram | src/sift/partition.cc:119-161 | a read goes where the decoded address says: through the own directory on the own card and elsewhere through that of the first partition of the device; the errors |
| Hive.WriteVram | src/sift/partition.cc:163-194 | a write goes to the decoded offset through the directory of the first partition of the device; the errors |
| Hive.ReadsMeetWritesIff | src/sift/partition.cc:119-194 | the read and the write of one address go to the same offset of the same partition if and only if there is no hive, the address is on another card, or the partition is the first of the addressed device |
| Hive.ReadsMeetWritesOnNodes | src/sift/partition.cc:139-191 | in a hive they meet if and only if the partition is the first of the device of every node on its own card in which the address lies |
| Hive.OutsideHive | src/sift/partition.cc:126-129 | outside a hive reads and writes go to the address itself in the own file |
| Hive.ReadReachesIff | src/sift/partition.cc:119-160 | a read reaches an offset of a partition if and only if, outside a hive, these are the address and the partition itself, or in a hive the address denotes that offset in a node the partition answers for |
| Hive.WriteReachesIff | src/sift/partition.cc:163-191 | the same of a write, which only the first partition of a device answers for |
| Hive.AccessIff | src/sift/partition.cc:119-194 | every outcome of an access, in a hive or not: refused without a directory, an offset in the file of the partition that answers, the use of a partition without a directory, or out of range |
| Hive.AccessesMeetIff | src/sift/partition.cc:119-194 | they come to the same offset of the same file, or the same error, if and only if, besides these, the first partition of the addressed device has the same directory |
| Hive.SecondPartitionReadsElsewhere | src/sift/partition.cc:142-181 | the second partition of a device reads through itself and writes through the first, in whichever directories these have |
| DebugFs.ResolveDebugFs | src/sift/partition.cc:39-104 | the search ends at the first directory of the driver that names the domain, bus and device of the node, or whose name cannot be understood |
| DebugFs.SearchByEntries | src/sift/partition.cc:47-104 | each of its results in terms of the directories: only those with the register file are looked at |
| DebugFs.SameDeviceIff | src/sift/partition.cc:81-88 | nodes with 16-bit location ids have one bus key, and so one device, if and only if their partitions look for the same directory |
| DebugFs.WideLocation | src/sift/engine.cc:72 | two nodes of one device that look for different directories, since a long location id runs into the domain |
| DebugFs.ReadsMeetWrites | src/sift/partition.cc:81-191 | if each device id belongs to one device, and nodes on the own card have the own device id, every read and write of one address reach the same offset of the same file |
| Xcc.Place | src/sift/device.cc:45-51 | one instance goes to the first node with room from the cursor on, which keeps the shares |
| Xcc.AssignXccs | src/sift/device.cc:28-65 | each node receives its slice of the available instances; the guess without a table and its refusal |
| Xcc.SharesPartition | src/sift/device.cc:35-53 | the slices are the leading part of the list, each position once, within quotas, and earlier nodes are filled first |
| Xcc.InstanceGoesTo | src/sift/device.cc:35-53 | the instances that are not harvested, counted through the dies, go to the node in whose quota their place falls |
| Devices.CollectBuilders | src/sift/engine.cc:63-82 | GPU nodes are grouped by bus key in their order, numbered without gaps, and described by the first of the group |
| Devices.GpuPlaces | src/sift/engine.cc:68-81 | the GPU nodes are those with SIMDs, each at the place given by how many such nodes come before it |
| Devices.KeyBits | src/sift/engine.cc:72 | the key bit by bit: the domain from bit 16 on, and bits 27 to 3 of the location id |
| Devices.DeviceDescribed | src/sift/engine.cc:73-79 | a device has the number of devices that start before it, and the domain and bus address of its first node |
| Devices.EnumerateDevices | src/sift/engine.cc:53-91 | the flattened members are each node with SIMDs exactly once, under the number of such nodes before it, stably sorted by bus key; and each device is one whole group |
| Devices.EnumeratePartitions | src/sift/engine.cc:42-51 | the flat vector is the concatenation of the devices' partitions |
| Devices.AsManyPartitions | src/sift/engine.cc:42-91 | there are as many partitions as GPU nodes, and their ids are all ids below that number |
| Devices.HandlesReachEachNodeOnce | src/sift/capi.cc:98-106 | visiting the handles of all partitions reaches each GPU node exactly once |
| Devices.HandlesAreOwnIff | src/sift/engine.cc:68-88 | every handle resolves to its own partition if and only if the nodes come in nondecreasing key order |
| Devices.SwappedHandles | src/sift/engine.cc:68-88 | two nodes in decreasing key order whose handles resolve to each other |

## Left out

- Translator.SiftXlatorTranslateRange: a call whose loop does not end is excluded by a premise, of which the exact condition is stated; nothing is said of the list that such a call builds up.
- Translator.SiftXlatorTranslate: the same, for the range it asks for.
- RlsParsing.SiftPm4ParseRunlists: what the list holds after a failure is not stated; the source frees parts of it while the caller's pointer still refers to them.
- Packets.ParseRunlistEntries: a body shorter than its opcode needs, at the end of the buffer, is read past the end by the source; the model reports that outcome and says nothing more of it.
- Devices.EnumerateDevices: a device that gives up its partitions, and the look-up of DRM nodes, are not part of the device list.
- Allocation failure, and the destruction of lists.
- Files, debugfs, ioctls, `/dev/mem` and MMIO: memory and registers are parameters, and a failed read ends the process as in the source.
- The regular expression for the name file of a debugfs directory: the three numbers it gives are a parameter.
- Other privilege checks than that of VRAM accesses, logging, the command line tools, the exception wrappers of `capi.cc` and `kfdcapi.cc`, and the tables of chip ids, memory types and opcodes.
- General regular expressions: the three patterns are modelled by hand, with the meaning the ECMAScript grammar gives them.
- Reserved header bits and packet types other than 3, which the source only reports in its log.
- What hardware does with a large-page bit above the last directory level, where the source reports 4 KiB; the model reports the same.
- The address arithmetic of `cmd/read_mem.cc`, which masks by the size of a combined fragment.
- The override of device ids, and the look-up of page-table bases and VMIDs: string handling and short linear searches.
