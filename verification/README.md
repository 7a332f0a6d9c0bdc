# A verified model of the boot loader's memory, digest, archive and screen code

This project models the parts of the two-stage boot loader that compute something: the four-level
page-table builder, MD5, the USTAR lookup and loader, the kernel ELF mapper, the memory and string
routines they use, and the scrolling text screen. Everything is proved for all inputs, and code that
works in place is modelled by methods that work in place.

## How it is put together

Machine words are unbounded integers below a stated power of two. Bit-fields and shifts by constants
are divisions and remainders. `Bits.dfy` defines and, or and exclusive or bit by bit and proves what they
amount to, so that widths can be parameters; `WordBits.dfy` shows that on 32-bit words they are the
operators of bit-vectors.

* **Page tables.** `PageEntries.dfy` holds the entry bit-fields as the loader writes them and, beside
  them, as the processor reads them. `PageTables.dfy` holds memory below 2 MB as words, the
  processor's walk (Intel SDM volume 3A, section 4.5) and the effect of each mapping call. The proof
  is in `PageTree.dfy` (a table is found by its level and the region it translates; no table is
  reached twice; what one written word changes), `PageMapping.dfy` (one call), `PageRuns.dfy` (any
  sequence of calls: the last one over an address decides), `PageCounts.dfy` (how many tables),
  `PhysicalMap.dfy` (the 1 GB window over physical memory), `BootTables.dfy` (the tables of
  `start.asm`), `MixedRuns.dfy` (mappers and `setup_physical_map` in any order), `MemoryFrame.dfy` (the
  words of memory that any of this leaves alone) and `PageDump.dfy` (the printed table). `PageMapper.dfy`
  is the code in place, proved equal to those effects. `VirtualAccess.dfy` makes every load and store of the code by a walk
  of the tables that it is changing, and proves that this comes to the same; on that footing
  `HugePages.dfy` and `GigPages.dfy` say what the calls do inside 2 MB and 1 GB pages.
* **MD5.** `Rfc1321.dfy` is the digest as RFC 1321 defines it. `Md5Steps.dfy` and `Md5.dfy` are the
  streaming code, with the width of `MD5_u32plus` a parameter of 32 or more bits. `Md5Answers.dfy`
  evaluates the definition on three messages of the RFC's own test suite.
* **USTAR.** `Ustar.dfy` is the scan; `UstarArchive.dfy` is the POSIX.1-2017 "ustar Interchange
  Format" as a relation between a disk and a list of members, a writer that produces it, and what the
  scan finds in it.
* **Kernel.** `KernelImage.dfy` is `map_kernel`; `ElfFile.dfy` is the layout of ELF-64 headers, a writer
  for it, and what `map_kernel` reads of what was written; `KernelLoads.dfy` is what loads through the new
  address space return; `KernelBoot.dfy` goes from the tables of `start.asm` to the first load of the
  kernel, under conditions on the ELF headers and on where the buffer lies.
* **Memory and screen.** `MemoryRoutines.dfy` and `Screen.dfy`.

`hide` statements keep definitions that a proof does not need out of the solver's sight.

## Where the code differs from its own intent

* `map_kernel` adds nothing to the frame inside its page loop, so every page of a segment is mapped to
  the segment's first frame (`KernelLoads.EveryPageIsTheFirst`, `KernelLoads.OnlyFirstPageRight`). All
  pages of a segment are right if and only if it is shorter than 4096 bytes
  (`KernelLoads.SinglePageExact`, which also covers sizes at the top of the 64-bit range);
  `KernelBoot.TwoPageSegment` is a segment for which they are not. The multi-page claim is proved for a
  marked correction, the constant `CORRECTED` (`KernelLoads.CorrectedImage`).
* `map_kernel` copies by file offset, not by address. So the bytes of a segment past its size in the
  file are zero only where no segment has other bytes at the same file offsets; for a segment of at most
  one page, every byte is right if and only if that is so (`KernelLoads.OnePageImageExact`, with a pair
  of segments for which it is not in `KernelBoot.CloseSegments`). `KernelLoads.WrittenImageExact` is the
  condition for segments of any size, `KernelLoads.CorrectedImageExact` the one under the correction.
* `ALIGN_UP_4KB` counts a page too many for a size that is a multiple of 4 KB, and none for a size
  within 4 KB of 2^64; the count is right if and only if neither is the case
  (`KernelImage.NumPagesExact`, with a size in `KernelImage.OnePageTooMany`). The extra page is mapped
  to the segment's first frame, over an earlier segment that starts there
  (`KernelLoads.ExtraPageOverrides`).
* `setup_physical_map` links its table at the slot of the address after the last page, and its rounding
  wraps for sizes within 1 GB of 2^64. The window reaches every byte of memory if and only if there are
  at most 511 GB (`PhysicalMap.PhysicalWindowExact`).
* The mappers do not look for large pages on their way down, and take the frame of one for a table,
  addressed where it is not mapped. Over a 2 MB page `map_4kb_page` faults, unless the frame is 0; then
  it stores its entry into the page's own bytes and no translation changes. So away from 1 GB pages it
  maps what it is asked to if and only if no 2 MB page is there, or that page has frame 0 and gives the
  same frame already (`HugePages.HugePageIgnored`, `HugePages.HugePageExact`, with calls of both kinds in
  `HugePages.HugePageWitness`).
* Over a 1 GB page both mappers fault unless the frame is 0, so every call inside the window past its
  first gigabyte does (`GigPages.WindowCallsFault`). At frame 0 `map_2mb_page` overwrites a word of the
  page; it does what it is for if and only if no 1 GB page is there, or that page has frame 0 and gives
  the same frame already (`GigPages.HugeRegionExact`). `map_4kb_page` takes a word of the page for an
  entry; `GigPages.GigPageOutcome` is all that can happen, `GigPages.GigPageExact` when it does what it
  is for. `GigPages.GigPageWitness` is a call that unmaps the first 2 MB and faults,
  `GigPages.GigPageMovesAnother` one that maps another page than it was asked to.
* `new_page_table` takes 4 KB after 4 KB from 0x20000 on. Nothing but those tables, the tables of
  `start.asm` and the entries on the routes of the mapped addresses is written, so the text on the screen
  at 0xB8000 stays while at most 152 tables have been taken (`MemoryFrame.ScreenStays`); the next table is
  put there and clears it (`MemoryFrame.ScreenCleared`).
* `memset` stores the value extended to 64 bits, so it fills only with zero or in short ranges
  (`MemoryRoutines.MemsetFills`).
* The archive scan does not move past links, devices, pipes and unknown members
  (`UstarArchive.LookupReturns`), joins prefix and name without a slash, so that it knows a member by its
  pathname if and only if the prefix is empty (`UstarArchive.JoinedWithoutSlash`), counts sectors in a
  u32 when loading (`UstarArchive.SectorCountExact`) and reads their number modulo 256
  (`UstarArchive.LoadExact`).
* A comment in `paging.h` puts the address of an entry at bits 12 to 51; the field is 42 bits from bit
  11. `PageEntries.LeafEntryExact` shows for which addresses that makes no difference.

## Model

| member | source | states |
|---|---|---|
| PageEntries.LeafEntryExact | bootloader/cboot/include/paging.h:7-27 | the processor decodes the address written into a 4 KB entry if and only if it is page-aligned and below 2^52, in spite of the field starting at bit 11 |
| PageEntries.HugeLeafEntryExact | bootloader/cboot/src/paging.c:238-243 | a 2 MB entry is decoded without a reserved-bit fault and to the given frame if and only if that is 2 MB aligned and below 2^52 |
| PageEntries.NodeStep | bootloader/cboot/include/paging.h:29-39 | the four nine-bit index fields of an address refine its region step by step |
| PageTree.PokeKeepsTables | bootloader/cboot/src/paging.c:152-195 | writing one entry leaves in place every reachable table that is not below that entry, because no two tables share a word |
| PageTree.PokeLeaf | bootloader/cboot/src/paging.c:193-198 | writing a leaf keeps the tree of tables, removes just the tables below that entry and changes no other reachable entry |
| PageTree.PokeLink | bootloader/cboot/src/paging.c:143-159 | linking an unreached table keeps the tree, adds that one table and changes no other reachable entry |
| PageTree.NewTableKeepsTree | bootloader/cboot/src/paging.c:30-36 | clearing the table at the watermark touches no reachable entry and yields an empty, unreached table |
| PageMapping.WalkIntoEmpty | bootloader/cboot/src/paging.c:145-154 | linking an empty table into an empty entry gives no address a translation |
| PageMapping.DescendStep | bootloader/cboot/src/paging.c:143-159 | one present-or-allocate step: the tree is kept, no translation changes, the watermark moves exactly when the table was missing |
| PageMapping.Map4KCorrect | bootloader/cboot/src/paging.c:140-198 | after map_4kb_page every canonical address of the page translates to the frame plus its offset, writable, every other address as before, and the tables taken are exactly the missing ones |
| PageMapping.Map2MCorrect | bootloader/cboot/src/paging.c:202-244 | the same for map_2mb_page and its 2 MB region; a table over the region is only cut off |
| HugePages.UnreadWord | bootloader/cboot/src/paging.c:193-197 | a word that the walk of an address does not read may change without changing its translation |
| HugePages.ZeroedWord | bootloader/cboot/src/paging.c:193-194 | clearing a word that the walk of an address does read unmaps the address |
| HugePages.HugePageIgnored | bootloader/cboot/src/paging.c:177-197 | over a 2 MB page, by accesses through the tables: with frame 0 map_4kb_page stores its entry at an address that the page itself maps and no translation changes, with any other frame it faults |
| HugePages.HugePageExact | bootloader/cboot/src/paging.c:140-198 | away from 1 GB pages map_4kb_page returns and the page of va goes to the given frame if and only if no 2 MB page was over it or one with frame 0 gave it this frame already |
| HugePages.HugePageWitness | bootloader/cboot/src/paging.c:140-244 | after boot and setup_physical_map, map_2mb_page and then map_4kb_page at the start of the kernel's region: a fault, or with frame 0 the 2 MB page's translation as before |
| GigPages.GigPageOutcome | bootloader/cboot/src/paging.c:160-197 | all that map_4kb_page does over a 1 GB page: a fault unless the frame is 0; else a table that no walk reads, or a store wherever the page's word points, or a fault when that is above 2 MB or is a word that its own address is translated by |
| GigPages.GigPageExact | bootloader/cboot/src/paging.c:160-197 | short of a store to the entries on its own route, it returns and the page goes to the given frame if and only if the 1 GB page has frame 0 and sends it there already, and the word read, if it is a pointer, leads to a store that goes through |
| GigPages.GigPageOwnEntry | bootloader/cboot/src/paging.c:193-197 | the case left out there, a store to an entry on the page's own route: the frame becomes the next table of the walk |
| GigPages.GigPageRegion | bootloader/cboot/src/paging.c:220-243 | over a 1 GB page map_2mb_page faults unless the frame is 0; then it overwrites one word of the page and changes no translation |
| GigPages.HugeRegionExact | bootloader/cboot/src/paging.c:202-244 | map_2mb_page returns and the region goes to the given frame if and only if no 1 GB page was over it or one with frame 0 gave it this frame already |
| GigPages.WindowCallsFault | bootloader/cboot/src/paging.c:140-244 | after boot and setup_physical_map, both mappers fault for every address of the window past its first gigabyte |
| GigPages.GigPageWitness | bootloader/cboot/src/paging.c:193-194 | with the pointer 0x1003 in the first word of memory, mapping the first page of the window unmaps the whole first 2 MB with its first store and faults |
| GigPages.GigPageMovesAnother | bootloader/cboot/src/paging.c:140-198 | with the pointer 0x4003 there, mapping page 5 of the window returns, leaves that page where it was and moves page 5 of the first 2 MB |
| PageMapper.Mapper.NewPageTable | bootloader/cboot/src/paging.c:30-36 | in place: returns the watermark, clears the 512 words there, leaves every other word of memory as it was, moves the watermark by 4 KB |
| PageMapper.Mapper.TableBelow | bootloader/cboot/src/paging.c:143-159 | in place: the block repeated at each level is one descent |
| PageMapper.Mapper.Map4kbPage | bootloader/cboot/src/paging.c:140-198 | in place: the words and watermark afterwards are those of the call whose translations Map4KCorrect gives |
| PageMapper.Mapper.Map2mbPage | bootloader/cboot/src/paging.c:202-244 | the same for the 2 MB call |
| PageMapper.Mapper.SetupPhysicalMap | bootloader/cboot/src/paging.c:39-80 | in place, loop and 64-bit wrap-around included: the state whose translations PhysMapCorrect and PhysicalWindowExact give |
| PageRuns.RunCorrect | bootloader/cboot/src/paging.c:140-244 | after any legal sequence of mapping calls the walk equals the map in which the last call over an address wins, the tables are still a tree, and the watermark has moved by 4096 for each distinct missing table position touched |
| PageRuns.CountNew | bootloader/cboot/src/paging.c:143-191 | the tables a call finds missing are the table positions it adds to those touched |
| PageRuns.CanCall | bootloader/cboot/src/paging.c:140-244 | each call of a legal run finds the conditions of the mapper met |
| PageCounts.ContiguousTables | bootloader/cboot/src/main.c:193-197 | n consecutive pages, whatever their frames, take at most (n+510)/512+1 P1 tables, with the matching bounds for P2 and P3 tables |
| PageCounts.ContiguousWatermark | bootloader/cboot/src/paging.c:30-36 | the watermark after mapping n consecutive pages, whatever their frames, is bounded by those three counts |
| PhysicalMap.PhysMapCorrect | bootloader/cboot/src/paging.c:39-80 | up to 511 GB: l4 slot 256 maps exactly the first gigabytes of physical memory, all other translations stay, one table is taken |
| PhysicalMap.PhysicalWindowExact | bootloader/cboot/src/paging.c:39-92 | with both slots free, every byte below the size given is reached through the window if and only if the size is at most 511 GB |
| PhysicalMap.OrIsAddition | bootloader/cboot/src/paging.c:128-138 | the bitwise or with the window base is an addition if and only if the address is below 2^47 |
| PhysicalMap.FrameMaskExact | bootloader/cboot/src/main.c:196 | the mask takes a window address back to its physical page if and only if the address is below 2^45 |
| BootTables.SetupAndEnablePaging | bootloader/cboot/asm/start.asm:93-117 | in place: the four tables word by word, and nothing else changed |
| BootTables.BootTree | bootloader/cboot/asm/start.asm:93-117 | those tables with the watermark at 0x20000 satisfy the tree invariant |
| BootTables.BootWalk | bootloader/cboot/asm/start.asm:93-117 | exactly the first 2 MB are mapped, to themselves |
| BootTables.BootRun | bootloader/cboot/src/paging.c:140-244 | from the boot tables any legal run touching at most 480 new table positions refines the last-call map, with the watermark at 0x20000 + 4096 times their number |
| BootTables.FirstPageOfRegion | bootloader/cboot/src/main.c:193-197 | after boot and setup_physical_map, the first page mapped outside l4 slots 0 and 256, to any frame, is a legal run and takes exactly three tables |
| MixedRuns.MixedRunCorrect | bootloader/cboot/src/paging.c:39-244 | after any legal sequence of setup_physical_map and mapper calls the walk equals the map in which the last call that decides about an address wins, and the tables are a tree |
| MixedRuns.PointersNameTables | bootloader/cboot/src/paging.c:143-191 | a mixed run that avoids l4 slot 0 keeps the identity window, and each entry of each reachable table is found, writable, at its physical address |
| MixedRuns.RunIsMixed | bootloader/cboot/src/paging.c:140-244 | a legal run of the mappers, counted in tables, is a legal mixed run with the same result |
| MemoryFrame.CallFrame | bootloader/cboot/src/paging.c:140-244 | one call of either mapper changes no word of memory but those between the old and the new watermark and those of the entries that the route of va uses in existing tables |
| MemoryFrame.SetupFrame | bootloader/cboot/src/paging.c:39-80 | setup_physical_map, for any size, changes no word but those of its new table and one entry of the P4 table, whose number is given |
| MemoryFrame.WritesEarlier | bootloader/cboot/src/paging.c:143-197 | an entry that a later call may write was there at the start of the run, or lies in a table taken since |
| MemoryFrame.MixedRunFrame | bootloader/cboot/src/paging.c:39-244 | any legal run of setup_physical_map and the mappers changes no word but those of the tables it takes, the P4 entry of the window, and the entries on the routes of the mapped addresses in the tables that it started from |
| MemoryFrame.RestOfMemory | bootloader/cboot/src/paging.c:28-244 | so whatever is mapped, memory below 0x1000, from 0x5000 to 0x1FFFF and past the watermark keeps its contents |
| MemoryFrame.ScreenStays | bootloader/cboot/src/paging.c:28-36 | the screen's characters at 0xB8000 stay through any legal run while at most 152 tables have been taken |
| MemoryFrame.ScreenCleared | bootloader/cboot/src/paging.c:28-36 | a legal run that takes one more clears all of them |
| VirtualAccess.StoreKeepsWalk | bootloader/cboot/src/paging.c:152-197 | any word at all written to an entry on the route of an address outside a slot leaves every translation in that slot as it was, so also between the assignments to an entry's fields |
| VirtualAccess.DescendVirtual | bootloader/cboot/src/paging.c:143-159 | the present-or-allocate block, its loads, its clearing and its three assignments each made through the tables as they are then, is the physical one |
| VirtualAccess.Map4KVirtual | bootloader/cboot/src/paging.c:140-198 | the same for the whole of map_4kb_page, outside l4 slot 0 |
| VirtualAccess.PhysMapVirtual | bootloader/cboot/src/paging.c:39-80 | the same for setup_physical_map up to 511 GB |
| VirtualAccess.VirtualRun | bootloader/cboot/src/paging.c:30-244 | in any legal mixed run outside l4 slot 0 no access of the code faults, and memory ends as in the physical run |
| VirtualAccess.BootedRun | bootloader/cboot/src/paging.c:39-244 | any legal run in the upper half, from boot and setup_physical_map on and access by access, keeps the identity window and leaves the rest of the lower half unmapped |
| BootTables.BootWithWindow | bootloader/cboot/src/main.c:229 | boot followed by setup_physical_map: the whole translation function, the tree and the watermark |
| PageDump.PrintPagetable | bootloader/cboot/src/paging.c:94-126 | the recursion ends and prints exactly the lines of the dump of the table it is given |
| PageDump.ReadTable | bootloader/cboot/src/paging.c:94-126 | a reader of the lines recovers the mappings of a table in order |
| PageDump.DumpIsTheAddressSpace | bootloader/cboot/src/paging.c:94-126 | the printed lines read back as mappings in ascending order, none over another, that translate every canonical address as the processor does |
| Md5Steps.Multiplex | bootloader/cboot/src/md5.c:44-51 | the and-not-free form of F and G is the selection the RFC defines |
| Md5Steps.ApplyLow | bootloader/cboot/src/md5.c:50-54 | every rewritten function, at every width of 32 bits or more, has the RFC's function as its low 32 bits |
| Md5Steps.StepRotateLow | bootloader/cboot/src/md5.c:59-62 | the shift-and-or of STEP at every width is the 32-bit rotation |
| Md5Steps.StepLow | bootloader/cboot/src/md5.c:59-62 | one STEP at any width is one RFC operation on the low 32 bits |
| Md5Steps.AssembleIsLittleEndian | bootloader/cboot/src/md5.c:85-90 | the portable SET reads a little-endian word |
| Md5.Context.Step | bootloader/cboot/src/md5.c:59-62 | with the arguments of the RFC's table, STEP advances the RFC's schedule by one operation |
| Md5.Context.Round1 | bootloader/cboot/src/md5.c:118-134 | operations 1 to 16 of the schedule, loading the sixteen words |
| Md5.Context.Round2 | bootloader/cboot/src/md5.c:136-152 | operations 17 to 32 |
| Md5.Context.Round3 | bootloader/cboot/src/md5.c:154-170 | operations 33 to 48 |
| Md5.Context.Round4 | bootloader/cboot/src/md5.c:172-188 | operations 49 to 64 |
| Md5.Context.Block | bootloader/cboot/src/md5.c:112-195 | one pass through the loop is the RFC's block transform |
| Md5.Context.Body | bootloader/cboot/src/md5.c:99-204 | the do-while loop ends and folds the transform over all blocks |
| Md5.Context.constructor | bootloader/cboot/src/md5.c:206-215 | the state of the empty message |
| Md5.Counter | bootloader/cboot/src/md5.c:222-225 | the carry test and size >> 29 together add any 64-bit size to the split counter |
| Md5.Context.Update | bootloader/cboot/src/md5.c:217-249 | registers, buffer and counter describe the message extended by the data, for any data |
| Md5.PaddedBlocks | bootloader/cboot/src/md5.c:261-280 | the one or two last blocks are the message tail with the RFC's padding, for every length |
| Rfc1321.LengthBack | bootloader/cboot/src/md5.c:276-278 | the last eight bytes of the padding, read low-order byte first, are the length in bits modulo 2^64 |
| Md5.LengthWords | bootloader/cboot/src/md5.c:276-278 | lo << 3 and hi are the two words of the bit length modulo 2^64 |
| Md5.Context.PutLength | bootloader/cboot/src/md5.c:274-278 | the zeros and the bit length that end the last block, everything before them kept |
| Md5.Context.LastBlocks | bootloader/cboot/src/md5.c:261-280 | the registers end as the fold over the padded message |
| Md5.Context.Final | bootloader/cboot/src/md5.c:257-288 | the output is the RFC 1321 digest of the message, and the context is cleared |
| Md5.DigestOfChunks | bootloader/cboot/src/md5.c:206-288 | however a message is cut into updates, empty ones included, and at every width, the result is its RFC 1321 digest |
| WordBits.OperatorValues | bootloader/cboot/src/md5.c:50-54 | on 32-bit words the model's and, or and exclusive or are the bit-vector operators |
| WordBits.ChosenNumber | bootloader/cboot/src/md5.c:50-54 | the four auxiliary functions are those of section 3.4 of RFC 1321 on bit-vectors |
| Md5Answers.EmptyDigest | bootloader/cboot/src/md5.c:206-288 | the digest of the empty message is d41d8cd98f00b204e9800998ecf8427e, as in appendix A.5 of RFC 1321 |
| Md5Answers.AbcDigest | bootloader/cboot/src/md5.c:206-288 | the digest of "abc" is 900150983cd24fb0d6963f7d28e17f72, as there |
| Md5Answers.LettersDigest | bootloader/cboot/src/md5.c:206-288 | the digest of the 62 letters and digits, a message of two blocks whose sixteen first words all differ, is d174ab98d277d9f5a5611c2c9f419d9f, as there |
| MemoryRoutines.Memcpy | bootloader/cboot/src/mem.c:39-61 | copies exactly size bytes and changes nothing else, for every alignment, for disjoint regions and for dst at or below src |
| MemoryRoutines.Memset | bootloader/cboot/src/mem.c:4-23 | every byte after the three loops, with the zeros that wide stores leave |
| MemoryRoutines.MemsetByte | bootloader/cboot/src/mem.c:4-23 | a byte of the range is the value unless it is one of the seven upper bytes of an aligned word inside the range, which are 0 |
| MemoryRoutines.MemsetFills | bootloader/cboot/src/mem.c:4-23 | it is a fill if and only if the value is zero or no wide store happens |
| MemoryRoutines.Memcmp | bootloader/cboot/src/mem.c:27-37 | 0 when the bytes are equal, else 1 |
| MemoryRoutines.Strncmp | bootloader/cboot/src/mem.c:64-79 | 0 if and only if the strings agree up to the limit; otherwise the difference of the characters at the first place where they differ |
| MemoryRoutines.Strncpy | bootloader/cboot/src/mem.c:81-88 | copies and counts the characters before the terminator or the limit, changes nothing else |
| Ustar.Oct2Bin | bootloader/cboot/src/ustar.c:6-13 | the octal value modulo 2^64 |
| Ustar.ReadSectors | bootloader/cboot/src/ata.c:20-43 | what the driver delivers: the consecutive sectors from the 28-bit number on, their count a u8, and nothing else changed |
| Ustar.CompareName | bootloader/cboot/src/ustar.c:124-134 | the comparison through the 257-byte buffer is that of slash, prefix and name with the path |
| Ustar.GetFilesize | bootloader/cboot/src/ustar.c:104-170 | returns what the scan ends with: 0 and the size of the member found, or -1 and the caller's variable as it was |
| Ustar.LoadFile | bootloader/cboot/src/ustar.c:181-261 | returns the size and stores exactly the sectors read; changes nothing when no member is found |
| UstarArchive.OctalBack | bootloader/cboot/src/ustar.c:6-13 | oct2bin inverts octal printing with up to eleven digits |
| UstarArchive.SizeText | bootloader/cboot/src/ustar.c:6-13 | a size field with the characters 00000001750 is read as 1000 |
| UstarArchive.MagicIsSigned | bootloader/cboot/src/ustar.c:115-116 | the comparison accepts a sector if and only if the five characters of the standard's magic stand at byte 257 |
| UstarArchive.HeaderRead | bootloader/cboot/src/ustar.c:115-136 | what the scan reads in a header is what a writer put there |
| UstarArchive.ScanCorrect | bootloader/cboot/src/ustar.c:111-167 | for any archive: the scan ends at the first match with its size and place, or after the last member, or never when an unhandled member comes first |
| UstarArchive.LookupReturns | bootloader/cboot/src/ustar.c:143-165 | the lookup returns if and only if no link, device, pipe or unknown member precedes the first match |
| UstarArchive.KernelFound | bootloader/cboot/src/main.c:264 | with a first member sys/kernel.elf, the path that the loader asks for is found at once, with its size |
| UstarArchive.JoinedWithoutSlash | bootloader/cboot/src/ustar.c:129-131 | the header of a member matches the member's pathname in the standard if and only if the prefix is empty |
| UstarArchive.LoadExact | bootloader/cboot/src/ustar.c:257-260 | for every valid size, the sectors that the loader counts and reads hold the file's bytes from the start on, the whole file if and only if it has at most 255 sectors |
| UstarArchive.FileLoaded | bootloader/cboot/src/ustar.c:181-261 | loading a first match of at most 255 sectors fills the buffer with exactly its sectors, beginning with its bytes, and returns the size the lookup reports |
| UstarArchive.NothingLoaded | bootloader/cboot/src/ustar.c:251-254 | when no member has the path and nothing stops the scan, loading returns 0 and leaves the buffer as it was |
| UstarArchive.LoadAgrees | bootloader/cboot/src/ustar.c:181-255 | loading and lookup end at the same member with the same size |
| UstarArchive.SectorCountExact | bootloader/cboot/src/ustar.c:216 | the sector count is right if and only if size + 511 does not overflow the variable |
| UstarArchive.WrittenIsArchive | bootloader/cboot/src/ustar.c:22-41 | a disk with the writer's sectors is an archive of those members |
| KernelImage.NumPagesExact | bootloader/cboot/src/main.c:190 | the page count is that of the segment's size if and only if the size is no multiple of 4 KB and not within 4 KB of 2^64; its value for every size |
| KernelImage.OnePageTooMany | bootloader/cboot/include/paging.h:70 | two pages for 4096 bytes, one for none |
| KernelImage.MapPages | bootloader/cboot/src/main.c:193-197 | the page loop makes exactly the segment's calls |
| KernelImage.MapKernel | bootloader/cboot/src/main.c:156-207 | with the tables clear of the buffer: the page tables after all calls of all load segments, memory after all copies, the entry point and the size |
| ElfFile.ProgramHeaderRead | bootloader/cboot/include/elf64.h:28-37 | each field of a program header that map_kernel uses is read as an independent encoder printed it, by widths and low-order byte first |
| ElfFile.FileHeaderRead | bootloader/cboot/include/elf64.h:6-26 | likewise the entry point and the place, entry size and count of the program headers |
| ElfFile.ElfRead | bootloader/cboot/src/main.c:157-204 | the segments found in a file are those of its program headers, in order, wherever and however far apart they stand |
| ElfFile.WrittenIsElf | bootloader/cboot/include/elf64.h:6-37 | the writer's bytes are such a file |
| ElfFile.TotalIsSum | bootloader/cboot/src/main.c:199 | the reported size is the sum of the sizes in memory of the load segments, modulo 2^64 |
| ElfFile.MapWritten | bootloader/cboot/src/main.c:156-207 | map_kernel in place on a written file: entry point, size, copies and mappings are those of the headers given to the writer |
| ElfFile.WrittenKernel | bootloader/cboot/src/main.c:229-294 | from the boot tables and a written file on: a load from byte k of the first page of a segment that no later one overlaps returns byte `offset + k` of the file that the writer made, with offset and address as given to the writer |
| KernelLoads.ImageByte | bootloader/cboot/src/main.c:187 | each byte below the file is the file byte `align` above its place when a load segment covers that, else what it was, whatever the order and overlap of the segments |
| KernelLoads.KernelLast | bootloader/cboot/src/main.c:193-197 | an address translates through the last segment page mapped over it |
| KernelLoads.ApartIsLast | bootloader/cboot/src/main.c:190-197 | segments whose rounded page ranges do not meet are each last over all of their pages |
| KernelLoads.EveryPageIsTheFirst | bootloader/cboot/src/main.c:193-197 | as written, every page of a segment is the segment's first frame |
| KernelLoads.OnlyFirstPageRight | bootloader/cboot/src/main.c:196 | a page gets the frame of its own part of the segment if and only if it is the first |
| KernelLoads.SinglePageExact | bootloader/cboot/src/main.c:190-197 | all pages of a segment get the frames of their own parts if and only if its size is less than 4096 or within 4096 of 2^64 |
| KernelLoads.ExtraPageOverrides | bootloader/cboot/src/main.c:190-197 | after a segment whose size is a multiple of 4 KB, the next page goes to the segment's first frame, instead of the frame of an earlier segment placed there unless both have the same file offset |
| KernelLoads.FirstPageImage | bootloader/cboot/src/main.c:156-207 | a load from byte k of the first page of a segment returns the file byte at `offset + k` where a load segment covers that, as this one does up to filesz, else what the buffer held |
| KernelLoads.CorrectedImage | bootloader/cboot/src/main.c:186-197 | with the marked correction the same holds for every page of the segment |
| KernelLoads.CorrectedImageExact | bootloader/cboot/src/main.c:186-197 | with the correction and a zeroed buffer, every byte of the segment is the file byte up to filesz and zero up to memsz if and only if no load segment has a byte other than zero at the file offsets between |
| KernelLoads.WrittenImageExact | bootloader/cboot/src/main.c:186-197 | as written, with a zeroed buffer and for any size: every byte of the segment is the file byte up to filesz and zero up to memsz if and only if what the copies leave in its first page repeats throughout it |
| KernelLoads.OnePageImageExact | bootloader/cboot/src/main.c:186-197 | as written, for a segment of at most one page: if and only if no load segment has a byte other than zero at a file offset between filesz and memsz |
| KernelBoot.KernelFits | bootloader/cboot/src/main.c:190-197 | after boot and setup_physical_map, headers in the kernel's region whose page counts leave room for the tables below the buffer make every call of map_kernel legal and keep its tables clear of the buffer |
| KernelBoot.KernelMayRun | bootloader/cboot/src/main.c:156-207 | under the same conditions map_kernel may be called on the file |
| KernelBoot.WindowKept | bootloader/cboot/src/main.c:187 | during the mapping calls every byte of memory that the window covers stays where the window has it |
| KernelBoot.CopyVirtual | bootloader/cboot/src/main.c:187 | a copy byte by byte between window addresses is the copy in physical memory |
| KernelBoot.KernelVirtual | bootloader/cboot/src/main.c:166-204 | map_kernel, copies and table accesses all made through the tables it is building, never faults and ends with the tables and memory of the physical run |
| KernelBoot.BootedImage | bootloader/cboot/src/main.c:229-294 | from start.asm to the kernel's first load: byte k of any page of a segment reads as byte k of the copy of its first page |
| KernelBoot.TwoPageSegment | bootloader/cboot/src/main.c:193-197 | a segment of two pages, headers and places given, whose second page reads as the first |
| KernelBoot.CloseSegments | bootloader/cboot/src/main.c:187 | two segments close together in the file: a byte of the first that should be zero reads as the first byte of the second |
| Screen.Display.ClearScreen | bootloader/cboot/src/vga.c:37-46 | every cell is blank |
| Screen.Display.Newline | bootloader/cboot/src/vga.c:18-35 | every row moves up by one, the last is blank, the cursor is at its start |
| Screen.Display.DrawChar | bootloader/cboot/src/vga.c:56-70 | the screen keeps showing the last 25 rows of the layout, and the column stays at most 80 |
| Screen.Display.DrawText | bootloader/cboot/src/vga.c:56-70 | from a cleared screen, after any characters, the buffer is the last 25 rows of their layout |
| Screen.PlainText | bootloader/cboot/src/vga.c:56-70 | text without control characters fills rows of 80 and loses exactly every 81st character |
| Screen.NewlineSplits | bootloader/cboot/src/vga.c:59-60 | for any two texts, what follows a newline is laid out by itself, in rows below all the rows of what came before |
| Screen.LinesInRows | bootloader/cboot/src/vga.c:18-70 | lines of at most 80 plain characters joined by newlines stand in rows of their own, filled up with spaces |
| Screen.ReturnOverwrites | bootloader/cboot/src/vga.c:61-62 | plain text after a carriage return overwrites the last row from its start, keeps what that row has beyond it, and changes nothing else |
| Screen.MarginDropsCode | bootloader/cboot/src/vga.c:57-58 | at the right margin a newline, a carriage return or any character is lost and only forces the scroll |

## Left out

- Loading CR3, the translation cache and the self-check at the end of `setup_physical_map`: replaced by the pure walk.
- Accessed and dirty bits: the processor's own writes to entries are not modelled. The invariant on entries allows those bits to be set.
- Memory above 2 MB in the walk: a table pointer outside the table memory reads as empty. The tree invariant keeps the loader's pointers inside; loads and stores there fault in the states of `VirtualAccess.BootedRun`, because the lower half is mapped up to 2 MB only.
- Clearing of tables: `NewPageTable` clears whole words where the source calls `memset` on bytes; `MemoryRoutines.Memset` shows that a zero fill is exact.
- KernelImage.MapKernel: page tables and loaded kernel are separate arrays; `KernelOk` requires that the tables taken end below the buffer. It reads and copies physical memory directly; `KernelBoot.KernelVirtual` makes the copies and the table accesses through the window and the tables, the reads of the ELF headers stay direct. A segment whose offset is less than `align` is copied to below the buffer, as in the code. The table it prints is not modelled.
- GigPages.GigPageExact: a store that hits one of the two entries on the page's own route is the subject of `GigPages.GigPageOwnEntry`; where the page then goes depends on the memory at the given frame.
- KernelBoot.BootedImage: the boot memory and its size are parameters, as are the places that `allocate_space_for_kernel` and `cboot_main` choose for buffer and file.
- Md5: the x86 form of SET, which loads a word from memory, is taken to give the word that the portable form assembles, and the copies into the buffer are element by element instead of calls of the memory routine.
- MemoryRoutines.Memcpy: no claim when the destination overlaps the source from above, which the C library's contract excludes as well.
- Ustar.ReadSectors: port handshakes and device errors are left out; a disk has all 2^28 sectors that a 28-bit number names.
- Ustar.GetFilesize: takes a ghost bound on the number of iterations, because a Dafny loop must end. `UstarArchive.LookupReturns` says exactly when there is one.
- Ustar.LoadFile: the same ghost bound. It requires that the buffer holds the sectors read.
- `ustar_get_num_sectors`, `ustar_list_files`: a rounding and the same scan with printing.
- `find_partition_by_name`, `scan_bios_memmap`, `allocate_space_for_kernel`: short linear searches over firmware data.
- `ports.c`, `ata.c` beyond the read contract, `serial.c`, `exceptions.c`, `interrupts.c`, `mbr.asm`, the rest of `start.asm` and the kernel: hardware access and one-branch code.
- `print.c`: number formatting. `PageDump` keeps the printed values, not their digits.
- Screen colours: a constant.
