# Proofs about the nt365 boot core

This project models the algorithms at the heart of nt365, which boots an NT kernel from an in-memory archive, and
proves what they promise.

* **Inflate** (`Bits`, `Huffman`, `HuffmanTables`, `Deflate`, `BitReader`, `Puff`, `PuffTheorems`,
  `DeflateRoundTrip`, `DeflateFaults`). `Deflate` says what a deflate stream means (RFC 1951), with no tables and no
  bit buffer. `Puff` is the decoder of puff.c with its bit buffer, count/symbol tables, both `decode` functions and the
  scanning mode, every method tied to that meaning. `DeflateRoundTrip` writes streams bit by bit and reads them back;
  `DeflateFaults` gives every documented return code its fault. `longjmp` on exhausted input is the result `None`; C's
  `|` between values with no common bits is `+`.
* **FAT16 builder and reader** (`FatNames`, `FatTree`, `FatSizing`, `FatVolume`, `FatWrite`, `FatBuild`, `FatRead`,
  `FatSearch`, `FatInside`, `FatHeader`, `NtDirectory`, `FatRoundTrip`, `FatMembers`). The builder turns archive
  members into a node table, sizes a volume, hands out clusters and writes one flat image in place. The reader mounts
  an image, searches directories and copies chains. `FatVolume.Built` says when an image is an image of a tree; the
  builder establishes it and the round trip is proved from it: exactly when a node is found by its name, and from the
  member paths alone when a file is read back. The same image is read as NT's own FASTFAT driver reads it, cluster
  count and long names included. Member paths are C strings, so they hold no NUL.
* **Physical memory** (`FreeList`, `BootEnv`, `MemMap`, `LoaderMemory`, `PageLayout`, `PageTables`, `PageBuilder`,
  `BootTranslation`, `BootTables`, `BootExamples`). The free list and its allocator, the allocation registry, the NT
  memory descriptors, and the 32-bit page tables with the processor's two-level walk over them, joined into theorems
  over every sequence of allocations and reservations.
* **Thread contexts** (`ThreadContext`). The two-count reference count with crash detection as a transition system;
  the thread may die before any step. `_free_all` is one step.
* **Command line** (`CmdlineSpec`, `Cmdline`). The tokeniser that writes bytes over the wide characters it is still
  reading, against a pure parser of a frozen copy.

Integers are unbounded; where the C code wraps, the model says so (64-bit addresses in `FreeList`, the slot arithmetic
and 32-bit page numbers in `PageLayout` and `PageTables`, sector numbers in `FatRead`).

Every lemma carries `{:induction false}`: all inductions are written out, none is left to the verifier's heuristics.

Where the code and its documentation differ, the model follows the code:

* memmap.h promises descriptors sorted by page; memmap.c keeps the order of the memory map. `MemMap.NotSorted` is an
  example and `MemMap.NtMapSortedIff` the exact condition.
* fatbuild.h calls long names and deflated members errors; fatbuild.c supports both.
* cr_thread.c says the reference of a crashed thread is always reclaimed. `ThreadContext.LeakAfterFlag` is a run in
  which it is not, and `ThreadContext.FreedExactlyWhen` says exactly when it is.
* mmu.c sizes the table pool before the pool itself is registered; `PageLayout.PoolSufficesIff` and, over whole boots,
  `BootTranslation.BootRoomIff` say exactly when that is enough. `BootExamples.PoolTooShort` is a boot where it is
  not.
* mmu.c cuts page numbers to 32 bits, so memory past 4 GB can be taken for a low page. `PageTables.HighUnsound` and
  `BootExamples.HighMemoryShown` are examples; `PageTables.IdentitySoundIff` and `PageTables.Kseg0SoundIff` say
  exactly when the tables show only registered memory.
* bootenv_pvh.c adds address and length of an exact request in 64 bits; `FreeList.AtSoundIff` says exactly when that
  is sound. It rounds addresses up to a page in 64 bits too; `BootEnv.LastPageFreesAll` is a map that makes nearly all
  memory free, and `BootEnv.ListsOwnIff` and `BootEnv.ExcludesIff` say exactly when the rounding is sound.
* fatbuild.c calls every volume FAT16; above 2047 MB it has 65525 clusters or more. `FatSizing.Fat16Clusters` is exact.
* An alias does not avoid 8.3 names written later in the same directory; `FatRoundTrip.TildeShadowed` is an example
  and `FatRoundTrip.FoundIff` the exact condition.

## Model

| member | source | states |
|---|---|---|
| `Huffman.MatchUnique` | `src/boot/vmlinuz/puff.c:235-255` | the canonical code of any length list is prefix free: at most one symbol's codeword (section 3.2.2 of RFC 1951) stands at a bit position |
| `Huffman.DecodeIff` | `src/boot/vmlinuz/puff.c:235-255` | decoding yields symbol s ending at `next` if and only if the bits there are the codeword of s and `next` is just past it |
| `Huffman.WalkIsDecode` | `src/boot/vmlinuz/puff.c:235-255` | the count/symbol walk of `decode` gives, on every table built from a length list and every input, the symbol the codewords demand with the same bits consumed, the same invalid codes and the same shortages, and stays inside the symbol table |
| `Huffman.LeftIsKraft` | `src/boot/vmlinuz/puff.c:355-362` | the running `left` of `construct` is 2^len minus the scaled Kraft sum, and 2^len minus the end of the canonical codes |
| `Huffman.CompleteNeverNoCode` | `src/boot/vmlinuz/puff.c:243-254` | with a complete code no input leads to an invalid codeword |
| `HuffmanTables.CountLengths` | `src/boot/vmlinuz/puff.c:347-351` | the counts of each length are those of the list |
| `HuffmanTables.CodesLeft` | `src/boot/vmlinuz/puff.c:355-362` | negative exactly when the code is over-subscribed at some length, else the codes left at 15 bits |
| `HuffmanTables.OffsetTable` | `src/boot/vmlinuz/puff.c:364-367` | each offset is the number of codes of smaller length |
| `HuffmanTables.SlotInjective` | `src/boot/vmlinuz/puff.c:369-375` | no two symbols with a code are filed in the same place of the symbol table |
| `HuffmanTables.SortSymbols` | `src/boot/vmlinuz/puff.c:369-375` | every symbol with a code is filed by length, then by symbol order |
| `HuffmanTables.Construct` | `src/boot/vmlinuz/puff.c:340-379` | negative iff the Kraft sum exceeds 1; otherwise 2^15 minus the scaled sum, and 0 for a list without codes; whenever not negative the tables are the canonical ones |
| `Puff.State.constructor` | `src/boot/vmlinuz/puff.c:802-812` | a fresh state: nothing read, nothing written, the output buffer remembered as it is |
| `Puff.State.Bits` | `src/boot/vmlinuz/puff.c:126-145` | `need` bits of the stream from the current position, lowest first, or out of input; the buffer keeps fewer than 8 bits and the position moves by exactly `need` |
| `Puff.State.DecodeSlow` | `src/boot/vmlinuz/puff.c:235-255` | ends as the codewords at the position demand: symbol and position, or -10, or out of input |
| `Puff.State.TryBits` | `src/boot/vmlinuz/puff.c:280-294` | the inner loop of the fast decode: either finds the symbol and leaves the buffer just past its codeword, also through `(bitcnt - len) & 7`, or has drained the bits with nothing changed |
| `Puff.State.DecodeFast` | `src/boot/vmlinuz/puff.c:263-305` | the fast decode, which works on local copies and whole bytes, ends as the codewords demand, for every table and every buffer of fewer than 8 bits |
| `PuffTheorems.DecodesAgree` | `src/boot/vmlinuz/puff.c:263-305` | two decodes that end as the codewords demand agree: same symbol, buffer and position, same invalid codes after the same bytes, same shortages; with the two rows above, fast and slow decode agree |
| `PuffTheorems.CodewordFits` | `src/boot/vmlinuz/puff.c:340-379` | in a code that `construct` accepts every codeword fits its length |
| `PuffTheorems.CopyBackIs` | `src/boot/vmlinuz/puff.c:489-504` | a copy keeps what was there and makes every new byte equal to the one `dist` places before it, also when it reads bytes it has just written |
| `Puff.State.CopyFromBack` | `src/boot/vmlinuz/puff.c:489-504` | the forward byte-by-byte copy gives that output |
| `Puff.State.StoredBlock` | `src/boot/vmlinuz/puff.c:164-197` | a stored block as section 3.2.4 of RFC 1951 has it: its return code, bytes appended, position, for every input and room |
| `Puff.State.PairRest` | `src/boot/vmlinuz/puff.c:473-483` | the length and distance of a pair with their extra bits, an invalid distance code, or out of input |
| `Puff.State.CodesBody` | `src/boot/vmlinuz/puff.c:459-506` | one turn of `codes`: literal, pair or end of block, with codes 1, -10, -11 |
| `Puff.State.CodesLoop` | `src/boot/vmlinuz/puff.c:436-510` | all turns up to the end of block; it ends because every turn consumes bits |
| `Puff.FixedTables` | `src/boot/vmlinuz/puff.c:543-568` | the tables of the fixed codes of section 3.2.6 of RFC 1951 |
| `Puff.FixedKraft` | `src/boot/vmlinuz/puff.c:554-568` | the fixed literal code is complete, the fixed distance code leaves two of its 32 codes unused |
| `Puff.State.FixedBlock` | `src/boot/vmlinuz/puff.c:536-576` | a fixed block means its pairs and literals under the fixed codes |
| `Puff.OrderPlace` | `src/boot/vmlinuz/puff.c:674-675` | the order of the code length codes is a permutation of 0 to 18 |
| `Puff.State.ReadClLengths` | `src/boot/vmlinuz/puff.c:690-694` | the code length code lengths in their permuted order, zero where missing |
| `Puff.State.RunBody` | `src/boot/vmlinuz/puff.c:712-728` | one repeat instruction: codes -5 and -6, or the lengths repeated |
| `Puff.State.ReadCodeLengths` | `src/boot/vmlinuz/puff.c:701-729` | all code lengths of the description, or the error that ends it |
| `Puff.State.Description` | `src/boot/vmlinuz/puff.c:665-743` | the whole code description of section 3.2.7 of RFC 1951 with errors -3 to -10, and both decoding tables on success |
| `Puff.UsableIff` | `src/boot/vmlinuz/puff.c:735-743` | the test on the result of `construct` accepts complete codes and incomplete ones with at most a single one-bit code, nothing else |
| `Puff.State.DynamicBlock` | `src/boot/vmlinuz/puff.c:665-747` | a dynamic block means its pairs and literals under the codes it describes |
| `Puff.State.Blocks` | `src/boot/vmlinuz/puff.c:818-833` | blocks up to the last one or the first error, each consuming input |
| `Puff.Puff` | `src/boot/vmlinuz/puff.c:793-840` | on every source and room: the return code, the bytes produced and the bytes consumed are those of the pure inflate; lengths are updated only for codes up to 0; no byte outside the given space or past those produced changes |
| `PuffTheorems.ScanPredictsWrite` | `src/boot/vmlinuz/puff.c:793-840` | on every stream: if what a scan counts fits the room, a writing run has the very same outcome; if not, it returns 1 |
| `PuffTheorems.SuccessNeedsOnlyConsumed` | `src/boot/vmlinuz/puff.c:793-840` | a success that consumed k bytes gives the same result on any source that shares those k bytes |
| `DeflateRoundTrip.LenTable` | `src/boot/vmlinuz/puff.c:443-448` | the length tables by arithmetic: the first eight codes are the lengths 3 to 10; then every four codes have one extra bit more and twice the offset of the four before; the last code is 258 |
| `DeflateRoundTrip.LenSteps` | `src/boot/vmlinuz/puff.c:443-448` | each length code goes on where the one before it ends, by its extra bits |
| `DeflateRoundTrip.DistTable` | `src/boot/vmlinuz/puff.c:449-455` | the distance tables likewise: the first four codes are 1 to 4, then every two codes have one extra bit more and twice the offset |
| `DeflateRoundTrip.DistSteps` | `src/boot/vmlinuz/puff.c:449-455` | each distance code goes on where the one before it ends |
| `DeflateRoundTrip.LenPins` | `src/boot/vmlinuz/puff.c:459-483` | every length from 3 to 258 has a code and extra bits from which its base gives it back |
| `DeflateRoundTrip.DistPins` | `src/boot/vmlinuz/puff.c:459-483` | the same of every distance from 1 to 32768 |
| `DeflateRoundTrip.OrderIs` | `src/boot/vmlinuz/puff.c:674-675` | the order in which code length code lengths are sent, by arithmetic: 16, 17, 18, 0 and then from 8 outwards |
| `DeflateRoundTrip.SymRead` | `src/boot/vmlinuz/puff.c:235-255` | the bits written for a symbol of any usable code are decoded to that symbol |
| `DeflateRoundTrip.TokensRead` | `src/boot/vmlinuz/puff.c:436-510` | literals and pairs written with any two usable codes, and the end of the block, decode to what they spell |
| `DeflateRoundTrip.FixedSym` | `src/boot/vmlinuz/puff.c:543-568` | the codeword of every symbol of the fixed code is the number section 3.2.6 of RFC 1951 lists for it |
| `DeflateRoundTrip.InstrsRead` | `src/boot/vmlinuz/puff.c:701-729` | code lengths written as single lengths, repeats of the last one and runs of zeros are read back |
| `DeflateRoundTrip.DescriptionRead` | `src/boot/vmlinuz/puff.c:665-743` | a written description of two codes is read back as those two codes |
| `DeflateRoundTrip.ChunkReads` | `src/boot/vmlinuz/puff.c:818-833` | a written block of any of the three types, last or not, is read back as the bytes it stands for |
| `DeflateRoundTrip.InflateWritten` | `src/boot/vmlinuz/puff.c:793-840` | inflate inverts writing: any sequence of stored, fixed and dynamic blocks, written bit by bit with lengths and distances split by arithmetic, gives back what it spells, with code 0 and every byte consumed |
| `DeflateFaults.InflateMore` | `src/boot/vmlinuz/puff.c:754-760` | whatever the answer but 2, appending input does not change it |
| `DeflateFaults.CutReturns2` | `src/boot/vmlinuz/puff.c:768` | a stream cut before the last byte it needs returns 2 |
| `DeflateFaults.WrittenCut` | `src/boot/vmlinuz/puff.c:768` | every written stream, cut anywhere, returns 2 |
| `DeflateFaults.OpenRead` | `src/boot/vmlinuz/puff.c:818-833` | after any good blocks that are not the last the rest of the stream decides, with their bytes as the output so far |
| `DeflateFaults.ReservedType` | `src/boot/vmlinuz/puff.c:771` | block type 3 returns -1 |
| `DeflateFaults.LengthMismatch` | `src/boot/vmlinuz/puff.c:772` | a stored length that its complement does not match returns -2 |
| `DeflateFaults.StoredFull` | `src/boot/vmlinuz/puff.c:769` | a stored block with more bytes than there is room for returns 1 |
| `DeflateFaults.TooManyCodes` | `src/boot/vmlinuz/puff.c:773` | more than 286 length or 30 distance codes announced returns -3 |
| `DeflateFaults.IncompleteClCode` | `src/boot/vmlinuz/puff.c:774` | a code length code that is not complete returns -4 |
| `DeflateFaults.NothingToRepeat` | `src/boot/vmlinuz/puff.c:775` | a repetition before the first length returns -5 |
| `DeflateFaults.RunTooLong` | `src/boot/vmlinuz/puff.c:776` | after any instructions, a run past the number of lengths announced returns -6 |
| `DeflateFaults.UnusableCodes` | `src/boot/vmlinuz/puff.c:777-779` | a description without a code for the end of the block returns -9, else with an unusable literal/length code -7, else with an unusable distance code -8 |
| `DeflateFaults.InvalidSymbol` | `src/boot/vmlinuz/puff.c:780` | after any good tokens, bits that are no literal/length code, or the code of 286 or 287, return -10 |
| `DeflateFaults.InvalidDistance` | `src/boot/vmlinuz/puff.c:780` | after any good tokens, a length followed by bits that are no distance code returns -10 |
| `DeflateFaults.TooFarBack` | `src/boot/vmlinuz/puff.c:781` | after any good tokens, a copy from before the start of the output returns -11 |
| `DeflateFaults.NoRoom` | `src/boot/vmlinuz/puff.c:769` | after any good tokens, a literal or copy without room returns 1 |
| `FatNames.Enc83` | `src/boot/fatbuild.c:77-87` | the 8.3 test and the 11-byte name when it fits |
| `FatRead.Encode` | `src/boot/fatread.c:61-70` | the reader's name for any component, what does not fit cut off; on components that fit it is the builder's |
| `FatNames.CaseBlind` | `src/boot/fatbuild.c:70-87` | names equal up to ASCII case encode alike and fit alike |
| `FatNames.DottedName` | `src/boot/fatbuild.c:70-87` | a name with a dot encodes as its stem in eight and its extension in three upper case characters, filled up with spaces, and fits exactly if nothing is cut off and the stem is not empty |
| `FatNames.UndottedName` | `src/boot/fatbuild.c:70-87` | a name without a dot is all stem |
| `FatNames.AliasInjective` | `src/boot/fatbuild.c:196-206` | different counters give different aliases |
| `FatNames.MakeAlias` | `src/boot/fatbuild.c:179-212` | the first candidate that is not among the taken names |
| `FatNames.AliasFresh` | `src/boot/fatbuild.c:179-212` | with k names taken the alias is fresh, comes within k + 1 attempts and has a tilde; the blank fallback is not reached |
| `FatNames.AliasIs` | `src/boot/fatbuild.c:179-212` | every candidate in full: the letters and digits of the stem in upper case, as many as leave room for a tilde and the decimal number in eight places, FILE if there are none, and the first three of the extension |
| `FatVolume.ShortsDistinct` | `src/boot/fatbuild.c:249-264` | the 11-byte names written in one directory differ, given that 8.3 originals differ and the later one, if 8.3, has no tilde |
| `FatNames.DirentFields` | `src/boot/fatread.c:93-96` | name, attribute, cluster and size are read back from a directory entry |
| `FatNames.DirentDates` | `src/boot/fatbuild.c:156-167` | an entry is dated 1 January 1980, midnight, and zero in every other field |
| `FatNames.SlotsCarryName` | `src/boot/fatbuild.c:217-239` | unit k of each 13-unit part of the long name stands in its slot, first part in the last slot, terminated and filled up |
| `FatNames.ChecksumStep` | `src/boot/fatbuild.c:170-175` | the checksum starts at 0; each byte of the name moves every bit one place down, the lowest to the top, and is then added in 8 bits |
| `FatTree.Tree.constructor` | `src/boot/fatbuild.c:296-299` | the table holds the root only |
| `FatTree.Tree.Append` | `src/boot/fatbuild.c:92-107` | one node more with the component cut to 63 bytes, or -1 and no change at 1024 nodes |
| `FatTree.Tree.FindOrAddDir` | `src/boot/fatbuild.c:109-118` | the first directory of that name, case ignored, below the parent, or a new one |
| `FatTree.ComponentsAre` | `src/boot/fatbuild.c:123-145` | a path of components between any runs of slashes and backslashes has exactly those components |
| `FatTree.EndsAre` | `src/boot/fatbuild.c:125-126` | and names a directory exactly if slashes come last |
| `FatTree.Tree.Add` | `src/boot/fatbuild.c:123-145` | the in-place walk over the path gives the table of the pure insertion, and fails exactly when that does |
| `FatTree.InsertOk` | `src/boot/fatbuild.c:123-145` | inserting keeps every node in place below an earlier directory, and a file ends up as a node with its payload whose ancestors spell its path |
| `FatTree.AddAllOk` | `src/boot/fatbuild.c:301-314` | after all members every file member still has such a node |
| `FatSizing.Settle` | `src/boot/fatbuild.c:327-337` | for every volume whose image has a 32-bit size the FAT size loop ends, with regions that fit the partition, a FAT entry for every cluster and no FAT sector beyond what one-sector FATs would call for |
| `FatSizing.VolMbLeast` | `src/boot/fatbuild.c:316-321` | the volume is the smallest number of megabytes, at least 8, that holds the content, half a megabyte and the larger of 8 MB and a quarter of the content |
| `FatSizing.SpcIs` | `src/boot/fatbuild.c:266-272` | sectors per cluster: the smallest power of two from 4 to 64 that keeps the volume within 32 MB per sector, 64 where none does |
| `FatSizing.MaxMbIs` | `src/boot/fatbuild.c:344-346` | 4094 MB is the largest volume whose image, gap included, has a size of 32 bits |
| `FatSizing.Fat16Clusters` | `src/boot/fatbuild.c:266-337` | for every content the volume has at least 4087 clusters, and fewer than 65525 if and only if it has at most 2047 MB |
| `FatSizing.DemandBound` | `src/boot/fatbuild.c:361-376` | clusters needed, in bytes, exceed the bytes needed by less than a cluster a node |
| `FatSizing.EntrySumBound` | `src/boot/fatbuild.c:366-370` | directory entries over all directories are at most the entries of all nodes |
| `FatSizing.FileBytesContent` | `src/boot/fatbuild.c:301-314` | file bytes in the tree are at most the content the members add up to |
| `FatSizing.SizingSuffices` | `src/boot/fatbuild.c:316-337` | for every volume whose image has a 32-bit size and every tree of up to 1023 entries the clusters of all files and directories fit with the last cluster left unused, so allocation never finds the volume full |
| `FatSizing.SurelyNumbered` | `src/boot/fatbuild.c:316-337` | in a volume of up to 2519 MB no cluster in use has a number from 0xFFF8 on, whatever the tree |
| `FatVolume.NumberedIff` | `src/boot/fatbuild.c:276-290` | no cluster of any node has a number that ends a chain if and only if at most 65526 are in use |
| `FatVolume.LinksOf` | `src/boot/fatbuild.c:276-290` | the FAT links the clusters of each node into one ascending run that ends in 0xFFFF |
| `FatVolume.ChainsApart` | `src/boot/fatbuild.c:276-290` | chains of different nodes have no cluster in common |
| `FatBuild.NodesApart` | `src/boot/fatbuild.c:425-454` | the bytes of different nodes' clusters do not overlap |
| `FatBuild.NodeInside` | `src/boot/fatbuild.c:425-454` | a node's bytes fit its clusters, which lie in the data region |
| `FatWrite.Wr16` | `src/boot/fatbuild.c:148-150` | two bytes, low first, and nothing else |
| `FatWrite.Wr32` | `src/boot/fatbuild.c:151-154` | four bytes, low first, and nothing else |
| `FatWrite.WrDirent` | `src/boot/fatbuild.c:156-167` | the 32 bytes of an entry and nothing else |
| `FatWrite.LfnChecksum` | `src/boot/fatbuild.c:170-175` | the rotating sum of the 11 bytes |
| `FatWrite.WrSlot` | `src/boot/fatbuild.c:224-237` | one long-name slot over whatever was there, and nothing else |
| `FatWrite.WrLfnSlots` | `src/boot/fatbuild.c:217-239` | the whole slot chain, highest number first, and the offset past it |
| `FatBuild.WrChild` | `src/boot/fatbuild.c:249-264` | a child's slots and entry, exactly 32 bytes for each entry counted, under its own or a fresh name, which is then taken |
| `FatBuild.WrChildren` | `src/boot/fatbuild.c:414-435` | all children of a directory in node order; in the root refused exactly when they exceed its 512 entries with the label |
| `FatBuild.WrRoot` | `src/boot/fatbuild.c:409-422` | the label and the root's children, if they fit |
| `FatBuild.WrSubdir` | `src/boot/fatbuild.c:426-435` | both dot entries and the children of a directory |
| `FatBuild.AllocClusters` | `src/boot/fatbuild.c:276-290` | a run linked after the clusters already given out; fails exactly when it would reach the last cluster; only the first FAT changes |
| `FatBuild.NodeBytes` | `src/boot/fatbuild.c:365-373` | two dot entries and the children's entries for a directory, the size for a file |
| `FatBuild.Assign` | `src/boot/fatbuild.c:361-376` | first clusters and links for all nodes, exactly when their clusters exist |
| `FatBuild.WrMbr` | `src/boot/fatbuild.c:378-384` | every byte of the master boot record |
| `FatBuild.WrHeader` | `src/boot/fatbuild.c:378-407` | every byte of both boot records, the gap between them still zero |
| `FatBuild.WrPayload` | `src/boot/fatbuild.c:440-453` | the stored bytes, or the inflated stream if it inflates to exactly its size; else failure |
| `FatBuild.DirNode` | `src/boot/fatbuild.c:425-436` | a directory in its own clusters, padded with zeros, nothing outside them changed |
| `FatBuild.FileNode` | `src/boot/fatbuild.c:438-453` | a file in its own clusters, padded with zeros, nothing outside them changed |
| `FatBuild.WrDirs` | `src/boot/fatbuild.c:425-436` | all directories, every other node still untouched |
| `FatBuild.WrFiles` | `src/boot/fatbuild.c:437-454` | all files, exactly when every payload unpacks |
| `FatBuild.Mirror` | `src/boot/fatbuild.c:456-460` | the second FAT equals the first |
| `FatBuild.AddMembers` | `src/boot/fatbuild.c:296-314` | the tree of all members and their content in 4 KB steps, or failure when the table overflows |
| `FatBuild.Fill` | `src/boot/fatbuild.c:353-460` | a zeroed image becomes an image of the tree exactly when the root's entries fit and every payload unpacks |
| `FatBuild.SurelySized` | `src/boot/fatbuild.c:316-337` | members that make a volume of up to 2519 MB meet what building asks of sizes |
| `FatBuild.Build` | `src/boot/fatbuild.c:292-470` | for every volume whose image has a 32-bit size and whose clusters in use can be numbered: an image of the members' tree, byte for byte, exactly when the node table holds them, the root's entries fit and every payload unpacks; never for lack of space; FASTFAT counts at least 4087 clusters on it, and fewer than 65525 exactly up to 2047 MB |
| `FatHeader.MbrIs` | `src/boot/fatbuild.c:378-384` | read back from the image: one active partition of type 6 that starts after the gap and ends with the image, the other slots empty |
| `FatHeader.BootSectorIs` | `src/boot/fatbuild.c:386-412` | read back from the image: the boot sector has the sector size, FATs and root entries of the volume, the place and the size the partition table gives it, the size in exactly one of its two fields, and the disk signature for a serial number |
| `FatHeader.BootTexts` | `src/boot/fatbuild.c:386-412` | its maker, label and file system type read MSDOS5.0, NT and FAT16 |
| `FatHeader.Fat16Volume` | `src/NT/PRIVATE/NTOS/FASTFAT/FAT.H:330-353` | the clusters FASTFAT counts from the fields of the boot sector are the builder's: at least 4087, which makes FAT entries 16 bits wide, and fewer than 65525 if and only if the volume has at most 2047 MB |
| `NtDirectory.NtLists` | `src/NT/PRIVATE/NTOS/FASTFAT/DIRSUP.C:939-1150` | FASTFAT, reading what the builder writes for any directory of any tree: the dot entries and every child with its short name, attribute, first cluster and size, and with its long name exactly when that does not fit 8.3; only children whose name starts with 0xE5 are missing |
| `NtDirectory.NtListsImage` | `src/NT/PRIVATE/NTOS/FASTFAT/DIRSUP.C:939-1150` | the same of every directory of an image the builder made, read from where it stands in the image |
| `NtDirectory.LabelIs` | `src/boot/fatbuild.c:414-418` | the root starts with an entry of attribute 8 named NT, the volume label |
| `NtDirectory.ChecksumAgrees` | `src/NT/PRIVATE/NTOS/FASTFAT/DIRSUP.C:2122-2134` | the checksum FASTFAT computes is the one the builder writes |
| `FatRead.Reader.Mount` | `src/boot/fatread.c:30-58` | the geometry the boot sector gives, or the error code of the first test that fails, with the fields as that error leaves them |
| `FatRead.MountCodes` | `src/boot/fatread.c:30-58` | the code of every image that is not mounted says what is wrong with it, and a mounted one has none of these faults |
| `FatRead.Reader.Geometry` | `src/boot/fatread.c:45-57` | the geometry fields or -5, after which the two already assigned are changed and the others are not |
| `FatRead.Reader.MatchEntry` | `src/boot/fatread.c:86-98` | end of directory, skip (deleted, long-name slot, label, other name) or the entry's cluster, size and kind |
| `FatRead.ScanAppend` | `src/boot/fatread.c:101-122` | searching two runs of entries is searching the first, then the second |
| `FatRead.Reader.Find` | `src/boot/fatread.c:101-122` | the search over the root region or along a cluster chain, unless that never ends |
| `FatRead.Reader.Resolve` | `src/boot/fatread.c:125-157` | the path walk, components taken 15 bytes at a time |
| `FatRead.RootLookup` | `src/boot/fatread.c:127-135` | slashes alone lead to the root |
| `FatRead.FifteenAtATime` | `src/boot/fatread.c:136-140` | a component of more than 15 characters is looked up as if a slash stood after the fifteenth, a shorter one as it is |
| `FatRead.Reader.CopyChain` | `src/boot/fatread.c:160-170` | up to `lim` bytes of the chain in order, nothing past them changed; with clusters of no sectors, no bytes, once the chain ends |
| `FatRead.Reader.Size` | `src/boot/fatread.c:186-191` | the size of the file, or -1 when nothing is mounted or the path is no file |
| `FatRead.Reader.ReadInto` | `src/boot/fatread.c:193-200` | -1 when nothing is mounted or the path is no file, else its bytes up to the capacity; nothing past them changes |
| `FatRead.EndlessIff` | `src/boot/fatread.c:113-121` | a search is cut short by the bound on clusters exactly when every cluster up to it is a cluster without the name and another follows |
| `FatRead.EndlessRepeats` | `src/boot/fatread.c:113-121` | a search so cut short has come back to a cluster and would not end under any bound, so the outcome stands for a loop that does not return |
| `FatSearch.MountBuilt` | `src/boot/fatread.c:30-58` | mounting any built image recovers the builder's geometry |
| `FatSearch.ChainCopies` | `src/boot/fatread.c:160-170` | copying a chain, from any of its clusters on, gives the rest of what it holds |
| `FatSearch.ChainScans` | `src/boot/fatread.c:101-122` | searching a chain cluster by cluster is searching its content as one run of bytes |
| `FatSearch.ScanChildren` | `src/boot/fatread.c:86-122` | searching a directory's children, slots included, finds the first child with that short name, and never one whose name counts as deleted |
| `FatSearch.DirFindIs` | `src/boot/fatread.c:101-122` | on a built image a directory search for any 11 bytes returns, below the root, the dot entry of that name, else the entry of the first child with that short name, and nothing exactly when there is none or the name counts as deleted |
| `FatSearch.LookupEnds` | `src/boot/fatread.c:101-157` | no path lookup on a built image runs along a chain without end, for any path whatever |
| `FatInside.BuiltInside` | `src/boot/fatread.c:101-200` | on a built image reading by any path, up to any number of bytes, reads nothing outside the image: root region, directory and file clusters and FAT entries |
| `FatInside.ReadTail` | `src/boot/fatread.c:101-200` | reading that stays inside the image gives the same result whatever lies behind it in memory |
| `FatInside.MountTail` | `src/boot/fatread.c:30-58` | so does mounting a built image |
| `FatRoundTrip.FoundIff` | `src/boot/fatread.c:61-122` | for every node, asking its directory for the node's own name gives its entry if and only if it was given the 11 bytes the reader makes of that name, these are neither a deleted name nor, below the root, a dot name, and no child before it was given the same; an empty file also when the first child given those bytes is another empty file, whose entry is the same |
| `FatRoundTrip.PlainBears` | `src/boot/fatbuild.c:249-264` | names alone suffice for that: 8.3, no tilde, not starting with 0xE5, no dot name below the root, encoded unlike every 8.3 node before it in the directory |
| `FatRoundTrip.TildeShadowed` | `src/boot/fatbuild.c:249-264` | a.bcde with one byte and A~1.BCD with two: on every image of them, reading A~1.BCD gives the size and the byte of a.bcde, because its alias takes that name |
| `FatRoundTrip.ShadowingBuilt` | `src/boot/fatbuild.c:292-470` | the builder accepts those two members and makes that tree of them |
| `FatRoundTrip.PathResolves` | `src/boot/fatread.c:125-157` | a path that spells a node, in any case and with any slashes, resolves to its entry when every node on the way is found by its own name and has at most 15 bytes |
| `FatRoundTrip.PathResolvesIff` | `src/boot/fatread.c:125-157` | for every node that has clusters and every path that spells it in components of at most 15 bytes, the path leads to it if and only if every node on the way is found by its own name: a lookup that goes astray, by a dot entry or another child, never comes back |
| `FatRoundTrip.FileCopies` | `src/boot/fatread.c:160-170` | the chain of any file of a built image holds exactly its bytes |
| `FatRoundTrip.RoundTrip` | `src/boot/fatread.c:30-170` | on every built image mounting succeeds, and looking up the path of such a file and copying its chain gives exactly its size and bytes, over any number of clusters of directories and files |
| `FatRoundTrip.MemberRoundTrip` | `src/boot/fatbuild.c:292-470` | every file member of the archive is in the image, and is read back from its own path when every node on that path is found by its own name |
| `FatMembers.InsertNew` | `src/boot/fatbuild.c:123-145` | inserting a path keeps directories of one name below one parent unique; each new node stands for a part of the path, and only the last can be a file |
| `FatMembers.Maker` | `src/boot/fatbuild.c:296-314` | every node of the tree was made by one member, stands for a part of its path, and a file is the last node its member made |
| `FatMembers.ClearFindable` | `src/boot/fatbuild.c:109-145` | a condition on the member paths alone under which every node on the way to a file is found by its own name: plain 8.3 components, no other member running through the file or ending in one of its directories, and names that part in one directory not encoding alike |
| `FatMembers.ClearRoundTrip` | `src/boot/fatread.c:30-200` | under that condition, on every image of the members, any path with the same components up to case gives exactly the member's size and bytes |
| `FatMembers.LoadFile` | `src/boot/vmlinuz/main.c:73-138` | the boot's sequence build, mount, size, read: for every member that meets the condition, a path that names it yields its exact bytes whenever the volume can be built, and null exactly when it cannot |
| `FreeList.CarveCovers` | `src/boot/vmlinuz/bootenv_pvh.c:40-55` | carving never makes memory free; without overflow it takes off exactly the range |
| `FreeList.CarveExact` | `src/boot/vmlinuz/bootenv_pvh.c:40-55` | below 32 regions, and disjoint, nothing but the range is lost |
| `FreeList.CarveExactIff` | `src/boot/vmlinuz/bootenv_pvh.c:40-55` | for disjoint regions only an overflow of the list loses memory, and every overflow does |
| `FreeList.CarveDisjoint` | `src/boot/vmlinuz/bootenv_pvh.c:40-55` | disjoint regions stay disjoint |
| `FreeList.BestFitIs` | `src/boot/vmlinuz/bootenv_pvh.c:102-116` | the highest page-aligned fit under the cap over all free regions, and failure exactly when there is none |
| `FreeList.AllocSound` | `src/boot/vmlinuz/bootenv_pvh.c:128-137` | one request that does not wrap, any exact address page-aligned: the block is whole pages, was free and no longer is, the list stays one of whole pages and only shrinks, 0 exactly on failure |
| `FreeList.RunSound` | `src/boot/vmlinuz/bootenv_pvh.c:128-137` | over every run of requests, exact ones page-aligned and not wrapping, the blocks are page-aligned, nonempty, never at 0, pairwise disjoint, taken from memory free at the start and not free at the end |
| `FreeList.AllocApart` | `src/boot/vmlinuz/bootenv_pvh.c:118-137` | one request on any list, aligned or not, that does not wrap: the block was free and no longer is, the rest only shrinks, 0 exactly on failure |
| `FreeList.RunApart` | `src/boot/vmlinuz/bootenv_pvh.c:118-137` | over every run of requests that do not wrap, aligned or not, the blocks are nonempty, not in the null page, pairwise disjoint, free at the start and not free at the end |
| `FreeList.AtSoundIff` | `src/boot/vmlinuz/bootenv_pvh.c:118-126` | an exact request that succeeds, aligned or not, gives free memory if and only if its end does not wrap past 2^64 |
| `FreeList.AtWraps` | `src/boot/vmlinuz/bootenv_pvh.c:118-126` | an exact request near 2^64 that succeeds although no byte of its first page and not all of its range is free, and leaves the list as it was |
| `FreeList.AtExactly` | `src/boot/vmlinuz/bootenv_pvh.c:118-137` | an exact request that does not wrap is served at its address if and only if one free region holds all of it; otherwise the result is 0 and the list unchanged |
| `FreeList.MaxExactly` | `src/boot/vmlinuz/bootenv_pvh.c:102-137` | a request under a cap is served at the highest page with room under it, and fails, changing nothing, if and only if there is none |
| `FreeList.AnyExactly` | `src/boot/vmlinuz/bootenv_pvh.c:102-137` | the same of a request for any address, without a cap |
| `FreeList.TakesExactly` | `src/boot/vmlinuz/bootenv_pvh.c:102-137` | with fewer than 32 disjoint regions a request takes exactly the block it hands out off the list |
| `BootEnv.BootEnv.CarveOut` | `src/boot/vmlinuz/bootenv_pvh.c:40-55` | the rebuilt list is the carved one, cut at 32 regions |
| `BootEnv.BootEnv.constructor` | `src/boot/vmlinuz/bootenv_pvh.c:57-80` | usable entries in whole pages, without the null page, the image and the initrd |
| `BootEnv.BootEnv.AllocHigh` | `src/boot/vmlinuz/bootenv_pvh.c:102-116` | takes the best fit and carves it, or 0 and no change |
| `BootEnv.BootEnv.AllocAt` | `src/boot/vmlinuz/bootenv_pvh.c:118-126` | takes exactly the wanted place if one free region holds it, the sum wrapping at 64 bits |
| `BootEnv.BootEnv.AllocPages` | `src/boot/vmlinuz/bootenv_pvh.c:128-137` | the block and free list of the request, 0 for no pages |
| `BootEnv.BootEnv.MemoryRegions` | `src/boot/vmlinuz/bootenv_pvh.c:82-97` | the first entries that fit, each with its coarse type |
| `BootEnv.ListedExact` | `src/boot/vmlinuz/bootenv_pvh.c:64-69` | for an entry whose address rounds up without wrapping: what is listed is whole pages of the entry, and all of them unless its end is past the last address |
| `BootEnv.ListsOwnIff` | `src/boot/vmlinuz/bootenv_pvh.c:35-69` | everything listed for an entry is whole pages of it if and only if rounding its address up to a page does not wrap past 2^64, or its wrapped end leaves nothing to list |
| `BootEnv.LastPageFreesAll` | `src/boot/vmlinuz/bootenv_pvh.c:35-69` | fifty usable bytes in the last page below 2^64 make all memory below that page free |
| `BootEnv.ExcludesIff` | `src/boot/vmlinuz/bootenv_pvh.c:71-78` | carving out an extent takes all of it off every list if and only if rounding its end up does not wrap, or it is empty or in the last page |
| `BootEnv.InitialFreeOk` | `src/boot/vmlinuz/bootenv_pvh.c:57-80` | for entries and extents that round so, what is free at the start is whole pages of usable RAM outside the null page, the image and the initrd |
| `BootEnv.BootRunSound` | `src/boot/vmlinuz/bootenv_pvh.c:57-137` | over every run of requests from boot, aligned or not, none wrapping past 2^64, the blocks are pairwise disjoint usable RAM and avoid the null page, the image and the initrd |
| `MemMap.EmitEntry` | `src/boot/memmap.c:58-74` | append or merge; at capacity nothing, even if it could be merged |
| `MemMap.EmitExpands` | `src/boot/memmap.c:58-74` | below capacity an entry adds exactly its pages, merged or not |
| `MemMap.FindEarliest` | `src/boot/memmap.c:96-111` | the overlap that starts first |
| `MemMap.EarliestIs` | `src/boot/memmap.c:96-111` | the overlap found lies in a registered entry and nothing registered comes before it |
| `MemMap.SplitPiece` | `src/boot/memmap.c:89-128` | one turn: the gap, then the overlap, or the uncovered rest |
| `MemMap.SplitByRegistry` | `src/boot/memmap.c:83-129` | all pieces of a region; the cursor advances every turn |
| `MemMap.SplitExpands` | `src/boot/memmap.c:83-129` | for a disjoint registry and a count below capacity, the entries list every page of the region once, in order, with the type of the allocation that holds it or else the coarse type |
| `MemMap.SplitMerged` | `src/boot/memmap.c:58-129` | no two neighbouring entries could be one, and none is empty |
| `MemMap.MemmapToNt` | `src/boot/memmap.c:136-157` | the entries for all RAM regions in their order; the status for no capacity and no regions |
| `MemMap.NtMapExpands` | `src/boot/memmap.c:136-157` | the same of the whole map: every RAM page with its type, nothing lost below capacity, fully merged |
| `MemMap.NtMapSortedIff` | `src/boot/memmap.h:26-29` | below capacity the descriptors are sorted by page, and without overlap, if and only if the RAM regions of the memory map come in that order |
| `MemMap.NotSorted` | `src/boot/memmap.h:26-29` | a map of two free pages, 16 before 0, whose descriptors are not sorted |
| `LoaderMemory.Mmu.constructor` | `src/boot/mmu.c:46-74` | an empty registry over the page allocator |
| `LoaderMemory.Mmu.AllocImpl` | `src/boot/mmu.c:46-74` | registers what the allocator hands out; refused, before any page is taken, when 64 are registered |
| `LoaderMemory.Mmu.ReserveRange` | `src/boot/mmu.c:118-132` | registers a range for the memory map only, unmapped, taking no page from the allocator; refused when 64 are registered |
| `LoaderMemory.RunAccounted` | `src/boot/mmu.c:46-132` | after any sequence of allocations and reservations, the reserved ranges being no free memory and apart, registered blocks are disjoint, allocated ones were free at the start, and none is free now |
| `LoaderMemory.AllocatedDescribedOnce` | `src/boot/memmap.c:20-157` | for at most 256 page-aligned, disjoint map entries and a count below capacity, after any sequence of allocations and reservations in RAM every registered page is in exactly one descriptor, of the number NT has for its kind: 2, 5, 6, 9, 10, 11, 17, 19, 20 or 21 |
| `LoaderMemory.CoarseDescribedOnce` | `src/boot/memmap.c:48-157` | in any map of disjoint regions a page no allocation holds is described once: 2 if free, 5 if to be reclaimed, 6 if firmware |
| `LoaderMemory.UnregisteredDescribed` | `src/boot/memmap.c:48-157` | after any such boot an unregistered page of a type 1 entry of the e820 map is described once, as 2, one of a type 3 or 4 entry once, as 6, and any other not at all |
| `LoaderMemory.FreeDescriptors` | `src/boot/memmap.c:48-157` | a descriptor of type 2 holds a page if and only if the page lies in a type 1 entry and is unregistered, or was registered as free |
| `LoaderMemory.FreeIsNotAllocated` | `src/boot/memmap.c:83-157` | under the same conditions no LoaderFree descriptor contains a registered page, unless it was registered as free itself |
| `PageBuilder.MarkSpan` | `src/boot/mmu.c:241-248` | marks the slots a range touches, with the wrap of an empty range |
| `PageBuilder.CountPtSlots` | `src/boot/mmu.c:236-266` | both bitmaps and the number of tables |
| `PageLayout.TablesDistinct` | `src/boot/mmu.c:364-376` | identity, KSEG0 and HAL tables never coincide |
| `PageLayout.Consumed` | `src/boot/mmu.c:268-279` | the layout takes the tables counted before the pool was registered plus one for every slot, in either half, only the pool touches |
| `PageLayout.PoolSufficesIff` | `src/boot/mmu.c:268-279` | the pool suffices exactly when it lands in slots that allocations had marked; then the HAL table is its last page |
| `PageBuilder.AssignTables` | `src/boot/mmu.c:364-376` | identity tables first, then KSEG0, then the HAL's |
| `PageBuilder.InstallPdes` | `src/boot/mmu.c:349-390` | every directory entry, the self-map and HAL entries over KSEG0 slots 256 and 511 |
| `PageBuilder.Populate` | `src/boot/mmu.c:398-427` | the entries of a range's pages in one half, in 32-bit arithmetic, page 0 left out of the identity half |
| `PageBuilder.PopulateAll` | `src/boot/mmu.c:413-428` | all entries of both halves |
| `PageBuilder.FillHal` | `src/boot/mmu.c:432-438` | the PCR and shared user data entries |
| `PageBuilder.BuildPageTables` | `src/boot/mmu.c:347-446` | directory and tables as the registries call for, in a pool with room |
| `PageTables.IdShows` | `src/boot/mmu.c:347-446` | in the low half a walk gives the address itself exactly when it is past page 0, its slot has a table, and the byte belongs to a mapped allocation or image or a page at or past 4 GB is cut to its page number; else a fault |
| `PageTables.KsShows` | `src/boot/mmu.c:347-446` | in KSEG0, outside slots 256 and 511, a walk gives the physical address exactly when its slot has a table and the byte belongs to a mapped allocation or one at or past 4 GB is cut to its page number |
| `PageTables.IdentityTranslates` | `src/boot/mmu.c:398-428` | every byte of a registered mapped page below 2 GB, except page 0, walks to itself |
| `PageTables.Kseg0TranslatesIff` | `src/boot/mmu.c:382-427` | a mapped allocation below 2 GB walks back to itself through KSEG0 if and only if it is outside physical slots 256 and 511 |
| `PageTables.IdentitySoundIff` | `src/boot/mmu.c:398-428` | every present identity translation is to a byte of a registered range if and only if no page at or past 4 GB, its number cut to 32 bits, falls on a page other than 0 that has a table and is not registered |
| `PageTables.Kseg0SoundIff` | `src/boot/mmu.c:398-428` | the same of KSEG0 and allocations |
| `PageTables.LowIsSound` | `src/boot/mmu.c:398-428` | as long as no mapped range reaches past 4 GB both halves show only registered memory |
| `PageTables.HighUnsound` | `src/boot/mmu.c:398-428` | one page at 0x100001000 and one at 0x2000: both halves then show 0x1000, which nobody registered |
| `PageTables.SelfMap` | `src/boot/mmu.c:386-387` | through directory entry 768 the page table entry of any address is reached exactly when its directory entry is present |
| `PageTables.HalWalk` | `src/boot/mmu.c:389-438` | the top 4 MB show the PCR and the shared user data and nothing else |
| `PageTables.WalkGrants` | `src/boot/mmu.c:347-446` | whenever a walk through tables so built gives an address, the directory entry and the page table entry it read are present, writable, for the supervisor only and without further flags |
| `BootTranslation.BootPlaces` | `src/boot/mmu.c:200-279` | after every boot in which the allocations succeed, directory, PCR, shared data and table pool are page-aligned, nonzero and below 16 MB, and the directory is not in the pool |
| `BootTranslation.BootRoomIff` | `src/boot/mmu.c:236-279` | after every such boot the pool has room for all tables if and only if each 4 MB slot the pool lies in was marked by an allocation before it; the HAL table is then its last page |
| `BootTranslation.AllocationsTranslate` | `src/boot/mmu.c:46-446` | allocator, registry and tables together: after every such boot each byte of a mapped allocation below 2 GB walks to itself, and its KSEG0 alias back to it exactly outside slots 256 and 511; both entries of each walk are present and writable, for the supervisor only |
| `BootTranslation.BootSound` | `src/boot/mmu.c:398-446` | after every such boot on a machine whose usable memory ends below 4 GB both halves show only registered memory |
| `BootTables.BuildAll` | `src/boot/mmu.c:347-446` | the tables built after every boot whose pool lies in slots marked before it translate each byte of a mapped allocation below 2 GB to itself, and its KSEG0 alias back exactly outside slots 256 and 511, through entries that are writable and for the supervisor only; every translation they give has such entries; with all usable memory below 4 GB they show nothing but registered memory |
| `BootExamples.PoolTooShort` | `src/boot/vmlinuz/main.c:77-258` | a boot, from its memory map through all allocations of volume, kernel, HAL, hive, NLS block, core pages and arena, whose pool has fewer pages than the tables need |
| `BootExamples.HighMemoryShown` | `src/boot/mmu.c:398-428` | a boot with the same allocations on a machine with usable memory past 4 GB: the tables built for it show, in both halves, memory that nobody registered |
| `BootExamples.HighBootExists` | `src/boot/vmlinuz/main.c:77-258` | in that boot all those allocations succeed, and its pool suffices |
| `ThreadContext.StepKeepsInv` | `src/cr/cr_thread.c:139-369` | every atomic step of either party keeps the invariant on count, flag and program points |
| `ThreadContext.Safety` | `src/cr/cr_thread.c:139-369` | over every interleaving, with the thread dying anywhere: the count is the references still owed, the context is freed at most once, no step touches it afterwards |
| `ThreadContext.FreeFindsHandle` | `src/cr/cr_thread.c:139-155` | whoever frees finds the thread handle stored, unless the thread was never created |
| `ThreadContext.FreedExactlyWhen` | `src/cr/cr_thread.c:349-369` | when both parties are through the context was freed once if and only if the thread exited normally, or died before its flag and close saw it dead |
| `ThreadContext.CrashStatus` | `src/cr/cr_thread.c:179-216` | a terminated thread's status is CRASH exactly when it died before storing a result |
| `ThreadContext.StatusIs` | `src/cr/cr_thread.c:157-239` | over every interleaving the status is 3 until the thread finishes, and from then on the 0, 1 or 2 it finished with |
| `ThreadContext.EachStatus` | `src/cr/cr_thread.c:157-184` | it can finish with 0, 1 and 2, and with nothing else |
| `ThreadContext.NobodyBlocks` | `src/cr/cr_thread.c:349-369` | each party always has an enabled step that takes it nearer its end, whatever the other does |
| `ThreadContext.LeakAfterFlag` | `src/cr/cr_thread.c:331-342` | a run in which the thread dies between flag and decrement and the context is never freed, although close finds it dead |
| `CmdlineSpec.ScanEvenQuote` | `src/cr/rt/entry.c:73-84` | 2n backslashes and a quote: n backslashes, and the mode toggles |
| `CmdlineSpec.ScanOddQuote` | `src/cr/rt/entry.c:73-84` | 2n + 1 backslashes and a quote: n backslashes and a literal quote |
| `CmdlineSpec.FlatAt` | `src/cr/rt/entry.c:57-102` | argument k stands at the offset of what comes before it and ends with a NUL |
| `CmdlineSpec.ParseSpell` | `src/cr/rt/entry.c:44-106` | every list of ASCII arguments has a command line that parses back to it |
| `CmdlineSpec.ParseWords` | `src/cr/rt/entry.c:44-106` | words without quotes, separated by any runs of spaces and tabs, parse to those words in order, backslashes kept and characters above 127 as a question mark, up to the limit |
| `Cmdline.FirstWords` | `src/cr/rt/entry.c:42-52` | of any number of words the first 63 become arguments |
| `Cmdline.CountRun` | `src/cr/rt/entry.c:68-71` | the length of a run of backslashes |
| `Cmdline.Slashes` | `src/cr/rt/entry.c:68-91` | a run of backslashes with the quote after it, written behind the reader |
| `Cmdline.Argument` | `src/cr/rt/entry.c:57-102` | one argument written over the buffer is the one the pure parser gives on a frozen copy; no unread character is overwritten |
| `Cmdline.ParseCmdline` | `src/cr/rt/entry.c:44-106` | the in-place tokeniser yields the arguments of the pure parser on a frozen copy, at the offsets in `argv`, terminated inside the buffer, nothing past the command line touched |

## Left out

- FatBuild.Build: requires an image whose size in bytes fits 32 bits (a volume of at most 4094 MB) and no cluster in use with a number from 0xFFF8 on, which would end its chain; volumes of up to 2519 MB always meet this (FatBuild.SurelySized). It takes the members as (path, payload) pairs; zip parsing and its errors are not modelled, a stored member has one length, and memory for the image is always there.
- FatBuild.AllocClusters: requires the same of the numbers it hands out; a number cut to 16 bits is not modelled.
- FatBuild.Assign: requires the same.
- FatTree.Tree.Add: a path is a byte sequence; the theorems about names and the round trip require it to have no NUL, as a C string has none.
- FatRead.Reader.Find: requires that the chain it follows ends, as the code does not return otherwise; memory past the image reads as zero, which no read of a built image comes to (FatInside.BuiltInside).
- FatRead.Reader.Resolve: requires the same of every directory on the path.
- FatRead.Reader.CopyChain: requires, with clusters of no sectors, that the chain ends, as the code does not return otherwise.
- FatRead.Reader.ReadInto: requires what FatRead.Reader.Resolve and FatRead.Reader.CopyChain do.
- FatRoundTrip.PathResolvesIff: for an empty file only the sufficient direction is stated (by FatRoundTrip.PathResolves), because the entries of empty files do not differ and a lookup gone astray can end at another one.
- FatMembers.ClearFindable: the condition on paths suffices but is not exact; the exact one is on the tree (FatRoundTrip.PathResolvesIff).
- FatMembers.ClearRoundTrip: the same.
- FatMembers.LoadFile: requires of sizes what FatBuild.Build does; the buffer is always there. Only the loading of one file is modelled.
- FatSizing.Settle: requires a volume of at most 4094 MB, as FatBuild.Build does.
- FatSizing.SizingSuffices: requires the same.
- FatSizing.Fat16Clusters: requires the same.
- NtDirectory.NtLists: of FatLocateDirent only the scan that matches every entry is modelled, with long names switched on; comparing names, caching and a slot numbered 0 but for its last-slot mark are not.
- Puff.FixedTables: built on every call; the code builds them once and keeps them in statics.
- MemMap.MemmapToNt: takes regions and registry in whole pages; page numbers are assumed to fit 32 bits, so the truncation of addresses above 16 TB is not modelled.
- PageBuilder.BuildPageTables: directory and pool are separate arrays and the pool is required to have room; when it does not is stated by PageLayout.PoolSufficesIff and BootTranslation.BootRoomIff. Clearing the PCR and shared data pages is not modelled.
- BootEnv.BootEnv.constructor: takes the end of the initrd as given; the sum of its address and length is not modelled.
- BootEnv.InitialFreeOk: requires that no rounding wraps past 2^64; where one does, BootEnv.ListsOwnIff and BootEnv.ExcludesIff say that it fails.
- BootEnv.BootRunSound: requires the same, and requests that do not wrap; the wrapping ones are covered by FreeList.AtSoundIff.
- LoaderMemory.AllocatedDescribedOnce: requires at most 256 map entries, as the code passes on no more, and reserved ranges that lie in RAM apart from free memory.
- LoaderMemory.FreeIsNotAllocated: does not speak of pages registered with the kind for free memory, which the code lists as free.
- LoaderMemory.UnregisteredDescribed: requires what LoaderMemory.AllocatedDescribedOnce does.
- LoaderMemory.FreeDescriptors: requires the same.
- BootExamples.PoolTooShort: the archive holds no boot drivers, so nothing is allocated for them; what is loaded into the pages is not modelled.
- FreeList.RunSound: exact requests are page-aligned and do not wrap, counts are 32-bit; unaligned ones are covered by FreeList.RunApart, wrapping ones by FreeList.AtSoundIff.
- FreeList.AllocSound: the same; unaligned requests are covered by FreeList.AllocApart.
- FreeList.AtExactly: requires a list without the null page, as boot leaves it, and a request that does not wrap; wrapping ones are covered by FreeList.AtSoundIff.
- FreeList.TakesExactly: requires fewer than 32 regions; FreeList.CarveExactIff says exactly when a fuller list loses more.
- ThreadContext.Safety: what the chunk does, events, heap and handles are reduced to finishing, failing or dying and to "freed"; `_free_all` is one step.
- Cmdline.ParseCmdline: `argv` holds offsets into the buffer instead of pointers; the fallback argument of the caller is not modelled.
- `fat_read` and `fat_listdir`: the first only adds page allocation to the copy that is modelled, the second a listing the round trip does not need.
- zipread.c, pe.c, lpb.c, hwtree.c, arena.c: parsing and filling of fixed layouts, which would add only easy members.
- The UEFI entry, firmware calls, port I/O, logging, GDT, TSS, IDT and the switch to the kernel: state outside these files.
- The Lua bindings, libc and Win32 shims, and everything under src/tools: wrappers over code that cannot be seen.
