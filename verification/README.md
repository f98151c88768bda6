# Verified models of libyaul, libbcl and genromfs

This project models the parts of the repository where correctness is hardest to see, in Dafny, and proves
what they are for. `dafny verify dfyconfig.toml` checks all of it. Nothing was executed: every statement
below is a theorem about the model.

| component | source | modules |
|---|---|---|
| `memmem`, the two-way string search | `libyaul/lib/string` | MaximalSuffix, TwoWay, MemChr, MemMem |
| the TLSF allocator | `libyaul/kernel/mm/tlsf.c` | TlsfMapping, TlsfBitmap, TlsfMemory, TlsfBlocks, TlsfLists, TlsfFrames, TlsfSteps, TlsfPool, TlsfCut, Tlsf, TlsfRun, TlsfCheck |
| the Huffman coder | `libbcl/huffman.c` | HuffmanCost, PrefixCodes, HuffmanTree, HuffmanBuild, HuffmanText, HuffmanDepth, Huffman, HuffmanDecoder |
| the LZ77 coder | `libbcl/lz.c` | VarSize, LzCode, Lz, LzDecoder |
| the PRS coder | `libbcl/prs.c` | PrsCode, PrsStream, Prs, PrsDecoder |
| the Rice coder | `libbcl/rice.c` | RiceCode, RiceBlock, RiceStream, Rice, RiceCoder |
| the DMA queue | `libyaul/kernel/sys/dma-queue.c` | DmaSpec, DmaLaws, DmaRing, DmaQueue |
| the ROM file system builder | `tools/genromfs/genromfs.c` | RomfsHeader, RomfsLayout, RomfsVolume, RomfsReader, Romfs |
| the fixed point square root | `libyaul/math/fix16_sqrt.c` | Fix16Sqrt |

Bytes, BytePatterns, Binary, Multiples, Options, Spelling, BitStrings, BackCopy and Histogram are shared.

How the model stands to the code:

- A value is a sequence, a number or a datatype; a 32-bit word is a number below 2^32 and wraps where the code
  relies on it. An all-ones `size_t` that only serves as "one before zero" is -1.
- Memory under the allocator is a map from word addresses to words; block headers, flags and free list links
  are read and written there, and the ghost fields `bs` and `ls` say what they amount to.
- Buffers that the code fills in place are arrays, and objects whose fields it updates are classes. Each
  method is proved against a function of the old contents, and the laws are proved about that function.
- The string search takes the address of the haystack as a parameter, because `memchr` aligns to it. The LZ coder
  takes its window and the byte that it reads one past the end of the input as parameters.
- The callbacks of the DMA queue and the transfers that the hardware performs are entries of a log.
- A directory given to the ROM file system builder is a tree of entries; what `stat`, `readdir` and the
  alignment options say about an entry is part of it. The reader of its images is a specification: it has
  the image and nothing else.

## Findings

Properties that the code does not meet, each with an input and the exact condition.

| property | fails for | holds exactly if |
|---|---|---|
| Huffman codes fit the 32-bit words that hold them; `huffman.c` promises it below 2^32 bytes | a text of 9227465 bytes, and one of every greater length (`HuffmanDepth.CodeDoesNotFit`) | for all texts of `n` bytes: `n < 9227465` (`HuffmanDepth.CodesFitExactly`, and `HuffmanDepth.HeightLimit` for every word width) |
| a Rice block comes back | the single byte 255 (`RiceCoder.LastBitLost`): the loop only notices a full buffer before the last word, and the bits of the last code that do not fit are dropped; and the least signed 32-bit number, whose word unfolds to zero | the block is stored raw or no dropped bit is a one, and that number is not among the values (`RiceCoder.ValuesBack`, `RiceCoder.RoundTrip`) |
| `Rice_Compress` is defined on every block of 32-bit words | the word 2^32 - 1 alone (`RiceCoder.WideIsNotDefined`): its parameter is 32, and a word cannot be shifted by 32 | every parameter used while there is room is below 32 (`RiceCoder.Defined`, what `Rice.PutWords` needs and no more), which holds for all words below 2^31 and for the formats of 8 and 16 bits (`RiceCoder.SmallIsDefined`) |
| a PRS stream comes back | a stream whose control bits, the terminator's two included, fill their bytes, in a buffer that is not zeroed: `prs_finish` leaves the byte that it reserves as it was (`PrsStream.ReservedByte`) | no byte is reserved, or the buffer held a zero there (`PrsStream.RoundTrip`, `Prs.Compressor.Finish`) |
| every copy that `prs_copy` accepts is read back | size 2 at a distance of 256 or more, offset -0x2000 with a size above 9, sizes 0 and 1, and offsets outside -0x2000 to -1 | the copy has a form that the decoder tells apart: for every offset and every size up to 255 (`PrsCode.ReadBackExact`) |
| `tlsf_realloc` refuses what `tlsf_malloc` refuses | any size from 2^30 - 3 to 2^32 - 4 for a live pointer: the pointer comes back, its block is trimmed to nothing (unless it had 12 bytes), and the pool is cut in two there for good (`TlsfCut.CutEnds`) | `adjust_request_size` accepts the size (`Tlsf.Allocator.Realloc`, `Tlsf.Allocator.TrimToNothing`); above 2^32 - 4 it does, by wrapping around to 12 bytes |
| `tlsf_malloc` returns at least the size asked for | sizes above 2^32 - 4, for which rounding up wraps around: 12 bytes are returned | the size is at most 2^32 - 4 (`TlsfMapping.AdjustedSize`) |
| a pool that passes the size check has a free list | 2^30 + 8 bytes of memory | the pool does not have exactly 2^30 bytes (`TlsfPool.AcceptedPool`) |
| `tlsf_memalign` returns an aligned block that holds the request | an alignment of 2^31: only 12 bytes are looked for (`TlsfMapping.AlignedSizeWraps`) | for alignments up to 2^30 it does; at 2^31 the block is aligned if and only if the one found begins at the address 2^31 or can be split there, and otherwise comes back as it is, holding the request if and only if the one found does (`Tlsf.Allocator.Memalign`, `TlsfMapping.HugeGap`) |
| `tlsf_check` notices bitmaps that do not agree with the lists | a first-level bit without a list (`TlsfCheck.ExtraBitIsMissed`): no test asks a first-level bit for one of the second level | after a pass they agree if and only if every first-level bit has a second-level one, and all bits are inside the tables (`TlsfCheck.PassedExactly`) |
| `_queue_full` sees a full ring | 32 pending requests after 113 were taken out (`DmaRing.FullIsMissed`): the 8-bit counters have wrapped between them | the counters do not straddle the wrap (`DmaRing.Ring.Full`, `DmaRing.Ring.Size`) |
| `dma_queue_enqueue` keeps the requests that it has accepted | 31 pending requests with one in flight: `_queue_full` does not count the one in flight, and its slot is overwritten; and 32 pending ones that the counters hide | the tag occupies fewer than 32 slots, the one in flight included, or the request is refused (`DmaQueue.Queue.Enqueue`, `DmaRing.Ring.Enqueue`) |
| `fix16_sqrt` is the integer square root | 0x60000000 (`Fix16Sqrt.LargeRootIsNot`) | at each bit tried before the last, what the root cut off there leaves of the value is less than 2^31 times the bit (`Fix16Sqrt.RemaindersFit` in `Fix16Sqrt.Sqrt`), which it is for every value below 2^30 (`Fix16Sqrt.SmallRootsAreExact`) |
| a volume of genromfs can be read from its image | a root that the options align to 64 bytes (`RomfsReader.MovedRootIsMissed`): its header is not where the header of the volume ends, and nothing says where it is | the first entry needs no padding, or there is none (`RomfsReader.VolumeReadsBack`, `Romfs.Build`) |

## Model

| member | source | states |
|---|---|---|
| MaximalSuffix.ComputeMaximalSuffix | libyaul/lib/string/memmem.c:89-136 | the scan ends at the lexicographically maximal suffix of the needle, and `p` is the smallest period of that suffix |
| TwoWay.CriticalFactorisation | libyaul/lib/string/memmem.c:89-142 | the critical factorisation theorem at the cut the code chooses: any local repetition there is longer than the left half and a period of the whole needle |
| TwoWay.NoShortPeriod | libyaul/lib/string/memmem.c:144-150 | if the period of the right half is no period of the needle, every period of the needle is longer than the right half |
| TwoWay.ChooseCut | libyaul/lib/string/memmem.c:89-142 | of the two maximal suffixes the shorter one is taken, with its smallest period |
| TwoWay.Factorise | libyaul/lib/string/memmem.c:144-150 | the cut, the shift and the memory that the search relies on: the shift is a period of the needle and the memory what it leaves, or the shift is the larger of the left half and one more than the right half |
| TwoWay.RightMismatchSkips | libyaul/lib/string/memmem.c:180-187 | after a mismatch in the right half no occurrence starts before the window's next position |
| TwoWay.LeftMismatchSkips | libyaul/lib/string/memmem.c:189-197 | after a mismatch in the left half no occurrence starts within the shift |
| TwoWay.BadByteSkips | libyaul/lib/string/memmem.c:161-178 | a last byte that does not occur in the needle's tail rules out all positions up to it |
| TwoWay.BadByteSkipsMemory | libyaul/lib/string/memmem.c:165-173 | with a remembered prefix, a wrong last byte rules out the whole remembered length |
| TwoWay.FillShiftTable | libyaul/lib/string/memmem.c:84-87 | the byte set and the shift table record the last position of every byte of the needle |
| TwoWay.CheckLastByte | libyaul/lib/string/memmem.c:161-178 | the move it returns skips no occurrence, and zero means that the last byte agrees |
| TwoWay.CompareRight | libyaul/lib/string/memmem.c:180-181 | the first difference at or after the cut and the remembered prefix |
| TwoWay.CompareLeft | libyaul/lib/string/memmem.c:189-194 | given an agreeing right half, the loop runs down to the remembered prefix if and only if the needle occurs |
| TwoWay.CompareWindow | libyaul/lib/string/memmem.c:180-197 | found means an occurrence; otherwise the window moves forward without missing one, and what it remembers is true |
| TwoWay.Search | libyaul/lib/string/memmem.c:77-199 | the first occurrence of any needle in any haystack, or none if there is none |
| MemChr.WordTest | libyaul/lib/string/memchr.c:28-33 | the zero-byte trick on a word finds a byte if and only if one of the four bytes equals it |
| MemChr.Repeat | libyaul/lib/string/memchr.c:30-47 | the product holds the byte looked for in each of its four bytes |
| MemChr.SkipWords | libyaul/lib/string/memchr.c:44-53 | whole words are skipped only if none of their bytes is the one looked for |
| MemChr.Find | libyaul/lib/string/memchr.c:34-60 | the first position of the byte for every alignment of the buffer |
| MemMem.SearchTwo | libyaul/lib/string/memmem.c:27-39 | the rolling 16-bit search returns the first occurrence |
| MemMem.SearchThree | libyaul/lib/string/memmem.c:41-54 | the rolling search on the upper 24 bits returns the first occurrence |
| MemMem.SearchFour | libyaul/lib/string/memmem.c:56-69 | the rolling 32-bit search returns the first occurrence |
| MemMem.MemMem | libyaul/lib/string/memmem.c:201-242 | `memmem` returns the first occurrence for every haystack and needle, the empty ones included |
| TlsfMapping.ClassBracket | libyaul/kernel/mm/tlsf.c:513-530 | a size lies between the lower bound of its class and that of the next class |
| TlsfMapping.ClassOrder | libyaul/kernel/mm/tlsf.c:513-530 | larger classes hold larger sizes |
| TlsfMapping.ClassInRange | libyaul/kernel/mm/tlsf.c:513-530 | the indices stay inside the tables exactly for sizes below `block_size_max` |
| TlsfMapping.SearchIsGoodFit | libyaul/kernel/mm/tlsf.c:533-541 | the class searched from is the first one all of whose blocks are large enough |
| TlsfMapping.SearchFits | libyaul/kernel/mm/tlsf.c:533-541 | any block of that class or a higher one satisfies the request |
| TlsfMapping.AdjustedSize | libyaul/kernel/mm/tlsf.c:492-506 | when a request is refused, that an accepted one is covered with less than four bytes to spare (or takes the smallest block), and exactly when rounding wraps |
| TlsfMapping.MemalignGap | libyaul/kernel/mm/tlsf.c:1149-1174 | for alignments up to 2^30 the gap is zero or can hold a block, leads to an aligned pointer and leaves room for the request |
| TlsfMapping.GapIsLeast | libyaul/kernel/mm/tlsf.c:1149-1174 | no shorter gap leads to an aligned pointer and is zero or can hold a block |
| TlsfMapping.AlignedSizeMeaning | libyaul/kernel/mm/tlsf.c:1125-1142 | the size looked for includes the largest gap and no more than one more alignment; exactly when the request is refused |
| TlsfMapping.AlignedSizeWraps | libyaul/kernel/mm/tlsf.c:1125-1142 | an alignment of 2^31 makes every request that is not refused a search for 12 bytes |
| TlsfMapping.HugeGap | libyaul/kernel/mm/tlsf.c:1149-1177 | for every block: the gap before the address 2^31 can be cut off if and only if the block reaches over it |
| TlsfBitmap.Ffs | libyaul/kernel/mm/tlsf.c:165-168 | the lowest set bit, with every lower bit clear |
| TlsfBitmap.SetBitMeaning | libyaul/kernel/mm/tlsf.c:605-623 | setting a bit changes that bit and no other |
| TlsfBitmap.ClearBitMeaning | libyaul/kernel/mm/tlsf.c:576-602 | clearing a bit changes that bit and no other |
| TlsfBlocks.SplitWords | libyaul/kernel/mm/tlsf.c:647-666 | every word of memory after a split, in terms of the blocks before it |
| TlsfBlocks.AbsorbWords | libyaul/kernel/mm/tlsf.c:669-676 | every word of memory after a block absorbs its neighbour |
| TlsfCut.CutStep | libyaul/kernel/mm/tlsf.c:723-735 | splitting a used block at zero bytes leaves a consistent heap with two pools for one, and all other bytes |
| TlsfCut.CutEnds | libyaul/kernel/mm/tlsf.c:723-735 | the pool of the block becomes two, with the block as the sentinel between them, and no other pool changes |
| Tlsf.Allocator.constructor | libyaul/kernel/mm/tlsf.c:797-813 | an empty heap is valid, and only the null block is written |
| Tlsf.Allocator.RemoveFreeBlock | libyaul/kernel/mm/tlsf.c:576-602 | the block leaves its list and both bitmaps follow; no allocation changes |
| Tlsf.Allocator.InsertFreeBlock | libyaul/kernel/mm/tlsf.c:605-623 | the block heads its list and both bitmaps follow; no allocation changes |
| Tlsf.Allocator.BlockRemove | libyaul/kernel/mm/tlsf.c:626-631 | removal from the list of its own class |
| Tlsf.Allocator.BlockInsert | libyaul/kernel/mm/tlsf.c:634-639 | insertion into the list of its own class |
| Tlsf.Allocator.BlockMergePrev | libyaul/kernel/mm/tlsf.c:679-691 | a free block before it is absorbed, and none is left there |
| Tlsf.Allocator.BlockMergeNext | libyaul/kernel/mm/tlsf.c:694-707 | a free block behind it is absorbed with its header, and none is left there |
| Tlsf.Allocator.BlockTrimFree | libyaul/kernel/mm/tlsf.c:710-720 | the tail beyond the size becomes a free block, if it can hold one; a block that is too small stays as it is |
| Tlsf.Allocator.BlockTrimUsed | libyaul/kernel/mm/tlsf.c:723-735 | the tail of an allocation is given back, and its remaining bytes are kept |
| Tlsf.Allocator.BlockTrimFreeLeading | libyaul/kernel/mm/tlsf.c:737-751 | the leading gap becomes a free block of its own, if the rest can hold one; otherwise nothing changes |
| Tlsf.Allocator.SearchSuitableBlock | libyaul/kernel/mm/tlsf.c:543-573 | the head of the first list at or above the class that is not empty; null exactly if all are |
| Tlsf.Allocator.BlockLocateFree | libyaul/kernel/mm/tlsf.c:753-781 | the head of the first list that is sure to fit and is not empty, out of it; null exactly if every free block is in a lower class |
| Tlsf.Allocator.BlockPrepareUsed | libyaul/kernel/mm/tlsf.c:783-794 | the block is trimmed to less than 16 bytes above the size and marked as used |
| Tlsf.Allocator.Malloc | libyaul/kernel/mm/tlsf.c:1114-1120 | exactly when it fails; else a new allocation of at least the size and less than 16 bytes more than the rounded one, from the lowest list that is sure to fit; every other allocation keeps its bytes, and the heap is coalesced again |
| Tlsf.Allocator.Free | libyaul/kernel/mm/tlsf.c:1179-1192 | the allocation is gone, the others keep their bytes, and no two free blocks touch |
| Tlsf.FindGap | libyaul/kernel/mm/tlsf.c:1151-1167 | the pointer arithmetic computes the gap that `TlsfMapping.MemalignGap` is about |
| Tlsf.Allocator.AlignBlock | libyaul/kernel/mm/tlsf.c:1149-1174 | up to 2^30 the located block is moved up to the first aligned address that leaves room for a free block before it, and still holds the request; at 2^31 exactly when it is moved |
| Tlsf.Allocator.LocateAligned | libyaul/kernel/mm/tlsf.c:1144-1174 | null exactly if nothing fits the size looked for; else a located block, out of its list, at the first aligned place that it can be moved to |
| Tlsf.Allocator.Memalign | libyaul/kernel/mm/tlsf.c:1122-1177 | exactly when it fails; else a new allocation, less than 16 bytes larger than the rounded request, at the first aligned place of a block from the lowest list that is sure to fit; every other allocation keeps its bytes; at 2^31 exactly when it is aligned and holds the request |
| Tlsf.Allocator.ReallocMove | libyaul/kernel/mm/tlsf.c:1237-1246 | a move fails only if nothing fits; else the old bytes are at the new place, less than 16 bytes larger than the rounded request, and the old block is free |
| Tlsf.Allocator.ReallocInPlace | libyaul/kernel/mm/tlsf.c:1247-1259 | growing into the next block or shrinking keeps the pointer and the bytes; the block holds the rounded request with less than 16 bytes to spare |
| Tlsf.Allocator.TrimToNothing | libyaul/kernel/mm/tlsf.c:723-735 | trimming to zero bytes turns a block of more than 12 bytes into a sentinel in a heap that stays valid, with its pool cut in two |
| Tlsf.Allocator.Realloc | libyaul/kernel/mm/tlsf.c:1207-1263 | for every size: when it fails, where the bytes are, that the block moves if and only if it and a free one behind it are too small, and that the returned block holds the request, with less than 16 bytes above the rounded size, if and only if the size was not refused |
| Tlsf.Allocator.AddPool | libyaul/kernel/mm/tlsf.c:979-1026 | exactly when a pool is refused; else it is one free block and a sentinel, in its list, and every allocation keeps its bytes |
| Tlsf.Allocator.InstallPool | libyaul/kernel/mm/tlsf.c:1008-1025 | the stores of the new pool, in the order of the code, keep the heap valid |
| TlsfPool.AcceptedPool | libyaul/kernel/mm/tlsf.c:985-1006 | an accepted pool has a free list if and only if it does not have `block_size_max` bytes |
| TlsfPool.PoolBytesFit | libyaul/kernel/mm/tlsf.c:985-1006 | a pool is the whole memory but its two headers and less than four bytes |
| TlsfRun.AllocationsDisjoint | libyaul/kernel/mm/tlsf.c:1114-1120 | allocations are aligned, lie inside a pool and do not overlap |
| TlsfRun.PoolConserved | libyaul/kernel/mm/tlsf.c:903-918 | the blocks of a pool with their headers add up to the pool |
| TlsfRun.SamePools | libyaul/kernel/mm/tlsf.c:1114-1263 | an operation that preserves the other allocations keeps every pool and makes none |
| TlsfRun.TiledSurvives | libyaul/kernel/mm/tlsf.c:1207-1263 | pools that lie one behind the other in a stretch of memory still do after an operation, however they are cut |
| TlsfRun.CutStaysClear | libyaul/kernel/mm/tlsf.c:1207-1263 | memory outside the pools stays outside them when one is cut |
| TlsfRun.Perform | libyaul/kernel/mm/tlsf.c:979-1263 | any one operation of a client keeps the heap valid, its allocations intact and every pool, cut in two at most |
| TlsfRun.Run | libyaul/kernel/mm/tlsf.c:979-1263 | after every sequence of pools added, allocations, aligned allocations, frees, reallocations and stores, for all 32-bit sizes: a valid heap, disjoint allocations with the words last stored in them, and no byte of a pool lost |
| TlsfCheck.Check | libyaul/kernel/mm/tlsf.c:844-894 | on any memory whose lists can be walked: zero if and only if every list agrees with its bits and every block in it meets all conditions |
| TlsfCheck.CheckPool | libyaul/kernel/mm/tlsf.c:827-842 | on any memory: zero if and only if every block of the walk but the last tells rightly whether the one before it is free |
| TlsfCheck.CheckList | libyaul/kernel/mm/tlsf.c:856-889 | a list passes if and only if it agrees with its bits and its blocks meet all conditions |
| TlsfCheck.CheckBlock | libyaul/kernel/mm/tlsf.c:877-889 | a free block passes if and only if it meets all six conditions |
| TlsfCheck.CheckValid | libyaul/kernel/mm/tlsf.c:844-894 | the integrity check passes on every valid heap |
| TlsfCheck.CheckValidPool | libyaul/kernel/mm/tlsf.c:827-842 | and so does the walk over each of its pools |
| TlsfCheck.PassedExactly | libyaul/kernel/mm/tlsf.c:844-894 | after a pass the bitmaps are right if and only if they have no bit without a list |
| TlsfCheck.ExtraBitIsMissed | libyaul/kernel/mm/tlsf.c:844-894 | a bit of the first level without a list passes |
| BitStrings.BitStream.WriteBits | libbcl/huffman.c:172-198 | up to 32 bits of a shifting 32-bit word are appended to the stream, and nothing before them changes |
| BitStrings.BitStream.ReadBit | libbcl/huffman.c:120-141 | the next bit of the stream |
| BitStrings.StreamBit | libbcl/huffman.c:120-141 | the bits of a byte come most significant first |
| BitStrings.BitStream.Read8Bits | libbcl/huffman.c:148-165 | the next eight bits of the stream, across a byte boundary |
| Huffman.Hist | libbcl/huffman.c:205-222 | the table holds the number of occurrences of each symbol |
| Huffman.InitLeaves | libbcl/huffman.c:274-284 | the nodes are the leaves of the symbols that occur |
| Huffman.FindTwo | libbcl/huffman.c:293-304 | the two lightest nodes, the later one of equal weights |
| Huffman.JoinNodes | libbcl/huffman.c:286-316 | the node array ends up holding the tree that repeated merging builds |
| Huffman.StoreTree | libbcl/huffman.c:230-262 | the description is written, and every symbol's path and length, modulo 2^32, are in the table |
| Huffman.MakeTree | libbcl/huffman.c:269-327 | the description of the text's tree is written and the table holds its codes, a single leaf included |
| Huffman.BubblePass | libbcl/huffman.c:403-413 | one pass moves the greatest of the entries that are not settled to their end, and reports an exchange if and only if the table was not in order |
| Huffman.SortBySymbol | libbcl/huffman.c:402-413 | the bubble sort: the same entries in the order of their symbols, for every table; a table in order is not touched |
| Huffman.EncodeText | libbcl/huffman.c:415-420 | the codes of the text are appended in order |
| Huffman.Compress | libbcl/huffman.c:381-429 | the stream is the description and the codes, at most 320 bytes longer than the text, inside the documented buffer |
| HuffmanBuild.BuildCost | libbcl/huffman.c:286-316 | the tree costs what the merging strategy costs on the weights |
| HuffmanBuild.BuildHeight | libbcl/huffman.c:286-316 | a tree of height h weighs at least the Fibonacci number h + 2 |
| HuffmanCost.NoCodeIsCheaper | libbcl/huffman.c:286-316 | no lengths that meet Kraft's inequality spend fewer bits than merging the two lightest |
| PrefixCodes.KraftInequality | libbcl/huffman.c:286-316 | every prefix-free code meets Kraft's inequality |
| HuffmanText.TreeCovers | libbcl/huffman.c:269-327 | the tree has one leaf for each symbol of the text and no other |
| HuffmanText.TextLighterFirst | libbcl/huffman.c:286-316 | at every node of the tree branch A is no heavier than branch B |
| HuffmanText.RarerFirst | libbcl/huffman.c:230-327 | for every text of two symbols: the tree, its description and both codes, with the rarer symbol first |
| HuffmanText.NoPrefixCodeIsShorter | libbcl/huffman.c:381-429 | no prefix code whatever spells the text in fewer bits than the coder |
| HuffmanText.StreamSize | libbcl/huffman.c:18-24 | the codes take no more than the text, the description at most 320 bytes |
| HuffmanDepth.TextHeight | libbcl/huffman.c:12-16 | a text of height h has at least as many bytes as the Fibonacci number h + 2 |
| HuffmanDepth.CodesFit | libbcl/huffman.c:12-16 | below 9227465 bytes every code has 32 bits at most |
| HuffmanDepth.HeightLimit | libbcl/huffman.c:12-16 | the codes of all texts of n bytes have at most h bits if and only if n is below the Fibonacci number h + 3 |
| HuffmanDepth.CodesFitExactly | libbcl/huffman.c:12-16 | the codes of all texts of n bytes fit 32 bits if and only if n is below 9227465 |
| HuffmanDepth.CodeDoesNotFit | libbcl/huffman.c:12-16 | for each length from there on, a text with a code of 33 bits |
| HuffmanTree.ParsesExactly | libbcl/huffman.c:334-363 | a tree is recovered if and only if its description is at the front of the stream |
| HuffmanTree.StreamRoundTrip | libbcl/huffman.c:442-479 | a description and codes decode to the text, whatever follows them |
| HuffmanDecoder.RecoverTree | libbcl/huffman.c:334-363 | the node array holds the parsed tree, within its 511 nodes |
| HuffmanDecoder.NextLeaf | libbcl/huffman.c:465-474 | the walk from the root ends at the leaf that the bits lead to |
| HuffmanDecoder.Uncompress | libbcl/huffman.c:442-479 | the output is what the stream decodes to |
| HuffmanDecoder.RoundTrip | libbcl/huffman.c:381-479 | compressing and uncompressing gives back every text whose codes have at most 32 bits |
| HuffmanDecoder.RoundTripBelowLimit | libbcl/huffman.c:381-479 | and so every text below 9227465 bytes |
| VarSize.WriteVarSize | libbcl/lz.c:118-144 | the variable-length code of a word is stored, in as many bytes as its length says |
| VarSize.ReadVarSize | libbcl/lz.c:152-170 | the word and the number of bytes of a code |
| VarSize.ReadWritten | libbcl/lz.c:118-170 | every word is read back from its code, whatever follows |
| VarSize.CodeGroups | libbcl/lz.c:118-144 | the bytes of a code are the groups of seven bits, highest first, all but the last with the highest bit set |
| VarSize.NeverStartsWithZero | libbcl/lz.c:263-284 | a length is never mistaken for an escaped marker |
| Lz.FindMarker | libbcl/lz.c:203-217 | the marker is the rarest symbol, the first of equals |
| Lz.StringCompare | libbcl/lz.c:102-110 | the length of the common prefix, up to the limit |
| Lz.SearchWindow | libbcl/lz.c:226-261 | the longest match in the window, the nearest of equals, although the code skips candidates by the byte at the current best length |
| Lz.BuildJumpTable | libbcl/lz.c:330-347 | each position is linked to the nearest earlier one with the same pair of bytes |
| Lz.SearchChain | libbcl/lz.c:378-404 | following the links finds the same match as the full search of a window one smaller |
| Lz.Emit | libbcl/lz.c:263-284 | a reference or a literal is emitted, and only references that save bytes |
| Lz.EmitTail | libbcl/lz.c:285-294 | the last bytes are emitted as literals |
| Lz.Compress | libbcl/lz.c:188-297 | the stream is the one specified, within the documented worst case |
| Lz.CompressFast | libbcl/lz.c:311-440 | the fast coder writes the same stream as the slow one with a window one smaller |
| LzCode.BestMeaning | libbcl/lz.c:239-261 | the specified match is the longest one, and the nearest of that length |
| LzCode.MatchAtMeaning | libbcl/lz.c:226-261 | what is found in the window: the longest match of more than three bytes, the nearest of these, or none |
| LzCode.MatchLengthMeaning | libbcl/lz.c:102-110 | a match goes on as long as the bytes agree, up to its distance and the end of the text |
| LzCode.PaysExactly | libbcl/lz.c:263-272 | a match is referred to if and only if the reference has fewer bytes than the match |
| LzCode.TwiceFour | libbcl/lz.c:226-284 | four bytes and the same again become the four, the marker, the length and the distance |
| LzCode.MarkerText | libbcl/lz.c:273-284 | a marker in the text takes two bytes, the second of them zero |
| LzCode.ShortText | libbcl/lz.c:226-294 | texts of fewer than eight bytes without the marker are stored as they are |
| LzCode.ExpandPacked | libbcl/lz.c:451-492 | the stream expands to the text for every marker and window |
| LzCode.MarkerIsRare | libbcl/lz.c:203-217 | the marker makes up at most one byte in 256 |
| LzCode.CompressedSize | libbcl/lz.c:51-52 | the documented worst case, 257/256 of the input and one byte |
| BackCopy.CopiedRepeats | libbcl/lz.c:481-485 | a copy longer than its distance repeats the last bytes, as many as the distance |
| LzDecoder.CopyBack | libbcl/lz.c:481-485 | a copy that overlaps itself repeats what it has just written |
| LzDecoder.Uncompress | libbcl/lz.c:451-492 | the output is what the stream expands to |
| LzDecoder.RoundTrip | libbcl/lz.c:188-492 | compressing and uncompressing gives every text back |
| PrsCode.ReadBack | libbcl/prs.c:155-247 | every byte, copy and end that has a form is read back, and nothing more is read |
| PrsCode.ReadBackExact | libbcl/prs.c:106-151 | a copy of any offset and any size up to 255 is read back if and only if it has a form |
| PrsCode.FormRead | libbcl/prs.c:155-247 | each of the three forms of a copy is read as the copy that it stands for |
| PrsCode.ShortestForm | libbcl/prs.c:128-151 | a copy takes the shortest form that stands for it if and only if it is not one of up to five bytes at the offset -0x100 |
| PrsCode.DecodeTokens | libbcl/prs.c:155-247 | the decoder follows any sequence of items, across control bytes |
| PrsStream.RoundTrip | libbcl/prs.c:70-86 | a finished stream decodes to the expansion of its items if and only if no byte was reserved or it was zero |
| PrsStream.ReservedByte | libbcl/prs.c:70-86 | a byte is reserved if and only if the control bits fill their bytes |
| PrsStream.KnownStream | libbcl/prs.c:15-126 | a byte and a copy of it, bit for bit |
| Prs.Compressor.constructor | libbcl/prs.c:58-68 | an empty stream with its first control byte reserved |
| Prs.Compressor.PutControlBitNosave | libbcl/prs.c:27-32 | a bit is pushed into the open control byte |
| Prs.Compressor.PutControlSave | libbcl/prs.c:34-41 | a full control byte is closed and the next one reserved |
| Prs.Compressor.PutControlBit | libbcl/prs.c:15-25 | a bit follows the others in the stream's layout |
| Prs.Compressor.PutStaticData | libbcl/prs.c:43-47 | a data byte follows the others in the stream's layout |
| Prs.Compressor.RawByte | libbcl/prs.c:88-93 | the source byte is one more item |
| Prs.Compressor.ShortCopy | libbcl/prs.c:95-104 | the bits and the byte of a short copy |
| Prs.Compressor.LongCopy | libbcl/prs.c:106-126 | the bits and bytes of a long copy, with or without a size byte |
| Prs.Compressor.CopyBack | libbcl/prs.c:128-151 | the copy is one more item |
| Prs.Compressor.Finish | libbcl/prs.c:70-86 | the bytes of the finished stream, and exactly when it decodes to the expansion of the items |
| Prs.ExpansionIsSource | libbcl/prs.c:88-151 | items that describe the source expand to it |
| PrsDecoder.Decompress | libbcl/prs.c:155-247 | the output is what the stream decodes to, overlapping copies included |
| PrsDecoder.DecompressSize | libbcl/prs.c:249-341 | the size is the length of what the stream decodes to |
| PrsDecoder.SizeIsLength | libbcl/prs.c:249-341 | measuring and decoding agree on every stream |
| PrsDecoder.BitReader.TakeItem | libbcl/prs.c:155-247 | the next item of the stream, and where the reader is after it |
| RiceStream.Stream.WriteBit | libbcl/rice.c:191-203 | the bit is stored while there is room and dropped after |
| RiceStream.Stream.ReadBit | libbcl/rice.c:171-184 | the next bit, and zeros after the end |
| RiceStream.CountBits | libbcl/rice.c:144-151 | the number of bits up to the highest that is set |
| RiceCode.DecodeEncoded | libbcl/rice.c:210-293 | every word is read back from its code, escape included, and nothing more is read |
| RiceCode.DecodedBegins | libbcl/rice.c:259-293 | what is decoded has its code at the front of the stream |
| RiceCode.DecodeUnder | libbcl/rice.c:259-293 | a stream with fewer ones decodes to a word that is no larger |
| RiceCode.CodeLooks | libbcl/rice.c:210-252 | the shape of a code: the ones, the zero, the excess of an escape and the low bits |
| RiceBlock.DecodeCut | libbcl/rice.c:446-464 | a block cut within its last code decodes to its words if and only if zeros were cut off |
| RiceBlock.CutAtMost | libbcl/rice.c:446-464 | and to no larger words in any case |
| RiceBlock.MeanRounds | libbcl/rice.c:430-454 | the mean is rounded to the nearest, and up from one half |
| RiceBlock.EncodedIs | libbcl/rice.c:446-464 | each word is coded with the rounded mean length of the sixteen words before it, or with the initial parameter, in terms of the words alone |
| RiceBlock.FoldOrder | libbcl/rice.c:301-330 | signed words are numbered by their distance from zero |
| Rice.PutWord | libbcl/rice.c:210-252 | the code of a word is appended |
| Rice.TakeWord | libbcl/rice.c:259-293 | the word that the stream decodes to in 32 bits, and the rest of the stream |
| Rice.WordBack | libbcl/rice.c:301-377 | a value comes back from its word, unless it is the least of 32 signed bits |
| Rice.MeanLength | libbcl/rice.c:430-439 | the initial parameter is the rounded mean length, one at least; `RiceBlock.MeanRounds` says what rounding means |
| Rice.ReviseK | libbcl/rice.c:447-454 | after sixteen words the parameter is the rounded mean length of the last sixteen; `RiceBlock.EncodedIs` says which words these are |
| Rice.PutWords | libbcl/rice.c:446-464 | the loop stops early if and only if the buffer is full before the last word; it needs every parameter that it uses to be below 32 |
| Rice.PutRaw | libbcl/rice.c:467-479 | the raw words follow the marker |
| RiceCoder.CompressWords | libbcl/rice.c:396-482 | the block of the words: codes or raw, in as many bytes as needed |
| RiceCoder.CodesAre | libbcl/rice.c:396-482 | the codes of a block are those of `RiceBlock.EncodedIs` from its first word on |
| RiceCoder.InitialIs | libbcl/rice.c:430-439 | the initial parameter is nearest to the mean length of the first words, sixteen at most, and one at least |
| RiceCoder.KnownBlock | libbcl/rice.c:396-482 | two words, bit for bit |
| RiceCoder.RawBlockIs | libbcl/rice.c:467-482 | a raw block of bytes is a zero and the bytes themselves |
| RiceCoder.UncompressWords | libbcl/rice.c:495-566 | the words of any block, in 32-bit arithmetic |
| RiceCoder.TakeWords | libbcl/rice.c:544-565 | the decoding loop, with the parameter that the encoder had at each word |
| RiceCoder.TakeRaw | libbcl/rice.c:535-543 | the raw words of a block |
| RiceCoder.Compress | libbcl/rice.c:396-482 | the block of the values of a format, all of 32 bits included as long as no parameter reaches 32; nothing for none or an unknown format |
| RiceCoder.Uncompress | libbcl/rice.c:495-566 | the values that a block stands for |
| RiceCoder.BlockRoundTrip | libbcl/rice.c:396-566 | the words come back if and only if the block is raw or no one bit was dropped |
| RiceCoder.ValuesBack | libbcl/rice.c:301-566 | the same for the values of every format, the least signed 32-bit number excepted |
| RiceCoder.RoundTrip | libbcl/rice.c:396-566 | reading, compressing, uncompressing and writing gives the values back if and only if that holds |
| RiceCoder.LastBitLost | libbcl/rice.c:446-464 | a block of one byte that does not come back |
| RiceCoder.SmallIsDefined | libbcl/rice.c:396-482 | words that leave the highest bit clear never need a parameter of 32 |
| RiceCoder.WideIsNotDefined | libbcl/rice.c:396-482 | a single word that does |
| DmaRing.SizeIsExact | libyaul/kernel/sys/dma-queue.c:85-89 | the size is right if and only if the 8-bit counters do not straddle the wrap |
| DmaRing.FullIsMissed | libyaul/kernel/sys/dma-queue.c:91-95 | a full ring that is not seen |
| DmaRing.Ring.constructor | libyaul/kernel/sys/dma-queue.c:66-83 | an empty ring |
| DmaRing.Ring.Size | libyaul/kernel/sys/dma-queue.c:85-89 | the number of pending requests if and only if the counters do not straddle the wrap |
| DmaRing.Ring.Full | libyaul/kernel/sys/dma-queue.c:91-95 | true if and only if the ring is full and the counters do not straddle the wrap |
| DmaRing.Ring.Empty | libyaul/kernel/sys/dma-queue.c:97-101 | true if and only if nothing is pending |
| DmaRing.Ring.FlushEmpty | libyaul/kernel/sys/dma-queue.c:104-108 | true if and only if the flush is over |
| DmaRing.Ring.Top | libyaul/kernel/sys/dma-queue.c:110-117 | the slot of the request in flight |
| DmaRing.Ring.Enqueue | libyaul/kernel/sys/dma-queue.c:119-134 | the request is last; the pending ones keep their slots if and only if they do not fill the ring, and the one in flight if and only if one more slot is free |
| DmaRing.Ring.Dequeue | libyaul/kernel/sys/dma-queue.c:136-152 | the oldest request leaves, and its slot is in flight |
| DmaQueue.Queue.constructor | libyaul/kernel/sys/dma-queue.c:165-184 | three empty rings, nothing in flight |
| DmaQueue.Queue.Enqueue | libyaul/kernel/sys/dma-queue.c:186-224 | for every state: refused if and only if the counters show a full ring; otherwise the ring still refines the unbounded queue if and only if a slot was free, and else the oldest request is overwritten |
| DmaQueue.Queue.CompleteOne | libyaul/kernel/sys/dma-queue.c:338-378 | a transfer ends: it is reported, and the next of the same flush starts |
| DmaQueue.Queue.FlushWait | libyaul/kernel/sys/dma-queue.c:330-380 | the whole flush ends, in order: the state is `DmaSpec.Wait` of the one before, which `DmaLaws.WaitPlays` is about |
| DmaQueue.Queue.Flush | libyaul/kernel/sys/dma-queue.c:279-328 | a flush waits for the one before it, then starts what is pending: `DmaLaws.FlushExactly` |
| DmaQueue.Queue.FlushPending | libyaul/kernel/sys/dma-queue.c:279-328 | with nothing in flight, the pending requests are marked and the first is started |
| DmaQueue.Queue.TagClear | libyaul/kernel/sys/dma-queue.c:241-264 | every pending request of the tag is canceled and reported: `DmaLaws.CancelAllExactly` |
| DmaQueue.Queue.Clear | libyaul/kernel/sys/dma-queue.c:266-277 | the same for all tags: `DmaLaws.ClearExactly` |
| DmaQueue.Queue.RunAll | libyaul/kernel/sys/dma-queue.c:165-380 | every run on the rings is a run of the unbounded queue |
| DmaQueue.RunFromStart | libyaul/kernel/sys/dma-queue.c:165-380 | on every run of an empty queue the log, the request in flight and the pending ones hold what was enqueued, in order, and the log never shows two transfers at a time |
| DmaLaws.EveryRun | libyaul/kernel/sys/dma-queue.c:165-380 | along every run no request of a tag is lost, doubled or overtaken, each is reported over once, each transfer starts once, and none of any tag starts before the last one has been reported complete |
| DmaLaws.BusMeaning | libyaul/kernel/sys/dma-queue.c:330-380 | a log in which no start meets a busy bus has an end for each start before the next one |
| DmaLaws.FlushRunsWhatWasThere | libyaul/kernel/sys/dma-queue.c:279-380 | a flush completes exactly the requests pending when it starts, whatever is enqueued while it runs |
| DmaLaws.WaitPlays | libyaul/kernel/sys/dma-queue.c:330-380 | waiting appends to the log the end of the transfer in flight, and the start and the end of each one left of the flush, in order |
| DmaLaws.FlushExactly | libyaul/kernel/sys/dma-queue.c:279-328 | a flush announces and starts the first pending request of its tag and changes nothing else |
| DmaLaws.CancelAllExactly | libyaul/kernel/sys/dma-queue.c:241-264 | with nothing in flight, clearing a tag reports each of its pending requests as canceled, in order, and leaves none |
| DmaLaws.ClearExactly | libyaul/kernel/sys/dma-queue.c:266-277 | after a clear nothing is in flight or pending, and every request that was pending once the running flush had ended is over and reported as canceled, by tag and in order |
| RomfsHeader.FixedSum | tools/genromfs/genromfs.c:266-270 | after `fixsum` the words add up to zero |
| RomfsHeader.KnownHeader | tools/genromfs/genromfs.c:266-353 | the header of a small file, byte for byte |
| RomfsLayout.Pad | tools/genromfs/genromfs.c:621-635 | the padding is less than the alignment and aligns the header, or the first byte behind header and name of a regular file |
| RomfsLayout.ImageSize | tools/genromfs/genromfs.c:637-834 | the second pass writes as many bytes as the first pass counts |
| RomfsLayout.PassesAgree | tools/genromfs/genromfs.c:355-479 | where the first pass puts a node, the second pass writes it |
| RomfsLayout.NextFieldIsSum | tools/genromfs/genromfs.c:369-395 | the type and execute bits do not collide with the next link |
| RomfsLayout.TypeNumbers | tools/genromfs/genromfs.c:369-395 | the first word of a last header, by the kind of the file and its execute bit |
| RomfsVolume.LayoutPlaces | tools/genromfs/genromfs.c:621-635 | every header is on a multiple of 16; the data of every regular file, and the header of everything else, is on a multiple of its alignment |
| RomfsVolume.HeaderSays | tools/genromfs/genromfs.c:325-353 | the fields of a header as a reader finds them |
| RomfsVolume.VolumeBegins | tools/genromfs/genromfs.c:481-507 | a volume begins with the letters of the file system and its size |
| RomfsVolume.VolumeIsRight | tools/genromfs/genromfs.c:481-507 | the image of any directory: its size, every node readable at its offset with sum zero, links that are offsets, and the first 512 bytes adding up to zero |
| RomfsReader.HeadIs | tools/genromfs/genromfs.c:325-395 | the header that the reader parses at the offset of a node is that of the node |
| RomfsReader.ReadsBack | tools/genromfs/genromfs.c:355-479 | following the links recovers the list that was laid out |
| RomfsReader.OffsetsIncrease | tools/genromfs/genromfs.c:637-834 | the offsets increase in the order of the first pass |
| RomfsReader.DepthFirst | tools/genromfs/genromfs.c:637-834 | a directory is followed by what is in it, and all of that by the next entry |
| RomfsReader.ForgetSeen | tools/genromfs/genromfs.c:383-390 | the entries are recovered, hard links with their targets |
| RomfsReader.VolumeReadsBack | tools/genromfs/genromfs.c:481-507 | the directory is read back from the image alone if and only if its first entry needs no padding |
| RomfsReader.MovedRootIsMissed | tools/genromfs/genromfs.c:621-661 | a root that is not found |
| Romfs.Checksum | tools/genromfs/genromfs.c:250-264 | the sum of the big-endian words in 32 bits |
| Romfs.FixSumInPlace | tools/genromfs/genromfs.c:266-270 | the checksum word alone changes, to what makes the sum zero |
| Romfs.Dumper.DumpData | tools/genromfs/genromfs.c:272-303 | the first 512 bytes are held back and fixed; every byte is written once, in order |
| Romfs.Dumper.DumpZero | tools/genromfs/genromfs.c:305-309 | zeros are appended |
| Romfs.Dumper.DumpPadded | tools/genromfs/genromfs.c:311-318 | the data and zeros up to a multiple of 16 are appended |
| Romfs.Dumper.DumpHeader | tools/genromfs/genromfs.c:325-353 | the header of the node, its checksum fixed, is appended |
| Romfs.Dumper.DumpFile | tools/genromfs/genromfs.c:406-446 | the file's bytes are appended, however `read` cuts them up |
| Romfs.Dumper.DumpContents | tools/genromfs/genromfs.c:392-446 | the file, or the text of a symbolic link through the buffer, and its padding |
| Romfs.Dumper.DumpNode | tools/genromfs/genromfs.c:355-479 | padding, header, contents and the directory's own list |
| Romfs.Dumper.DumpList | tools/genromfs/genromfs.c:468-476 | the nodes of a list, in order |
| Romfs.Build | tools/genromfs/genromfs.c:481-507 | the file written by both passes is the volume that `RomfsVolume.VolumeIsRight` is about, and the directory can be read from it if and only if its first entry needs no padding |
| Fix16Sqrt.Sqrt | libyaul/math/fix16_sqrt.c:48-77 | the result is the integer square root if and only if, at each bit before the last, what the root cut off there leaves of the value is less than 2^31 times the bit; always below 2^30 |
| Fix16Sqrt.ExactRoot | libyaul/math/fix16_sqrt.c:48-77 | for the registers after 24 steps: exact if and only if no step before the last loses the remainder's highest bit |
| Fix16Sqrt.OverflowsExactly | libyaul/math/fix16_sqrt.c:60-74 | a step loses that bit if and only if the condition on the value fails |
| Fix16Sqrt.SmallRootsAreExact | libyaul/math/fix16_sqrt.c:48-77 | below 2^30 every root is exact |
| Fix16Sqrt.LargeRootIsNot | libyaul/math/fix16_sqrt.c:48-77 | a value that fails the condition, and whose result is not its root |

## Left out

- TlsfRun.Run: pools of exactly 2^30 bytes are not among its operations; they have a row under Findings.
- Tlsf.Allocator.AddPool: a pool of exactly 2^30 bytes is excluded, because the code then writes outside its table; `TlsfPool.AcceptedPool` says that this is the only such size.
- Tlsf.Allocator.Memalign: alignments are powers of two, as the code asks for.
- TlsfCheck.Check: a ghost list for each head says where the walk leads, because the code does not end on a cycle; a heap that passes need not be valid, because the words of used blocks are not looked at.
- Huffman.Compress: the input has fewer than 2^31 bytes, because the counts are C integers.
- RiceCoder.Compress: a block of 32-bit words that needs a parameter of 32 is excluded, because a shift by 32 is not defined; the bytes of the buffer are given as the values of the format.
- DmaQueue.Queue.RunAll: the runs enqueue only while a slot is free; `DmaQueue.Queue.Enqueue` says what happens otherwise, but not what later operations make of an overwritten slot.
- Romfs.Build: headers, padding and link texts fit the 4096 bytes of the buffer that the code uses for them, and the image has fewer than 2^31 bytes.
- Fix16Sqrt.Sqrt: negative values, which have no root.
- PrsDecoder.Decompress: streams that end early or copy from before the output, for which the code reads or writes out of bounds.
- LzDecoder.Uncompress: the same.
- HuffmanDecoder.Uncompress: streams that end within the description or the codes, and descriptions of more than 511 nodes, for which the code reads or writes out of bounds.
- `tlsf_remove_pool`, `tlsf_destroy` and the debugging walker.
- `strstr` and the other string functions, the run-length and Shannon-Fano coders of libbcl.
- The interrupt masks around the DMA queue, the DMA hardware, and `dma_queue_count_get`.
- Reading directories, matching patterns and parsing options in genromfs; a read that fails half way.
- Arithmetic beyond 32 bits in positions and lengths: bit positions and buffer lengths are unbounded numbers.
