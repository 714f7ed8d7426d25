# A model of the TPU runtime's core

This project models the parts of the Cvitek TPU runtime with the most intricate state and states, for
all inputs and all runs, what they are relied on for.

- **LZ4 block codec** (`Lz4*.dfy`). Command buffers are stored compressed and expanded at load into a
  buffer of exactly the original size. `Lz4Format` is an independent reference: a byte-at-a-time
  decoder, with lengths as the format means them, and the end-of-block restrictions of the public LZ4 Block Format description. `Lz4Block`
  has abstract blocks and their serialisation, `Lz4Copy` the copy routines with their deliberate
  over-writes, `Lz4Decoder` the decoder with its gotos as labels. `Lz4Search` and `Lz4Plan` say which
  block the encoder decides on, `Lz4Count` and `Lz4Encoder` are the encoder itself, `Lz4RoundTrip` the
  law that compressing and expanding is the identity.
- **Device memory pools** (`BestFit*.dfy`, `Buddy*.dfy`). The compiled-in best-fit free list and the
  conditionally compiled 4-ary buddy allocator, each as a class over an abstract state: a set of
  slots that tile the pool, and a tree of blocks.
- **MD5 and the model merge** (`Md5.dfy`, `ModelFile.dfy`, `ModelMerge.dfy`). The streamed hash
  against RFC 1321 for an arbitrary block function, and the file rewrite that relies on it.
- **Unpooling code generator** (`Unpool*.dfy`). The emitted instructions are run on a memory of
  strided tensors and compared with the nested-loop reference. The local-memory size and channel
  stride, which the kernel library provides, are parameters assumed monotone and large enough.
- **Task queue** (`TaskQueue.dfy`). The ring buffer, and the monitor protocol of producers, workers
  and waiters as a step relation over all interleavings, spurious wake-ups included.
- **Fixed-point arithmetic** (`Quant.dfy`). Rounding shift and high multiplication with explicit
  32-bit wrap-around, and the searches for multiplier and shift over the reals.

Where a promise turned out to be false of the code, the code is kept as it is and the exact condition
is proved.

- The LZ4 decoder adds up lengths in 32 bits and accepts malformed blocks with a longer length field
  (`DecodeExactIff`, `NarrowBelow16MiB`, `WrappedBlockAccepted`).
- In-bank allocation misses free ranges exactly in pools of more than two banks
  (`InBankCompleteIff`, `MissesIff`).
- A request that rounds to zero leaves an empty entry in the in-use table, and a later grant at the
  same address is lost (`StepKeepsInvIff`, `RangeLost`).
- The buddy pool lays out more than 4 GB with every group of blocks at address 0 (`RootsDescribed`,
  `FiveLargestRequests`).
- With a second thread that puts, a producer can be left asleep for good (`NeverStrandsIff`,
  `TwoBlockedFail`, `ProducerStranded`).
- MD5 updates run past their input exactly when `LoopFits(index, length)` fails, which takes
  inputs within 64 bytes of 2^32 (`ShortInputsFit`, `LongInputsOverrun`); section sizes pass through an `int` (`SectionMd5`, `Merge`)
  and merged offsets through 32 bits (`OffsetsExactIff`, `ThirdBufferMisread`).
- Merged models that use one name for two weight ranges read each other's weights
  (`NamesLeadHomeIff`).
- The unpooling generator misplaces blocks exactly when their 32-bit products wrap
  (`AllEmittedExactIff`, `SecondImageNeverWritten`).
- The rounding shift overflows (`DivideNearest`, `MultiplyAndShiftError`) and the saturating
  multiplication does not saturate (`HighMulNearest`).

`dafny verify dfyconfig.toml` checks the whole project.

## Model

| member | source | states |
|---|---|---|
| `Lz4RoundTrip.CompressThenDecompress` | tool/cvimodel_tool.cpp:1167-1172 | For every input and every capacity: compression succeeds exactly when the block the encoder decides on fits, its size never exceeds the capacity, and `LZ4_decompress_safe` into exactly the original size gives the identical bytes back; with `LZ4_compressBound` room it always fits |
| `Lz4RoundTrip.CompressedDecodes` | src/lz4/lz4_all.c:851-1240 | Whatever block the encoder emits obeys the end-of-block restrictions and decodes, byte at a time, to exactly its input |
| `Lz4Format.ExtensionBounded` | src/lz4/lz4_all.c:1707-1728 | A run of length bytes is worth less than 255 for each byte it takes |
| `Lz4Format.NarrowBelow16MiB` | src/lz4/lz4_all.c:1707-1728 | In every block of at most 16843010 bytes every length field the decoder meets is below 2^32 |
| `Lz4Format.DecodeExactIff` | src/lz4/lz4_all.c:1707-1728 | A block expanded with lengths added up in 32 bits is expanded as the format defines exactly when every length field is below 2^32 |
| `Lz4Format.WideElement` | src/lz4/lz4_all.c:1707-1728 | A literal length of 2^32 or more makes a block malformed, a match length only expands beyond 2^32 |
| `Lz4Format.ConformsNarrow` | src/lz4/lz4_all.c:212-220 | A conforming block that expands to less than 2^32 bytes has no such length field |
| `Lz4Decoder.WrappedBlockAccepted` | src/lz4/lz4_all.c:1707-1728 | A block of 16843026 bytes that the format makes malformed (2^32 + 15 literals announced) and the decoder accepts, with fifteen bytes of output, for every capacity from 15 on |
| `Lz4Decoder.ConformsAccepted` | src/lz4/lz4_all.c:1988-2139 | Every block within the end-of-block restrictions that fits is among the accepted ones |
| `Lz4Decoder.AcceptsExpands` | src/lz4/lz4_all.c:1790-2156 | Every accepted block expands, within the capacity |
| `Lz4Decoder.AdmittedStep` | src/lz4/lz4_all.c:1790-2156 | Over an admitted element both the expansion and the acceptance of the rest carry on |
| `Lz4Decoder.AcceptsIff` | src/lz4/lz4_all.c:1790-2156 | A block is accepted exactly when no element of it is the first one rejected |
| `Lz4Decoder.DecompressSafe` | src/lz4/lz4_all.c:1737-2176 | Terminates on every input with every access in bounds. Accepts exactly the blocks all of whose elements are admitted, a condition in which the fast loop, the shortcut and the copy strategies do not show. The output is at most the capacity and is the expansion with lengths added up in 32 bits; it is the expansion the format defines exactly when every length field is below 2^32. Every conforming block that fits is accepted with its exact length. A negative result names a position behind the token of the first element rejected |
| `Lz4Decoder.FastLoop` | src/lz4/lz4_all.c:1790-1925 | From the start of the block the fast loop, with its 32-byte over-writes, either rejects a block that is not accepted or hands over to the safe loop in a state that tracks the reference |
| `Lz4Decoder.FastLiterals` | src/lz4/lz4_all.c:1797-1846 | Literal part of a fast-loop round: the wide copy leaves exactly the literals, or the state is handed over untouched, or the block is malformed |
| `Lz4Decoder.FastMatch` | src/lz4/lz4_all.c:1848-1924 | Match part of a fast-loop round: the output is extended by the reference match and the over-write margin is kept, or control passes on with the match still pending |
| `Lz4Decoder.FastCopy` | src/lz4/lz4_all.c:1913-1923 | Both fast copy strategies (offset below 16, and 32-byte strides) extend the output by the reference match |
| `Lz4Decoder.SafeLoop` | src/lz4/lz4_all.c:1928-2156 | From any label in a tracking state the safe loop ends with an accepted block complete or with one that is not accepted |
| `Lz4Decoder.TokenStep` | src/lz4/lz4_all.c:1929-1983 | Reading a token, with or without the shortcut, keeps the state in step with the reference decoder |
| `Lz4Decoder.Shortcut` | src/lz4/lz4_all.c:1935-1974 | The two-stage shortcut copies 16 literals and 18 match bytes, checks nothing else, and yet the kept prefix is the reference output; what it leaves over still passes or fails the later checks as the acceptance condition says |
| `Lz4Decoder.ShortLiterals` | src/lz4/lz4_all.c:1947-1955 | Sixteen bytes copied on behalf of at most fourteen literals leave exactly the literals |
| `Lz4Decoder.ShortMatch` | src/lz4/lz4_all.c:1959-1969 | The 18-byte match copy for offsets of eight or more leaves the reference match in place |
| `Lz4Decoder.LiteralLengthStep` | src/lz4/lz4_all.c:1976-1983 | The literal length read is the one of the 32-bit reading, or the block is not accepted |
| `Lz4Decoder.LiteralStep` | src/lz4/lz4_all.c:1985-2056 | A literal run is copied and followed by its offset, or it is the last run and the accepted block is complete, or the block is not accepted |
| `Lz4Decoder.MatchLengthStep` | src/lz4/lz4_all.c:2058-2068 | The match length read is the one of the 32-bit reading, or the block is not accepted |
| `Lz4Decoder.MatchCopyStep` | src/lz4/lz4_all.c:2071-2151 | A match with a valid offset that leaves the last literals free is copied as in the reference; with any other match the block is not accepted |
| `Lz4Decoder.ReadVariableLength` | src/lz4/lz4_all.c:1706-1729 | The length returned is the 32-bit wrapped sum of the bytes read; which of the two errors is raised is decided exactly by the position against the limit |
| `Lz4Decoder.FullBytesNotZero` | src/lz4/lz4_all.c:1707-1728 | A wrapped sum of full length bytes is never zero |
| `Lz4Decoder.EmptyCapacity` | src/lz4/lz4_all.c:1781-1787 | Into an empty buffer the one-byte block 0 is the only conforming block, and it decodes to nothing |
| `Lz4Decoder.RejectLiterals` | src/lz4/lz4_all.c:1988-2036 | A literal run that fails the tests makes the block one that is not accepted |
| `Lz4Decoder.RejectPending` | src/lz4/lz4_all.c:2073-2139 | So does a match that fails the offset or last-literals test |
| `Lz4Decoder.RejectLength` | src/lz4/lz4_all.c:1851-1856 | So does a match length that ends too close to the end of the input |
| `Lz4Format.ConformsElement` | src/lz4/lz4_all.c:212-220 | A block within the end-of-block restrictions passes, element by element, every test the decoder makes |
| `Lz4Format.ConformsRoom` | src/lz4/lz4_all.c:212-220 | While output is still owed, a conforming block has a token and the last literals left |
| `Lz4Format.ConformsDecodes` | src/lz4/lz4_all.c:212-220 | A conforming block decodes, to exactly the promised length |
| `Lz4Format.CopyMatchFollows` | src/lz4/lz4_all.c:408-506 | Copying a match one byte at a time is the periodic repetition of the last `offset` bytes |
| `Lz4Format.FollowsIsCopyMatch` | src/lz4/lz4_all.c:408-506 | The periodic pattern determines the copy |
| `Lz4Format.ExtendPeriodic` | src/lz4/lz4_all.c:436-457 | Continuing a match from any distance that is a multiple of the offset continues the same pattern |
| `Lz4Format.ZeroOffset` | src/lz4/lz4_all.c:2122-2123 | Offset 0 stands for zero bytes |
| `Lz4Format.PlainSequence` | src/lz4/lz4_all.c:1930-2068 | In plain bytes: both short lengths in the token, the offset low byte first, and every byte of a match equal to the one `offset` before it |
| `Lz4Format.PlainLast` | src/lz4/lz4_all.c:1985-2046 | In plain bytes: the number of last literals in the high half of the token |
| `Lz4Format.PlainExtension` | src/lz4/lz4_all.c:1707-1728 | In plain bytes: a long length is 15, 255 for every full byte, and the first byte that is not full |
| `Lz4Copy.WildCopyInput` | src/lz4/lz4_all.c:406-415 | Copying whole strides from the input needs and writes exactly the rounded-up length; nothing before the destination and nothing beyond the last stride changes |
| `Lz4Copy.WildLength` | src/lz4/lz4_all.c:406-415 | The bytes a wild copy moves: at least one stride, less than one stride too many otherwise |
| `Lz4Copy.WildCopyBack` | src/lz4/lz4_all.c:459-470 | Copying whole strides inside the output repeats the byte at the given distance, without any overlapping memcpy |
| `Lz4Copy.WideDistance` | src/lz4/lz4_all.c:417-418 | After eight bytes the distance given by the two tables is at least eight and a multiple of the offset |
| `Lz4Copy.CopyFirst8` | src/lz4/lz4_all.c:2122-2135 | The first eight bytes of a match, for every offset, follow the match, and the new source is a multiple of the offset back |
| `Lz4Copy.CopyRest` | src/lz4/lz4_all.c:2146-2150 | The rest of the match, in words, completes the reference match |
| `Lz4Copy.CopyMatch18` | src/lz4/lz4_all.c:1962-1965 | The unconditional 18-byte copy is the reference match for offsets of eight or more |
| `Lz4Copy.CopyMatch32` | src/lz4/lz4_all.c:459-470 | The 32-byte-stride copy is the reference match for offsets of 16 or more |
| `Lz4Copy.CopyNearEnd` | src/lz4/lz4_all.c:2137-2146 | Near the end of the buffer words are copied while they fit and single bytes after that, never beyond the buffer |
| `Lz4Copy.CopyMatchSafe` | src/lz4/lz4_all.c:2120-2150 | The safe match copy is the reference match exactly when the last literals stay free, and reports failure exactly otherwise |
| `Lz4Copy.CopyMatchBase` | src/lz4/lz4_all.c:436-457 | The table-driven copy is the reference match for every offset |
| `Lz4Copy.CopyMatchUsingOffset` | src/lz4/lz4_all.c:472-506 | The pattern copy for offsets 1, 2 and 4, and the base copy for the others, are the reference match |
| `Lz4Copy.PatternWord` | src/lz4/lz4_all.c:482-494 | The eight-byte word is eight bytes of the match pattern |
| `Lz4Copy.StorePattern` | src/lz4/lz4_all.c:500-505 | Storing that word repeatedly is the reference match |
| `Lz4Block.SerializeDecodes` | src/lz4/lz4_all.c:851-1240 | The reference decoder inverts the serialisation of every legal block, and the serialisation conforms |
| `Lz4Block.ReadSequenceAt` | src/lz4/lz4_all.c:1022-1136 | A serialised sequence reads back with its literals, offset and match length wherever it stands |
| `Lz4Block.ReadLengthAt` | src/lz4/lz4_all.c:1033-1039 | Length bytes read back to the length, whatever its size |
| `Lz4Block.DecodeFrom` | src/lz4/lz4_all.c:928-1202 | From every sequence boundary of a legal block, decoding on gives the whole data within the restrictions |
| `Lz4Count.Count` | src/lz4/lz4_all.c:602-626 | The word-wise comparison returns exactly the byte-wise longest common run up to the limit |
| `Lz4Count.CountPiece` | src/lz4/lz4_all.c:622-624 | Each of the 4-, 2- and 1-byte tails halves the distance to the end of the run |
| `Lz4Count.FirstDifference` | src/lz4/lz4_all.c:513-547 | Two registers are equal exactly when their bytes are, and otherwise the trailing zeros of their exclusive or give the first differing byte |
| `Lz4Count.XorEqualLow` | src/lz4/lz4_all.c:513-547 | Equal low bits cancel in the exclusive or |
| `Lz4Count.XorDifferentLow` | src/lz4/lz4_all.c:513-547 | Different low bits leave a one among them |
| `Lz4Encoder.CompressFast` | src/lz4/lz4_all.c:1284-1376 | The block emitted is the one decided on by the search from input and acceleration alone; the result is its size exactly when that is at most the capacity, else 0. It is a legal block for exactly this input and within `LZ4_compressBound`. In particular n equal bytes give 11 + (n - 25) / 255 bytes for n of 25 or more, whatever the acceleration |
| `Lz4Encoder.BoundMeans` | src/lz4/lz4_all.c:674-674 | The bound is 14 bytes more than a legal block can take, and 0 above the largest input size |
| `Lz4Encoder.CompressGeneric` | src/lz4/lz4_all.c:1246-1281 | The same for any table type: the empty input is one byte, an oversized one is refused |
| `Lz4Encoder.CompressValidated` | src/lz4/lz4_all.c:851-1240 | From a zeroed table the planned block is written exactly when it fits, limited or not; 16-bit tables refuse inputs from 64 KB + 11 on |
| `Lz4Encoder.PutSequences` | src/lz4/lz4_all.c:923-1202 | The main loop emits exactly the sequences of the plan, or stops when one of them leaves no room for a token and the last literals; all writes are within the capacity |
| `Lz4Encoder.FindMatch` | src/lz4/lz4_all.c:954-1014 | A match is found exactly when some attempt in reach of the end finds a usable entry in the table; it is the first such attempt, and the table it leaves has every attempt up to that one registered |
| `Lz4Encoder.CatchUp` | src/lz4/lz4_all.c:1017-1019 | The match is extended backwards as far as the bytes agree and the anchor allows, at the same distance |
| `Lz4Encoder.PutLiterals` | src/lz4/lz4_all.c:1022-1046 | Succeeds exactly when unlimited or the bounds test passes; then token, length bytes and literals are written exactly, the write extends over the footprint and not beyond; a refusal writes nothing |
| `Lz4Encoder.WriteLiterals` | src/lz4/lz4_all.c:1033-1045 | The footprint is all the room needed, and all of it is written |
| `Lz4Encoder.LiteralCheckTight` | src/lz4/lz4_all.c:1024-1026 | The bounds test covers the footprint of PutLiterals and is reached exactly for the run lengths named |
| `Lz4Encoder.PutMatch` | src/lz4/lz4_all.c:1048-1140 | The match is the longest that keeps clear of the last literals; its offset and length are written exactly, exactly when room for a token and the last literals remains |
| `Lz4Encoder.PutMatchExtension` | src/lz4/lz4_all.c:1123-1134 | Speculative 4-byte stores leave exactly the extension bytes |
| `Lz4Encoder.PutMatchLength` | src/lz4/lz4_all.c:1123-1136 | The match nibble is added to the token without disturbing its literal half |
| `Lz4Encoder.MatchRun` | src/lz4/lz4_all.c:1048-1199 | A chain of adjacent matches emits the next sequences of the plan, keeps table entries below the current position and ends past every registered position; it fails only when the plan does not fit |
| `Lz4Encoder.TestNext` | src/lz4/lz4_all.c:1145-1196 | Two positions are registered, and another match is reported exactly when the entry looked up in between is usable |
| `Lz4Encoder.PutLastLiterals` | src/lz4/lz4_all.c:1204-1231 | The final literals are written exactly when they fit |
| `Lz4Encoder.PutIndex` | src/lz4/lz4_all.c:736-746 | Storing an index truncated to 16 bits loses nothing for the inputs it is used on |
| `Lz4Plan.MatchExpands` | src/lz4/lz4_all.c:1075-1095 | A run that repeats earlier input is what its match expands to |
| `Lz4Plan.AddSequence` | src/lz4/lz4_all.c:1022-1136 | One more sequence extends a legal prefix of the input to a longer one, at no more cost than the bound allows |
| `Lz4Block.SequenceCost` | include/lz4/lz4.h:171 | A sequence costs at most what it covers plus a byte per 255 literals |
| `Lz4Block.SequencesCost` | include/lz4/lz4.h:171 | Summed over a legal run of sequences, the cost is at most the data covered plus a byte per 255 |
| `Lz4Block.SerializedSize` | include/lz4/lz4.h:171 | However an encoder chooses its sequences, a legal block for n bytes has at most n + n/255 + 2 bytes |
| `Lz4Plan.FinishBlock` | src/lz4/lz4_all.c:1204-1239 | Sequences for the input up to the anchor and the last literals are together a legal block for exactly the input |
| `Lz4Search.PastFilled` | src/lz4/lz4_all.c:1106-1118 | Since matches are maximal the encoder ends past every position it has put into the table |
| `Lz4Plan.PlanEncodes` | src/lz4/lz4_all.c:851-1240 | What the search decides on are the sequences of a legal block that stands for the input |
| `Lz4Plan.SearchEncodes` | src/lz4/lz4_all.c:931-1202 | Whatever is found from a position on continues a legal encoding of the input before it |
| `Lz4Plan.PlannedUnique` | src/lz4/lz4_all.c:851-1240 | Input, table type and acceleration determine the block |
| `Lz4Plan.OverflowsMeans` | src/lz4/lz4_all.c:1024-1103 | Where one of the bounds tests refuses, the whole block would not have fitted |
| `Lz4Encoder.LiteralsOverflow` | src/lz4/lz4_all.c:1024-1028 | The room asked for before literals are written is room the block needs |
| `Lz4Plan.RunPlan` | src/lz4/lz4_all.c:923-1143 | Thirteen or more equal bytes become one literal, one match at distance 1 and five last literals |
| `Lz4Plan.RunCompressed` | src/lz4/lz4_all.c:851-1240 | The size of what equal bytes compress to |
| `Lz4Encoder.NextProbe` | src/lz4/lz4_all.c:956-967 | The step of the search is 1, then the acceleration, and one more after every 64 attempts |
| `Lz4Encoder.CandidateTest` | src/lz4/lz4_all.c:1002-1012 | The two tests of the source decide whether an entry is four equal bytes at a distance of at most 65535; in 16-bit tables the second one alone does |
| `Lz4Search.LongestUnique` | src/lz4/lz4_all.c:1094-1095 | The match length is determined |
| `Lz4Search.HashOfBytes` | src/lz4/lz4_all.c:698-722 | The hash is bits 19 to 31 of the product of the four bytes, or bits 28 to 39 of the product of the five bytes, at the position |
| `Lz4Search.Hash4Bits` | src/lz4/lz4_all.c:698-704 | Truncation and shift select the middle bits of the product |
| `Lz4Search.Hash5Bits` | src/lz4/lz4_all.c:706-716 | Shifting out three bytes first makes the hash depend on the low five alone |
| `BestFitPool.StepKeepsInv` | src/common/mmpool.cpp:669-789 | Every alloc, in-bank alloc and free keeps: free and in-use slots non-empty, disjoint, tiling the pool; the list coalesced; the counter exact. A granted range is new, inside the pool and, in-bank, within one bank |
| `BestFitPool.HistoryInv` | src/common/mmpool.cpp:669-789 | The invariant holds in every state of every history of calls |
| `BestFitPool.HistorySafe` | src/common/mmpool.cpp:710-743 | In every state of every history live allocations do not overlap and lie inside the pool |
| `BestFitPool.HistoryDrains` | src/common/mmpool.cpp:809-818 | Whenever everything has been freed, in whatever order, the state is the initial one |
| `BestFitPool.NextDetermined` | src/common/mmpool.cpp:669-789 | State and call determine the new state and the address returned: the first of the smallest slots |
| `BestFitPool.HistoryDetermined` | src/common/mmpool.cpp:669-789 | The same calls in the same order are answered with the same addresses |
| `BestFitPool.Drained` | src/common/mmpool.cpp:814-818 | With nothing in use the free list is the single slot that is the pool |
| `BestFitPool.NoSlotIffBlocked` | src/common/mmpool.cpp:682-696 | No slot suffices exactly when every range of the rounded size meets a live allocation |
| `BestFitPool.BestFitIsSmallestGap` | src/common/mmpool.cpp:682-696 | The slot carved is a maximal gap between allocations, and no sufficient gap of the pool is smaller |
| `BestFitPool.SlotsAreGaps` | src/common/mmpool.cpp:757-781 | The free list holds exactly the maximal gaps between live allocations |
| `BestFitPool.RunInSlot` | src/common/mmpool.cpp:757-781 | In a coalesced list every contiguous free run lies inside one slot |
| `BestFitPool.FreeIffNotUsed` | src/common/mmpool.cpp:669-789 | An address of the pool is in a free slot exactly when no live allocation holds it |
| `BestFitPool.TakeKeepsInv` | src/common/mmpool.cpp:697-706 | Carving from either end of a slot keeps the invariant |
| `BestFitPool.ReleaseKeepsInv` | src/common/mmpool.cpp:745-781 | Merging a returned slot with its neighbours keeps the invariant |
| `BestFitPool.JoinTiling` | src/common/mmpool.cpp:757-781 | The merged slot covers the same addresses, and the list is coalesced again |
| `BestFitPool.FindPrev` | src/common/mmpool.h:83-91 | The first slot that ends at the address, if any |
| `BestFitPool.FindNext` | src/common/mmpool.h:93-101 | The first slot that starts at the address, if any |
| `BestFitPool.RoundUpMeaning` | src/common/mmpool.cpp:717-717 | Rounding is the least sufficient multiple, except that sizes within one slot of 2^64 wrap to zero |
| `BestFitLimits.StepKeepsInvIff` | src/common/mmpool.cpp:710-915 | A call of any kind keeps the invariant exactly when its size does not round to zero, or nothing is free |
| `BestFitLimits.ZeroGrant` | src/common/mmpool.cpp:697-706 | A zero request, in a bank or not, is granted the front of a free slot: the table gains an empty entry there and the free list stays |
| `BestFitLimits.RangeLost` | src/common/mmpool.cpp:697-781 | A later request granted at that address is not recorded, and once the address is freed its range is neither free nor in use |
| `BestFitLimits.LosingRun` | src/common/mmpool.cpp:697-781 | Alloc(0), Alloc(4096), Free(0) on a fresh pool of any size above one slot is such a run |
| `BestFitPool.InBankMeaning` | src/common/mmpool.cpp:826-830 | The bank test says that first and last byte are in the same bank |
| `BestFitPool.BankRangeInSlot` | src/common/mmpool.cpp:832-852 | Exactly when a slot contains an in-bank range |
| `BestFitPool.BankRangeIff` | src/common/mmpool.cpp:832-852 | Exactly when the pool contains a free in-bank range, in terms of the free list |
| `BestFitPool.TwoBanksMissNothing` | src/common/mmpool.cpp:832-852 | In pools of at most two banks testing the two ends of each slot finds an in-bank range whenever there is one, in every state |
| `BestFitLimits.InBankCompleteIff` | src/common/mmpool.cpp:832-915 | For every pool size: no state of any history refuses an in-bank request while a free range inside one bank exists, exactly when the pool has at most two banks |
| `BestFitLimits.MissesIff` | src/common/mmpool.cpp:832-852 | State by state, a request is missed exactly when no end of a free slot fits and the first boundary inside some free slot does |
| `BestFitLimits.RefusedIff` | src/common/mmpool.cpp:832-852 | A request is refused exactly when no end of a free slot fits |
| `BestFitLimits.LongHistory` | src/common/mmpool.cpp:710-789 | Three requests and one free that leave the middle of any pool of two banks and two slots or more free across both ends of a bank |
| `BestFitLimits.MissesLarge` | src/common/mmpool.cpp:832-852 | After that history an 8 KB in-bank request is missed |
| `BestFitLimits.MissesSmall` | src/common/mmpool.cpp:832-852 | Between two banks and two slots above, a single request is enough for that |
| `BestFitMemPool.MemPool.constructor` | src/common/mmpool.cpp:791-807 | A fresh pool is the initial state and satisfies the invariant |
| `BestFitMemPool.MemPool.FindBest` | src/common/mmpool.cpp:678-696 | The index of the first of the smallest sufficient slots, or none exists |
| `BestFitMemPool.MemPool.Allocate` | src/common/mmpool.cpp:710-743 | Is a step of the pool model, keeps the invariant, and fails exactly when every range of the rounded size meets a live allocation; the insufficient-size branch is never taken |
| `BestFitMemPool.MemPool.Deallocate` | src/common/mmpool.cpp:745-789 | Is a step of the pool model and keeps the invariant |
| `BestFitMemPool.MemPool.PutBack` | src/common/mmpool.cpp:757-781 | The four merge cases compute the merged list |
| `BestFitMemPool.MemPool.FindInBank` | src/common/mmpool.cpp:832-852 | The first slot one of whose ends keeps within a bank, the front preferred |
| `BestFitMemPool.MemPool.AllocateInBank` | src/common/mmpool.cpp:832-915 | Is a step of the pool model, keeps the invariant, fails exactly when no slot has an in-bank end, and a granted range lies in one bank |
| `BestFitMemPool.MemPool.Destroy` | src/common/mmpool.cpp:809-824 | The sanity assertions hold whenever nothing is in use |
| `BestFitMemPool.AllocOutcome` | src/common/mmpool.cpp:710-743 | Either a best fit is granted or every range is blocked |
| `BestFitMemPool.InBankOutcome` | src/common/mmpool.cpp:832-915 | Either the first in-bank end is granted or there is none |
| `BuddyTree.LiveApart` | src/common/mmpool.cpp:554-614 | Two live blocks, of whatever sizes, never overlap |
| `BuddyTree.GrabKeepsInv` | src/common/mmpool.cpp:381-421 | Handing out a free block keeps the tree: each block is exactly one of free, live, or split with one quad-block below it |
| `BuddyTree.DropKeepsInv` | src/common/mmpool.cpp:239-266 | So does giving one back |
| `BuddyTree.DivideKeepsInv` | src/common/mmpool.cpp:468-485 | So does splitting a block into four |
| `BuddyTree.UniteKeepsInv` | src/common/mmpool.cpp:268-330 | So does reassembling four free children, and their parent was not free before |
| `BuddyTree.DivideFits` | src/common/mmpool.cpp:468-485 | A live block is not split yet, and splitting it leaves at most one quad-block per block of the level above |
| `BuddyTree.BlocksCount` | src/common/mmpool.cpp:113-167 | No level has more blocks than four times the entries its array was given |
| `BuddyTree.BlocksSpaced` | src/common/mmpool.cpp:113-167 | Blocks of a level are at least a block size apart |
| `BuddyTree.BlocksAligned` | src/common/mmpool.cpp:177-224 | Every block of a level is at an aligned position of the pool |
| `BuddyTree.SplitHasLive` | src/common/mmpool.cpp:268-330 | After defragmentation every split block has a live one inside |
| `BuddyTree.DescendToLive` | src/common/mmpool.cpp:423-511 | Walking down from a block towards an aligned position ends at a live block when the level is exhausted |
| `BuddyTree.ExhaustedBlocks` | src/common/mmpool.cpp:423-511 | Once a level is exhausted every aligned block position of its size meets a live block |
| `BuddyPool.ClassFits` | src/common/mmpool.cpp:226-237 | The size class is the smallest block that holds the request |
| `BuddyPool.ComputeBlockSetIndex` | src/common/mmpool.cpp:226-237 | The index loop computes the size class |
| `BuddyPool.DivideStep` | src/common/mmpool.cpp:468-485 | Whenever a larger block was obtained the first unused entry exists, and storing the quad-block there keeps arrays and tree in step |
| `BuddyPool.UniteStep` | src/common/mmpool.cpp:289-319 | Setting the parent's bit and moving the last entry into the hole keeps arrays and tree in step |
| `BuddyPool.GrabStep` | src/common/mmpool.cpp:381-421 | Clearing one status bit keeps arrays and tree in step |
| `BuddyPool.DropStep` | src/common/mmpool.cpp:239-266 | Setting one status bit keeps arrays and tree in step |
| `BuddyPool.NoneFull` | src/common/mmpool.cpp:268-330 | If no entry of a level has all bits set, no split block of the level above has only free children |
| `BuddyPool.InitRoots` | src/common/mmpool.cpp:177-224 | The address step is a product of C ints, 2^30 * 4, which wraps to 0: every group of 1 GB blocks gets address 0 |
| `BuddyPool.RootsDescribed` | src/common/mmpool.cpp:177-224 | The array then describes the pool's 1 GB blocks exactly when there are at most four |
| `BuddyPool.FiveLargestRequests` | src/common/mmpool.cpp:177-224 | In every larger pool the first five 1 GB blocks handed out are 0, 1 GB, 2 GB, 3 GB and 0 again |
| `BuddyPool.InitLevels` | src/common/mmpool.cpp:113-224 | A fresh pool is in step with the tree in which all 1 GB blocks are free exactly when it has at most 4 GB |
| `BuddyLevel.GetExisting` | src/common/mmpool.cpp:381-421 | A free block of the level is taken if there is one; otherwise the index of the first unused entry is returned |
| `BuddyLevel.ScanLevel` | src/common/mmpool.cpp:381-421 | On any array: the first entry with a bit set gives up its lowest one, and an unused entry ends the search |
| `BuddyLevel.FreeExisting` | src/common/mmpool.cpp:239-266 | The block's quad-block is found and its bit set, all addresses unchanged |
| `BuddyLevel.FindChild` | src/common/mmpool.cpp:256-264 | The child at the address, or none |
| `BuddyLevel.AppendQuad` | src/common/mmpool.cpp:468-485 | A new quad-block goes into the first unused entry, three children free; the used entries stay a prefix |
| `BuddyLevel.RemoveQuad` | src/common/mmpool.cpp:299-319 | Replacing an entry by the last used one deletes exactly that quad-block; the used entries stay a prefix |
| `BuddyLevel.FullEntry` | src/common/mmpool.cpp:287-289 | All four bits are set exactly when all four children are free |
| `BuddyMemPool.BuddyMemPool.constructor` | src/common/mmpool.cpp:616-638 | A fresh pool of one to four 1 GB blocks is valid, with nothing live |
| `BuddyMemPool.BuddyMemPool.Alloc` | src/common/mmpool.cpp:554-588 | Fails exactly when every aligned block of the size class meets a live block, counting all free space fragmented below; otherwise one aligned block clear of all live ones becomes live; the pool stays valid. As long as the class or a larger one has a free block, it is the first free block of the nearest such level that is granted, split level by level, and no other level changes |
| `BuddyMemPool.BuddyMemPool.Free` | src/common/mmpool.cpp:590-614 | The block of a live address becomes free and nothing else changes; the pool stays valid |
| `BuddyMemPool.BuddyMemPool.GetBlock` | src/common/mmpool.cpp:423-511 | A block of the level becomes live, from the nearest level with a free block, before anything is reassembled; or the level is exhausted after defragmentation |
| `BuddyMemPool.BuddyMemPool.Reclaim` | src/common/mmpool.cpp:489-506 | Once nothing larger is free: reassembling the smaller blocks frees one of this level, or the level is exhausted |
| `BuddyMemPool.Nearest` | src/common/mmpool.cpp:430-487 | The nearest level up that has a free block, or none has |
| `BuddyMemPool.BuddyMemPool.TryLevel` | src/common/mmpool.cpp:381-421 | An existing free block becomes live, or the level has none and nothing changes |
| `BuddyMemPool.BuddyMemPool.SplitInto` | src/common/mmpool.cpp:468-485 | A larger live block is replaced by its first child, the other three free |
| `BuddyMemPool.BuddyMemPool.Defrag` | src/common/mmpool.cpp:268-330 | No level below the requested one keeps a quad-block with four free children; live blocks are untouched |
| `BuddyMemPool.BuddyMemPool.DefragLevel` | src/common/mmpool.cpp:277-328 | One level, restarting at every replaced entry, ends without a full quad-block |
| `BuddyMemPool.BuddyMemPool.ReassembleEntry` | src/common/mmpool.cpp:289-321 | One full entry is removed, its parent becomes free, earlier entries stay |
| `BuddyMemPool.BuddyMemPool.LastUsed` | src/common/mmpool.cpp:307-312 | The walk ends at the last used entry |
| `BuddyMemPool.BuddyMemPool.FindEmptySlot` | src/common/mmpool.cpp:524-534 | An unused slot is found whenever fewer than the maximum are used |
| `BuddyMemPool.BuddyMemPool.FindSlot` | src/common/mmpool.cpp:514-522 | The slot of a recorded address is found |
| `BuddyMemPool.FailureMeansBlocked` | src/common/mmpool.cpp:423-511 | Exhaustion after the call means that every aligned block was blocked before it |
| `BuddyMemPool.SuccessWasClear` | src/common/mmpool.cpp:554-588 | A block that became live was aligned and met no live block |
| `BuddyMemPool.LiveOnce` | src/common/mmpool.cpp:590-614 | An address is live on one level only, so freeing by address is unambiguous |
| `Md5.HashPieces` | tool/md5.cpp:234-298 | For every way of splitting a message into updates below 2^32 - 64 bytes the digest is the RFC 1321 digest of the concatenation |
| `Md5.DigestBytes` | tool/md5.cpp:133-141 | Byte 4j + i of the digest is byte i, from the low end, of word j of the folded chain |
| `Md5.InitialBytes` | tool/md5.cpp:111-114 | The initial chain is the sixteen bytes written out in section 3.3 of RFC 1321 |
| `Md5.PaddedBytes` | tool/md5.cpp:268-288 | Byte by byte: the message, 0x80, the fewest zeros that give whole blocks, and the bit length low byte first |
| `Md5.SectionMd5` | tool/cvimodel_tool.cpp:265-287 | Hashing a section through a 1024-byte buffer is hashing its first `size` bytes at once, for every non-negative int; a negative one, from a size of 2 GiB or more, asks for a read of negative length |
| `Md5.Hasher.constructor` | tool/md5.cpp:104-118 | A fresh hasher has absorbed the empty message |
| `Md5.Hasher.Update` | tool/md5.cpp:234-262 | The message absorbed grows by the input; state, buffer and two-word bit counter stay those of the message |
| `Md5.Hasher.AbsorbInput` | tool/md5.cpp:246-261 | Buffer fill, whole blocks and rest absorb exactly the input |
| `Md5.Hasher.AbsorbBlocks` | tool/md5.cpp:253-255 | The block loop absorbs all whole blocks |
| `Md5.Hasher.Finalize` | tool/md5.cpp:268-298 | The digest is the encoded fold of the block function over the message padded as in sections 3.1 and 3.2; counter and buffer are cleared, and a second call changes nothing |
| `Md5.Hasher.AppendPadding` | tool/md5.cpp:276-285 | The message absorbed becomes the padded message, the bit count taken before padding |
| `Md5.CounterAdvances` | tool/md5.cpp:239-241 | The carry test and the high-word shift add 8 times the length modulo 2^64 |
| `Md5.CounterIndex` | tool/md5.cpp:236-236 | The low counter word gives the buffered length |
| `Md5.ShortInputsFit` | tool/md5.cpp:253-253 | Inputs below 2^32 - 64 bytes never wrap the loop test |
| `Md5.LongInputsOverrun` | tool/md5.cpp:253-253 | The loop test, taken modulo 2^32, succeeds at the remainder of the input too, and so runs past its end, exactly when `LoopFits` fails |
| `Md5.AbsorbAppend` | tool/md5.cpp:234-262 | Absorbing is compositional over whole blocks |
| `Md5.LeBytesJoin` | tool/md5.cpp:133-141 | Two little-endian words side by side are one double word |
| `ModelMerge.Merge` | tool/cvimodel_tool.cpp:876-889 | The merge goes through exactly when command and DMA buffers are not mixed, one weight section extends all others, every uncompressed section is below 2 GiB and every buffer section is used by a routine. The file is then made of all sections of all models in order, without the weights of all but an owner of the longest, and every recorded offset is the true place exactly when these sections before the last add up to less than 2^32. In that case every program is kept with each TPU routine resolving to its original command bytes, and the kept weights extend every model's. (For one-program models and weights without hash collision.) A refusal names its cause: the number of programs, mixed buffer kinds, weights that differ, a section of 2 GiB or more, an unused buffer section |
| `ModelMerge.RangesKept` | tool/cvimodel_tool.cpp:768-874 | With one weight section per model every weight range reads the same bytes after the merge |
| `ModelMerge.CompareWeights` | tool/cvimodel_tool.cpp:816-835 | The chained comparison passes exactly when each section's first bytes hash like the whole section before it and every size is an int |
| `ModelMerge.HashFirst` | tool/cvimodel_tool.cpp:265-287 | A prefix passed on as an int is hashed exactly when its length is one |
| `ModelMerge.OffsetsExactIff` | tool/cvimodel_tool.cpp:862-869 | Every section is recorded at its true place exactly when the kept sections before the last add up to less than 2^32 |
| `ModelMerge.RecordOne` | tool/cvimodel_tool.cpp:862-869 | Appending a kept section keeps the file a faithful record of what is kept, offsets modulo 2^32 |
| `ModelMerge.LastIsOwner` | tool/cvimodel_tool.cpp:800-816 | The last section in ascending order belongs to an owner of the longest weights, however ties are sorted |
| `ModelMergeLimits.WrappingModelsMerge` | tool/cvimodel_tool.cpp:768-874 | Two models with compressed buffers of 2^32 - 1, 1 and 5 bytes that the tool merges |
| `ModelMergeLimits.ThirdBufferWraps` | tool/cvimodel_tool.cpp:862-869 | Their merge records the five-byte buffer at offset 0 |
| `ModelMergeLimits.ThirdBufferMisread` | tool/cvimodel_tool.cpp:862-869 | Read from there it is another model's bytes |
| `ModelMergeLimits.NamesLeadHomeIff` | src/common/model.cpp:398-402 | With the loader's last-entry-wins map, every weight of every model is found by name at its own range exactly when no name is listed with two ranges |
| `ModelMergeLimits.SharedNameStrays` | src/common/program.cpp:512-521 | Two models with one name for two ranges, one of which is no longer found |
| `ModelMerge.HashChainIff` | tool/cvimodel_tool.cpp:816-835 | In ascending order, without collisions, comparing neighbours decides whether all sections are prefixes of the last |
| `ModelMerge.ComparisonMeans` | tool/cvimodel_tool.cpp:800-835 | However ties are sorted, the comparison passes exactly when one weight section extends all others, and then the last one does |
| `ModelMerge.ShiftSizes` | tool/cvimodel_tool.cpp:805-814 | Sizes become ints, and every one but the first moves up one place |
| `ModelMerge.SortBySize` | tool/cvimodel_tool.cpp:800-803 | Some ascending order of the same sections |
| `ModelMerge.CollectWeights` | tool/cvimodel_tool.cpp:777-798 | Exactly the weight sections are collected, and mixing of buffer kinds is detected exactly |
| `ModelMerge.CopyModel` | tool/cvimodel_tool.cpp:840-870 | A model's sections are appended at the running 32-bit offset; while the kept sections before the last stay below 2^32 bytes every earlier and new name still resolves to its own bytes. Fails exactly when a buffer section is not named by a routine or an uncompressed section is 2 GiB or more |
| `ModelMerge.CopySection` | tool/cvimodel_tool.cpp:840-869 | The same for one section |
| `ModelMerge.CopySections` | tool/cvimodel_tool.cpp:838-873 | After all models every renamed section of every model resolves to its original bytes and the weights are the candidate's |
| `ModelMerge.AppendResolves` | tool/cvimodel_tool.cpp:850-870 | Appending a renamed section changes what its own name resolves to and nothing else |
| `ModelMerge.AppendWeights` | tool/cvimodel_tool.cpp:850-870 | Appending a section keeps the weights those of the candidate |
| `ModelMerge.CloneRoutines` | tool/cvimodel_tool.cpp:674-730 | Every routine is copied with its buffer renamed, and the name map has exactly the used names |
| `ModelMerge.ClonePrograms` | tool/cvimodel_tool.cpp:732-760 | Program by program, in order, each renamed with the index of its own model, and one name map for each |
| `ModelMerge.CloneWeightMap` | tool/cvimodel_tool.cpp:599-626 | Every weight is listed, once per name, offset and size, in order of first appearance, and nothing else |
| `ModelMerge.FirstOfEachMeans` | tool/cvimodel_tool.cpp:604-622 | Each entry kept is the first of its key, every key is kept, and none twice |
| `ModelMerge.RoutinesResolve` | tool/cvimodel_tool.cpp:689-713 | Every renamed routine resolves to what the original resolved to |
| `ModelFile.RenameInjective` | tool/cvimodel_tool.cpp:691-702 | Renamed sections never collide, whatever the original names |
| `ModelFile.DecimalInjective` | tool/cvimodel_tool.cpp:691-702 | Decimal numerals are unambiguous |
| `ModelFile.ResolveGrow` | src/common/model.cpp:212-249 | Appending bytes to a file leaves what names resolve to unchanged |
| `ModelFile.WeightsGrow` | src/common/model.cpp:228-232 | Appending bytes to a file leaves its weight sections unchanged |
| `TaskQueue.RingQueue.constructor` | include/runtime/taskpool.hpp:39-39 | A fresh ring is empty |
| `TaskQueue.RingQueue.TryPut` | include/runtime/taskpool.hpp:43-52 | Appends to the queue unless it holds capacity - 1 tasks, and then changes nothing |
| `TaskQueue.RingQueue.TryGet` | include/runtime/taskpool.hpp:54-66 | Takes the oldest task, and tells whether the ring was full; on an empty ring changes nothing |
| `TaskQueue.ViewPush` | include/runtime/taskpool.hpp:48-50 | Writing the tail cell appends to the wrapped view |
| `TaskQueue.ViewPop` | include/runtime/taskpool.hpp:62-64 | Moving the head drops the oldest element of the wrapped view |
| `TaskQueue.RunSafe` | include/runtime/taskpool.hpp:43-66 | In every state of every interleaving: fewer than capacity tasks queued; tasks taken followed by tasks queued are the tasks put, in order; a getter that sleeps beside a queued task has an awakened one beside it; a waiter that sleeps on a finished task has the notification still ahead |
| `TaskQueue.RunInv` | src/common/taskpool.cpp:45-63 | All protocol invariants hold in every state of every interleaving |
| `TaskQueue.FifoStep` | include/runtime/taskpool.hpp:43-66 | Every step of any thread keeps the order and the bound |
| `TaskQueue.GetterStep` | include/runtime/taskpool.hpp:46-57 | Every step keeps: while a getter sleeps, at least as many awakened getters as queued tasks |
| `TaskQueue.HolderStep` | src/common/taskpool.cpp:59-63 | Every step keeps the pool mutex with exactly the thread between test and sleep |
| `TaskQueue.WaiterStep` | src/common/taskpool.cpp:45-63 | Every step keeps: a waiter on a finished task has its notification ahead, although the return code is written without the lock |
| `TaskQueue.WaiterCanWake` | src/common/taskpool.cpp:54-63 | From any such state at most two steps wake the waiter |
| `TaskQueue.WaitReturns` | src/common/taskpool.cpp:59-63 | In every run waitTask returns only for a task that was handed out and whose return code a worker has written |
| `TaskQueue.WaiterCanReturn` | src/common/taskpool.cpp:54-63 | And from every state in which the return code is written each waiter can return within four steps |
| `TaskQueue.DoneIff` | src/common/taskpool.cpp:51-53 | In every run a task counts as finished exactly when a worker that ran it has written its return code |
| `TaskQueue.RunTasks` | src/common/taskpool.cpp:45-57 | In every run a finished or running task was handed out, and a task handed out is running or finished |
| `TaskQueue.TaskStep` | src/common/taskpool.cpp:45-57 | Each step keeps that |
| `TaskQueue.ProducerStep` | include/runtime/taskpool.hpp:45-61 | With at most one blocked producer, a step leaves a producer asleep only beside a full ring |
| `TaskQueue.RunProducers` | include/runtime/taskpool.hpp:45-61 | So it is in every state of every run with never more than one blocked producer |
| `TaskQueue.TwoBlockedFail` | include/runtime/taskpool.hpp:59-61 | With two blocked producers the next get always leaves one asleep beside a free cell |
| `TaskQueue.NeverStrandsIff` | include/runtime/taskpool.hpp:43-66 | For every ring of three cells or more and three threads or more: no run leaves a producer asleep beside a free cell exactly when at most one thread ever puts |
| `TaskQueue.ProducerStranded` | include/runtime/taskpool.hpp:43-66 | With two putting threads and a worker among any number of threads a run ends with a producer asleep beside an empty ring, the worker asleep and nobody about to notify |
| `Quant.DivideNearest` | custom_op/example/QuantHelper.h:12-28 | The nearest integer, ties away from zero, exactly when adding half the divisor stays within 32 bits |
| `Quant.HighMulNearest` | custom_op/example/QuantHelper.h:30-37 | The nearest integer to a*b / 2^31, ties up, exactly when not both factors are the least 32-bit integer |
| `Quant.MultiplyAndShiftError` | custom_op/example/QuantHelper.h:75-82 | Multiply and shift together are within 1/2 + 1/2^(s+1) of the exact quotient exactly when the rounded product leaves room for half the divisor |
| `Quant.InRangeIff` | custom_op/example/QuantHelper.h:12-37 | That condition, stated on the arguments |
| `Quant.QuantizeMultiplier` | custom_op/example/QuantHelper.h:92-125 | The multiplier has 30 bits and is within 1/2 of the scaled real; it is zero only for zero or an exponent below -31 |
| `Quant.Round` | custom_op/example/QuantHelper.h:101-101 | The nearest integer, and the one further from zero if there are two |
| `Quant.ScaleAccumulator` | custom_op/example/QuantHelper.h:75-170 | From real scale to integer result: within 1/2 + 1/2^s of accumulator times scale exactly when scale and accumulator are in range, which includes every scale flushed to zero, where the result is 0 and within 1/2 |
| `Quant.ErrorPerUnit` | custom_op/example/QuantHelper.h:75-82 | In range the result is accurate |
| `Quant.ErrorBeyond` | custom_op/example/QuantHelper.h:75-82 | Out of range it is not: a negative result for a large positive product |
| `Quant.QdmError` | custom_op/example/QuantHelper.h:75-82 | With a multiplier within 1/2 of the scaled real, the error is at most 1/2 + 1/2^s, in units of 2^-(31+s) |
| `Quant.Flushed` | custom_op/example/QuantHelper.h:118-123 | A scale with exponent below -31 times any 32-bit accumulator is at most 1/2 |
| `Quant.FindRShift` | custom_op/example/QuantHelper.h:172-188 | A shift is found exactly when scale * 2^63 reaches the limit; it is then the one shift between half the limit and the limit, and the multiplier is the floor of the scaled value |
| `Quant.FindRShiftInt8` | custom_op/example/QuantHelper.h:142-188 | With the default limit the multiplier is in [63, 126] and scale - m/2^r is in [0, 2^-r) |
| `Quant.FoundShiftUnique` | custom_op/example/QuantHelper.h:173-180 | Only one shift qualifies |
| `UnpoolReference.GenerateAndCompare` | custom_op/example/UnPoolingOp.cpp:203-303 | For every accepted shape whose sizes and addresses stay within 32 bits and every memory holding the operands: running the emitted program leaves the tensor that the nested-loop reference computes, when products fit in a signed byte. Without wrap-around there is a program exactly when the buffers of one row of 32 channels fit |
| `UnpoolReference.Agree` | custom_op/example/UnPoolingOp.cpp:203-303 | A program with that effect leaves exactly the reference output |
| `UnpoolReference.Unpooling` | custom_op/example/UnPoolingOp.h:48-100 | The two loop nests compute: each input element spread over a scale-by-scale square, times the mask, cropped |
| `UnpoolReference.Nest` | custom_op/example/UnPoolingOp.h:75-99 | A row-major loop nest assigns every element its value |
| `UnpoolReference.IndexIsOffset` | custom_op/example/UnPoolingOp.h:81-82 | The reference's index and the generator's strides address the same element |
| `UnpoolCodegen.Codegen` | custom_op/example/UnPoolingOp.cpp:203-303 | When no size wraps, a program is emitted exactly when the four buffers of 32 channels of one row end within local memory. It is, wrap-around or not, what is emitted for all tiles of the pair of steps the search settles on, each once and in the order of the loops; and when the size of that pair and the addresses of its blocks stay within 32 bits, then for every initial memory it leaves the reference value in every output element, writes each exactly once, no other global byte, and no local byte beyond the lane, by instructions whose operands match in shape |
| `UnpoolCodegen.SearchSteps` | custom_op/example/UnPoolingOp.cpp:234-256 | The first pair, in the order tried, whose 32-bit size passes; zero height exactly when none does. The pair fits local memory exactly when its size is below 2^32 |
| `UnpoolCodegen.SizeMonotone` | custom_op/example/UnPoolingOp.cpp:243-251 | A smaller tile never needs more local memory |
| `UnpoolCodegen.EmitRows` | custom_op/example/UnPoolingOp.cpp:276-301 | The tiles of one block of channels complete all output rows of these channels, when sizes and addresses stay within 32 bits |
| `UnpoolCodegen.AddTile` | custom_op/example/UnPoolingOp.cpp:279-300 | One more tile adds exactly its own output elements to what is done |
| `UnpoolCodegen.TilesOk` | custom_op/example/UnPoolingOp.cpp:278-280 | Every clipped tile is inside the input and starts inside the output |
| `UnpoolCodegen.TileSize` | custom_op/example/UnPoolingOp.cpp:278-283 | A clipped tile fits where the whole step fits |
| `UnpoolCodegen.AddEmitted` | custom_op/example/UnPoolingOp.cpp:279-300 | One more tile as emitted adds exactly its own output elements to what is done |
| `UnpoolCodegen.EmitImage` | custom_op/example/UnPoolingOp.cpp:276-302 | The blocks of channels of one image complete that image |
| `UnpoolCodegen.EmitAll` | custom_op/example/UnPoolingOp.cpp:276-301 | The three loops emit every tile once, in order, and compute the reference when sizes and addresses stay within 32 bits |
| `UnpoolCodegen.EmitOne` | custom_op/example/UnPoolingOp.cpp:280-300 | The next tile in the order of the loops is the only one up to the next position |
| `UnpoolTile.TileEffect` | custom_op/example/UnPoolingOp.cpp:283-299 | A tile gives its output elements the reference values, in terms of the memory before it, and leaves the others |
| `UnpoolTile.TileKeeps` | custom_op/example/UnPoolingOp.cpp:283-299 | A tile changes no global byte outside the output |
| `UnpoolTile.TileWrites` | custom_op/example/UnPoolingOp.cpp:283-299 | Global memory is written by the store alone |
| `UnpoolTile.TileFits` | custom_op/example/UnPoolingOp.cpp:283-299 | Local memory is written below the computed size only |
| `UnpoolTile.TileMatched` | custom_op/example/UnPoolingOp.cpp:104-198 | In every instruction of a tile, the cropped store included, the operands have the shape of the destination |
| `UnpoolTile.TileComputes` | custom_op/example/UnPoolingOp.cpp:118-178 | After the two loads, two copies and the multiplication the output buffer holds the spread input times the mask |
| `UnpoolTile.BuffersDisjoint` | custom_op/example/UnPoolingOp.cpp:73-101 | The four buffers of a tile share no cell and end below the computed size |
| `UnpoolTile.SizeIsEnd` | custom_op/example/UnPoolingOp.cpp:73-101 | The size the search computes is exactly where the last buffer ends, the buffers lying one right after another |
| `UnpoolTile.DenseEnd` | custom_op/example/UnPoolingOp.cpp:236-251 | Without alignment that is 1 + s + 2s^2 times the input part, for scale s |
| `UnpoolTile.Widened` | custom_op/example/UnPoolingOp.cpp:122-144 | The first copy, through the interleaved view, repeats every column |
| `UnpoolTile.Heightened` | custom_op/example/UnPoolingOp.cpp:146-166 | The second copy repeats every row |
| `UnpoolTile.Multiplied` | custom_op/example/UnPoolingOp.cpp:168-177 | The multiplication is element-wise |
| `UnpoolTile.ByColumnInjective` | custom_op/example/UnPoolingOp.cpp:130-138 | The interleaved view of columns names every cell of the buffer once and no other |
| `UnpoolTile.ByRowInjective` | custom_op/example/UnPoolingOp.cpp:154-160 | So does the interleaved view of rows |
| `UnpoolTile.StoreTouches` | custom_op/example/UnPoolingOp.cpp:180-201 | The cropped store writes exactly the output elements of its tile |
| `UnpoolTile.OutCellUnique` | custom_op/example/UnPoolingOp.cpp:268-271 | Different output elements have different addresses |
| `UnpoolTile.BlockPlacedIff` | custom_op/example/UnPoolingOp.cpp:103-116 | A block is addressed correctly exactly when its strides and each of its three products fit 32 bits |
| `UnpoolTile.FitsWithin` | custom_op/example/UnPoolingOp.cpp:260-271 | Where a block of the mask fits, the corresponding blocks of the smaller tensors do |
| `UnpoolTile.EmittedExactIff` | custom_op/example/UnPoolingOp.cpp:283-299 | A tile is emitted as intended exactly when its block of the mask fits |
| `UnpoolCodegen.AllEmittedExactIff` | custom_op/example/UnPoolingOp.cpp:260-301 | For every operation and every pair of steps: all tiles are emitted as intended exactly when the last block of channels of the last image of the mask is addressed within 32 bits |
| `UnpoolCodegen.SecondImageMisplaced` | custom_op/example/UnPoolingOp.cpp:260-299 | Two images of 64 channels of 8192 by 8192: every tile of the second image is emitted as the one of the first |
| `UnpoolCodegen.SecondImageNeverWritten` | custom_op/example/UnPoolingOp.cpp:260-299 | So no element of the second output image is ever written |
| `UnpoolCodegen.ChosenUnique` | custom_op/example/UnPoolingOp.cpp:234-256 | The pair of steps is determined by the operation |
| `UnpoolMachine.LocalInjective` | custom_op/example/UnPoolingOp.cpp:78-99 | Elements of a local tensor have different cells |
| `UnpoolMachine.DenseSound` | custom_op/example/UnPoolingOp.cpp:78-99 | Unaligned byte tensors meet the assumptions made on local sizes and strides |
| `UnpoolMachine.LocalWithin` | custom_op/example/UnPoolingOp.cpp:78-99 | A local tensor stays within its size |
| `UnpoolMachine.NarrowIsNearest` | custom_op/example/UnPoolingOp.cpp:168-177 | A product is held as the nearest value of a signed byte |
| `UnpoolMachine.RowsIsLeast` | custom_op/example/UnPoolingOp.cpp:236-248 | Channels are dealt out to 32 lanes in the fewest rows that hold them |

## Left out

- LZ4 dictionaries, streaming, partial decoding, `fillOutput`, pointer-typed tables, `LZ4_decompress_fast`: not used by the runtime. The instance modelled is the 64-bit little-endian one with the fast loop compiled in. Input and capacity of the decoder are below 2^31 bytes, as its `int` sizes demand; pointers are indices, so the pointer-overflow tests of the decoder are always false.
- Offset 0, which the format forbids, is decoded to zero bytes, as the copy routines do.
- Pool locking, debug printing, the bump allocator `MEM_POOL_NAIVE`, and the `assert(0)` after a failed allocation (modelled as returning the invalid address).
- The best-fit pool takes total sizes below the invalid address; the buddy pool takes 1 to 4 GB (the exact range in which it is laid out correctly), requests of 1 byte to 1 GB, and fewer than `MEM_POOL_SLOT_NUM` live blocks. Quad-block arrays, the slot table and the free list are sequence fields that the methods reassign; status bits are sets of child numbers.
- The 64 numbered MD5 steps, which are a parameter, and the hexadecimal rendering. `Md5.Hasher.Update` takes the input as a sequence and requires the length to keep the 32-bit loop test from wrapping. What a read of negative length or past the end of the input does is undefined and not modelled.
- Merging: compressed weight sections; several programs per model (the tool's own assertion rejects a total that differs from the number of models, which is modelled; the preservation result is for one program each); flatbuffer encoding, tensor maps and file headers. Which of several models with equally long weights is the owner is left to the sort. A merge with no weight section at all indexes an empty vector in the source and is excluded. That the hash tells apart the prefixes of the weight sections at hand is a hypothesis.
- ModelFile.ResolveGrow: buffers are looked up in file order; the loader takes DMA buffers before command buffers, which makes no difference because the tool refuses to mix them.
- The task's return code is reduced to whether it has been written; pool start, shutdown and null tasks are not modelled. Lock, test and sleep or update on the queue mutex is one step.
- `Quant` works over the reals where the source uses doubles; `std::frexp` is given by its specification; conversion of the accumulator from float and saturation to eight bits are not modelled. Signed 32-bit overflow, undefined in the source's language, is taken to wrap.
- UnpoolCodegen.Codegen: when 32-bit sizes or products wrap (`SearchSteps` and `AllEmittedExactIff` say exactly when) some tile is not the intended one; the program is still exactly the emitted tiles, but what it computes is not characterised in general.
- Unpooling: the kernel library's instructions are modelled by their element-wise meaning; products outside a signed byte saturate in the model and the comparison with the reference excludes them. Fewer than 32 channels leave the source's size variable uninitialised and are excluded, as is an output whose last input row would be cropped away entirely; the output must not lie over the operands.
- TaskQueue.ProducerStep: stated for at most one blocked producer; `NeverStrandsIff` is the exact condition over whole runs.
- Neuron cache maintenance and `Program::run`, flatbuffers parsing, file streams, encryption, Python bindings, samples, floating-point operators and the other custom operators: I/O, foreign calls, or easy members.
