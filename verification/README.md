# Verified models of a systems course archive

A Dafny model of the algorithmic cores of an archive of operating-system and network course projects: the Pintos
kernel (64-bit division, file storage, kernel heap, threads and timer, archive headers, sorting), the homework heap
and linked-list sort, and two simulated network machines (a path-vector router and an address translator). Each core
is a set of independent modules:

- `Division`: 64-bit division from a 64-by-32 divide.
- `HeapLayout`, `HeapRequests`, `HeapAllocator`: the `sbrk` heap with splitting and coalescing, as steps on a block
  list, what a request achieves, and linked headers in memory that take those steps.
- `PathVector`, `PathVectorNetwork`, `PathVectorProgress`, `PathVectorSessions`: one router, and a network of them over
  links that lose, repeat and reorder frames: what its tables never hold, how routes and withdrawals travel, and how
  sessions come up and stay up; compare sections 5.1.2, 8.2.2 and 9.1.2 of RFC 4271.
- `UpdateCodec`, `UpdateWire`: the UPDATE message format.
- `BitWords`, `Bitmaps`, `BufferCache`, `InodeLayout`, `InodeFiles`: the bitmap packed into words, the write-back clock
  cache, and files over both.
- `StaleSectors`, `SharedDevice`: files that grow into sectors still cached, and two files on one device.
- `StableMerge`, `ListSort`: the in-place merge sort of a doubly linked list.
- `ArenaLayout`, `ArenaSafety`, `ArenaUndo`, `ArenaBytes`, `ArenaRuns`, `KernelHeap`: size-class arenas over the page
  bitmap.
- `Scheduling`, `SchedulingLists`, `SchedulingLocks`, `SchedulingSignals`, `SchedulingSleep`, `SchedulingOrder`:
  semaphores, locks, condition variables and sleep on one processor, as a step system in which sections with
  interrupts off are atomic, and the order in which all of them are served.
- `Checksum`, `AddressTranslation`, `TranslationHistory`: the Internet checksum (RFC 1071) and the translator, as tables
  and against the bare history of events (compare sections 4.1 and 5 of RFC 4787).
- `Octal`, `Ustar`: octal fields and ustar headers (POSIX pax, "ustar Interchange Format").
- `HeapSort`: heapsort and binary search.
- `Prelude`: what several of these share.

Where the code changes state in place, a class or an array method is proved to take the steps of a specification on
values, and the properties are proved of that specification. Some properties do not hold everywhere; the lemmas whose
names end in `Iff` give the exact conditions: the 32-bit remainders, the quotient INT64_MIN / -1, the heap request that
makes an unsigned comparison wrap, a sector zeroed behind a stale cache cell, an allocation size that wraps when its
header is added, the address translated after 2^32 others, the checksum of an all-zero buffer.

## Model

| member | source | states |
|---|---|---|
| Division.Nlz | PintOS/src/lib/arithmetic.c:41-73 | the five-step search returns the number of leading zero bits of any nonzero word |
| Division.LeadingZerosNormalise | PintOS/src/lib/arithmetic.c:121-123 | shifting left by that number sets the top bit and loses none |
| Division.ShortDivision | PintOS/src/lib/arithmetic.c:80-112 | for divisors of 32 bits no partial quotient overflows `divl` and the two digits recombine to the quotient |
| Division.EstimateOffByAtMostOne | PintOS/src/lib/arithmetic.c:115-124 | for every larger divisor `divl` never faults, the shifted estimate is the quotient or one more, and `n - (q - 1) * d` does not wrap and tells which |
| Division.LongDivision | PintOS/src/lib/arithmetic.c:113-126 | the corrected estimate is exactly the quotient |
| Division.UDiv64Exact | PintOS/src/lib/arithmetic.c:77-127 | for all 64-bit operands the result is floor(n/d); it faults exactly for d = 0 |
| Division.UMod64Truncates | PintOS/src/lib/arithmetic.c:131-135 | the result is the true remainder cut to 32 bits |
| Division.UMod64FaithfulIff | PintOS/src/lib/arithmetic.c:131-135 | no remainder is lost for a divisor if and only if it is at most 2^32 |
| Division.SDiv64TruncatesIff | PintOS/src/lib/arithmetic.c:139-146 | the quotient truncates toward zero if and only if the pair is not INT64_MIN, -1 |
| Division.TruncatedRemainderCompletes | PintOS/src/lib/arithmetic.c:148-154 | the truncated remainder has the sign of n, is below d in magnitude and completes the quotient |
| Division.SMod64Truncates | PintOS/src/lib/arithmetic.c:150-154 | the result is the truncated remainder cut to 32 bits, also where the quotient overflows |
| Division.SMod64FaithfulIff | PintOS/src/lib/arithmetic.c:150-154 | no remainder is lost for a divisor if and only if its magnitude is at most 2^31 |
| HeapLayout.MallocKeepsInv | operating-system/hw3/mm_alloc.c:19-78 | every request leaves blocks address-ordered, disjoint, below the break, and no two neighbours free |
| HeapLayout.MallocEffect | operating-system/hw3/mm_alloc.c:19-78 | success adds exactly one zeroed live block and changes no other live byte; any other answer changes nothing (`HeapRequests.MallocSucceedsIff` says which answer comes when) |
| HeapLayout.MallocFaultsIff | operating-system/hw3/mm_alloc.c:63-68 | the new block runs past the break if and only if nothing fits and the request exceeds the break address, where `sbrk(0) - size - BLOCK_SIZE` wraps |
| HeapLayout.FaultingRequest | operating-system/hw3/mm_alloc.c:63-68 | a heap of one block and a request that runs past its break |
| HeapAllocator.WrappedTest | operating-system/hw3/mm_alloc.c:63-66 | what the unsigned comparison decides, with and without the wrap |
| HeapLayout.FreeKeepsInv | operating-system/hw3/mm_alloc.c:102-132 | freeing keeps the layout and leaves no two free neighbours, in all four neighbour cases |
| HeapLayout.FreeEffect | operating-system/hw3/mm_alloc.c:102-132 | exactly the freed block leaves the live set; all other live blocks keep address, size and bytes |
| HeapLayout.ReallocKeepsInv | operating-system/hw3/mm_alloc.c:80-100 | resizing keeps the layout on every path, including the ones that fail |
| HeapLayout.ReallocEffect | operating-system/hw3/mm_alloc.c:80-100 | success replaces the block by one that starts with its first min(old, new) bytes; all other live bytes are unchanged |
| HeapLayout.LiveDisjoint | operating-system/hw3/mm_alloc.c:19-132 | two live blocks never share a byte |
| HeapLayout.StepSafe | operating-system/hw3/mm_alloc.c:19-132 | one call keeps the invariant and every live block but its own |
| HeapLayout.RunSafe | operating-system/hw3/mm_alloc.c:19-132 | over every run, a block that is live and not named by a call stays live with the same bytes |
| HeapRequests.MallocSucceedsIff | operating-system/hw3/mm_alloc.c:19-78 | a request succeeds if and only if it is not 0 and some free block is large enough, or the new block fits below the limit and, on a heap with blocks, the request does not exceed the break |
| HeapRequests.MallocAddress | operating-system/hw3/mm_alloc.c:39-76 | the address is the payload of the lowest fitting block, else one header past the last block or the break |
| HeapRequests.MallocBlocks | operating-system/hw3/mm_alloc.c:43-76 | the fitting block is cut into the used part and, if a header fits, a free rest up to its old end, or one block is added at the top and the break raised to cover it; no other block changes |
| HeapRequests.ReleaseShape | operating-system/hw3/mm_alloc.c:111-131 | one free block takes the place of the released one and of its free neighbours, gaps included |
| HeapRequests.FreeRecovers | operating-system/hw3/mm_alloc.c:102-132 | afterwards a free block covers all of the freed space; the other blocks are as before but for the free ones it covers |
| HeapRequests.FreeIgnoresIff | operating-system/hw3/mm_alloc.c:102-110 | freeing does nothing if and only if no live block has that address |
| HeapRequests.FreeThenMalloc | operating-system/hw3/mm_alloc.c:19-132 | a request that fitted a freed block succeeds after the free |
| HeapRequests.FreeUndoesMallocIff | operating-system/hw3/mm_alloc.c:39-132 | a request served from a free block and then freed restores the blocks if and only if the block was used up or its rest had room for a header |
| HeapRequests.LiveAfterIff | operating-system/hw3/mm_alloc.c:80-98 | the block at an address is live once the allocation is made if and only if it was, or the allocation took it |
| HeapRequests.ReallocSucceedsIff | operating-system/hw3/mm_alloc.c:80-100 | resizing succeeds if and only if the request would and the pointer is NULL or such a block, and then hands out the address of the request |
| HeapRequests.ReallocLeaksIff | operating-system/hw3/mm_alloc.c:86-100 | a failed resize loses a block if and only if there was room for it and no block has the address |
| HeapAllocator.Allocator.constructor | operating-system/hw3/mm_alloc.c:14-14 | the heap starts empty |
| HeapAllocator.Allocator.Sbrk | operating-system/hw3/mm_alloc.c:26-26 | the break moves by the increment or not at all |
| HeapAllocator.Allocator.Search | operating-system/hw3/mm_alloc.c:39-61 | the loop finds the first free block that fits, or the last block |
| HeapAllocator.Allocator.TakeBlock | operating-system/hw3/mm_alloc.c:43-57 | the header updates, with or without a split, keep mutual links and give the specified layout |
| HeapAllocator.Allocator.AppendBlock | operating-system/hw3/mm_alloc.c:68-76 | the new last block is linked both ways and zeroed |
| HeapAllocator.Allocator.FirstBlock | operating-system/hw3/mm_alloc.c:24-37 | the first block starts at the old break, or nothing changes |
| HeapAllocator.Allocator.Extend | operating-system/hw3/mm_alloc.c:63-76 | moving the break and appending is the specified step, so it succeeds exactly as `HeapRequests.MallocSucceedsIff` says |
| HeapAllocator.Allocator.Malloc | operating-system/hw3/mm_alloc.c:19-78 | the linked headers in memory take exactly the specified step, answer included, and stay mutually linked |
| HeapAllocator.Allocator.FindHead | operating-system/hw3/mm_alloc.c:134-144 | the header of a known payload address is found, and nothing outside the heap is |
| HeapAllocator.Allocator.Free | operating-system/hw3/mm_alloc.c:102-132 | the linked headers take exactly the specified step |
| HeapAllocator.Allocator.ReleaseBlock | operating-system/hw3/mm_alloc.c:111-131 | marking and fusing give the specified layout |
| HeapAllocator.Allocator.FuseNeighbours | operating-system/hw3/mm_alloc.c:112-131 | each of the cases relinks to the merged list |
| HeapAllocator.Allocator.FuseWithPrevious | operating-system/hw3/mm_alloc.c:112-123 | fusing backwards, and then forwards, relinks to the merged list |
| HeapAllocator.Allocator.Absorb | operating-system/hw3/mm_alloc.c:113-116 | one fusion relinks both neighbours and adds up the extent |
| HeapAllocator.Allocator.Realloc | operating-system/hw3/mm_alloc.c:80-100 | the linked headers and bytes take exactly the specified step |
| HeapAllocator.Allocator.Move | operating-system/hw3/mm_alloc.c:90-98 | copy and release, or undo, as specified |
| PathVector.ReceiveKeepsInv | computer-networks/PA3/user/sm.cpp:200-269 | handshake flags and timers match the session state after every frame |
| PathVector.TickKeepsInv | computer-networks/PA3/user/sm.cpp:143-199 | the same after every tick, and a session loses exactly one tick of its hold time |
| PathVector.SilentStep | computer-networks/PA3/user/sm.cpp:143-269 | no event of the machine but a frame or a tick on an interface touches its open session, and none opens one |
| PathVector.SilentRun | computer-networks/PA3/user/sm.cpp:143-269 | over every run of the machine without a frame on an interface, its session has lost the ticks and nothing else, or is down |
| PathVector.SilentNeighbourDropped | computer-networks/PA3/user/sm.cpp:143-199 | in every run of the machine with a silent neighbour the session lives exactly as long as its hold timer, at most 240 ticks |
| PathVector.StaysDown | computer-networks/PA3/user/sm.cpp:143-199 | a dropped session does not come back without a frame, in every run of the machine |
| PathVector.Router.DetectLoop | computer-networks/PA3/user/sm.cpp:883-889 | true exactly if the own AS number is on the path |
| PathVector.Router.DetectThief | computer-networks/PA3/user/sm.cpp:891-901 | true exactly if a stored path to the same prefix has another origin |
| PathVector.Router.IsInArchive | computer-networks/PA3/user/sm.cpp:903-921 | hop counting finds exactly the stored duplicates |
| PathVector.Router.HandleAdvertisement | computer-networks/PA3/user/sm.cpp:742-765 | every stored path stays in place; every route that avoids the own AS and contradicts no origin stored at its turn is stored behind the own AS; every new path is such a route with this interface, relation and priority |
| PathVector.LearnKeepsOld | computer-networks/PA3/user/sm.cpp:742-765 | whatever arrives, stored paths keep their places |
| PathVector.Learnt | computer-networks/PA3/user/sm.cpp:742-765 | a route that is acceptable at its turn is in the table afterwards |
| PathVector.LearntOnly | computer-networks/PA3/user/sm.cpp:712-765 | every path added is the own AS before a received route, with the interface and relation it came from and priority 100, 90 or 80 |
| PathVector.AllLearnt | computer-networks/PA3/user/sm.cpp:742-765 | routes that avoid the own AS and agree with the table and with each other on origins are all learnt |
| PathVector.ForgetIff | computer-networks/PA3/user/sm.cpp:873-881 | withdrawing drops every path to the address with a nonzero mask, and no other |
| PathVector.ForgetAllIff | computer-networks/PA3/user/sm.cpp:687-697 | so does a list of withdrawals |
| PathVector.Router.EmptyTrash | computer-networks/PA3/user/sm.cpp:873-881 | the paths to the prefix go and the others stay in order |
| PathVectorNetwork.LearnKeepsTable | computer-networks/PA3/user/sm.cpp:742-765 | learning one admissible route keeps every path simple and every prefix to one origin |
| PathVectorNetwork.ForgetKeepsTable | computer-networks/PA3/user/sm.cpp:687-710 | withdrawing keeps the table sound |
| PathVector.ExportableIff | computer-networks/PA3/user/sm.cpp:936-965 | a route is sent if and only if it is the route of a stored path that came in on this interface, or the neighbour is a customer, or it is a peer or provider and the path is not from another of its kind |
| PathVector.ExportableNext | computer-networks/PA3/user/sm.cpp:936-965 | they are sent in the order of the table |
| PathVector.Router.GetAdmissibleRoutes | computer-networks/PA3/user/sm.cpp:936-965 | the loop selects exactly these |
| PathVectorNetwork.ExportableGood | computer-networks/PA3/user/sm.cpp:936-965 | so the routes sent from a sound table are sound |
| PathVectorNetwork.ForgetPicks | computer-networks/PA3/user/sm.cpp:873-881 | withdrawing keeps the remaining paths, in order |
| PathVectorNetwork.MachineStepGood | computer-networks/PA3/user/sm.cpp:200-269 | table and sent frames stay sound in every event of one machine |
| PathVectorNetwork.StepSessions | computer-networks/PA3/user/sm.cpp:200-269 | KEEPALIVE is sent only for an accepted OPEN, and only KEEPALIVE establishes |
| PathVectorNetwork.StepKeepsInv | computer-networks/PA3/user/sm.cpp:143-269 | every enabled step of any machine, with loss, repetition and reordering, keeps the network invariant |
| PathVectorNetwork.InitConsistentIff | computer-networks/PA3/user/sm.cpp:106-115 | the initial table is free of duplicates if and only if no asset is listed twice |
| PathVectorNetwork.InitInv | computer-networks/PA3/user/sm.cpp:53-117 | the initial network satisfies it |
| PathVectorNetwork.RunInv | computer-networks/PA3/user/sm.cpp:53-269 | every state of every run satisfies it |
| PathVectorNetwork.TablesAlwaysSound | computer-networks/PA3/user/sm.cpp:712-765 | in every run every stored path is a simple path of linked ASes from its holder to a claimant, with no duplicates and one origin per prefix |
| PathVectorNetwork.AdvertisementsAlwaysSound | computer-networks/PA3/user/sm.cpp:605-664 | in every run every route ever sent is such a path from its sender |
| PathVectorNetwork.EstablishedMeansAccepted | computer-networks/PA3/user/sm.cpp:143-269 | an established end had sent an OPEN that its neighbour accepted |
| PathVectorNetwork.NetFades | computer-networks/PA3/user/sm.cpp:143-269 | over every run of the network, a session without frames has lost the ticks and nothing else, or is down |
| PathVectorNetwork.SilentNeighbourAlwaysDropped | computer-networks/PA3/user/sm.cpp:143-199 | in every run of the network a session whose neighbour is not heard from lives exactly as long as its hold timer, at most 240 ticks |
| PathVectorNetwork.PathOfMachines | computer-networks/PA3/user/sm.cpp:883-889 | with distinct AS numbers such a path visits distinct, pairwise linked machines |
| PathVectorProgress.DeliveredRouteLearnt | computer-networks/PA3/user/sm.cpp:252-257 | a route delivered over an established session, acceptable at its turn, is then in the table of the receiver |
| PathVectorProgress.AdvertisementSent | computer-networks/PA3/user/sm.cpp:605-664 | advertising sends every established neighbour its selection, and nobody anything else |
| PathVectorProgress.OriginsAgree | computer-networks/PA3/user/sm.cpp:605-664 | the routes of one advertisement agree on the origin of each prefix |
| PathVectorProgress.NeighbourLearns | computer-networks/PA3/user/sm.cpp:605-765 | after one machine advertises and the message arrives, every path it may pass on that avoids the receiver and contradicts no origin there is in the table of the receiver |
| PathVectorProgress.WithdrawalSent | computer-networks/PA3/user/sm.cpp:565-604 | withdrawing drops the paths from the own table and tells every established neighbour, and only those |
| PathVectorProgress.WithdrawalArrives | computer-networks/PA3/user/sm.cpp:687-710 | on arrival the paths are dropped from the table, all others stay, and the message goes on to every other interface |
| PathVectorSessions.RunSyn | computer-networks/PA3/user/sm.cpp:143-269 | in every run, an end that counts on a SYN-ACK has sent a SYN |
| PathVectorSessions.HandshakeCompletes | computer-networks/PA3/user/sm.cpp:200-269 | two linked ends that are down can exchange frames until both are established with full hold timers |
| PathVectorSessions.SessionsCanOpen | computer-networks/PA3/user/sm.cpp:143-269 | so it is in every state of every run |
| PathVectorSessions.SynAgainIff | computer-networks/PA3/user/sm.cpp:163-196 | with a silent neighbour, an end that is down sends a SYN when its attempt ends, every 61 ticks after that, and at no other tick |
| PathVectorSessions.UpStep | computer-networks/PA3/user/sm.cpp:143-269 | an established session changes only by its own ticks and by KEEPALIVE and UPDATE, which fill the hold timer |
| PathVectorSessions.StaysUp | computer-networks/PA3/user/sm.cpp:143-269 | in every run of the machine, a session whose neighbour is heard at least once in 240 ticks stays established |
| UpdateCodec.UpdateRoundTrip | computer-networks/PA3/user/sm.cpp:605-685 | decoding an encoded UPDATE recovers withdrawn prefixes and routes, each path with its own prefix, in order |
| UpdateCodec.AnnouncedRoundTrip | computer-networks/PA3/user/sm.cpp:605-664 | the same for the announced part |
| UpdateCodec.RoutesRoundTrip | computer-networks/PA3/user/sm.cpp:712-742 | the same for paths and prefixes after the count |
| UpdateCodec.PathsRoundTrip | computer-networks/PA3/user/sm.cpp:712-742 | AS paths of any lengths come back whole |
| UpdateCodec.PrefixesRoundTrip | computer-networks/PA3/user/sm.cpp:687-710 | prefixes and masks come back in order |
| UpdateCodec.PathAttributeLength | computer-networks/PA3/user/sm.cpp:605-664 | the summed length is the length of the encoded paths |
| UpdateWire.WireLayout | computer-networks/PA3/user/sm.cpp:605-664 | every field of the message is at its offset, in network byte order: lengths, prefixes, the number of paths, each path with its length, and their prefixes |
| UpdateWire.TwoBytes | computer-networks/PA3/user/sm.cpp:638-639 | a 16-bit field has its high byte first |
| UpdateWire.FourBytes | computer-networks/PA3/user/sm.cpp:655-656 | so has a 32-bit field |
| UpdateWire.PathAtPlace | computer-networks/PA3/user/sm.cpp:641-650 | each path starts where the lengths of those before it add up to |
| UpdateCodec.PutPath | computer-networks/PA3/user/sm.cpp:605-664 | one path attribute is written as encoded, other bytes kept |
| UpdateCodec.BuildUpdate | computer-networks/PA3/user/sm.cpp:605-664 | the buffer built in place holds exactly the encoding |
| UpdateCodec.ParsePrefixes | computer-networks/PA3/user/sm.cpp:687-710 | the offset loop reads what the decoder reads |
| UpdateCodec.ParseHops | computer-networks/PA3/user/sm.cpp:712-742 | so does the hop loop |
| UpdateCodec.ParseRoutes | computer-networks/PA3/user/sm.cpp:712-742 | so does the whole advertisement |
| UpdateCodec.ParseUpdate | computer-networks/PA3/user/sm.cpp:665-685 | so does the whole message |
| BitWords.UpdatedBit | PintOS/src/lib/kernel/bitmap.c:156-179 | a masked set or clear changes one bit of a word and no other |
| Bitmaps.UnpackUpdate | PintOS/src/lib/kernel/bitmap.c:145-153 | the same seen through the words |
| Bitmaps.FillUndone | PintOS/src/lib/kernel/bitmap.c:217-228 | clearing a run that was set from clear restores the bits |
| Bitmaps.Bitmap.constructor | PintOS/src/lib/kernel/bitmap.c:78-94 | all bits start false |
| Bitmaps.Bitmap.Set | PintOS/src/lib/kernel/bitmap.c:144-153 | one bit changes |
| Bitmaps.Bitmap.Test | PintOS/src/lib/kernel/bitmap.c:197-203 | the bit is read |
| Bitmaps.Bitmap.SetMultiple | PintOS/src/lib/kernel/bitmap.c:217-228 | exactly the run changes |
| Bitmaps.Bitmap.Contains | PintOS/src/lib/kernel/bitmap.c:250-263 | false exactly if the run is uniformly the other value |
| Bitmaps.Bitmap.Scan | PintOS/src/lib/kernel/bitmap.c:295-310 | the first run of the value at or after the start, or none exists |
| Bitmaps.Bitmap.ScanAndFlip | PintOS/src/lib/kernel/bitmap.c:319-326 | that run and nothing else is flipped |
| BufferCache.TouchKeepsLogical | PintOS/src/filesys/buffer-cache.c:112-127 | bookkeeping changes no reader's view |
| BufferCache.WriteBackKeepsLogical | PintOS/src/filesys/buffer-cache.c:29-40 | writing a dirty cell back changes no view |
| BufferCache.DropKeepsLogical | PintOS/src/filesys/buffer-cache.c:29-40 | dropping a clean cell changes no view |
| BufferCache.LoadKeepsLogical | PintOS/src/filesys/buffer-cache.c:65-88 | loading an uncached sector changes no view |
| BufferCache.ReplaceKeepsLogical | PintOS/src/filesys/buffer-cache.c:65-88 | replacing a cell after write-back changes no view |
| BufferCache.StoreChangesOne | PintOS/src/filesys/buffer-cache.c:121-127 | a write changes exactly one sector of the view |
| BufferCache.RawWriteSeenIff | PintOS/src/filesys/inode.c:496-503 | a device write behind the cache is seen if and only if the sector is not cached or its cached copy has the same bytes |
| BufferCache.SweepOn | PintOS/src/filesys/buffer-cache.c:91-109 | a cell that the hand passes could not be taken at once, and loses its access bit if it is unused |
| BufferCache.SweepStops | PintOS/src/filesys/buffer-cache.c:91-109 | within two rounds the hand meets a cell it can take, if some cell is invalid or unused |
| BufferCache.SweepChooses | PintOS/src/filesys/buffer-cache.c:91-109 | it takes the first cell ahead that is invalid, or unused and not recently accessed; if there is none, the first unused one |
| BufferCache.Cache.constructor | PintOS/src/filesys/buffer-cache.c:14-26 | the empty cache reads as the device |
| BufferCache.Cache.Search | PintOS/src/filesys/buffer-cache.c:48-62 | finds the cell of a sector exactly if it is resident, and counts a hit or a miss accordingly |
| BufferCache.Cache.Evict | PintOS/src/filesys/buffer-cache.c:91-109 | stops within two sweeps whenever some cell is invalid or unused, at the cell that the second-chance rule chooses, and clears exactly the access bits of unused cells on the way |
| BufferCache.Cache.Fetch | PintOS/src/filesys/buffer-cache.c:65-88 | the sector is resident and in use, and no view changes; a hit leaves device, hand and resident set alone, and a miss takes the chosen cell |
| BufferCache.Cache.Replace | PintOS/src/filesys/buffer-cache.c:69-82 | the missing sector takes the place of the chosen one, which is written back, and no view changes |
| BufferCache.Cache.Read | PintOS/src/filesys/buffer-cache.c:112-118 | returns what a plain sector array would, and a hit does not touch the device |
| BufferCache.Cache.Write | PintOS/src/filesys/buffer-cache.c:121-127 | changes what a plain sector array would, and a hit does not touch the device |
| BufferCache.Cache.Flush | PintOS/src/filesys/buffer-cache.c:29-40 | afterwards the device equals the view |
| BufferCache.RawWriteView | PintOS/src/filesys/inode.c:503-503 | a device write changes the view of an uncached sector, and no view if the sector is cached |
| BufferCache.Cache.RawWrite | PintOS/src/filesys/inode.c:503-503 | the same of the device and the cache, whatever is cached |
| InodeLayout.BlockRoundTrip | PintOS/src/filesys/inode.c:491-515 | a stored index block reads back as its pointers |
| InodeLayout.SectorOfIsData | PintOS/src/filesys/inode.c:89-113 | direct and single-indirect address arithmetic finds the sector of every position |
| InodeLayout.PatchFlat | PintOS/src/filesys/inode.c:316-362 | patching one sector splices the flat file at one place |
| InodeLayout.PatchTail | PintOS/src/filesys/inode.c:316-362 | a chunk write keeps the zeros past the end |
| InodeLayout.MapDirect | PintOS/src/filesys/inode.c:554-565 | one more direct sector extends the map |
| InodeLayout.MapIndirect | PintOS/src/filesys/inode.c:491-515 | a filled index block extends the map and disturbs no earlier entry |
| InodeLayout.ExtendsTrans | PintOS/src/filesys/inode.c:467-489 | successive growths are a growth |
| InodeLayout.GrownContents | PintOS/src/filesys/inode.c:467-489 | a grown file reads as the old one followed by zeros |
| InodeLayout.GrowthsAcquire | PintOS/src/filesys/inode.c:467-515 | any number of growths marks exactly the sectors of the file, all distinct and free before |
| InodeLayout.FreeMapRestored | PintOS/src/filesys/inode.c:391-433 | releasing a file restores the free map of the time before it existed, however it grew |
| InodeFiles.IndexCountOfLength | PintOS/src/filesys/inode.c:391-433 | the number of index blocks computed from the length is the number in use |
| InodeFiles.Inode.FreeMapAllocate | PintOS/src/filesys/free-map.c:27-41 | the first unmarked sector, now marked, or none exactly if all are marked |
| InodeFiles.Inode.Allocate | PintOS/src/filesys/inode.c:496-502 | the same where the code ignores the result |
| InodeFiles.Inode.AllocateZeroed | PintOS/src/filesys/inode.c:559-560 | and zero on the device |
| InodeFiles.Inode.AddDirect | PintOS/src/filesys/inode.c:554-565 | one round of the loop extends the file map |
| InodeFiles.Inode.MapAlloc | PintOS/src/filesys/inode.c:554-565 | direct pointers are filled until full or done |
| InodeFiles.Inode.OpenIndexBlock | PintOS/src/filesys/inode.c:491-500 | a fresh or the partly filled index block |
| InodeFiles.Inode.FillBlock | PintOS/src/filesys/inode.c:500-508 | new zeroed sectors are entered in order, earlier entries kept |
| InodeFiles.Inode.ArbitraryBlock | PintOS/src/filesys/inode.c:494-494 | a new index block starts with arbitrary bytes |
| InodeFiles.Inode.FillIndexBlock | PintOS/src/filesys/inode.c:491-508 | one index block is opened, filled and stored, and the file is mapped again |
| InodeFiles.Inode.GrowIndirectBlock | PintOS/src/filesys/inode.c:491-515 | the file map is extended by one index block's worth at most |
| InodeFiles.Inode.Grow | PintOS/src/filesys/inode.c:467-489 | the file is extended to the new length on the device, whatever is cached, with zeroed data sectors, and the rank of each free sector before the call decides what it becomes |
| InodeFiles.LowAcquired | PintOS/src/filesys/free-map.c:27-41 | first fit takes the lowest free sectors, as many as are needed |
| InodeFiles.RankShift | PintOS/src/filesys/free-map.c:27-41 | a sector still free has lost exactly the sectors taken from below it |
| InodeFiles.FirstFitTrans | PintOS/src/filesys/inode.c:467-489 | over successive growths, the rank of a free sector before the first decides which data sector or index block it becomes |
| InodeFiles.IndirectFit | PintOS/src/filesys/inode.c:491-515 | an index block takes the lowest free sector, and its data sectors the next ones in order |
| InodeFiles.ViewExtends | PintOS/src/filesys/inode.c:467-489 | growth into uncached sectors looks to readers as it does to the device |
| InodeFiles.Inode.ByteToSector | PintOS/src/filesys/inode.c:89-113 | the sector that holds a position |
| InodeFiles.Inode.ReadAt | PintOS/src/filesys/inode.c:269-308 | returns exactly the requested slice of the flat file, cut at its end |
| InodeFiles.Inode.WriteAt | PintOS/src/filesys/inode.c:315-362 | the file becomes its old contents zero-extended to the offset with the bytes spliced in; other sectors keep their contents |
| InodeFiles.Inode.Lengthen | PintOS/src/filesys/inode.c:325-333 | growth before a write past the end |
| InodeFiles.Inode.WriteChunk | PintOS/src/filesys/inode.c:335-359 | one chunk is spliced in, and its sector is dirty in the cache |
| InodeFiles.Inode.WriteChunks | PintOS/src/filesys/inode.c:335-359 | the chunk loop splices the whole buffer |
| InodeFiles.Inode.Release | PintOS/src/filesys/free-map.c:43-50 | one marked sector is cleared |
| InodeFiles.Inode.DeallocateIndirectBlock | PintOS/src/filesys/inode.c:454-465 | the sectors of one index block are released once each |
| InodeFiles.Inode.Deallocate | PintOS/src/filesys/inode.c:391-433 | exactly the data and index sectors of the file are released, each once and while marked |
| StaleSectors.GrowthSeenIff | PintOS/src/filesys/inode.c:467-515 | a grown file reads as the old one followed by zeros if and only if, before the call, no free sector whose rank makes it a data sector below the new end is cached with a nonzero byte there |
| StaleSectors.GrowAndSee | PintOS/src/filesys/inode.c:467-489 | the same of `inode_grow` itself: the cache and the free map before the call decide |
| StaleSectors.GrowthCoherentIff | PintOS/src/filesys/inode.c:491-515 | growth leaves the cache coherent if and only if no free sector whose rank makes it a data sector is cached clean with nonzero bytes, and no index block that growth writes is cached clean with other bytes |
| StaleSectors.CoherentAfterIff | PintOS/src/filesys/inode.c:491-515 | only the sectors that growth writes can fall out of step with their cells |
| StaleSectors.WriteBackUndoes | PintOS/src/filesys/buffer-cache.c:65-88 | the write-back of a stale dirty cell undoes the device write made behind it |
| StaleSectors.DropReveals | PintOS/src/filesys/buffer-cache.c:65-88 | dropping a stale clean cell changes what readers see, without a write |
| StaleSectors.IndexKeptIff | PintOS/src/filesys/buffer-cache.c:65-88 | after the write-back of a cell over an index block the file is still mapped if and only if the stale bytes list the same sectors |
| StaleSectors.WriteAndDelete | PintOS/src/filesys/inode.c:391-433 | a deleted file leaves a free sector dirty in the cache |
| StaleSectors.NewFileReads | PintOS/src/filesys/inode.c:467-489 | a new file that takes this sector reads the deleted byte |
| StaleSectors.DeletedByteReappears | PintOS/src/filesys/inode.c:467-515 | the two together, from an empty device: a byte never written reads as the deleted one |
| SharedDevice.StaysApart | PintOS/src/filesys/free-map.c:27-41 | a file grows apart from every file whose sectors are marked |
| SharedDevice.WriteBeside | PintOS/src/filesys/inode.c:315-362 | writing one file keeps the validity and the contents of another |
| SharedDevice.ReadBeside | PintOS/src/filesys/inode.c:269-308 | so does reading it |
| StableMerge.MergeSorted | operating-system/hw2/utlist.h:236-273 | merging sorted runs gives a sorted run |
| StableMerge.MergeStable | operating-system/hw2/utlist.h:250-254 | and keeps every class of ties in order, the first run before the second |
| StableMerge.PassDoublesRuns | operating-system/hw2/utlist.h:219-274 | a pass turns sorted runs of length k into sorted runs of length 2k |
| StableMerge.PassStable | operating-system/hw2/utlist.h:219-274 | a pass keeps every class of ties in order |
| StableMerge.SingletonRuns | operating-system/hw2/utlist.h:216-216 | runs of length one are sorted |
| StableMerge.StableIsPermutation | operating-system/hw2/utlist.h:208-286 | keeping every class of ties means keeping the elements |
| ListSort.Append | operating-system/hw2/utlist.h:262-272 | the element is hung onto the output list, links both ways |
| ListSort.Split | operating-system/hw2/utlist.h:224-234 | the run is measured and stepped over |
| ListSort.MergeTurn | operating-system/hw2/utlist.h:236-273 | one turn moves the smaller head, the first run's on ties, to the output |
| ListSort.MergeRuns | operating-system/hw2/utlist.h:235-273 | the loop appends the merge of the two runs and stops at the next run |
| ListSort.PassTurn | operating-system/hw2/utlist.h:222-274 | two runs of a pass |
| ListSort.Close | operating-system/hw2/utlist.h:276-279 | the head's prev becomes the tail and the tail ends the list |
| ListSort.SortPass | operating-system/hw2/utlist.h:219-279 | the relinked list is the pass of the old one, and at most one merge means at most one pair of runs |
| ListSort.DlSort | operating-system/hw2/utlist.h:208-286 | terminates with the same nodes relinked sorted and stable, prev inverse to next, head->prev the tail, null-terminated |
| ArenaLayout.BlockAddress | PintOS/src/threads/malloc.c:266-294 | every assertion of `block_to_arena` holds of a block address, and rounding down finds the arena and index |
| ArenaLayout.BlocksApart | PintOS/src/threads/malloc.c:284-294 | blocks of an arena do not overlap |
| ArenaSafety.MovedInv | PintOS/src/threads/malloc.c:148-151 | popping or pushing one block keeps `free_cnt` and the partition into live and free, in both directions |
| ArenaSafety.WhollyFree | PintOS/src/threads/malloc.c:242-246 | `free_cnt` never exceeds the blocks of an arena, and reaches them exactly when no block of it is live |
| ArenaSafety.NewArenaKeeps | PintOS/src/threads/malloc.c:124-146 | a fresh arena keeps the invariant |
| ArenaSafety.NewBigKeeps | PintOS/src/threads/malloc.c:105-120 | a big block keeps the invariant |
| ArenaSafety.ReturnArenaKeeps | PintOS/src/threads/malloc.c:241-253 | returning an arena keeps the invariant and leaves no free-list entry in its page |
| ArenaSafety.ReturnBigKeeps | PintOS/src/threads/malloc.c:257-262 | returning a big block keeps the invariant |
| ArenaSafety.MallocKeepsInv | PintOS/src/threads/malloc.c:89-154 | `malloc` keeps the invariant and hands out one block that was not live |
| ArenaSafety.MallocFailsOnlyIf | PintOS/src/threads/malloc.c:105-135 | null for a nonzero size means no free block and no run of free pages, or a page count that wrapped to 0 |
| ArenaSafety.MallocSucceedsIff | PintOS/src/threads/malloc.c:89-154 | a nonzero request is served if and only if its size class has a free block or there is a free page, and above the largest class if and only if the page count is not 0 and there is a run of that many free pages |
| ArenaUndo.FreeUndoesMalloc | PintOS/src/threads/malloc.c:89-264 | freeing what `malloc` has just handed out restores the whole heap, from a free list, a new arena or pages of its own |
| ArenaUndo.MallocUndoesFree | PintOS/src/threads/malloc.c:89-264 | a freed block whose arena stays is the next one of its class, and handing it out restores the whole heap |
| ArenaSafety.MallocFitsIff | PintOS/src/threads/malloc.c:107-119 | the block holds the requested bytes if and only if size + 12 does not exceed 2^32 |
| ArenaSafety.PagesFit | PintOS/src/threads/malloc.c:109-109 | the pages counted hold request and header if and only if the sum does not wrap |
| ArenaSafety.WrappedRequest | PintOS/src/threads/malloc.c:109-109 | a request where it does not |
| ArenaSafety.FreeKeepsInv | PintOS/src/threads/malloc.c:218-264 | `free` keeps the invariant and ends the life of exactly one block |
| ArenaSafety.FreeReturnsIff | PintOS/src/threads/malloc.c:241-253 | the page goes back exactly when its last live block is freed, unmarked and with no free-list entry in it |
| ArenaSafety.LiveDisjoint | PintOS/src/threads/malloc.c:89-154 | live blocks overlap neither each other nor an arena header |
| ArenaSafety.OthersKeepInv | PintOS/src/threads/palloc.c:70-142 | other users of the page pool do not disturb it |
| ArenaSafety.RunSafe | PintOS/src/threads/malloc.c:71-294 | the invariant holds in every state of every run |
| ArenaRuns.StepSame | PintOS/src/threads/malloc.c:89-264 | one call, or a write into another block, leaves the size and the bytes of a live block alone |
| ArenaRuns.RunInv | PintOS/src/threads/malloc.c:71-294 | the invariant holds in every run with memory |
| ArenaRuns.RunSafe | PintOS/src/threads/malloc.c:71-294 | in every run, a block that is live and neither freed nor written stays live, with the same size and the same bytes |
| ArenaBytes.ReallocOverrunsIff | PintOS/src/threads/malloc.c:204-209 | the copy of `realloc` runs past the new block if and only if adding the header wraps past 32 bits and the old block holds more than 4084 bytes |
| ArenaBytes.ShortBlock | PintOS/src/threads/malloc.c:107-119 | a heap with one free page that hands it out for almost 4 GB |
| KernelHeap.MallocInit | PintOS/src/threads/malloc.c:71-85 | the doubling loop makes the seven descriptors |
| KernelHeap.Kernel.constructor | PintOS/src/threads/malloc.c:71-85 | the heap starts without arenas |
| KernelHeap.Kernel.GetPages | PintOS/src/threads/palloc.c:70-104 | the first run of free pages, now marked, or none exists |
| KernelHeap.Kernel.FreePages | PintOS/src/threads/palloc.c:118-142 | exactly those pages are unmarked |
| KernelHeap.Kernel.FindDesc | PintOS/src/threads/malloc.c:100-104 | the smallest descriptor that fits |
| KernelHeap.Kernel.InitArena | PintOS/src/threads/malloc.c:137-145 | all blocks of the arena join the free list in order |
| KernelHeap.Kernel.PopBlock | PintOS/src/threads/malloc.c:148-151 | the first free block is taken and its arena counted down |
| KernelHeap.Kernel.MallocBig | PintOS/src/threads/malloc.c:105-120 | a big block is the specified step |
| KernelHeap.Kernel.MallocSmall | PintOS/src/threads/malloc.c:122-153 | a small block is the specified step |
| KernelHeap.Kernel.Malloc | PintOS/src/threads/malloc.c:89-154 | the in-place state takes a specified step and stays valid |
| KernelHeap.Kernel.RemoveBlocks | PintOS/src/threads/malloc.c:246-251 | every block of a wholly free arena is on the list when it is removed |
| KernelHeap.Kernel.ReturnPage | PintOS/src/threads/malloc.c:246-252 | the arena is returned as specified |
| ArenaBytes.MallocCapacity | PintOS/src/threads/malloc.c:89-154 | `malloc` changes the size of no live block |
| ArenaBytes.FreedCapacity | PintOS/src/threads/malloc.c:218-264 | `free` changes the size of no other live block |
| ArenaBytes.FreedBytes | PintOS/src/threads/malloc.c:231-262 | filling the freed block, and the returned pages, with 0xcc leaves the bytes of every other live block alone |
| ArenaBytes.CopyBytes | PintOS/src/threads/malloc.c:207-209 | copying between two live blocks leaves the others alone |
| KernelHeap.MoveKeeps | PintOS/src/threads/malloc.c:202-212 | allocating, copying and freeing carries the first min(old, new) bytes over and keeps all other live bytes |
| KernelHeap.Kernel.SizeOfBlock | PintOS/src/threads/malloc.c:177-186 | the bytes a live block can hold |
| KernelHeap.Kernel.Realloc | PintOS/src/threads/malloc.c:194-214 | a null pointer is `malloc`; null comes back for a nonzero size if and only if `malloc` cannot serve it; otherwise the heap is as after `malloc` and `free`, the moved block starts with the bytes of the old one, as many as both hold, and every other live block keeps its bytes; a failure changes nothing |
| KernelHeap.Kernel.Free | PintOS/src/threads/malloc.c:218-264 | the in-place state takes the specified step and stays valid |
| SchedulingLists.ScheduleKeeps | PintOS/src/threads/thread.c:507-586 | `schedule` runs the first ready thread, or the idle thread if there is none, and running, ready and list membership agree again |
| SchedulingLists.DownKeeps | PintOS/src/threads/synch.c:60-76 | one turn of the loop of `sema_down` keeps every element on its one list |
| SchedulingLists.UpKeeps | PintOS/src/threads/synch.c:108-121 | so does `sema_up` |
| SchedulingLists.InsertKeeps | PintOS/src/threads/thread.c:599-610 | ordered insertion by deadline keeps the order and adds one thread |
| SchedulingLists.SleepKeeps | PintOS/src/devices/timer.c:89-103 | so does going to sleep |
| SchedulingLists.YieldKeeps | PintOS/src/threads/thread.c:308-322 | so does yielding: the first ready thread runs and the yielding one goes last, or it runs on if nobody is ready |
| SchedulingLists.WakesDue | PintOS/src/devices/timer.c:181-193 | the loop breaks early and yet wakes every thread that is due, and no other |
| SchedulingLists.WokenExactlyAtDeadline | PintOS/src/devices/timer.c:176-194 | an interrupt makes a sleeper ready exactly if it brings the clock to its deadline |
| SchedulingSleep.StillAsleep | PintOS/src/threads/thread.c:220-250 | no step but the interrupt wakes a sleeper, changes its deadline or moves the clock |
| SchedulingSleep.StepTicks | PintOS/src/devices/timer.c:176-179 | the clock moves by one at interrupts, and not else |
| SchedulingSleep.SleepRun | PintOS/src/devices/timer.c:89-103 | in every run a sleeper stays asleep, with its deadline, as long as the clock is short of it |
| SchedulingSleep.AsleepUntil | PintOS/src/devices/timer.c:89-103 | in every run, from a sleep of n ticks called at tick T on, the thread is asleep in every state before tick T + n |
| SchedulingSleep.ReadyExactlyAt | PintOS/src/devices/timer.c:176-194 | and the interrupt that brings the clock to T + n makes it ready |
| SchedulingLists.TimerInterrupt | PintOS/src/devices/timer.c:176-194 | the loop as it runs is that step |
| SchedulingLists.StepKeepsLists | PintOS/src/threads/thread.c:220-250 | every step keeps each element on the list its status says |
| SchedulingLists.OnOneList | PintOS/src/threads/thread.c:220-250 | no element is on two lists |
| SchedulingLocks.DownKeepsLocks | PintOS/src/threads/synch.c:192-201 | taking a lock's semaphore makes one owner of a lock that had none |
| SchedulingLocks.SetHolderKeeps | PintOS/src/threads/synch.c:200-200 | the owner becomes the holder |
| SchedulingLocks.ClearHolderKeeps | PintOS/src/threads/synch.c:234-234 | the holder stays the owner until its `sema_up` |
| SchedulingLocks.UpLockKeeps | PintOS/src/threads/synch.c:235-235 | giving the semaphore back ends the ownership |
| SchedulingLocks.StepKeepsLocks | PintOS/src/threads/synch.c:192-338 | every step keeps lock values, owners and holders consistent, and no assertion on a holder fails inside `cond_wait` |
| SchedulingLocks.ValuePlusOwners | PintOS/src/threads/synch.c:184-236 | the semaphore value plus the number of owners is 1, and a holder is the owner |
| SchedulingSignals.StepKeepsWakes | PintOS/src/threads/synch.c:60-121 | every step keeps an awake taker for every unit of value while threads wait |
| SchedulingSignals.WakeUpNotLost | PintOS/src/threads/synch.c:108-121 | with a positive value and waiters, some unblocked thread is on its way to take it |
| SchedulingSignals.PushSignals | PintOS/src/threads/synch.c:297-298 | a fresh waiter is queued once |
| SchedulingSignals.PopSignals | PintOS/src/threads/synch.c:319-321 | a signal takes one waiter off the queue |
| SchedulingSignals.RaiseSignals | PintOS/src/threads/synch.c:320-321 | and raises its semaphore |
| SchedulingSignals.PassSignals | PintOS/src/threads/synch.c:300-301 | and the waiter passes once |
| SchedulingSignals.StepKeepsSignals | PintOS/src/threads/synch.c:287-338 | every step keeps each pending waiter in exactly one of queued, being signalled, signalled |
| SchedulingSignals.RunInv | PintOS/src/threads/synch.c:60-338 | in every interleaving all of these hold |
| SchedulingSignals.SignalNotLost | PintOS/src/threads/synch.c:287-322 | a signalled waiter's semaphore is 1 and its thread is not blocked, even if it had not slept yet |
| SchedulingSignals.StaysUnqueued | PintOS/src/threads/synch.c:287-338 | a waiter taken off its queue never goes back into one |
| SchedulingSignals.SignalReleases | PintOS/src/threads/synch.c:287-322 | in every run, from the signal on its waiter is in no queue, and once the signal is raised the waiting thread has its semaphore at 1 and is not blocked |
| SchedulingSignals.NoPassWithoutSignal | PintOS/src/threads/synch.c:287-322 | before the signal is raised its semaphore is 0 |
| SchedulingSignals.SignalTakesOne | PintOS/src/threads/synch.c:311-322 | one signal takes the longest waiter, and leaves the others |
| SchedulingOrder.StepReady | PintOS/src/threads/thread.c:220-322 | a step that gives up the processor hands it to the first in line (the ready list, then a yielding thread), else to the idle thread; any other step leaves the running thread running and adds newly ready ones at the end |
| SchedulingOrder.NextToRun | PintOS/src/threads/thread.c:507-514 | whenever a step changes the running thread, or yields, the new one is the head of the ready list; a thread that yields to an empty list runs on |
| SchedulingOrder.RunsInTurn | PintOS/src/threads/thread.c:308-514 | in every run, the thread at position i of the ready list gets the processor when it is given up for the time i + 1, and not before |
| SchedulingOrder.StepWaiters | PintOS/src/threads/synch.c:60-121 | `sema_up` takes the first waiter and puts it last on the ready list, a blocking thread goes behind the other waiters, and nothing else changes waiters or value |
| SchedulingOrder.WokenInTurn | PintOS/src/threads/synch.c:60-121 | in every run, the waiter at position i of a semaphore is made ready by the `sema_up` number i + 1 from then on |
| SchedulingOrder.ValueConserved | PintOS/src/threads/synch.c:60-121 | in every run, the value of a semaphore changes by the number of `sema_up` calls minus the number of `sema_down` calls that got through |
| SchedulingOrder.StepQueue | PintOS/src/threads/synch.c:287-322 | `cond_wait` joins at the end of the queue and `cond_signal` takes its first waiter; no other step changes it |
| SchedulingOrder.SignalledInTurn | PintOS/src/threads/synch.c:287-322 | in every run, the waiter at position i of a condition variable is the one that signal number i + 1 is for |
| SchedulingOrder.WakeOrder | PintOS/src/devices/timer.c:181-193 | the sleepers that wake are a first part of the sleep list and go to the end of the ready list in the same order |
| SchedulingOrder.InsertPosition | PintOS/src/threads/thread.c:599-610 | a new sleeper goes behind every one whose deadline is not later than its own, and before the first later one |
| SchedulingOrder.AcquireGoesThrough | PintOS/src/threads/synch.c:192-201 | acquiring a free lock makes the caller its holder without waiting |
| SchedulingOrder.ReleaseGoesThrough | PintOS/src/threads/synch.c:229-236 | releasing leaves the lock without a holder and its semaphore one higher |
| Checksum.FoldResidue | computer-networks/PA2/user/simpleMachine.cpp:67-90 | the RFC 1071 sum with end-around carries, in closed form |
| Checksum.ComplementOfSumIff | computer-networks/PA2/user/simpleMachine.cpp:67-90 | the checksum is the complement of that sum if and only if some byte is nonzero |
| Checksum.AddWord | computer-networks/PA2/user/simpleMachine.cpp:74-77 | the accumulator stays in 1..65535 and congruent to the word sum |
| Checksum.GetChecksum | computer-networks/PA2/user/simpleMachine.cpp:67-90 | the loop computes the checksum of every buffer length |
| Checksum.TestIff | computer-networks/PA2/user/simpleMachine.cpp:67-90 | a buffer tests 0 if and only if its word sum is a multiple of 65535 |
| Checksum.SealedPasses | computer-networks/PA2/user/simpleMachine.cpp:175-178 | sealing a buffer of any length at any aligned word makes the test return 0 |
| Checksum.ChangedWordPassesIff | computer-networks/PA2/user/simpleMachine.cpp:67-90 | a sealed buffer with one word changed passes if and only if the word went between 0 and 0xffff |
| Checksum.FillIpHeader | computer-networks/PA2/user/simpleMachine.cpp:168-178 | the filled header has its fields and tests 0 |
| Checksum.Seal | computer-networks/PA2/user/nat_machine.cpp:111-112 | zero, compute and store makes the test return 0 |
| Checksum.Rewrite | computer-networks/PA2/user/nat_machine.cpp:108-113 | a rewritten header has the new address, one hop less, all else kept, and tests 0 |
| AddressTranslation.AddressInjective | computer-networks/PA2/user/nat_machine.cpp:203-209 | different counters give different public endpoints |
| AddressTranslation.OneToOneIff | computer-networks/PA2/user/nat_machine.cpp:133-142 | the table is one-to-one if and only if it has at most 2^32 entries |
| AddressTranslation.SendersTable | computer-networks/PA2/user/nat_machine.cpp:132-142 | packets from different local endpoints each get an entry of their own |
| AddressTranslation.TooManySenders | computer-networks/PA2/user/nat_machine.cpp:203-209 | a run of 2^32 + 1 senders whose table is not one-to-one |
| AddressTranslation.OutboundKeeps | computer-networks/PA2/user/nat_machine.cpp:132-148 | an outgoing packet adds one session for its sender |
| AddressTranslation.StepKeeps | computer-networks/PA2/user/nat_machine.cpp:72-159 | every event keeps table and sessions equal to the history |
| AddressTranslation.RunKeeps | computer-networks/PA2/user/nat_machine.cpp:72-261 | so does every run, across resets |
| AddressTranslation.InboundIff | computer-networks/PA2/user/nat_machine.cpp:81-114 | an incoming packet is let in if and only if the endpoint behind its destination has sent to its source since the last reset, and goes there |
| AddressTranslation.RunInboundIff | computer-networks/PA2/user/nat_machine.cpp:72-261 | the same for every run, against the history of events |
| AddressTranslation.BlockedIff | computer-networks/PA2/user/nat_machine.cpp:211-261 | after every run, a port is blocked if and only if a range around it was blocked since the last reset |
| AddressTranslation.RunOutboundIff | computer-networks/PA2/user/nat_machine.cpp:115-157 | in every run, a packet from inside is refused to its source and leaves no trace if and only if its port is blocked by that history, and is sent on to its destination otherwise |
| TranslationHistory.NewAddressSlots | computer-networks/PA2/user/nat_machine.cpp:203-209 | addresses follow the own one, three ports on each, 100 apart |
| TranslationHistory.RunTable | computer-networks/PA2/user/nat_machine.cpp:72-261 | after every run, the table lists the unblocked senders since the last reset in order of their first packet, each with its slot, counted on across resets |
| TranslationHistory.InboundByHistory | computer-networks/PA2/user/nat_machine.cpp:81-114 | in every run, a packet from outside is ignored if nobody has its destination, refused if its owner has not sent to its source, and else delivered to the owner, by the history alone |
| TranslationHistory.OutboundByHistory | computer-networks/PA2/user/nat_machine.cpp:115-157 | in every run, a packet from inside is refused if its port is blocked, and else sent on from the slot of its sender, by the history alone |
| AddressTranslation.ReplyReturns | computer-networks/PA2/user/nat_machine.cpp:72-159 | the reply to a translated packet comes back to its sender |
| AddressTranslation.NatMachine.constructor | computer-networks/PA2/user/nat_machine.cpp:44-47 | empty tables, counter 0, base port 2000 |
| AddressTranslation.NatMachine.ValidInRange | computer-networks/PA2/user/nat_machine.cpp:211-218 | false exactly for a blocked port |
| AddressTranslation.NatMachine.FindInLocalTable | computer-networks/PA2/user/nat_machine.cpp:220-227 | the first entry of a local endpoint |
| AddressTranslation.NatMachine.FindInOuterTable | computer-networks/PA2/user/nat_machine.cpp:229-236 | the first entry of a public endpoint |
| AddressTranslation.NatMachine.FindInSession | computer-networks/PA2/user/nat_machine.cpp:238-246 | true exactly for a recorded session |
| AddressTranslation.NatMachine.CalculateNewAddress | computer-networks/PA2/user/nat_machine.cpp:203-209 | the next address, in 32 and 16 bits |
| AddressTranslation.NatMachine.FromOuter | computer-networks/PA2/user/nat_machine.cpp:81-114 | the in-place lookup is the specified outcome |
| AddressTranslation.NatMachine.FromInner | computer-networks/PA2/user/nat_machine.cpp:115-157 | the in-place update is the specified step |
| AddressTranslation.NatMachine.BlockRange | computer-networks/PA2/user/nat_machine.cpp:248-253 | afterwards a port is blocked if and only if it was, or lies between the bounds |
| AddressTranslation.NatMachine.ResetSetting | computer-networks/PA2/user/nat_machine.cpp:255-261 | ranges, table and sessions are cleared, the counter goes on |
| Octal.OctalsDenote | PintOS/src/lib/stdio.c:501-513 | the printed digits denote the number |
| Octal.FormatOctal | PintOS/src/lib/stdio.c:469-547 | the backward digit buffer and the zero padding print exactly the padded octal digits |
| Octal.ParseOctalField | PintOS/src/lib/ustar.c:129-162 | the loop is the specified parser |
| Octal.ParseIff | PintOS/src/lib/ustar.c:129-162 | a field parses to v if and only if it is some octal digits and an end mark, denoting v within 32 bits; the overflow test is exact |
| Octal.PrintedParses | PintOS/src/lib/ustar.c:106-106 | a printed field parses back |
| Ustar.StripSafe | PintOS/src/lib/ustar.c:65-73 | the stripped name has no dangerous prefix, and is neither empty nor ".." |
| Ustar.StripFixpointIff | PintOS/src/lib/ustar.c:65-73 | a name is unchanged if and only if it is safe; stripping is idempotent |
| Ustar.StripSuffix | PintOS/src/lib/ustar.c:65-73 | the result is a suffix of the name, or "." |
| Ustar.StripPeels | PintOS/src/lib/ustar.c:65-73 | a leading "/", "./" or "../" is dropped whatever follows; an empty name and ".." become "." |
| Ustar.StripPrefixes | PintOS/src/lib/ustar.c:65-73 | the loop is the specified function |
| Ustar.CalculateChksum | PintOS/src/lib/ustar.c:36-54 | the loop is the sum with the checksum field as spaces |
| Ustar.SumIgnoresField | PintOS/src/lib/ustar.c:46-51 | the sum does not depend on the checksum field |
| Ustar.ChksumIs | PintOS/src/lib/ustar.c:36-54 | the sum is that of the bytes outside the checksum field and of eight spaces |
| Ustar.MakeHeader | PintOS/src/lib/ustar.c:82-118 | fails exactly for stripped names over 99 bytes, and else fills every byte as specified |
| Ustar.ParseHeader | PintOS/src/lib/ustar.c:181-227 | the checks in their order are the specified parser |
| Ustar.RoundTrip | PintOS/src/lib/ustar.c:82-227 | parsing a made header gives the stripped name, the type and the size (0 for a directory); a negative size of a regular file is too large |
| Ustar.ParsedSafe | PintOS/src/lib/ustar.c:181-227 | whatever bytes are parsed, a resulting file has a safe name and a size that fits |
| Ustar.ParsedIff | PintOS/src/lib/ustar.c:181-227 | a header parses to a name, type and size if and only if its bytes are: magic, version, a checksum field with the sum, a null-terminated name, an empty prefix, a known type, and a size field with that size |
| Ustar.RefusalTrue | PintOS/src/lib/ustar.c:199-217 | the reason given for a refusal is true of the bytes |
| Ustar.CStrIs | PintOS/src/lib/ustar.c:223-223 | the name ends at its first null byte |
| Ustar.CorruptionNoticed | PintOS/src/lib/ustar.c:206-207 | one changed byte outside the checksum field is always noticed |
| HeapSort.FloatDown | PintOS/src/lib/stdlib.c:101-122 | one swap moves the only possible violation of heap order down |
| HeapSort.RootLargest | PintOS/src/lib/stdlib.c:146-151 | the root of a heap is its largest element |
| HeapSort.RootDone | PintOS/src/lib/stdlib.c:149-149 | swapping root and last puts one more element in its final place |
| HeapSort.LargestOf | PintOS/src/lib/stdlib.c:105-112 | the largest among an element and its children |
| HeapSort.SwapAt | PintOS/src/lib/stdlib.c:66-79 | two elements change places |
| HeapSort.Heapify | PintOS/src/lib/stdlib.c:96-123 | restores heap order, permuting only the heap |
| HeapSort.BuildHeap | PintOS/src/lib/stdlib.c:142-144 | any array becomes a heap of the same elements |
| HeapSort.PlaceNext | PintOS/src/lib/stdlib.c:147-151 | the sorted tail grows by one |
| HeapSort.Sort | PintOS/src/lib/stdlib.c:131-152 | a sorted permutation, for every comparison and length |
| HeapSort.BinarySearch | PintOS/src/lib/stdlib.c:184-207 | finds a match exactly when there is one |

## Left out

- Double-indirect files: growth passes its index block by value (PintOS/src/filesys/inode.c:567) and loses its pointers; the model stops at 10 direct and 1280 single-indirect sectors.
- The persistence of the free map through its own file, directories, and inode opening, closing and locking.
- InodeFiles.Inode.Grow: too few free sectors are excluded, because the code ignores failed allocations (PintOS/src/filesys/inode.c:496, 502, 559). It makes no assumption on the cache.
- InodeFiles.Inode.Allocate: too few free sectors are excluded, as for `Grow`.
- InodeFiles.Inode.AllocateZeroed: too few free sectors are excluded, as for `Grow`.
- InodeFiles.Inode.AddDirect: too few free sectors are excluded, as for `Grow`.
- InodeFiles.Inode.MapAlloc: too few free sectors are excluded, as for `Grow`.
- InodeFiles.Inode.FillBlock: too few free sectors are excluded, as for `Grow`.
- InodeFiles.Inode.OpenIndexBlock: too few free sectors are excluded, as for `Grow`.
- InodeFiles.Inode.FillIndexBlock: too few free sectors are excluded, as for `Grow`.
- InodeFiles.Inode.GrowIndirectBlock: too few free sectors are excluded, as for `Grow`.
- InodeFiles.Inode.WriteAt: too few free sectors are excluded as above, and so are sectors that first fit would take and that are still cached; `StaleSectors.GrowthSeenIff` and the lemmas beside it say what happens then.
- InodeFiles.Inode.Lengthen: too few free sectors are excluded as above, and so are sectors that first fit would take and that are still cached; `StaleSectors.GrowthSeenIff` and the lemmas beside it say what happens then.
- InodeFiles.Inode.FreeMapAllocate: the bitmap is not written to the free-map file, and a failure of that write is not modelled.
- SharedDevice.WriteBeside: excludes what `InodeFiles.Inode.WriteAt` excludes.
- InodeFiles.Inode.Release: the bitmap is not written to the free-map file.
- BufferCache.Cache.Fetch: one caller at a time, so the cell lock and concurrent users of a cell are not modelled; hit and miss counters are unbounded.
- Bitmaps.Bitmap.constructor: a failed allocation is not modelled.
- Bitmap counting, dumping and file transfer.
- HeapAllocator.Allocator.Malloc: sizes whose sum with the 40-byte header reaches 2^63 are excluded, because `sbrk` takes a signed increment; the wrap of the comparison on line 63 is modelled.
- HeapAllocator.Allocator.Extend: the same sizes are excluded.
- HeapAllocator.Allocator.Realloc: the same sizes and the same pointers are excluded as for `Malloc` and `Free`.
- HeapAllocator.Allocator.FindHead: the same pointers are excluded as for `Free`.
- HeapAllocator.Allocator.Free: a pointer into the middle of a block, or to a header merged away earlier, is excluded: the code reads arbitrary payload bytes as a header there.
- PathVector.Router.EmptyTrash: removes every path to the address whose mask is not zero, as the code tests it; the iterator that is decremented after an erase at the first element is not modelled, and the soundness of the tables holds whatever a withdrawal removes.
- PathVectorNetwork.InitInv: machines that list one of their assets twice are excluded; by `PathVectorNetwork.InitConsistentIff` their tables hold a duplicate from the start.
- The route tie-break and route printing of the router, Ethernet, IP and TCP headers, and console commands. Frames, ticks and commands are atomic steps, and withdrawals are flooded as the code does.
- UpdateCodec.BuildUpdate: counts and AS path lengths must fit in 16 bits, AS numbers and masks in their fields.
- UpdateWire.WireLayout: the same must fit.
- Signed 64-bit overflow in the division code is taken as two's complement.
- ListSort.DlSort: run lengths are unbounded integers, so a list of more than 2^30 nodes is not modelled faithfully; the singly linked and circular variants are not modelled.
- KernelHeap.Kernel.Malloc: arena headers and free lists are kept beside the modelled bytes, as a map and as sequences, so the links that the code stores inside free blocks are not bytes; each call is atomic under its descriptor lock. `calloc` and the placement of the pools are left out.
- KernelHeap.Kernel.MallocBig: the header bytes are kept beside the modelled bytes.
- KernelHeap.Kernel.MallocSmall: header and link bytes are kept beside the modelled bytes.
- KernelHeap.Kernel.GetPages: the kernel pool only, without flags.
- KernelHeap.Kernel.FreePages: the kernel pool only.
- KernelHeap.Kernel.Realloc: the case in which the copy runs past the new block, by `ArenaBytes.ReallocOverrunsIff`, is excluded.
- KernelHeap.MoveKeeps: the same case is excluded.
- ArenaLayout.BlockAddress: the assertions on the null pointer and on the magic number are not modelled.
- Scheduling covers one processor with round-robin scheduling. `sema_try_down`, `lock_try_acquire` and priorities are left out, `cond_broadcast` appears as repeated `cond_signal`, and a dying thread's memory is not reused. Context switching and time slices appear as preemption at any step boundary. Lists are sequences, and ordered insertion puts a thread before the first later deadline. Tick and deadline counters are unbounded.
- Scheduling starts after the idle thread has announced itself; only it blocks without being on a list.
- TranslationHistory.InboundByHistory: at most 2^32 senders since the last reset, the exact bound of `AddressTranslation.OneToOneIff`.
- AddressTranslation.NatMachine.FromOuter: the choice of the outgoing interface and the contents of the drop notice are left out; table positions are unbounded integers.
- AddressTranslation.NatMachine.FromInner: the same is left out.
- Checksum.FillIpHeader: the IP header only; the Ethernet and UDP headers carry no checksum.
- Octal.FormatOctal: only "%0No" conversions; signs, precision, grouping and the other bases are left out.
- Ustar.MakeHeader: `memcmp` against a prefix may read past the end of a short name; the model compares prefixes.
- HeapSort.SwapAt: elements are whole values, so the byte loop of the swap is one exchange; indexes do not overflow.
- DHCP, partition scanning, processes and system calls, device drivers, the shell, the web server and the simulation framework.
