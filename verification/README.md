# A verified model of lwIP's core data structures and protocols

The project models the parts of lwIP that other code relies on without looking: the heap, the
packet buffers, the Internet checksum, the timer queue, the TCP timers and the receive window,
the DNS resolver, the socket slots and the number searches. Each source file that works by
changing state is a class or a set of methods with loops; every method is proved against a
specification, and what the source promises is proved of that specification.

| files | what they model |
|---|---|
| `BlockList.dfy`, `Heap.dfy` | the first-fit heap of `mem.c`: block lists, headers in one array, frees and trims that run at the unlock points of an allocation |
| `PbufSpec.dfy`, `PbufShape.dfy`, `PbufHeader.dfy`, `PbufPool.dfy`, `Pbufs.dfy`, `PbufData.dfy` | the reference-counted chains of `pbuf.c`: who holds what, `tot_len`, and the bytes as one flat string |
| `CopyLengths.dfy`, `PbufExamples.dfy` | which chains `pbuf_copy` takes, and reachable memories in which `pbuf.c` leaves a wrong `tot_len` |
| `Checksum.dfy` | the three checksum algorithms and the chain and pseudo-header forms of `inet_chksum.c` |
| `TimerQueue.dfy`, `Timers.dfy`, `CyclicRuns.dfy`, `Wrap32.dfy` | the timer list of `timeouts.c` under a clock that wraps, and cyclic timers over whole runs |
| `TcpTimers.dfy`, `TcpRuns.dfy`, `TcpWindow.dfy`, `Ports.dfy` | the timer walks, how long a PCB lives, the announced window and the port search of `tcp.c` |
| `Dns.dfy`, `Resolver.dfy`, `DnsNames.dfy` | the query table, the retry machine and the names of `dns.c`, for every table size, number of servers and number of retries |
| `Sockets.dfy` | the slot protocol of `sockets.c` with full duplex |
| `Netifs.dfy`, `Circular.dfy` | interface numbers in `netif.c`, and the pigeonhole argument that the searches share |
| `Prelude.dfy` | options, bytes and 16-bit numbers |

How the environment appears: interrupts, other threads and application callbacks are scripts.
The k-th time the source releases its lock or calls back, the k-th batch of the script runs, and
every result holds for every script. Clocks, ports that can be had, and packets are parameters.
`sys_now` is a 32-bit view of an unbounded clock; sequence numbers likewise.

Where the code does not do what its text says:

- `mem.c` line 789 asserts that the block being trimmed ends before the heap does. A used last
  block ends exactly there, so the assertion fails exactly when the last block is split (`Heap.Shrink`,
  `Heap.Trim`); `TrimLastBlock` gets there. The code below the assertion handles the case.
- Six functions of `pbuf.c` can leave `tot_len` wrong in pbufs that point to what they change.
  For each there is an exact condition on the memory before the call, and a reachable memory that
  fails it: `pbuf_cat` (`CatTot`, `CatSpoils`), `pbuf_realloc` (`ReallocTot`, `ReallocSpoils`),
  `pbuf_add_header` (`AddTot`, `AddHeaderSpoils`), `pbuf_remove_header` (`RemoveTot`,
  `RemoveHeaderSpoils`), `pbuf_free_header` (`HeadersTot`, `FreeHeaderSpoils`) and `pbuf_dechain`
  (`DechainTot`, `DechainSpoils`). `pbuf_free` and the allocations keep it right always (`FreeTot`, `PoolTot`).
- `pbuf_free` counts in eight bits, so `pbuf_dechain` returns a pointer to freed memory exactly
  when the run of pbufs with a count of 1 at the front of the tail has a length that is a positive
  multiple of 256 (`Dechain`, `FreeCountIs`); `DanglingDechain` cuts a chain of 257.
- `pbuf_copy` may refuse a chain that goes on behind its last byte, although the target is big
  enough: it takes it for a packet queue. `CopyOk` is the exact condition on the lengths of the
  pbufs (`WalkIs`, `Copy`); 5 bytes into a pbuf of 10 followed by an empty one are refused after
  everything was copied (`CopyRefuses`). A refused copy leaves exactly its first bytes in the target.
- `dns_compare_name` steps over the byte between two labels without looking at it, and accepts
  a name that stops at the end of one of the query's labels: `[1, 'a', 0]` answers a query for
  `a.b` (`PrefixAccepted`). What it accepts is stated exactly by `CompareAccepts` and
  `CompareSound`, when that is the query itself by `AcceptedIsQuery`; a reply to one's own query is
  recognised exactly when no label exceeds 191 bytes and none but the first is empty. A query for
  `a..b` is sent, and no reply that repeats its question passes (`EmptyLabelEnds`, `ReplyLost`).
- `inet_chksum.c` line 419 asserts after each pbuf that less than 0x7FFF bytes are left to sum. It
  fails exactly when 0x7FFF or more are left behind the first pbuf (`PseudoPartialBase`), as for
  one byte followed by 0xFFFE (`LongRest`).
- `sockets.c` line 362 asserts that a slot to be freed is in use. The mark stays set after the
  netconn is detached, so the assertion holds exactly while the slot has its netconn (`IncUsedLocked`, `StaleMark`).
- `tcp_new_port` from a counter outside 0xBFFF..0xFFFE looks at the ports straight above it and
  hands out the first free one, in its range or not. The result lies in the range exactly when the
  range is within 0x3FFF of the first port, all ports below the range are taken, and a port of the
  range that is near enough is free (`NewPort`, `FromOutside`). `tcp_init` leaves the counter at
  0xFFFF exactly for random numbers that end in 14 ones (`Init`), and the first search then yields
  0 although every port is free (`NoPortFound`).

## Model

| member | source | states |
|---|---|---|
| `BlockList.FreeKeepsForm` | src/lwIP/core/mem.c:473-509 | freeing a block and joining it with free neighbours keeps the blocks a partition of the heap in which no two free blocks touch |
| `BlockList.AllocKeepsForm` | src/lwIP/core/mem.c:885-927 | taking a fitting free block, split when the rest can hold a header and MIN_SIZE, keeps the heap well formed |
| `BlockList.TrimKeepsForm` | src/lwIP/core/mem.c:750-806 | shortening a block in place keeps the heap well formed |
| `BlockList.FreeKeepsLow` | src/lwIP/core/mem.c:669-679 | after a free, `lfree` is still at or below every free block, also while an allocation is in progress |
| `BlockList.TrimKeepsLow` | src/lwIP/core/mem.c:750-806 | the same after a trim |
| `BlockList.AllocKeepsLow` | src/lwIP/core/mem.c:885-927 | the same after a block is taken |
| `BlockList.FreeRegions` | src/lwIP/core/mem.c:616-685 | a free gives up exactly one live region and moves no other |
| `BlockList.AllocRegions` | src/lwIP/core/mem.c:885-927 | an allocation adds exactly one live region and moves no other |
| `BlockList.TrimRegions` | src/lwIP/core/mem.c:698-819 | a trim shortens exactly one live region, whose end `TrimEnds` gives, and moves no other |
| `BlockList.TrimEnds` | src/lwIP/core/mem.c:750-806 | where a trimmed block ends, in addresses, and the free block behind it; when nothing changes |
| `BlockList.AllocEnds` | src/lwIP/core/mem.c:889-927 | where an allocated block ends, in addresses, and the free block split off behind it |
| `BlockList.FitsAre` | src/lwIP/core/mem.c:869-887 | first fit in addresses: the lowest free block from whose data the request does not reach past the next header |
| `BlockList.RegionsDisjoint` | src/lwIP/core/mem.c:830-975 | two live regions never overlap |
| `BlockList.MallocThenFree` | src/lwIP/core/mem.c:616-685 | freeing what was just allocated restores the block list |
| `BlockList.LowestFreeUnique` | src/lwIP/core/mem.c:928-949 | `lfree` is determined by the block list, so malloc then free restores it as well |
| `BlockList.FreeAllGivesInit` | src/lwIP/core/mem.c:515-537 | freeing every live block, in any order, gives the single free block of `mem_init` |
| `Heap.LinkValidAccepts` | src/lwIP/core/mem.c:549-563 | `mem_link_valid` accepts every real block |
| `Heap.Heap.constructor` | src/lwIP/core/mem.c:515-537 | the initial heap is one free block, with `lfree` on it |
| `Heap.Heap.PlugHoles` | src/lwIP/core/mem.c:473-509 | the headers after `plug_holes` are those of the joined block list, and no other memory changes |
| `Heap.Heap.Release` | src/lwIP/core/mem.c:666-680 | marking free, moving `lfree` and joining, as one step |
| `Heap.Heap.Shrink` | src/lwIP/core/mem.c:750-812 | a trimmed block: the new list, and the assertion at its head fails exactly for a last block that is split |
| `Heap.Heap.Free` | src/lwIP/core/mem.c:616-685 | a pointer into the heap frees its block, any other pointer changes nothing |
| `Heap.Heap.Trim` | src/lwIP/core/mem.c:698-819 | fails exactly for a size out of range or beyond the block; then nothing changes, and else a free block reaches from right behind the rounded size to where the free space ended, if the block behind is free or a header and MIN_SIZE fit; which calls violate the assertion |
| `Heap.Heap.Unlock` | src/lwIP/core/mem.c:872-884 | whatever runs while the lock is open leaves a well-formed heap, and is noticed |
| `Heap.Heap.Scan` | src/lwIP/core/mem.c:869-887 | from `lfree` up to MEM_SIZE_ALIGNED - size the scan finds the first fit of the whole heap, or there is none, or it was interrupted |
| `Heap.Heap.Take` | src/lwIP/core/mem.c:885-927 | the block that is marked used is a current free block of sufficient size |
| `Heap.Heap.AdjustLfree` | src/lwIP/core/mem.c:928-949 | `lfree` ends on exactly the lowest free block, whatever runs at its unlock points |
| `Heap.Heap.Malloc` | src/lwIP/core/mem.c:830-975 | with any frees and trims at the unlock points: exact first fit at the moment of choice, failure only when nothing fits, an aligned region that survives what runs afterwards, `lfree` exact on return, and not a byte of any other live block written |
| `Heap.MallocFree` | src/lwIP/core/mem.c:616-975 | malloc then free restores the block list, every header, `lfree` and the set of live blocks, and touches no data; the malloc succeeds exactly when something fits |
| `Heap.ApplyKept` | src/lwIP/core/mem.c:616-819 | a free or a trim enlarges no live block and writes to the data of none |
| `Heap.TakeKept` | src/lwIP/core/mem.c:885-927 | taking a block writes to the data of no other |
| `Heap.TrimLastBlock` | src/lwIP/core/mem.c:787-793 | a reachable heap in which the assertion of `mem_trim` fails |
| `Heap.Heap.Sanity` | src/lwIP/core/mem.c:566-606 | `mem_sanity` finds nothing wrong in any reachable heap |
| `Heap.RunKeepsRegion` | src/lwIP/core/mem.c:860-968 | frees and trims of other blocks leave a region alone |
| `Heap.ApplyIs` | src/lwIP/core/mem.c:616-819 | what another context does at an unlock point: any free and any trim of a block it holds |
| `Heap.RunsKeepForm` | src/lwIP/core/mem.c:616-975 | every run of malloc, free and trim keeps the heap well formed |
| `Heap.RunsReturnToInit` | src/lwIP/core/mem.c:515-537 | after any run, freeing what is live in any order gives the initial heap |
| `Checksum.Chksum1` | src/lwIP/core/inet_chksum.c:82-116 | for up to 0x20000 bytes the bytewise algorithm gives the canonical one's-complement sum, without overflow |
| `Checksum.Chksum2` | src/lwIP/core/inet_chksum.c:136-175 | so does the 16-bit algorithm at every alignment |
| `Checksum.Chksum3` | src/lwIP/core/inet_chksum.c:192-258 | so does the unrolled 32-bit algorithm at every alignment, carries included |
| `Checksum.InetChksumPbuf` | src/lwIP/core/inet_chksum.c:572-591 | the chain checksum is the checksum of the concatenated bytes, for every fragmentation |
| `Checksum.PseudoBase` | src/lwIP/core/inet_chksum.c:263-298 | the fold over a chain adds the sum of its bytes and of protocol and length |
| `Checksum.PseudoPartialBase` | src/lwIP/core/inet_chksum.c:403-445 | the same over the first `chksum_len` bytes, and when the assertion on the bytes left holds |
| `Checksum.LongRest` | src/lwIP/core/inet_chksum.c:419 | a chain for which the assertion fails |
| `Checksum.InetChksumPseudo` | src/lwIP/core/inet_chksum.c:315-331 | the pseudo-header checksum is that of the flat pseudo header and data |
| `Checksum.InetChksumPseudoPartial` | src/lwIP/core/inet_chksum.c:462-478 | the partial form is that of the pseudo header and the first bytes |
| `Checksum.StoredChecksumVerifies` | src/lwIP/core/inet_chksum.c:572-591 | storing the result in a zeroed field at an even offset makes recomputation yield 0 |
| `Checksum.ZeroOnlyForZeros` | src/lwIP/core/inet_chksum.c:82-116 | the sum is 0 only for all-zero data |
| `PbufSpec.FreeKeepsRefs` | src/lwIP/core/pbuf.c:729-805 | deallocating along the chain keeps every count equal to handles plus incoming `next` pointers |
| `PbufSpec.FreeFrame` | src/lwIP/core/pbuf.c:729-805 | a surviving pbuf changes in nothing but its count |
| `PbufSpec.FreeCount` | src/lwIP/core/pbuf.c:729-805 | nothing is freed exactly when the first pbuf stays |
| `PbufSpec.FreeCountIs` | src/lwIP/core/pbuf.c:729-805 | the number of pbufs freed is the length of the leading run of pbufs with a count of 1 |
| `PbufSpec.FreeTot` | src/lwIP/core/pbuf.c:729-805 | freeing keeps `tot_len` right everywhere |
| `PbufSpec.CutRefs` | src/lwIP/core/pbuf.c:913-940 | taking a `next` pointer away leaves one reference to be given up |
| `PbufSpec.NothingLeaks` | src/lwIP/core/pbuf.c:729-805 | a memory with no handles left holds no pbuf |
| `PbufSpec.TotIsLength` | src/lwIP/core/pbuf.c:181-191 | `tot_len` right at each pbuf is the number of bytes from there on |
| `PbufSpec.CatRefs` | src/lwIP/core/pbuf.c:856-877 | the caller's reference to the tail becomes the link to it |
| `PbufSpec.CatFlat` | src/lwIP/core/pbuf.c:856-877 | the chain after `pbuf_cat` holds the concatenated bytes |
| `PbufSpec.CatTot` | src/lwIP/core/pbuf.c:856-877 | `tot_len` is right everywhere afterwards exactly when nothing outside points into the head chain or the tail is empty |
| `PbufShape.ReallocFlat` | src/lwIP/core/pbuf.c:411-467 | shrinking leaves exactly the first bytes |
| `PbufShape.ReallocTot` | src/lwIP/core/pbuf.c:411-467 | exactly when `tot_len` stays right everywhere |
| `PbufShape.ShrunkValid` | src/lwIP/core/pbuf.c:446-467 | cutting the chain leaves one reference to the rest to be given up |
| `PbufHeader.RemoveUndoesAdd` | src/lwIP/core/pbuf.c:481-537 | taking a header off undoes putting it on, and is refused exactly when `len` wrapped |
| `PbufHeader.AddTot` | src/lwIP/core/pbuf.c:481-537 | `tot_len` stays right everywhere exactly when nothing points to the pbuf |
| `PbufHeader.RemoveTot` | src/lwIP/core/pbuf.c:589-621 | `tot_len` stays right everywhere exactly when nothing points to the pbuf |
| `PbufHeader.DropHeadRefs` | src/lwIP/core/pbuf.c:676-692 | the handle moves on and the counts stay right |
| `PbufHeader.DropHeadTot` | src/lwIP/core/pbuf.c:676-692 | exactly when dropping the first pbuf keeps `tot_len` right |
| `PbufHeader.HeadersFlat` | src/lwIP/core/pbuf.c:676-692 | a prefix of the bytes is dropped, across pbufs |
| `PbufHeader.HeadersTot` | src/lwIP/core/pbuf.c:676-692 | `tot_len` stays right everywhere exactly when each pbuf that is dropped is unshared or has nothing behind it, and only the last of them points to the one that is shortened |
| `PbufPool.PoolRefs` | src/lwIP/core/pbuf.c:238-275 | a new chain adds one handle and keeps every count right |
| `PbufPool.PoolChain` | src/lwIP/core/pbuf.c:238-275 | the new chain holds exactly the requested number of bytes |
| `PbufPool.PoolTot` | src/lwIP/core/pbuf.c:238-275 | a new chain keeps `tot_len` right everywhere |
| `PbufPool.ElementsLeast` | src/lwIP/core/pbuf.c:238-275 | the elements taken are the fewest that hold headroom and data |
| `PbufPool.FreePool` | src/lwIP/core/pbuf.c:247-255 | freeing a chain that was just built gives the memory before it |
| `Pbufs.PbufHeap.Release` | src/lwIP/core/pbuf.c:744-805 | the freeing loop deallocates exactly the pbufs whose count drops to zero and counts them in a u8_t |
| `Pbufs.PbufHeap.Free` | src/lwIP/core/pbuf.c:729-805 | one handle is given up and the memory is what deallocation along the chain leaves; `tot_len` stays right everywhere |
| `Pbufs.PbufHeap.Ref` | src/lwIP/core/pbuf.c:833-839 | one more handle |
| `Pbufs.PbufHeap.Cat` | src/lwIP/core/pbuf.c:856-877 | the memory after concatenation, with every count still right |
| `Pbufs.PbufHeap.Chain` | src/lwIP/core/pbuf.c:897-902 | the same, and the caller keeps its handle on the tail |
| `Pbufs.PbufHeap.Dechain` | src/lwIP/core/pbuf.c:913-940 | the tail is cut off and freed; the result points to freed memory exactly when the leading run of unshared pbufs of the tail has a length that is a positive multiple of 256 |
| `Pbufs.DechainTot` | src/lwIP/core/pbuf.c:913-940 | `tot_len` stays right everywhere exactly when nothing points to the pbuf or its tail is empty |
| `Pbufs.DanglingDechain` | src/lwIP/core/pbuf.c:929-939 | a reachable chain of 257 pbufs for which the result points to freed memory |
| `Pbufs.PbufHeap.Realloc` | src/lwIP/core/pbuf.c:411-467 | the memory after shrinking, the cut-off pbufs freed |
| `Pbufs.PbufHeap.AllocPool` | src/lwIP/core/pbuf.c:238-275 | succeeds exactly when the pool has the elements that are needed; then a chain of that many pbufs whose `tot_len` is the request and whose first pbuf keeps the headroom, else no trace of the attempt; `tot_len` stays right everywhere |
| `Pbufs.PbufHeap.AllocOne` | src/lwIP/core/pbuf.c:277-345 | a single pbuf with one handle; `tot_len` stays right everywhere |
| `Pbufs.PbufHeap.AddHeader` | src/lwIP/core/pbuf.c:481-537 | fails exactly for a missing pbuf, a `tot_len` overflow or no room in front |
| `Pbufs.PbufHeap.RemoveHeader` | src/lwIP/core/pbuf.c:589-621 | fails exactly for a missing pbuf or a header longer than the pbuf |
| `Pbufs.PbufHeap.FreeFirst` | src/lwIP/core/pbuf.c:681-686 | the first pbuf is let go and the handle moves on |
| `Pbufs.PbufHeap.FreeHeader` | src/lwIP/core/pbuf.c:676-692 | pbufs are dropped and the last one shortened until `size` bytes are gone |
| `PbufData.Skip` | src/lwIP/core/pbuf.c:1150-1164 | the pbuf and the offset in it of a position in the flat string |
| `PbufData.TryGetAt` | src/lwIP/core/pbuf.c:1381-1390 | the byte of the flat string, or -1 behind its end |
| `PbufData.GetAt` | src/lwIP/core/pbuf.c:1364-1370 | the byte of the flat string, or 0 behind its end |
| `PbufData.PutAt` | src/lwIP/core/pbuf.c:1402-1410 | one byte of the flat string changes, none behind its end |
| `PbufData.CopyPartial` | src/lwIP/core/pbuf.c:1028-1057 | the slice of the flat string, cut off at its end |
| `PbufData.MemCmp` | src/lwIP/core/pbuf.c:1424-1450 | 0xFFFF for too short a chain, 0 for equality, else the first difference plus 1 |
| `PbufData.MemFind` | src/lwIP/core/pbuf.c:1465-1477 | the least match from the start offset on, 0xFFFF when there is none |
| `PbufData.Take` | src/lwIP/core/pbuf.c:1193-1222 | the flat string starts with the data, or an error and no change |
| `PbufData.TakeAt` | src/lwIP/core/pbuf.c:1236-1257 | the flat string holds the data at the offset; an offset at or behind the end is an error |
| `PbufData.Copy` | src/lwIP/core/pbuf.c:961-1013 | succeeds exactly when the bytes fit and `CopyOk` holds of the lengths, and with which error it fails otherwise; the first bytes of the source, all of them on success and as many as `Moved` says else, replaced the front of the target |
| `PbufData.CopyRound` | src/lwIP/core/pbuf.c:971-1011 | one round copies the next stretch, and stops with the error and the number of bytes that the lengths foretell |
| `CopyLengths.WalkIs` | src/lwIP/core/pbuf.c:971-1011 | the rounds of the copy end well exactly under a condition on the lengths of the pbufs of both chains |
| `CopyLengths.MovedAll` | src/lwIP/core/pbuf.c:971-1011 | a copy that succeeds copied every byte |
| `CopyLengths.QueueRefused` | src/lwIP/core/pbuf.c:1001-1009 | a source pbuf behind the first that holds the last byte and is not the last is always refused |
| `CopyLengths.RefusedExample` | src/lwIP/core/pbuf.c:1001-1009 | 5 bytes into pbufs of 10 and 0 bytes are all copied and refused, into one of 10 they are not refused |
| `PbufData.StoreFlat` | src/lwIP/core/pbuf.c:981-984 | writing into one pbuf of a chain writes the same bytes at the matching place of the flat string |
| `PbufExamples.CatSpoils` | src/lwIP/core/pbuf.c:856-877 | a reachable memory with every `tot_len` right, in which this concatenation leaves one wrong |
| `PbufExamples.ReallocSpoils` | src/lwIP/core/pbuf.c:411-467 | the same for shrinking to 1 byte |
| `PbufExamples.AddHeaderSpoils` | src/lwIP/core/pbuf.c:481-537 | the same for adding a header of 1 byte |
| `PbufExamples.RemoveHeaderSpoils` | src/lwIP/core/pbuf.c:589-621 | the same for removing one |
| `PbufExamples.FreeHeaderSpoils` | src/lwIP/core/pbuf.c:676-692 | the same for freeing 2 bytes of header |
| `PbufExamples.DechainSpoils` | src/lwIP/core/pbuf.c:913-940 | the same for cutting the tail off |
| `PbufExamples.CopyRefuses` | src/lwIP/core/pbuf.c:1001-1009 | reachable chains that `pbuf_copy` refuses after it copied all 5 bytes |
| `TimerQueue.TimeLessIs` | src/lwIP/core/timeouts.c:73 | within half the 32-bit range TIME_LESS_THAN is the order of unbounded time |
| `TimerQueue.InsSorted` | src/lwIP/core/timeouts.c:204-219 | insertion keeps the list sorted and adds exactly the new timer |
| `TimerQueue.InsFifo` | src/lwIP/core/timeouts.c:204-219 | among equal times the new timer comes last and the others keep their order |
| `Timers.TimerList.TimeoutAbs` | src/lwIP/core/timeouts.c:178-220 | the u32_t list after insertion is the wrapped view of the queue after insertion |
| `Timers.TimerList.Timeout` | src/lwIP/core/timeouts.c:291-307 | a timer due that many milliseconds from now |
| `Timers.TimerList.Untimeout` | src/lwIP/core/timeouts.c:318-341 | the first timer with that handler goes, the others keep their order |
| `Timers.TimerList.Restart` | src/lwIP/core/timeouts.c:405-420 | every due time moves by the same amount, so that the first is due now |
| `Timers.TimerList.SleepTime` | src/lwIP/core/timeouts.c:425-442 | the least remaining time over all timers |
| `Timers.TimerList.CyclicTimer` | src/lwIP/core/timeouts.c:232-261 | the handler runs and the timer is inserted again, as `FireReschedules` and `ForFire` say when |
| `Timers.FireReschedules` | src/lwIP/core/timeouts.c:244-260 | one firing of a cyclic timer: if the callback ends by due + interval it is pending for due + interval, else for one interval from then |
| `Timers.FireGood` | src/lwIP/core/timeouts.c:352-397 | a firing leaves less to do for the call it happens in, and keeps all times within the window |
| `Timers.FireSources` | src/lwIP/core/timeouts.c:232-397 | what is pending after a firing was pending before, was started by its callback, or is the timer itself, due again |
| `Timers.TimerList.CheckTimeouts` | src/lwIP/core/timeouts.c:352-397 | terminates; the list left is that of firing the heads one by one; fires in order of due times, only what is due at the start; leaves nothing due; misses nothing that is not stopped; fires a cyclic timer at most twice and any other once; later timers that are not stopped stay; each fired cyclic timer that is not stopped is, or was and has fired again, pending for due + interval, or for one interval after the end of a callback that ended later; nothing else is pending but what was there or a callback started |
| `CyclicRuns.ForFire` | src/lwIP/core/timeouts.c:232-261 | a firing leaves other cyclic timers alone and puts its own back exactly once, and when |
| `CyclicRuns.NoDrift` | src/lwIP/core/timeouts.c:232-261 | over any run of calls, a cyclic timer due at d that is never overloaded fires for d, d + interval, d + 2 interval and so on, however late each call is, and after n firings is pending for d + n interval |
| `CyclicRuns.TakeTurn` | src/lwIP/core/timeouts.c:352-397 | a call of the timer list after some time is a turn of such a run |
| `CyclicRuns.LateTimer` | src/lwIP/core/timeouts.c:232-261 | an interval of 1000 due at 100 and called at 105 is due again at 1100 |
| `TcpTimers.Tcp.Act` | src/lwIP/core/tcp.c:1903-1904 | what a callback may do: PCBs are born with the mark of the tick, any field but the mark may change, PCBs on any list or on none may go, and changes of the active list are flagged |
| `TcpTimers.Tcp.SlowWalk` | src/lwIP/core/tcp.c:1203-1436 | the walk ends though callbacks restart it, processes no PCB twice and all that stay active, every PCB active at its end carries the mark, and those that had expired when their turn came are gone; exactly the owners of those and of the PCBs due to be polled are called; if no callback removes a PCB, all others are still active; if none alters one, they are as they were but for mark and poll timer |
| `TcpTimers.Tcp.TimeWaitWalk` | src/lwIP/core/tcp.c:1439-1474 | exactly the PCBs that outlived 2 MSL leave TIME-WAIT |
| `TcpTimers.Tcp.SlowTmr` | src/lwIP/core/tcp.c:1189-1474 | one tick: each PCB at most once, each survivor marked and not expired when its turn came; if no callback removes a PCB, exactly the expired ones leave the active list, and if none alters one either, exactly those that outlived it leave TIME-WAIT |
| `TcpRuns.Ticks` | src/lwIP/core/tcp.c:1203-1436 | after n ticks in which callbacks neither alter nor remove, a PCB last touched a ticks before is active exactly if it has fewer than 12 retries, in SYN-SENT fewer than 6, fewer than 12 probes, and a + n is at most 240 in LAST-ACK, 40 in SYN-RCVD and in FIN-WAIT-2 after a full close, and (keep_idle + 675000) / 500 with keepalive |
| `TcpRuns.TimeWaitTicks` | src/lwIP/core/tcp.c:1439-1474 | after n such ticks a PCB is in TIME-WAIT exactly if a + n is at most 240 |
| `TcpRuns.LastAckGoes` | src/lwIP/core/tcp.c:1373-1378 | a PCB in LAST-ACK goes with tick 241 and not before |
| `TcpTimers.Tcp.FastTmr` | src/lwIP/core/tcp.c:1481-1525 | the same for the fast timer, which drops no PCB: exactly the PCBs with refused data get a callback; if no callback removes a PCB, all stay on their lists; if none alters one, all are as they were but for the mark |
| `TcpTimers.ProgressStep` | src/lwIP/core/tcp.c:1209-1219 | processing a PCB shrinks the set of PCBs that are still unmarked, whatever its callback does |
| `TcpWindow.SeqIs` | src/lwIP/include/lwip/priv/tcp_priv.h:121-124 | the sequence comparisons are the order of unbounded numbers within half the range |
| `TcpWindow.Receiver.constructor` | src/lwIP/core/tcp.c:1149-1150 | the window of a new connection, real and announced, is TCP_WND |
| `TcpWindow.Receiver.Update` | src/lwIP/core/tcp.c:923-948 | announce the whole window when the edge moves by at least min(TCP_WND/2, mss), else keep the edge |
| `TcpWindow.Receiver.Recved` | src/lwIP/core/tcp.c:960-990 | the window grows up to TCP_WND, and is announced at once exactly for a gain of at least min(TCP_WND/4, 4 TCP_MSS); the edge never retreats, and one that rcv_nxt has not passed moves by at least min(TCP_WND/2, mss) or not at all; the window left unannounced is at most the larger of the two |
| `TcpWindow.Receiver.Reopen` | src/lwIP/core/tcp.c:971-979 | the u16_t sum that wraps or exceeds TCP_WND is cut to it |
| `TcpWindow.Receiver.Data` | src/lwIP/core/tcp_in.c:1636-1642 | data taken moves rcv_nxt within the window, whose right edge stays; after a FIN nothing is taken |
| `TcpWindow.Receiver.Fin` | src/lwIP/core/tcp.c:1571-1575 | the place of a FIN is given back |
| `TcpWindow.Receiver.SendAck` | src/lwIP/core/tcp_out.c:1546 | the announced edge never retreats, not even modulo 2^32, stays within the real window, and advances by at least min(TCP_WND/2, mss) while rcv_nxt has not passed it |
| `TcpWindow.Receiver.Run` | src/lwIP/core/tcp.c:923-990 | over any run the announced edges never retreat, and each step moves an edge that rcv_nxt has not passed by at least min(TCP_WND/2, mss) or not at all |
| `Ports.PortCounter.NewPort` | src/lwIP/core/tcp.c:1008-1031 | from every counter, the first free port among the 0x4000 that are visited, or 0; within the range, the first free port behind the counter, and 0 exactly when all are taken; out of it, exactly when a port of the range or 0 comes out |
| `Ports.FromInside` | src/lwIP/core/tcp.c:1008-1031 | the ports visited from a counter in the range are those of the range, round and round, so the result is the first free one |
| `Ports.FromOutside` | src/lwIP/core/tcp.c:1008-1031 | from any other counter they go straight up; exactly when the result lies in the range, and exactly when it is 0 |
| `Ports.PortCounter.Init` | src/lwIP/core/tcp.c:203-207 | the counter starts in 0xC000..0xFFFF, and at 0xFFFF exactly for random numbers that end in 14 ones |
| `Ports.NoPortFound` | src/lwIP/core/tcp.c:203-207 | a start of the counter from which no port is found though all are free |
| `Dns.OnceCall` | src/lwIP/core/dns.c:962-968 | a callback that clears its request keeps every accepted request waiting once or called once |
| `Dns.OnceAccept` | src/lwIP/core/dns.c:1375-1503 | so does accepting a request |
| `Dns.ToldAre` | src/lwIP/core/dns.c:962-968 | the callbacks made for an entry are those of exactly the requests that wait for it |
| `Dns.SettledIs` | src/lwIP/core/dns.c:942-996 | after the callbacks of an entry each of its requests was told, each new callback is for one of them, and none waits for it |
| `Dns.ServedStep` | src/lwIP/core/dns.c:1124-1131 | a tick calls back the requests of exactly the entries that stop asking |
| `Dns.ValidBusy` | src/lwIP/core/dns.c:942-996 | an entry that asks holds its port and its requests are not late |
| `Dns.BusyValid` | src/lwIP/core/dns.c:1055-1061 | an entry that asks with an id of its own restores the invariant of the tables |
| `Dns.BoundIs` | src/lwIP/core/dns.c:1070-1092 | the bound S * (1 + R(R-1)/2) is S rounds of tries |
| `Dns.RemainingPositive` | src/lwIP/core/dns.c:1070-1092 | a query has between 1 and that many ticks to go |
| `Resolver.FullTime` | src/lwIP/core/dns.c:1055-1069 | a new query has exactly that many |
| `Resolver.Resolver.constructor` | src/lwIP/core/dns.c:294-301 | empty tables satisfy the invariant |
| `Resolver.Resolver.SetServer` | src/lwIP/core/dns.c:361-370 | a server address changes and the invariant stays |
| `Resolver.Resolver.CreateTxid` | src/lwIP/core/dns.c:1000-1018 | terminates with an id that no asking entry has |
| `Resolver.Resolver.AllocPcb` | src/lwIP/core/dns.c:900-930 | a new port, or one that is open; fails exactly when none can be had and none is open |
| `Resolver.Resolver.Notify` | src/lwIP/core/dns.c:962-968 | exactly the requests of the entry are called back, in order and with that address, and are gone; all others are untouched |
| `Resolver.Resolver.ClosePcb` | src/lwIP/core/dns.c:975-995 | the port is closed unless another asking entry uses it |
| `Resolver.Resolver.CallFound` | src/lwIP/core/dns.c:942-996 | the same, and the port is let go |
| `Resolver.Resolver.Send` | src/lwIP/core/dns.c:748-774 | a query to a server that is gone fails at once and exactly its requests are called back; any other entry is unchanged |
| `Resolver.Progress` | src/lwIP/core/dns.c:1070-1092 | each tick brings a query exactly one tick closer to its end, for every number of retries and servers |
| `Resolver.Shortcut` | src/lwIP/core/dns.c:1251-1265 | an error reply with a backup server never prolongs a query, for every number of retries and servers |
| `Resolver.Resolver.CheckAsking` | src/lwIP/core/dns.c:1070-1102 | a query ends exactly when its tries with all servers are used up or its server is gone; exactly then its requests are called back, and no others |
| `Resolver.Resolver.CheckEntry` | src/lwIP/core/dns.c:1047-1118 | what a tick makes of an entry in each state, and of its requests and no others |
| `Resolver.Resolver.StartEntry` | src/lwIP/core/dns.c:1055-1069 | a new entry asks with a fresh id and all its ticks to go; without a server exactly its requests are called back |
| `Resolver.Resolver.Tick` | src/lwIP/core/dns.c:1124-1131 | every entry sees the tick, exactly the requests of entries that gave up are called back, and no request gets later than its bound |
| `Resolver.TickedIs` | src/lwIP/core/dns.c:1047-1118 | a query ends exactly when the next server to ask is missing, and a cached entry with its last second |
| `Resolver.Resolver.CorrectResponse` | src/lwIP/core/dns.c:1137-1164 | the address is delivered to exactly the requests of the entry, and cached for at most DNS_MAX_TTL, or not at all for a TTL of 0 |
| `Resolver.Resolver.Handle` | src/lwIP/core/dns.c:1251-1345 | what an error reply, an answer and a reply without an address make of the entry and of exactly its requests |
| `Resolver.MatchQuestion` | src/lwIP/core/dns.c:1215-1245 | the checks of the question, with the name compared by `CompareName` |
| `Resolver.OwnReply` | src/lwIP/core/dns.c:1215-1245 | a response with the query's own question in any case of letters passes them |
| `Resolver.RepliesExactly` | src/lwIP/core/dns.c:1205-1245 | exactly the packets pass whose question is a well-formed name that agrees with the query, type A and class IN |
| `Resolver.Query` | src/lwIP/core/dns.c:776-819 | the packet sent: the id in network order, recursion desired, one question |
| `Resolver.OwnPacketHits` | src/lwIP/core/dns.c:1192-1245 | a response from the server of an asking entry with the two id bytes of its query and its question answers that entry |
| `Resolver.OtherIdMisses` | src/lwIP/core/dns.c:1192-1199 | a packet whose two id bytes are those of no asking entry answers none |
| `Resolver.Delivers` | src/lwIP/core/dns.c:1170-1363 | such a response delivers the address to exactly the requests of the entry |
| `Resolver.ReplyLost` | src/lwIP/core/dns.c:1215-1245 | no reply that repeats the question of a query for `a..b` passes them |
| `Resolver.HitsOnce` | src/lwIP/core/dns.c:1195-1245 | a packet answers at most one entry |
| `Resolver.Resolver.Recv` | src/lwIP/core/dns.c:1170-1363 | only a packet with the id of an asking entry, from its server and with its question has an effect, and which (`OwnPacketHits`, `OtherIdMisses`); exactly the requests of that entry are called back, with that address, and no other entry changes; no query is prolonged |
| `Resolver.Resolver.FindEntry` | src/lwIP/core/dns.c:1414-1442 | the first unused entry, else the oldest completed one, else none |
| `Resolver.Resolver.Claim` | src/lwIP/core/dns.c:1444-1490 | entry and request are filled, or without a port everything is as if nothing was asked |
| `Resolver.Resolver.Enqueue` | src/lwIP/core/dns.c:1375-1503 | returns ERR_INPROGRESS exactly when a request is free and the name is already asked for or an entry and a port can be had; exactly then a request is added, which waits for an entry with this name or, for want of a server, is called at once and alone; other entries that ask and requests that wait are untouched |
| `Resolver.CalledBack` | src/lwIP/core/dns.c:942-1131 | in every reachable state a request that is not waiting, or was accepted S * (1 + R(R-1)/2) ticks ago, has had its callback exactly once, and every callback came within that time, for every number S of servers and R of retries |
| `Resolver.RightName` | src/lwIP/core/dns.c:942-1363 | a request that a reply calls back waited for the name that the answered query asks for |
| `DnsNames.JoinLabels` | src/lwIP/core/dns.c:793-807 | splitting a name at its dots loses nothing |
| `DnsNames.EncLength` | src/lwIP/core/dns.c:777-778 | the encoded name takes the length of the name and 2 |
| `DnsNames.EncodeQuery` | src/lwIP/core/dns.c:777-819 | header, encoded name and question fill the allocated buffer to the last byte, for every name in the table |
| `DnsNames.CompareName` | src/lwIP/core/dns.c:651-698 | the loops compute what `Compare` describes |
| `DnsNames.CompareAccepts` | src/lwIP/core/dns.c:651-698 | a well-formed name whose labels are the query's, in any case of letters, is accepted up to the byte behind it |
| `DnsNames.CompareSound` | src/lwIP/core/dns.c:651-698 | nothing else is accepted |
| `DnsNames.AcceptedIsQuery` | src/lwIP/core/dns.c:651-698 | accepted labels are those of the query exactly when the query has a dot behind each and ends with the last |
| `DnsNames.PrefixAccepted` | src/lwIP/core/dns.c:651-698 | a proper prefix of the labels is accepted |
| `DnsNames.EmptyLabelEnds` | src/lwIP/core/dns.c:651-698 | the empty label in `a..b` is taken for the end of the name |
| `DnsNames.ReplyRecognised` | src/lwIP/core/dns.c:651-698 | any case variant of the encoded query is recognised and passed over exactly when no label exceeds 191 bytes and none but the first is empty |
| `DnsNames.VariantIs` | src/lwIP/core/dns.c:651-698 | two names differ in the case of letters only: A to Z and a to z pair up and nothing else |
| `DnsNames.SkipName` | src/lwIP/core/dns.c:708-739 | the loop computes what `Skipped` describes |
| `DnsNames.SkipAccepts` | src/lwIP/core/dns.c:708-739 | a name, or labels and a pointer, are skipped to the byte behind them |
| `DnsNames.SkipSound` | src/lwIP/core/dns.c:708-739 | nothing else is skipped |
| `DnsNames.ReplySkipped` | src/lwIP/core/dns.c:708-739 | an encoded name is skipped under the condition under which it is recognised |
| `DnsNames.EncInjective` | src/lwIP/core/dns.c:793-807 | two lists of labels have different encodings |
| `Sockets.SocketTable.constructor` | src/lwIP/api/sockets.c:260 | an empty table satisfies the invariant |
| `Sockets.SocketTable.IncUsed` | src/lwIP/api/sockets.c:334-353 | a hold is granted exactly when no close is pending |
| `Sockets.SocketTable.IncUsedLocked` | src/lwIP/api/sockets.c:356-369 | the same; its assertion holds exactly while the slot has its netconn |
| `Sockets.SocketTable.Done` | src/lwIP/api/sockets.c:376-401 | a hold is given back, and the last one on a slot to be freed detaches its netconn |
| `Sockets.SocketTable.Free` | src/lwIP/api/sockets.c:547-567 | the closer's hold is given back; the netconn is detached at once or the close is pending |
| `Sockets.SocketTable.Claim` | src/lwIP/api/sockets.c:509-524 | a slot is reused exactly when it has no netconn and fd_used is 0, whatever its mark |
| `Sockets.SocketTable.OtherStep` | src/lwIP/api/sockets.c:333-401 | any step of another thread keeps the invariant: fd_used is the number of holders, every holder still finds the netconn it found, each netconn is in one slot or was detached once |
| `Sockets.SocketTable.TryGet` | src/lwIP/api/sockets.c:459-470 | whatever others do in between, exactly an existing slot that had its netconn and no close pending is returned; it is then held and has its netconn, and a refusal leaves no hold |
| `Sockets.SocketTable.AllocSocket` | src/lwIP/api/sockets.c:501-538 | whatever others do in between, the new netconn gets one slot that nobody else has, or none; if they do nothing, the first slot without netconn and holder, and none exactly when there is no such slot |
| `Sockets.StaleMark` | src/lwIP/api/sockets.c:361-363 | a reachable slot that is marked to be freed and not in use |
| `Sockets.StaleReused` | src/lwIP/api/sockets.c:509-524 | such a slot is given to the next netconn |
| `Sockets.NoSlotLeaks` | src/lwIP/api/sockets.c:501-538 | at any time the slots that are passed over are at most those that are held and one for each netconn not yet detached |
| `Sockets.RoomAgain` | src/lwIP/api/sockets.c:501-538 | with every netconn detached and no hold left, any table with a slot has room |
| `Sockets.ConnsDetach` | src/lwIP/api/sockets.c:561-567 | a netconn that leaves its slot was not detached before |
| `Netifs.NetifList.Add` | src/lwIP/core/netif.c:389-417 | with fewer than 255 interfaces the search ends with the first free number of 0..254, and all numbers stay distinct |
| `Circular.Pigeon` | src/lwIP/core/netif.c:392-407 | fewer taken numbers than numbers leave one free, which is why the searches end |

## Left out

- Realloc: the buffer of a heap pbuf, which `mem_trim` shortens in place, keeps its size; the bytes beyond the new length are never read.
- Cat: the tail must not contain the last pbuf of the head, since the link would close a cycle.
- CheckTimeouts: all pending times, the time that passes during the call and the longest timer must lie within half the 32-bit range; a timer node is always obtained.
- Data: what arrives is trimmed to the window; the parsing in `tcp_in.c` is not part of this model.
- Recved: the ACK that `tcp_output` is asked for goes out; that no memory can be had for it is not modelled.
- SlowWalk: retransmission, persist and keepalive timers of a PCB enter only through the conditions under which it is dropped; the fields they update are not modelled, nor is the delayed ACK or the pending FIN of the fast timer.
- AllocPcb: the choice of a random source port is reduced to whether one can be had and how many ids it uses up.
- Enqueue: names are compared without regard to the case of letters and cut to 255 bytes; both address families at once and calls from inside a callback are not modelled.
- Recv: the question is parsed; what the answer records behind it amount to is a parameter.
- CompareName: memory behind the query's terminator is an arbitrary function, since the source may read it when a reply has more labels.
- IncUsed: the eight-bit `fd_used` must not overflow, as the source asserts.
- The heap is the code of `mem.c` for its own heap; the calculator build replaces it by the C library's.
- Overflow-guard bytes, statistics, debug output and IPv6 branches.
- `pbuf_split_64k`, `pbuf_coalesce`, `pbuf_clone`, `pbuf_fill_chksum` and `pbuf_strstr`, which add easy members to what is modelled.
- The hardware clock of `arch/time.c`, whose 27 bits do not meet the contract of `sys_now`.
- Socket options, select and poll, address conversion, and the accept error paths.
- `queue.c`, `bridgeif_fdb.c`, the application and USB code, and the wrapper layers (`altcp`, `netifapi`, `netdb`, `api_lib`).
- Interference scripts are finite, so a heap allocation or a timer walk that is interrupted for ever is not a run of the model.
