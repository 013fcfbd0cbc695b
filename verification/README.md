# A verified model of the kernel's core algorithms

This project models the state-carrying algorithms of a small container kernel in Dafny and proves what
they promise. One module stands for each source file, with helper modules below it.

| modules | what they model |
|---|---|
| `Bits`, `Blocks`, `FreeLists`, `BuddyOps`, `BuddyLists`, `BuddyLedger`, `BuddyCounts`, `BuddyAllocator` | the buddy frame allocator |
| `RxRing`, `RxOrder`, `VirtioNet` | the receive queue of the virtio network driver, as a protocol of driver and device steps |
| `Scheduler` | the round-robin scheduler |
| `IpPool` | the address pool of the virtual switch |
| `Overlay`, `SortedNames`, `Paths`, `Getty` | the layered file system, path resolution, `cd` and `mkdir` |
| `ContainerSpec`, `Config`, `ConfigText`, `ConfigLines`, `ConfigRoundTrip` | container descriptions and the boot configuration reader |
| `Http`, `ChunkedBody` | HTTP responses and chunked bodies (RFC 9112) |
| `Gzip` | gzip member stripping (RFC 1952) |
| `Shell` | the option parser of `container run` |
| `WordBits`, `Sha256`, `Sha256Standard` | SHA-256 (FIPS 180-4) and digest checking |
| `Optional`, `Bytes`, `Text`, `Utf8` | optional values, bytes, texts, splitting, trimming, numerals, UTF-8 |

An object that the source updates in place is a class here, and a loop of the source is a loop. Each such
method is proved equal to a function of its inputs or of the old state. The lemmas are about those functions,
and say what they mean in terms that do not use them: flag bits by their weights, words letter by letter,
numerals by the places of their digits, bits by their positions, constants by the roots of primes. The main results are:

* **Buddy allocator.** Free lists are a function of the set of free frames (`HistoryIndependent`), allocation
  fails only when no aligned run is free (`AllocateComplete`), `allocate` then `free` restores every list in
  order (`ExactUndo`), and frames are conserved over every run (`ExecConserves`). `free` indexes past its
  eleven lists exactly when it completes a free aligned run of 2048 frames (`FreeKeeps`), so construction
  succeeds exactly on frames without such a run (`BuildConserves`). What construction makes of any frames,
  repeated ones included, is counted block by block (`BuildCounts`).
* **Receive ring.** In every interleaving each descriptor is in one place, no ring slot is overwritten early,
  and packets are delivered once each in completion order (`RunKeeps`, `ExactlyOnePlace`, `NoOverwrite`,
  `DeliveryTheorem`). The 16-bit indices refine unbounded counters at every wrap (`EmptyTestsExact`). All of
  it rests on the program order of two pairs of accesses, and fails without it (`RxOrder`).
* **Scheduler.** Bounded overtaking and no starvation over whole runs.
* **File system.** Layers act as one map, and listings agree with existence.
* **Readers.** Each is proved against its writer for all written values. Gzip stripping and chunked decoding
  are also characterised on every input, accepted or not (`StripExact`, `ChunkedExact`).

Some promises hold only under a condition. Each has its exact condition and an input that fails:

* An index in `free` is in range exactly when the freed block does not complete an aligned run of 2048
  (`BuddyOps.FreeKeeps`). The source states no such limit; frames 0 to 2047 exceed it
  (`BuddyAllocator.FirstFramesPanic`).
* `available()` agrees with `allocate()` after every run exactly when base + 2 fits in 32 bits, and the subnet
  ends below 2^32 or is too small to hold an address (`IpPool.AvailableExactIff`). Otherwise either the
  saturated end leaves at least one address fewer than `available()` counts, as for 255.255.255.0/24
  (`IpPool.LastSubnet`), or the wrapped cursor leaves many more, as for 255.255.255.254/31 (`IpPool.LastPair`).
* A new pool hands out addresses of its subnet only, exactly when base + 2 fits in 32 bits
  (`IpPool.UsableIff`); otherwise it starts at 0 or 1 (`IpPool.WrappedFirst`).
* Resolving in two steps is resolving the joined path exactly when the first path is non-empty or the
  directory is the root (`Paths.ResolveComposesIff`): joining the empty path gives an absolute one. The two
  differ in /home/root (`Paths.ResolveNeedNotCompose`).
* A configuration file is read back exactly when no container ends on a port, but for one that the end of the
  file follows (`ConfigRoundTrip.RoundTripIff`). The pending port is not flushed by the next `- image:` line
  or section, so it moves to the next container (`ConfigRoundTrip.PortMovesOn`).
* A gzip member is accepted whatever its method and reserved flag bits; what a caller must check besides is
  in `Gzip.StripStandardIff`, and `Gzip.AcceptsMethodZero` is an input.
* The chunked decoder departs from section 7.1 of RFC 9112. It accepts any two bytes after a chunk, a sign or
  white space around a size, anything behind a semicolon, and anything, or nothing, after the zero-size
  line; a decoded input is a chunked body exactly when none of these occurs (`ChunkedBody.DecodedStandardIff`).
  It refuses a chunked body exactly when a size line is not UTF-8 or a size does not fit
  (`ChunkedBody.StandardReads`). Inputs are `WrongEndAccepted`, `SignAccepted`, `BareSemicolonAccepted`,
  `MissingTrailerAccepted` and `HighByteRefused`.
* A size in the configuration is read back exactly when it fits in 64 bits (`ConfigText.MemoryReads`).

## Model

| member | source | states |
|---|---|---|
| `Blocks.Laminar` | kernel/src/memory/buddy.rs:50 | aligned power-of-two blocks are disjoint or nested |
| `Blocks.BuddyPair` | kernel/src/memory/buddy.rs:50 | the exclusive-or names the other half of the aligned block of the next order, and the smaller of the two starts it |
| `FreeLists.RunInOneBlock` | kernel/src/memory/buddy.rs:14-60 | a free aligned run lies inside one single free block, even when its frames became free one by one |
| `FreeLists.ListedIffMaximal` | kernel/src/memory/buddy.rs:14-60 | a block is listed exactly when it is an aligned run of free frames and the enclosing aligned run of twice the size is not |
| `FreeLists.Canonical` | kernel/src/memory/buddy.rs:14-60 | two coalesced states with the same free frames hold the same blocks in every order |
| `FreeLists.NoTopRun` | kernel/src/memory/buddy.rs:46-59 | no coalesced state has a free aligned run of 2048 frames |
| `BuddyOps.OrderOfLeast` | kernel/src/memory/buddy.rs:43 | the order is the least whose blocks hold `count` frames; a list exists for it exactly up to 1024 (0 counts as 1) |
| `BuddyOps.MachineOrderExact` | kernel/src/memory/buddy.rs:27 | for every 64-bit count, the power that wraps to 0 above 2^63 and the 64 trailing zeros of 0 give the same order |
| `BuddyOps.MergeKeeps` | kernel/src/memory/buddy.rs:46-58 | the merge loop keeps the lists coalesced, ends on a block with no free buddy around the freed one, and loses or invents no frame |
| `BuddyOps.FreeKeeps` | kernel/src/memory/buddy.rs:42-60 | `free` makes exactly its block free and stays coalesced; its last index is out of range if and only if the block completes a free aligned run of 2048 |
| `BuddyOps.SplitKeeps` | kernel/src/memory/buddy.rs:32-35 | the split loop keeps the lists coalesced and every frame of the block, either in a list or in hand |
| `BuddyOps.AllocateKeeps` | kernel/src/memory/buddy.rs:26-40 | a success takes one aligned, formerly free run of 2^order frames out of the free frames and nothing else |
| `BuddyOps.AllocateComplete` | kernel/src/memory/buddy.rs:26-40 | `allocate` fails exactly when no aligned run of that order is entirely free |
| `BuddyOps.MergeUndoesSplit` | kernel/src/memory/buddy.rs:32-35 | merging the block in hand climbs back through everything the split loop pushed |
| `BuddyOps.ExactUndo` | kernel/src/memory/buddy.rs:26-60 | a successful `allocate` followed by the matching `free` restores all eleven lists element for element, in order |
| `BuddyLists.AllocateShape` | kernel/src/memory/buddy.rs:26-40 | `allocate` returns the newest block of the first list from the order on that holds any, leaves its upper halves one to a list, and touches nothing else; it fails when those lists are empty |
| `BuddyLists.FreeShape` | kernel/src/memory/buddy.rs:42-60 | `free` takes the buddies of the growing block out of their lists, the rest of each list staying in order, and puts the grown block at the end of its list; it touches nothing else |
| `BuddyCounts.MergeCounts` | kernel/src/memory/buddy.rs:46-58 | from any lists that count their frames, the merge loop lists exactly the blocks left without a buddy, or completes a run of 2048; frames may be repeated |
| `BuddyCounts.FreeCounts` | kernel/src/memory/buddy.rs:42-60 | freeing one more frame keeps that count, whether or not the frame is there already |
| `BuddyLedger.AdmitConserves` | kernel/src/memory/buddy.rs:19-22 | a new frame enters the books: alignment, separation, exact cover and the sum of block sizes are kept |
| `BuddyLedger.AllocateConserves` | kernel/src/memory/buddy.rs:26-40 | `allocate` keeps alignment, separation, exact cover and the sum of block sizes |
| `BuddyLedger.FreeConserves` | kernel/src/memory/buddy.rs:42-60 | a matching `free` keeps alignment, separation, exact cover and the sum of block sizes |
| `BuddyLedger.FreeInRange` | kernel/src/memory/buddy.rs:59 | with no complete aligned run of 2048 among the managed frames the last index of `free` is always in range |
| `BuddyAllocator.BuildCounts` | kernel/src/memory/buddy.rs:14-24 | for any frames in any order and number: each list holds each aligned block as often as the block is complete in excess of its buddy, and construction panics exactly when some aligned run of 2048 is complete |
| `BuddyAllocator.BuildConserves` | kernel/src/memory/buddy.rs:14-24 | construction panics exactly when the frames, repeated or not, contain a complete aligned run of 2048; otherwise it leaves free exactly the frames given, in coalesced lists, if and only if they are distinct |
| `BuddyAllocator.FirstFramesPanic` | kernel/src/memory/buddy.rs:71-81 | frames 0 to n - 1 make construction panic if and only if n is at least 2048 |
| `BuddyAllocator.MatchedRunsLive` | kernel/src/memory/buddy.rs:14-60 | after construction a run of calls goes through if and only if every `free` in it names an outstanding block with its order: a matched `free` never panics |
| `BuddyAllocator.ExecConserves` | kernel/src/memory/buddy.rs:26-60 | conservation and separation over every run of `allocate` and matching `free` |
| `BuddyAllocator.HistoryIndependent` | kernel/src/memory/buddy.rs:14-60 | any two histories that leave the same frames free hold the same blocks in every order |
| `BuddyAllocator.BuildOrderIrrelevant` | kernel/src/memory/buddy.rs:14-24 | permuting the frames given to construction, repeated ones included, changes neither success nor the blocks of any order |
| `BuddyAllocator.BuddyAllocator.constructor` | kernel/src/memory/buddy.rs:15-18 | eleven empty lists, nothing managed |
| `BuddyAllocator.BuddyAllocator.NewFromFrames` | kernel/src/memory/buddy.rs:14-24 | the in-place construction gives the specified lists for all frames and panics exactly on a complete aligned run of 2048; the object is valid over exactly the frames given when they are distinct |
| `BuddyAllocator.BuddyAllocator.IncludeAll` | kernel/src/memory/buddy.rs:19-22 | the loop over the frames computes the specified construction |
| `BuddyAllocator.BuddyAllocator.Include` | kernel/src/memory/buddy.rs:20-21 | one round: the frame is counted and freed |
| `BuddyAllocator.BuddyAllocator.Admit` | kernel/src/memory/buddy.rs:20 | one more frame, counted in the total; a valid object stays valid when the frame is new |
| `BuddyAllocator.BuddyAllocator.Allocate` | kernel/src/memory/buddy.rs:26-40 | for any lists and count the new lists and the result are those of the specified `allocate`; a valid object stays valid and hands out a block nobody holds |
| `BuddyAllocator.BuddyAllocator.FindAndSplit` | kernel/src/memory/buddy.rs:28-39 | the in-place search, pop and split leave the specified lists |
| `BuddyAllocator.BuddyAllocator.SplitDown` | kernel/src/memory/buddy.rs:32-35 | the in-place split loop leaves the specified lists |
| `BuddyAllocator.BuddyAllocator.Free` | kernel/src/memory/buddy.rs:42-60 | for any frame and count the new lists are those of the specified `free`; for an outstanding block the object stays valid and the panic is exactly the completed run of 2048 |
| `BuddyAllocator.BuddyAllocator.MergeUp` | kernel/src/memory/buddy.rs:44-59 | the in-place merge loop and the final push leave the specified lists, or panic |
| `BuddyAllocator.AllocateFreeAllocate` | kernel/src/memory/buddy.rs:91-97 | for every valid allocator and count, allocate, free, allocate gives the same frame twice |
| `RxRing.SlotOfCounter` | kernel/src/net/virtio_net.rs:366-368 | slot and increment of a wrapped 16-bit index are those of the unbounded counter |
| `RxRing.NearbyDiffer` | kernel/src/net/virtio_net.rs:350 | counters less than a queue apart use different slots, and less than 2^16 apart different indices |
| `RxRing.AvailWrite` | kernel/src/net/virtio_net.rs:367 | writing the next available slot leaves every posting still to be taken intact |
| `RxRing.UsedWrite` | kernel/src/net/virtio_net.rs:351 | the device's write of the next used slot leaves every entry still to be read intact, published or not |
| `RxRing.InitialInv` | kernel/src/net/virtio_net.rs:213-223 | the state after `init` satisfies the ownership invariant |
| `RxRing.CheckKeeps` | kernel/src/net/virtio_net.rs:346-349 | comparing the indices keeps the invariant |
| `RxRing.TakeUsedKeeps` | kernel/src/net/virtio_net.rs:350-352 | reading the used entry keeps the invariant; its descriptor moves to the driver's hand |
| `RxRing.CopyOutKeeps` | kernel/src/net/virtio_net.rs:354-362 | the bounds guard never fires and the copy keeps the invariant |
| `RxRing.FillSlotKeeps` | kernel/src/net/virtio_net.rs:366-367 | writing the available slot keeps the invariant |
| `RxRing.PublishAvailKeeps` | kernel/src/net/virtio_net.rs:368 | bumping the available index keeps the invariant; the descriptor is posted again |
| `RxRing.StepKeeps` | kernel/src/net/virtio_net.rs:345-373 | every enabled step of driver or device keeps the invariant |
| `RxRing.RunKeeps` | kernel/src/net/virtio_net.rs:345-373 | the invariant holds after every interleaving of driver and device steps |
| `VirtioNet.ExactlyOnePlace` | kernel/src/net/virtio_net.rs:213-223 | each of the 16 descriptors is in exactly one place: posted, held by the device, written out and published or not, or in the driver's hand |
| `VirtioNet.EmptyTestsExact` | kernel/src/net/virtio_net.rs:346-352 | equality of wrapped indices is equality of the unbounded counts at every wrap; posted minus received is 16 whenever the driver's hand is empty |
| `VirtioNet.NoOverwrite` | kernel/src/net/virtio_net.rs:366-367 | no slot about to be written holds an entry the other side has yet to read |
| `VirtioNet.DeliveryTheorem` | kernel/src/net/virtio_net.rs:345-373 | in every interleaving the delivered packets are the completed ones, each once, in completion order: packet i is the bytes from offset 10 on of completion i, len - 10 of them for a reported len from 10 to 1524, none below, 1514 above |
| `RxOrder.SlotFirst` | kernel/src/net/virtio_net.rs:366-368 | with the slot written before the index, a device that has caught up takes the recycled descriptor |
| `RxOrder.BumpFirst` | kernel/src/net/virtio_net.rs:366-368 | with the index first, it takes the recycled descriptor if and only if the slot held that one before |
| `RxOrder.BumpBeforeSlotFails` | kernel/src/net/virtio_net.rs:366-368 | a run after which the early index makes the device take a descriptor that it still holds, and the invariant is lost |
| `RxOrder.EntryBeforeIndexFails` | kernel/src/net/virtio_net.rs:346-351 | a run in which a used entry read ahead of the index check is not the completed one |
| `VirtioNet.ReceiveIsDriverSteps` | kernel/src/net/virtio_net.rs:345-373 | `receive` run alone is the five driver steps; it returns the oldest completion not yet received, or None exactly when there is none |
| `VirtioNet.VirtioNet.constructor` | kernel/src/net/virtio_net.rs:213-223 | every descriptor names the physical address of its own buffer, 1524 bytes that the device may write, and is posted in order; the state is an initial state of the protocol |
| `VirtioNet.VirtioNet.Receive` | kernel/src/net/virtio_net.rs:345-373 | None exactly when the indices are equal or the id is 16 or more; else the packet is the bytes behind the ten of header, at most 1514, of the buffer named by used slot `rx_last_used` mod 16; both indices go up by one modulo 2^16, the id stands in available slot `avail_idx` mod 16, queue 0 is notified, and nothing else changes |
| `Scheduler.ScanReaches` | kernel/src/process/scheduler.rs:22-28 | a scan long enough to reach a runnable entry finds it or one cyclically before it |
| `Scheduler.NextNone` | kernel/src/process/scheduler.rs:19-30 | `next` is None exactly when every entry is Blocked or Zombie, also from the initial cursor, and then an in-range cursor stays |
| `Scheduler.NextFirst` | kernel/src/process/scheduler.rs:19-30 | `next` returns the cyclically first entry after the cursor that is Ready or Running |
| `Scheduler.BoundedOvertaking` | kernel/src/process/scheduler.rs:11-36 | over any mix of `next`, `add`, `set_state`: while an entry is Ready or Running at every call and is not returned, no other entry is returned twice |
| `Scheduler.WaitBound` | kernel/src/process/scheduler.rs:11-36 | over any mix of calls, the calls of `next` before its turn are fewer than its cyclic distance from the cursor plus the number of `add` |
| `Scheduler.NoStarvation` | kernel/src/process/scheduler.rs:11-36 | an entry that is Ready or Running at every call is returned within queue-length calls, and one more for each `add` meanwhile |
| `Scheduler.SetFirstAt` | kernel/src/process/scheduler.rs:32-36 | `set_state` changes the first entry with the pid and no other, or nothing |
| `Scheduler.Scheduler.constructor` | kernel/src/process/scheduler.rs:11-13 | empty queue, cursor at the wrap-around start value |
| `Scheduler.Scheduler.Add` | kernel/src/process/scheduler.rs:15-17 | appends one entry, cursor unchanged |
| `Scheduler.Scheduler.Next` | kernel/src/process/scheduler.rs:19-30 | the in-place loop computes the specified cursor and pid: an entry that is Ready or Running, or None exactly when all are Blocked or Zombie |
| `Scheduler.Scheduler.SetState` | kernel/src/process/scheduler.rs:32-36 | changes the queue as specified, cursor unchanged |
| `IpPool.ScanLeast` | kernel/src/net/vswitch.rs:52-58 | the scan stops past the least unused candidate, or at broadcast when every candidate is used |
| `IpPool.SizeSays` | kernel/src/net/vswitch.rs:49-50 | the size is 2^(32 - mask), 0 for mask 0 and 1 for masks above 32 |
| `IpPool.UsableSays` | kernel/src/net/vswitch.rs:51 | usable addresses go from base + 2 up to but excluding the last one of the subnet, or 2^32 - 2 where it goes beyond |
| `IpPool.AllocateLeast` | kernel/src/net/vswitch.rs:48-60 | `allocate` returns the least unused usable address of the whole subnet, or None exactly when all are used |
| `IpPool.ReleaseKeeps` | kernel/src/net/vswitch.rs:64-69 | `release` removes exactly that address and keeps everything before the cursor used |
| `IpPool.ExecInv` | kernel/src/net/vswitch.rs:48-69 | after any run, used addresses are usable and everything before the cursor is used |
| `IpPool.ExhaustedIffFull` | kernel/src/net/vswitch.rs:48-60 | `allocate` fails exactly when the number of used addresses is the capacity |
| `IpPool.AvailableExactIff` | kernel/src/net/vswitch.rs:71-75 | for every new pool: `available` is true exactly when `allocate` would succeed, after every run, if and only if base + 2 fits in 32 bits and the subnet end fits or holds no address |
| `IpPool.FalselyAvailable` | kernel/src/net/vswitch.rs:71-75 | for every other new pool, how many allocations make `available` wrong, and which way |
| `IpPool.LastSubnet` | kernel/src/net/vswitch.rs:71-75 | 255.255.255.0/24 is one: after 252 addresses it claims another |
| `IpPool.LastPair` | kernel/src/net/vswitch.rs:71-75 | 255.255.255.254/31 is one: it claims to have none and hands out address 0 |
| `IpPool.UsableIff` | kernel/src/net/vswitch.rs:44-60 | a new pool hands out only addresses of its subnet, in every run, if and only if base + 2 fits in 32 bits |
| `IpPool.WrappedDrain` | kernel/src/net/vswitch.rs:44-60 | where base + 2 wraps, the pool hands out one address after the other from 0 or 1 on |
| `IpPool.WrappedFirst` | kernel/src/net/vswitch.rs:44 | 255.255.255.254/31 begins with address 0, which is not of the subnet |
| `IpPool.IpPool.constructor` | kernel/src/net/vswitch.rs:42-45 | empty pool with the cursor at base + 2, modulo 2^32; valid unless that wraps |
| `IpPool.IpPool.Allocate` | kernel/src/net/vswitch.rs:48-60 | the in-place loop computes the specified pool and address |
| `IpPool.IpPool.Release` | kernel/src/net/vswitch.rs:64-69 | computes the specified pool |
| `IpPool.IpPool.IsAvailable` | kernel/src/net/vswitch.rs:71-75 | for a valid pool whose end fits, tells whether `allocate` would succeed |
| `Shell.ValueIsNoFlag` | kernel/src/host/shell.rs:159-202 | no value accepted by either flag can be mistaken for a flag |
| `Shell.TwoScansAreOne` | kernel/src/host/shell.rs:159-202 | both scans succeed exactly when one left-to-right option parser does, with the same ports and volumes, on every argument list |
| `Shell.PortReads` | kernel/src/host/shell.rs:168-173 | a port mapping written in decimal, with leading zeros or plus signs or not, is read back |
| `Shell.PortOfExact` | kernel/src/host/shell.rs:168-173 | a port value is accepted exactly when it is two decimal numerals below 2^16 with a colon between them |
| `Shell.ValueReads` | kernel/src/host/shell.rs:189-197 | a written port or volume value is read back |
| `Shell.ContainerRunReads` | kernel/src/host/shell.rs:123-127 | options of `container run` written in any order and mix are read back, each kind in its order; arguments other than -p, --publish, -v, --volume and their values are ignored |
| `Shell.ContainerRunExact` | kernel/src/host/shell.rs:123-127 | an argument list is accepted, with some ports and volumes, if and only if it is written options and other arguments with those ports and volumes; exactly -p and --publish take ports, -v and --volume take volumes |
| `Shell.DanglingFlag` | kernel/src/host/shell.rs:165-167 | a flag at the end is the missing argument of its kind |
| `Shell.BadValue` | kernel/src/host/shell.rs:168-192 | a bad port value is a bad mapping, a volume value without colon a missing target |
| `Shell.ParsePorts` | kernel/src/host/shell.rs:159-178 | the while loop computes the specified scan, errors included |
| `Shell.ParseVolumes` | kernel/src/host/shell.rs:180-202 | the while loop computes the specified scan, errors included |
| `Gzip.StripEncode` | kernel/src/oci/layer.rs:37-87 | every member, its flag byte 4 for an extra field, 8 for a name, 16 for a comment and 2 for a header checksum added up with the unrelated bits, is stripped to exactly its compressed bytes |
| `Gzip.StripOnlyMembers` | kernel/src/oci/layer.rs:37-87 | any accepted input is the encoding of a well-formed member |
| `Gzip.StripExact` | kernel/src/oci/layer.rs:37-87 | the function returns a body if and only if the input is the encoding of a member with that body and that flag byte, of any method and with any reserved flag bits |
| `Gzip.FlagsAreFields` | kernel/src/oci/layer.rs:48-74 | the flags read off the sum are the fields that are there |
| `Gzip.StripStandardIff` | kernel/src/oci/layer.rs:37-87 | with method 8 and the reserved flag bits clear, acceptance is exactly that of a member as section 2.3 of RFC 1952 has it |
| `Gzip.AcceptsMethodZero` | kernel/src/oci/layer.rs:41-44 | a header of method 0 is accepted |
| `Gzip.PastZero` | kernel/src/oci/layer.rs:60-64 | the loop over a zero-terminated field stops just past its first zero, or reports none |
| `Gzip.StripGzipHeader` | kernel/src/oci/layer.rs:37-87 | on any input it terminates with the specified slice or error |
| `Paths.ResolveCanonical` | kernel/src/host/getty.rs:550-571 | the result is absolute and canonical for all inputs |
| `Paths.ResolveIdempotent` | kernel/src/host/getty.rs:550-571 | a resolved path resolves to itself from any working directory |
| `Paths.CanonicalFixed` | kernel/src/host/getty.rs:550-571 | the canonical paths are exactly the fixed points |
| `Paths.ResolveComposes` | kernel/src/host/getty.rs:550-571 | resolving b against the resolved a is resolving a/b, for non-empty a and relative b |
| `Paths.ResolveComposesIff` | kernel/src/host/getty.rs:550-571 | two-step resolution agrees with the joined path for all relative b if and only if a is non-empty or the directory has no parts; for a canonical directory that is the root |
| `Paths.NameAfterEmptyStep` | kernel/src/host/getty.rs:550-571 | in any other canonical directory they differ for every plain name |
| `Paths.ResolveNeedNotCompose` | kernel/src/host/getty.rs:550-571 | they differ in /home/root |
| `Paths.ResolvePath` | kernel/src/host/getty.rs:550-571 | the loop over a stack of parts computes the specified path |
| `Getty.MarkedIsDir` | kernel/src/host/getty.rs:152-157 | a path with its marker stored is a directory, and its parent shows it unless hidden |
| `Getty.ParentResolves` | kernel/src/host/getty.rs:560-561 | ".." resolves to the parent |
| `Getty.Getty.constructor` | kernel/src/host/getty.rs:24-26 | the first working directory is canonical |
| `Getty.Getty.Cd` | kernel/src/host/getty.rs:100-108 | the directory moves exactly to an existing directory and stays canonical |
| `Getty.Getty.Mkdir` | kernel/src/host/getty.rs:152-157 | adds one empty marker file to the view; the path is a directory afterwards |
| `Getty.MkdirThenCd` | kernel/src/host/getty.rs:152-157 | after `mkdir p`, `cd p` arrives, and the parent lists p unless it is the root or hidden |
| `Getty.MarkerHidden` | kernel/src/host/getty.rs:155 | the marker does not show in the listing of the directory it marks |
| `Getty.FreshIsEmpty` | kernel/src/host/getty.rs:152-157 | a directory below which nothing is stored lists nothing once it is made |
| `Getty.MkdirThenList` | kernel/src/host/getty.rs:152-157 | the same for the commands |
| `Overlay.ReadLowerIsMerge` | kernel/src/fs/overlayfs.rs:215-222 | the top-to-bottom search is lookup in one merged map |
| `Overlay.MergeKeys` | kernel/src/fs/overlayfs.rs:147 | a path is in the merged map exactly when some lower layer has it |
| `Overlay.EntrySound` | kernel/src/fs/overlayfs.rs:183-204 | each stored path contributes only a name that belongs in the listing |
| `Overlay.EntryComplete` | kernel/src/fs/overlayfs.rs:183-204 | each name that belongs is contributed by some stored path |
| `Overlay.ListingAgrees` | kernel/src/fs/overlayfs.rs:164-207 | for a visible name c the listing has "c/" exactly when it is a directory, and "c" exactly when it exists and is none |
| `Overlay.ListingSays` | kernel/src/fs/overlayfs.rs:164-207 | in terms of stored paths alone: "c/" is listed in d exactly when a path goes on below d/c, and "c" exactly when d/c is stored and none does, slashes after d or not |
| `Overlay.NothingElseListed` | kernel/src/fs/overlayfs.rs:189-204 | every entry is a name without slash or leading dot, or such a name and a slash |
| `Overlay.IsDirSays` | kernel/src/fs/overlayfs.rs:151-158 | a directory is the root, or a path below which a stored path goes on |
| `Overlay.ListingUnique` | kernel/src/fs/overlayfs.rs:206 | the listing is determined by the stored paths |
| `Overlay.OverlayMount.constructor` | kernel/src/fs/overlayfs.rs:64-66 | given lower layers, empty upper layer |
| `Overlay.OverlayMount.Read` | kernel/src/fs/overlayfs.rs:107-117 | reading is lookup in the one map the layers amount to |
| `Overlay.OverlayMount.ReadBelow` | kernel/src/fs/overlayfs.rs:215-222 | the loop over the lower layers is lookup in their merge |
| `Overlay.OverlayMount.Write` | kernel/src/fs/overlayfs.rs:120-128 | copy-up and write change one path of the view and no lower layer |
| `Overlay.OverlayMount.Remove` | kernel/src/fs/overlayfs.rs:132-140 | removal takes the upper entry away, so that the path falls back to the lower layers, with the right error otherwise |
| `Overlay.OverlayMount.Exists` | kernel/src/fs/overlayfs.rs:143-148 | membership in the view |
| `Overlay.OverlayMount.AllPaths` | kernel/src/fs/overlayfs.rs:173-179 | the collected paths are the keys of the view |
| `Overlay.OverlayMount.IsDirectory` | kernel/src/fs/overlayfs.rs:151-158 | root, or some path of the view lies below |
| `Overlay.OverlayMount.List` | kernel/src/fs/overlayfs.rs:164-207 | the loops return the sorted, duplicate-free listing, exactly |
| `SortedNames.InsertSorted` | kernel/src/fs/overlayfs.rs:181 | inserting into the ordered set keeps it strictly sorted |
| `SortedNames.LessIff` | kernel/src/fs/overlayfs.rs:181 | the order of the set is that of the dictionary: a proper prefix first, or the smaller first different character |
| `SortedNames.SortedUnique` | kernel/src/fs/overlayfs.rs:206 | a sorted listing is determined by its elements |
| `Http.ChunkedStable` | kernel/src/net/http.rs:107-135 | a successful decoding is unchanged by any bytes appended to the input |
| `Http.ChunkedExact` | kernel/src/net/http.rs:107-135 | a body is decoded if and only if the input is a sequence of sized pieces with that body, a line of size zero, and anything; every other input is an error |
| `ChunkedBody.DecompositionUnique` | kernel/src/net/http.rs:107-135 | a decoded input divides into sized pieces, last line and rest in one way only |
| `ChunkedBody.StandardReads` | kernel/src/net/http.rs:107-135 | a chunked body of section 7.1 of RFC 9112 is decoded to its content if and only if its size lines are UTF-8 and its sizes fit |
| `ChunkedBody.DecodedStandardIff` | kernel/src/net/http.rs:107-135 | a decoded input is a chunked body of section 7.1 if and only if its size lines are hexadecimal digits with extensions, a line break follows each chunk, and a trailer section and a line break end it |
| `ChunkedBody.AnyEndAccepted` | kernel/src/net/http.rs:131-132 | any two bytes pass for the line break after a chunk |
| `ChunkedBody.WrongEndAccepted` | kernel/src/net/http.rs:131-132 | XX after a chunk is accepted |
| `ChunkedBody.MissingTrailerAccepted` | kernel/src/net/http.rs:123-125 | an input that stops after the zero-size line is accepted |
| `ChunkedBody.SignAccepted` | kernel/src/net/http.rs:118-120 | a plus sign or white space in front of a size is accepted |
| `ChunkedBody.BareSemicolonAccepted` | kernel/src/net/http.rs:118 | a semicolon without an extension name is accepted |
| `ChunkedBody.HighByteRefused` | kernel/src/net/http.rs:115-116 | a grammatical extension with a byte that is no UTF-8 is refused |
| `Http.ChunkedReads` | kernel/src/net/http.rs:107-135 | any split of a body into non-empty chunks, with any extensions, decodes to the body |
| `Http.HeadEnds` | kernel/src/net/http.rs:137-139 | the separator found is the one that ends the head |
| `Http.LinesOfJoined` | kernel/src/net/http.rs:64 | splitting the head gives its lines back |
| `Http.StatusReads` | kernel/src/net/http.rs:141-147 | a written status line gives its code back, with or without a reason |
| `Http.HeadersRead` | kernel/src/net/http.rs:70-80 | header lines give names and values back, white space around either cut off, in order; lines without a colon are passed over |
| `Http.StatusExact` | kernel/src/net/http.rs:141-147 | a code is read exactly from a word, a space, a decimal below 65536 and nothing or a space and anything; every other line is an invalid status |
| `Http.FindFirst` | kernel/src/net/http.rs:137-139 | the search for a blank line finds the first occurrence, or there is none |
| `Http.HeadRefused` | kernel/src/net/http.rs:57-63 | without a blank line, or with a head that is no UTF-8, the response is invalid |
| `Http.HeadReads` | kernel/src/net/http.rs:55-104 | the head of any rendered response is recovered whatever bytes follow |
| `Http.BodyByChunks` | kernel/src/net/http.rs:83-89 | with a header that spells transfer-encoding in any case, of value chunked in any case, the rest is decoded as chunks |
| `Http.BodyByLength` | kernel/src/net/http.rs:90-97 | without one, the first header that spells content-length in any case says how many bytes, of those there are |
| `Http.BadLength` | kernel/src/net/http.rs:96 | a first length that is no number makes the response invalid |
| `Http.BodyByClose` | kernel/src/net/http.rs:98-100 | with neither the body is the rest |
| `Http.BodyReads` | kernel/src/net/http.rs:83-101 | the body is recovered under each of the three framings, which are told by names spelt letter by letter |
| `Utf8.Utf8Exact` | kernel/src/net/http.rs:62-63 | a text passes for UTF-8 exactly when it is the encoding of Unicode scalar values |
| `Http.ResponseReads` | kernel/src/net/http.rs:55-104 | round trip: status, headers and body of any rendered response are recovered under every framing |
| `Http.ParseChunked` | kernel/src/net/http.rs:107-135 | the loop computes the specified decoding, errors included |
| `Http.ReadChunk` | kernel/src/net/http.rs:110-132 | one round of the loop |
| `Http.ParseHeaders` | kernel/src/net/http.rs:70-80 | the loop computes the specified headers |
| `Http.ParseResponse` | kernel/src/net/http.rs:55-104 | computes the specified result, errors included |
| `WordBits.BitRotated` | kernel/src/oci/registry.rs:166 | rotation to the right by n brings down bit i + n, around the end of the word, for every amount |
| `Sha256.TurnIsRotr` | kernel/src/oci/registry.rs:166 | rotation of a machine word is the shifted disjunction of section 3.2 of FIPS 180-4, for every amount |
| `Sha256.ProgramIsStandard` | kernel/src/oci/registry.rs:166-177 | the program's sigma functions, written with rotations, have the values of section 4.1.2 of FIPS 180-4 |
| `Sha256Standard.ChBits` | kernel/src/oci/registry.rs:174 | bit i of Ch(x, y, z) is bit i of y where x has a one, and of z otherwise |
| `Sha256Standard.MajBits` | kernel/src/oci/registry.rs:177 | bit i of Maj is one exactly when at least two of the three bits are |
| `Sha256Standard.BigSigma0Bits` | kernel/src/oci/registry.rs:176 | bit i is the parity of bits i + 2, i + 13 and i + 22, around the end of the word |
| `Sha256Standard.BigSigma1Bits` | kernel/src/oci/registry.rs:173 | bit i is the parity of bits i + 6, i + 11 and i + 25 |
| `Sha256Standard.SmallSigma0Bits` | kernel/src/oci/registry.rs:166 | bit i is the parity of bits i + 7, i + 18 and, below the end of the word, i + 3 |
| `Sha256Standard.SmallSigma1Bits` | kernel/src/oci/registry.rs:167 | bit i is the parity of bits i + 17, i + 19 and, below the end of the word, i + 10 |
| `Sha256Standard.PrimesInOrder` | kernel/src/oci/registry.rs:127-144 | the list begins with 2 and goes on from each prime to the next, 64 in all |
| `Sha256Standard.RoundConstants` | kernel/src/oci/registry.rs:127-144 | round constant i is the first 32 bits of the fractional part of the cube root of prime i |
| `Sha256Standard.InitialWords` | kernel/src/oci/registry.rs:122-125 | initial word i is the first 32 bits of the fractional part of the square root of prime i |
| `Sha256Standard.WordOfBytes` | kernel/src/oci/registry.rs:162-164 | a word of the block is its four bytes, most significant first |
| `Sha256.PadMinimal` | kernel/src/oci/registry.rs:146-157 | no shorter padding of the form of section 5.1.1 fills whole blocks |
| `Sha256.PadInjective` | kernel/src/oci/registry.rs:146-157 | no two messages share a padded buffer, whatever their lengths |
| `Sha256.PadMessage` | kernel/src/oci/registry.rs:146-157 | the filled buffer is the message, the one bit, zeros and the length in bits modulo 2^64 |
| `Sha256.ScheduleNext` | kernel/src/oci/registry.rs:165-169 | the program's order of additions gives the schedule word of section 6.2.2 |
| `Sha256.Expand` | kernel/src/oci/registry.rs:161-169 | the array holds the message schedule of the block |
| `Sha256.ExpandRest` | kernel/src/oci/registry.rs:165-169 | words 16 to 63 of the schedule, filled in place |
| `Sha256.WorkingVariables` | kernel/src/oci/registry.rs:170-183 | the shifted working variables are the 64 rounds |
| `Sha256.CompressBlock` | kernel/src/oci/registry.rs:160-188 | one pass over the hash array is one compression |
| `Sha256.HashBlocks` | kernel/src/oci/registry.rs:160-188 | the in-place loop is the fold of the compression function over the blocks |
| `Sha256.HashWith` | kernel/src/oci/registry.rs:120-195 | padding, fold and output bytes put together, for any functions of the family |
| `Sha256.Hash` | kernel/src/oci/registry.rs:120-195 | with the program's own functions the output is the digest of FIPS 180-4, the length field taken modulo 2^64 |
| `Sha256.WordBytes` | kernel/src/oci/registry.rs:190-194 | the array holds the words of the hash as bytes |
| `Sha256.DigestBytes` | kernel/src/oci/registry.rs:190-194 | bytes 4 i to 4 i + 3 have the value of word i, most significant first |
| `Sha256.HexInjective` | kernel/src/oci/registry.rs:197-204 | different byte strings have different hexadecimal texts |
| `Sha256.HexDigits` | kernel/src/oci/registry.rs:197-204 | byte i is shown by the digits of its quotient and remainder by 16 in 0123456789abcdef |
| `Sha256.HexEncode` | kernel/src/oci/registry.rs:197-204 | the loop computes the lowercase hexadecimal text |
| `Sha256.Verify` | kernel/src/oci/registry.rs:103-116 | accepts exactly "sha256:" followed by the lowercase hexadecimal digest |
| `Sha256.AcceptedTogether` | kernel/src/oci/registry.rs:103-116 | one digest text accepts two messages only if their digests are equal |
| `Config.ParseYaml` | kernel/src/config.rs:41-177 | the loop over lines computes the specified containers or error |
| `Config.NeverFails` | kernel/src/config.rs:41-177 | no text makes the reader fail: the missing image it can report never occurs |
| `ConfigText.KeyLineReads` | kernel/src/config.rs:218-229 | indentation, key and value of a written line are read back |
| `ConfigText.OneKey` | kernel/src/config.rs:105-150 | a line written for one key matches no other key |
| `ConfigText.MemoryReads` | kernel/src/config.rs:244-255 | a size written as number and unit is read back in bytes if and only if the product is below 2^64 |
| `ConfigText.MemoryExact` | kernel/src/config.rs:244-255 | for every text: a size is a decimal numeral below 2^64, perhaps white space, and kb, mb or gb in letters of either case, the product modulo 2^64; or just a numeral |
| `ConfigLines.PortExact` | kernel/src/config.rs:231-233 | for every text: a port is a decimal numeral below 2^16 between white space |
| `ConfigLines.StepNoise` | kernel/src/config.rs:53-55 | blank lines, comments and lines at an indentation that the format does not have change nothing |
| `ConfigLines.StepHeader` | kernel/src/config.rs:58-67 | a header closes the container before it and opens the section it names |
| `ConfigLines.StepSkipped` | kernel/src/config.rs:69-71 | indented lines outside the containers section change nothing |
| `ConfigLines.StepUnknown` | kernel/src/config.rs:87-163 | an unknown key at indentation 4 flushes the pending port, elsewhere it changes nothing |
| `ConfigLines.StepRestart` | kernel/src/config.rs:105-113 | always and on-failure set those policies, every other word the policy never |
| `ConfigLines.StepHost` | kernel/src/config.rs:115-132 | a host line at indentation 4 or 6 flushes the port before it and begins another |
| `ConfigLines.StepContainer` | kernel/src/config.rs:133-163 | a container line at indentation 6 or 8 completes it |
| `ConfigRoundTrip.PortsBlockReads` | kernel/src/config.rs:87-163 | a ports section takes in the port pending before it and adds the ports of all entries that give one, the last of which stays pending |
| `ConfigRoundTrip.RestartBlockReads` | kernel/src/config.rs:105-113 | a restart line flushes the pending port and sets the policy its word says |
| `ConfigRoundTrip.ResourcesBlockReads` | kernel/src/config.rs:139-152 | a resources section flushes the pending port and sets the limits it lists, in any order |
| `ConfigRoundTrip.ContainerReads` | kernel/src/config.rs:73-163 | from any state between containers, a container with any keys in any order takes in the port pending before it and leaves its own last one pending |
| `ConfigRoundTrip.ContainerStandsFor` | kernel/src/config.rs:201-213 | building gives the written values, and defaults for the keys left out |
| `ConfigRoundTrip.CutOff` | kernel/src/config.rs:73-85 | the next container line builds the container before without its pending port |
| `ConfigRoundTrip.FileReads` | kernel/src/config.rs:41-177 | exactly what any written file is read as: sections in any number, containers with keys in any order, left out, repeated or unknown, entries that give no port, comments and blank lines anywhere |
| `ConfigRoundTrip.RoundTripIff` | kernel/src/config.rs:41-177 | such a file is read back as meant if and only if no container ends on a port but one that the end of the file follows |
| `ConfigRoundTrip.RoundTrip` | kernel/src/config.rs:41-177 | with key order ports, restart, resources every file is read back as meant |
| `ConfigRoundTrip.PortMovesOn` | kernel/src/config.rs:73-85 | a container of one ports entry, followed by one without keys, loses that port to it |
| `Text.SplitJoin` | kernel/src/net/http.rs:64 | splitting a joined text at its first separator gives the parts back |
| `Text.ParseShow` | kernel/src/config.rs:231-233 | a number written in any radix up to sixteen is read back below the limit and refused from there on |
| `Text.ParseExact` | kernel/src/net/http.rs:119 | for every text: a number is read exactly from a numeral of it, digits by their places in 0123456789abcdef of either case, behind a plus sign or not, below the limit |
| `Text.TrimExact` | kernel/src/net/http.rs:76-77 | trimming gives r exactly when the text is r between characters 9 to 13 and 32, and r neither begins nor ends with one |
| `Text.LowerSpells` | kernel/src/net/http.rs:84-85 | names are equal without case exactly when they are letter by letter, small or capital |
| `Text.StartsWithIff` | kernel/src/fs/overlayfs.rs:184 | a text starts with a prefix exactly when it is the prefix and something |

## Left out

- BuddyAllocator.BuddyAllocator.NewFromFrames: frames given twice lead to the specified lists, which are then not coalesced; the object is not valid.
- BuddyAllocator.BuddyAllocator.Free: for a block that is not outstanding with that order, only the lists are stated; the source leaves the match to its callers.
- BuddyOps.OrderOfLeast: frame numbers and counts are unbounded; that 64-bit counts wrap to the same order is `MachineOrderExact`. In a debug build `next_power_of_two` panics above 2^63 instead.
- BuddyAllocator.BuddyAllocator.Admit: the outstanding blocks are a ghost map; in the source they live with the callers.
- VirtioNet.DeliveryTheorem: assumes the device contract of section 2.6 of VIRTIO 1.1 (it returns only ids it took, each once); a misbehaving device is not modelled.
- RxRing.StepKeeps: program order of the memory accesses is assumed. The source does not enforce it on this path: its fences in `receive` (lines 365 and 369) stand before the slot write and after the index write, with nothing between those two writes, nor between the index read at line 346 and the used entry read at line 351; the order is left to compiler and processor. `RxOrder` shows that the theorems need it.
- VirtioNet.VirtioNet.constructor: a buffer address below the mapping offset, on which the source's subtraction overflows, is excluded; the other device registers are left out.
- VirtioNet.VirtioNet.Receive: the transmit token returned beside the packet is only a reference to the device and is left out. Device steps in between are covered by the interleaving model.
- Scheduler.Scheduler.Add: the queue stays within `isize::MAX` entries, which a vector cannot exceed; the theorems over runs ask the same of the queue they end with.
- IpPool.IpPool.constructor: base + 2 wraps at 2^32, as in a release build; a debug build panics. Addresses are numbers, not four octets.
- Shell.TwoScansAreOne: the single parser reports success or failure; which of two errors comes first depends on the order of the scans.
- Gzip.StripExact: a member here may have any compression method and reserved flag bits, which section 2.3 of RFC 1952 fixes and the source does not look at; nor does it look at the checksum bytes. Inflating the body belongs to a library.
- Gzip.PastZero: the source writes this loop twice, for file name and comment; it is one method here.
- Http.ResponseReads: header text is ASCII and a byte is one `char`; trimming knows ASCII white space only.
- Sha256.Hash: from 2^61 bytes on the bit length wraps, as in a release build; a debug build panics. Collision resistance is not a theorem.
- Sha256.WorkingVariables: schedule, rounds and block loop are methods of their own; the source nests them.
- Sha256.Expand: a copied slice is written byte by byte or word by word.
- Config.ParseYaml: a memory size whose product overflows wraps at 2^64, as in a release build; a debug build panics.
- ConfigRoundTrip.RoundTripIff: values are texts without a line break or outer spaces; lowercasing and trimming know ASCII only. A line of the wrong place, such as a container line without a host line before it, is covered by the step functions but not by a written file.
- Overlay.OverlayMount.AllPaths: layers are maps from path to bytes; the source keeps them in ordered maps whose order does not show in any result.
- Overlay.OverlayMount.List: the ordered set of the source is a sorted sequence.
- Getty.Getty.Cd: the printed message is left out.
- The contents of the boot file system (`new_kernel_root`) are left out: a mount is given any lower layers.
- The transmit path of the network driver has no ownership protocol to prove and is left out.
- Processor set-up, interrupts, paging, the heap and the serial port are left out.
- Code that lives in libraries (the TCP stack, TLS, JSON, inflate) is left out.
- The other shell commands, the seccomp, namespace and cgroup tables, and the container and image stores would add only easy members.
