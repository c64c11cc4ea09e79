# opencis-core: a verified model of its fabric

opencis-core emulates a Compute Express Link (CXL) fabric in software. This project models, in Dafny,
the parts of it that keep state and move data, and proves what they are for:

- **Device coherence stack** (`DeviceCache`, `MemDcoh`, `CoherenceProtocol`). A set-associative
  write-back cache with MESI states sits on a coherency agent with an INIT/START/WAIT state machine and
  a snoop filter of what the host holds. `CacheController` and `CxlMemDcoh` are the classes; every
  method of the agent runs from one suspension point to the next and is proved to be one step of the
  transition system in `CoherenceProtocol`, where the results over whole runs are proved: single
  writer, no failing assertion, progress, what each request gets, and the refinement of one flat memory.
  The line the cache evicts is the first of its set in the log of all accesses.
- **Long accesses of a processor** (`CpuAccess`): loads and stores of many lines through the same cache.
- **Multi-logical devices** (`LdFabric`): many logical devices (LDs) behind one link behave as private
  in-order memories.
- **PCI enumeration** (`PciScan`, `BarRegister`): bus numbers, BAR slots and bridge windows of a first
  scan, the routing of configuration and memory requests during the scan and, by the registers it wrote,
  after it, and the sizes of BARs on both sides of the register.
- **Address decoding** (`HdmDecoder`), **bit buffers and structures** (`BitBuffer`, `StructureLayout`),
  **masked registers** (`MaskedRegisters`: which bits a write can change), the **page-sparse memory**
  (`SparseMemory`) and the **CXL.io request codec** (`CxlIoCodec`).
- **Port-based routing** (`PbrRouting`): routing tables and the data plane.

`Bits` and `LittleEndian` define Python's bitwise operators and byte conversions on unbounded integers;
`Outcomes` has the results of calls that may raise.

## How coroutines and the host are modelled

A load or store of the cache is cut where it waits for the agent: `CacheCoherentLoad` and
`CacheCoherentStore` run up to the first wait, `Resume` takes the agent's answer and runs to the next
wait or to the end. The answer and the fill it causes are one step, because there is no suspension
between them and waiting coroutines are woken in order. One load or store is in progress at a time. A
host request is one step of the agent: while the agent waits for the cache's snoop answer, device
requests stay in its queue. Host snoops may come between any two steps of a load, store or eviction.

The home agent of the host is not part of this model. It is an environment with these rules
(`CoherenceProtocol.HostAllows`): it sends no request for a line whose back snoop is outstanding; it
answers an invalidating back snoop with BIRsp-I; a write keeps a copy only of a line the host owns. A
write that a back-snoop answer depends on completes before that answer. The host may drop or downgrade
what it holds at any time. What it holds is what Cmp-S and Cmp-E grant; a plain Cmp grants nothing.

## Where the code differs from what it is meant to do

Each of these is a lemma or a contract with the exact condition:

- A host write to a line that is being evicted is overwritten by the older value of the write-back
  (`HostWriteLostToEviction`); an invalidating host read that takes a modified line answers Cmp-E or Cmp
  without writing memory, unless it is MemRd with meta value Invalid, and the value is gone if the host
  drops the line (`OwnershipReadForgetsValue`). These two are the only ways to lose a value
  (`StepKeepsFlat`, `RunIsFlatIffHazardFree`), and after each of them the host can read an older value
  (`HazardIsObservable`, `HazardLosesUpdate`).
- A clean line need not equal memory (`CleanIsNotMemory`): it does exactly as long as no host read makes
  a modified line shared while memory has another value (`StepKeepsClean`, `RunIsCleanIffDemotionFree`).
  Leaving out the write of WRITE_BACK_CLEAN, as a comment in the agent suggests, loses the value exactly
  when memory does not have it (`SkippedCleanWrite`), and is right in runs without demotions and hazards
  (`CleanWritesAreRedundant`).
- A load of lines outside all memory ranges returns zeros, because the hub returns `False`
  (`CxlMemoryHub.Load`).
- The LD-ID field has four bits; LD 16 and above are addressed as LD `n % 16` (`StampReachesItsLd`).
- `commit` of switch and PBR decoders checks `index > len` and so raises for `index == len`
  (`TargetDecoderManager.Commit`); a bad interleave code raises after the range has been changed.
- `get_hpa` uses decoder 0 whichever decoder was used on the way in, and gives nothing back when decoder
  0 is interleaved (`HostAddressRoundTrip`, `InterleavedFirstDecoderLosesAddress`,
  `AddressLostAtConcreteInput`).
- The device decode is exact for offsets below 2^52 and for no others (`DeviceDecodeExact`).
- A BAR is found with its length less its flags and without the bits from 4 GB on: the driver does not mask
  the flags out of the answer (`SizeFoundIff`). No device here sets a flag.
- Memory that is given out from address 0 on loses its first BAR: a base of 0 counts as not set, and an
  unprogrammed window or BAR1 claims address 0. A BAR that ends at 4 GB is lost, too: its base equals the
  size mask, which is taken for the answer to a size query and not recorded (`MemRouting`,
  `AddressZeroLost`, `LastMegabyteLost`).
- A mask given for a structure field replaces the masks inside the structure for writes that are not
  handed further down, so that a write that starts in a byte field reaches a read-only byte behind it
  (`CrossingWriteReachesReadOnly`; `UnreachedNeverChanges` and `ReachedCanChange` say which bits can
  change).
- An access at an address inside a line is an access of the line: a store puts its bytes at the start of
  the line (`StorePutsMeantBytes`), a load of a cached line gives the line (`LoadGivesMeantBytes`), and one
  that misses in host memory fills the line with the bytes from its own address on (`MissKeepsLines`,
  `LoadKeepsLines`).
- `write_bytes` past the end makes the buffer grow (`ShareableByteArray.WriteBytes`).
- The memory emulator reads and writes the object behind a `memoryview`, not the viewed part
  (`WriteOfView`, `ReadOfView`), and raises for an empty object.
- `length_upper` of a CXL.io memory request is always 0, so `get_data_size` is right exactly below 256
  DWORDs (`DataSizeRoundTrip`).
- `get_cfg_addr_write_info` does not terminate without an enabled byte (`FirstLoopStopsIff`), as in a
  request of size 0, which is accepted (`FilledLoopStopsIff`, `EmptyRequest`).
- A DPID is cut to twelve bits on encapsulation (`DpidKept`, `DpidsSharingRoutes`).

## Model

| member | source | states |
|---|---|---|
| `CoherenceProtocol.StepKeepsInvariant` | opencis/cxl/component/cxl_mem_dcoh.py:128-330 | Every step of the device, the agent or an allowed host keeps: operation, queue and agent agree; a line the host owns is not cached and one it shares is at most Shared; every held line is in the snoop filter unless its invalidation is outstanding; and no assertion of the cache fails |
| `CoherenceProtocol.RunKeepsInvariant` | opencis/cxl/component/cxl_mem_dcoh.py:358-390 | Single writer in every reachable state, for every interleaving of device, agent and host steps |
| `CoherenceProtocol.OperationsComplete` | opencis/cxl/component/cxl_mem_dcoh.py:358-380 | A waiting load or store always has a next agent step or host answer, each of which brings it nearer to its end, and nothing else sets it back |
| `CoherenceProtocol.StepKeepsFlat` | opencis/cxl/component/cxl_mem_dcoh.py:182-217 | Cache, agent and memory keep refining one flat memory in a step if and only if the step is none of the two hazards |
| `CoherenceProtocol.StepReadsLatest` | opencis/cxl/component/cache_controller.py:342-379 | Every device load and every host read returns the last value stored to its line |
| `CoherenceProtocol.RunIsFlatIffHazardFree` | opencis/cxl/component/cxl_mem_dcoh.py:182-259 | A run refines the flat memory in all its states exactly when it meets no hazard |
| `CoherenceProtocol.NoLostUpdate` | opencis/cxl/component/cxl_mem_dcoh.py:278-330 | In a run without hazards no update is lost: all reads of device and host are of the last value |
| `CoherenceProtocol.HazardIsObservable` | opencis/cxl/component/cxl_mem_dcoh.py:182-259 | After either hazard the host reads a value that is not the last one within three more steps, which are always possible |
| `CoherenceProtocol.HazardLosesUpdate` | opencis/cxl/component/cxl_mem_dcoh.py:182-259 | The converse of NoLostUpdate over runs: a run that meets a hazard agrees up to it with a run in which a read is not of the last value |
| `CoherenceProtocol.ReadersMeetNoHazard` | opencis/cxl/component/cxl_mem_dcoh.py:155-160 | A host that only reads with SnpData or SnpCur causes no hazard, whatever the device does |
| `CoherenceProtocol.DeviceNeverLosesAnUpdate` | opencis/cxl/component/cxl_mem_dcoh.py:292-301 | From power-on, over all device loads, stores and evictions mixed with such host reads, every read is of the last value although snoops leave memory stale |
| `CoherenceProtocol.DataSnoopGrants` | opencis/cxl/component/cxl_mem_dcoh.py:155-201 | After a SnpData request the host holds the line exclusively with Cmp-E if the device has no copy, shared with Cmp-S if the device has a shared or modified one, and as before with Cmp if the device has an exclusive one; a device copy becomes Shared with its data, and nothing else changes |
| `CoherenceProtocol.InvalidatingSnoopGrants` | opencis/cxl/component/cxl_mem_dcoh.py:157-198 | After a SnpInv request the device has no copy; with meta value ANY the host holds the line exclusively with Cmp-E, otherwise as before with Cmp; memory is written exactly when MemRd with INVALID takes a copy |
| `CoherenceProtocol.CurrentSnoopGrants` | opencis/cxl/component/cxl_mem_dcoh.py:159-160 | A SnpCur request changes nothing and answers Cmp |
| `CoherenceProtocol.CompletionData` | opencis/cxl/component/cxl_mem_dcoh.py:179-201 | The data of a completion is the device's copy, or that of memory if there is none |
| `CoherenceProtocol.WhoMayKeepWriting` | opencis/cxl/component/cxl_mem_dcoh.py:165-190 | After a request the host may write the line and keep it exactly when it owned the line before, or a SnpData request found no device copy, or the request was SnpInv with ANY |
| `CoherenceProtocol.HostWriteTakes` | opencis/cxl/component/cxl_mem_dcoh.py:240-259 | A host write is in memory afterwards, the device has no copy, and the host holds what the meta value says |
| `CoherenceProtocol.AgentAsksHost` | opencis/cxl/component/cxl_mem_dcoh.py:302-330 | The agent sends a back snoop exactly for a line in its filter that the device does not write back, invalidating for a store, and takes a line out of the filter exactly when it asks the host to give it back |
| `CoherenceProtocol.SnoopAsksOnce` | opencis/cxl/component/cxl_mem_dcoh.py:302-330 | Whatever kind of snoop the agent runs, the host is asked once for a line in the filter, which leaves the filter exactly when it is to be given up |
| `CoherenceProtocol.HostGivesUp` | opencis/cxl/component/cxl_mem_dcoh.py:262-275 | What the host gives up by dropping or downgrading a line and by its answer to a back snoop, and that no other line changes hands |
| `CoherenceProtocol.LoadGets` | opencis/cxl/component/cxl_mem_dcoh.py:262-330 | A load ends with memory's value in the line, exclusive, or shared if the host keeps it shared |
| `CoherenceProtocol.StoreGets` | opencis/cxl/component/cache_controller.py:382-421 | A store ends with its value in the line, modified, and in no other place |
| `CoherenceProtocol.WriteBackGets` | opencis/cxl/component/cxl_mem_dcoh.py:292-301 | A write-back puts the value sent into memory, frees the victim, and the operation goes on to ask for its line |
| `CoherenceProtocol.BeginGets` | opencis/cxl/component/cache_controller.py:342-417 | What a load or store does first: hit, ownership request for a shared line, write-back of the victim as clean or dirty, or request of the line |
| `CoherenceProtocol.FilledAsFound` | opencis/cxl/component/cache_controller.py:249-262 | A line filled from the answer to a data snoop has the state of the copy found, one from an invalidating snoop is owned, and one from a current snoop is not kept |
| `CoherenceProtocol.StepKeepsClean` | opencis/cxl/component/cxl_mem_dcoh.py:146-217 | A step keeps every line that is not Modified equal to memory if and only if it is no demotion: a host read with SnpData of a Modified line that differs from memory |
| `CoherenceProtocol.RunIsCleanIffDemotionFree` | opencis/cxl/component/cxl_mem_dcoh.py:146-217 | Clean lines equal memory in all states of a run exactly when the run has no demotion |
| `CoherenceProtocol.SkippedCleanWrite` | opencis/cxl/component/cxl_mem_dcoh.py:292-301 | Answering WRITE_BACK_CLEAN without writing keeps the last value of the line exactly when memory has the data already |
| `CoherenceProtocol.CleanWritesAreRedundant` | opencis/cxl/component/cxl_mem_dcoh.py:292-301 | In a run without hazards and demotions it could be left out every time |
| `CoherenceProtocol.CleanIsNotMemory` | opencis/cxl/component/cxl_mem_dcoh.py:297-298 | A concrete run with a demotion, in which a Shared block differs from memory and leaving out the write of its WRITE_BACK_CLEAN loses the value |
| `CoherenceProtocol.HostWriteLostToEviction` | opencis/cxl/component/cxl_mem_dcoh.py:255-256 | A concrete run in which a host write is overwritten by an older value being written back |
| `CoherenceProtocol.OwnershipReadForgetsValue` | opencis/cxl/component/cxl_mem_dcoh.py:189-198 | A concrete run in which an ownership read of a modified line answers Cmp-E and the value is gone after the host drops the line |
| `DeviceCache.SplitAndReassemble` | opencis/cxl/component/cache_controller.py:188-201 | Tag and set of an aligned address give the address back, for any power-of-two geometry |
| `DeviceCache.ReassembleAndSplit` | opencis/cxl/component/cache_controller.py:188-201 | The address put together from a tag and a set splits into them |
| `DeviceCache.ExtractTag` | opencis/cxl/component/cache_controller.py:188-189 | The masked and shifted address is the tag of its line |
| `DeviceCache.ExtractSet` | opencis/cxl/component/cache_controller.py:191-192 | The masked and shifted address is the set of its line |
| `DeviceCache.AssembleAddr` | opencis/cxl/component/cache_controller.py:197-201 | The or-ed parts are the address of the line |
| `DeviceCache.PrioritiesDistinct` | opencis/cxl/component/cache_controller.py:184-186 | Valid blocks of a set have distinct priorities below the set counter |
| `DeviceCache.TouchKeepsRecency` | opencis/cxl/component/cache_controller.py:184-186 | Priorities stay the times of the last touch |
| `DeviceCache.AccessKeepsOrder` | opencis/cxl/component/cache_controller.py:184-186 | In every set, blocks were last touched in the order in which their lines were last accessed: kept by every access that touches the line's way, and by no other |
| `DeviceCache.LeastRecentIsFirst` | opencis/cxl/component/cache_controller.py:210-219 | The line in the way touched longest ago was accessed before all other cached lines of its set |
| `DeviceCache.TagsUnique` | opencis/cxl/component/cache_controller.py:228-235 | No two valid blocks of a set have the same tag |
| `DeviceCache.SnoopKeepsSuspended` | opencis/cxl/component/cache_controller.py:318-339 | A host snoop changes nothing that a load, store or eviction waiting for the agent relies on |
| `DeviceCache.CacheController.constructor` | opencis/cxl/component/cache_controller.py:105-143 | An empty cache of the given geometry |
| `DeviceCache.CacheController.PriorityUpdate` | opencis/cxl/component/cache_controller.py:184-186 | The block gets the counter of its set, the counter goes up, and the cached lines are the same |
| `DeviceCache.CacheController.UpdateBlockState` | opencis/cxl/component/cache_controller.py:203-208 | Exactly the line of the block is added, changed or removed |
| `DeviceCache.CacheController.DataRead` | opencis/cxl/component/cache_controller.py:240-243 | Reads the data and touches the block; the cached lines are the same |
| `DeviceCache.CacheController.DataWrite` | opencis/cxl/component/cache_controller.py:245-247 | Exactly the line of the block gets the data |
| `DeviceCache.CacheController.FindReplaceBlock` | opencis/cxl/component/cache_controller.py:210-219 | The first block of least priority |
| `DeviceCache.CacheController.FindInvalidBlock` | opencis/cxl/component/cache_controller.py:221-226 | A free block, or none when all are valid |
| `DeviceCache.CacheController.FindValidBlock` | opencis/cxl/component/cache_controller.py:228-235 | The way that holds the line, or none when the line is not cached |
| `DeviceCache.CacheController.CohToCacheStateLookup` | opencis/cxl/component/cache_controller.py:318-339 | Finds the line's state and data and leaves the lines as the snoop asks; a line that is found is logged as accessed |
| `DeviceCache.CacheController.RunCohRequest` | opencis/cxl/component/cache_controller.py:468-489 | The snoop answer for the line's previous state, and the lines as the snoop leaves them; a line that is found is logged as accessed, also when it is taken |
| `DeviceCache.CacheController.ChooseBlock` | opencis/cxl/component/cache_controller.py:353-360 | A free way, or when all are valid the way whose last touch is oldest, with the address, data and dirtiness of its line |
| `DeviceCache.CacheController.Prepare` | opencis/cxl/component/cache_controller.py:345-360 | A hit finds the line's way; a miss reserves a free way or the least recently touched one |
| `DeviceCache.CacheController.CacheCoherentLoad` | opencis/cxl/component/cache_controller.py:342-368 | Up to the first wait: a hit returns the line's data and is logged as an access; a miss evicts exactly when the set is full, and then the line that the log of all accesses has before every other cached line of the set |
| `DeviceCache.CacheController.CacheCoherentStore` | opencis/cxl/component/cache_controller.py:382-417 | Up to the first wait: a store to an owned line changes exactly that line and is logged; a shared one asks for ownership; a miss evicts exactly when the set is full, and then the line accessed first of all in the set |
| `DeviceCache.CacheController.Resume` | opencis/cxl/component/cache_controller.py:362-421 | After the agent's answer: the victim leaves, or the line is filled in the state and with the data answered, or the store is done; no other line changes, and the fill or store is logged as an access |
| `MemDcoh.CxlMemDcoh.constructor` | opencis/cxl/component/cxl_mem_dcoh.py:63-97 | The initial state of the protocol |
| `MemDcoh.CxlMemDcoh.Load` | opencis/cxl/component/cache_controller.py:342-368 | One BeginLoad step of the protocol; a finished load returns what the step says |
| `MemDcoh.CxlMemDcoh.Store` | opencis/cxl/component/cache_controller.py:382-417 | One BeginStore step of the protocol |
| `MemDcoh.CxlMemDcoh.Respond` | opencis/cxl/component/cxl_mem_dcoh.py:288-291 | The answer reaches the waiting operation and the agent is back in INIT |
| `MemDcoh.CxlMemDcoh.Fetch` | opencis/cxl/component/cxl_mem_dcoh.py:363-372 | The AgentFetch step: the oldest device request becomes the agent's packet |
| `MemDcoh.CxlMemDcoh.ProcessSnoop` | opencis/cxl/component/cxl_mem_dcoh.py:302-330 | A snoop request is answered at once on a filter miss and becomes a back snoop on a hit, as the protocol's step says |
| `MemDcoh.CxlMemDcoh.ProcessWrite` | opencis/cxl/component/cxl_mem_dcoh.py:292-301 | Dirty and clean write-backs both go to memory |
| `MemDcoh.CxlMemDcoh.ProcessCacheToDcoh` | opencis/cxl/component/cxl_mem_dcoh.py:278-330 | The AgentRun step with its packets for the host, and nothing while waiting |
| `MemDcoh.CxlMemDcoh.ProcessBiRsp` | opencis/cxl/component/cxl_mem_dcoh.py:262-275 | The HostBiRsp step: the answer reaches the waiting operation with the data of memory |
| `MemDcoh.CxlMemDcoh.Complete` | opencis/cxl/component/cxl_mem_dcoh.py:146-201 | Cmp-E exactly for SnpData on a miss and for SnpInv with ANY, Cmp-S exactly when the cache answers RspS or RspM; snoop-filter update, data and flush for every snoop answer, opcode, snoop type and meta value |
| `MemDcoh.CxlMemDcoh.MainLoopTurn` | opencis/cxl/component/cxl_mem_dcoh.py:358-390 | One turn of the main loop is the run of its parts: device side, answer of the host, one request and one write, in this order |
| `MemDcoh.TurnOrder` | opencis/cxl/component/cxl_mem_dcoh.py:358-390 | The steps of a turn one by one: the device side, the host's answer unless the agent was in INIT, the request, the write |
| `MemDcoh.CxlMemDcoh.ProcessM2SReq` | opencis/cxl/component/cxl_mem_dcoh.py:128-217 | The HostReq step with the packets it sends, which RequestPackets gives for each device copy |
| `MemDcoh.RequestPackets` | opencis/cxl/component/cxl_mem_dcoh.py:208-217 | A request is answered by one completion, Cmp-E, Cmp-S or Cmp by the device's copy, snoop and meta value, and but for MemInv by the line's value |
| `MemDcoh.OtherPackets` | opencis/cxl/component/cxl_mem_dcoh.py:220-330 | A write is answered by one Cmp; the agent sends one back snoop for a line in its filter that the device asks for, and nothing else |
| `MemDcoh.CxlMemDcoh.ProcessM2SRwD` | opencis/cxl/component/cxl_mem_dcoh.py:220-259 | The HostRwD step with the packet it sends |
| `CpuAccess.CxlMemoryHub.FindRange` | opencis/cxl/component/cache_controller.py:168-182 | The kind of the first memory range that has the address, or none when no range has it |
| `CpuAccess.KindIsFirst` | opencis/cxl/component/cache_controller.py:168-182 | The kind of an address is that of the first range that has it |
| `CpuAccess.MissKeepsLines` | opencis/cxl/component/cache_controller.py:364-377 | A miss in host memory, which fills the line of the address with the 64 bytes from the address on, keeps all last values whatever memory holds exactly when the address is the first of its line |
| `CpuAccess.OneIsMissed` | opencis/cxl/component/cache_controller.py:364-377 | For every address inside a line a memory whose line changes |
| `CpuAccess.LoadKeepsLines` | opencis/cxl/component/cxl_memory_hub.py:172-180 | Loads of an address change no line, whatever is cached and stored, exactly when it is the first of its line or not in host memory |
| `CpuAccess.LoadGivesMeantBytes` | opencis/cxl/component/cxl_memory_hub.py:172-180 | Loads of an address give the bytes stored last from there on, whatever is cached and stored, exactly when it is the first of its line |
| `CpuAccess.StorePutsMeantBytes` | opencis/cxl/component/cxl_memory_hub.py:192-198 | The 64 bytes of a store are stored from its address on, for all values and with no other byte changed, exactly when it is the first of its line |
| `CpuAccess.JoinedByte` | opencis/cxl/component/cache_controller.py:364-377 | The bytes of 64 bytes that begin inside a line are those of the line from there on and then those of the next line |
| `CpuAccess.MeantByteAt` | opencis/cxl/component/cache_controller.py:364-377 | Byte j of what a load means, or of what a miss in host memory reads, is the byte at the address plus j, also in the next line |
| `CpuAccess.CxlMemoryHub.CoherentLoad` | opencis/cxl/component/cache_controller.py:342-379 | A whole load of any address, through any eviction: a cached line's last value, or else what memory answers, which becomes the line's value; for whole lines that is the last value, and no line changes |
| `CpuAccess.CxlMemoryHub.CoherentStore` | opencis/cxl/component/cache_controller.py:382-421 | A whole store to any address, through any eviction, changes the last value of exactly the line of the address |
| `CpuAccess.CxlMemoryHub.Load` | opencis/cxl/component/cxl_memory_hub.py:172-190 | For any address: the whole load in a memory range, 0 and no change outside all ranges, an assertion and no change for another size |
| `CpuAccess.CxlMemoryHub.Store` | opencis/cxl/component/cxl_memory_hub.py:192-209 | For any address: exactly its line changes, or nothing when it is outside all ranges or the size is another |
| `CpuAccess.Cpu.Store` | opencis/cpu.py:69-96 | Short and long stores to any address with all their errors: a long one stores the 64-byte parts of the value up to the first line outside all ranges |
| `CpuAccess.Cpu.StoreLines` | opencis/cpu.py:84-95 | The chunk loop writes exactly the parts of the value to the lines reached |
| `CpuAccess.Cpu.LoadBytes` | opencis/cpu.py:50-67 | From any address: the bytes of the loads made one after the other, 64 bytes apart, or an overflow at the first that does not fit 64 bytes; of whole lines byte by byte what the lines hold, with an overflow exactly when a line does not fit and no line changed |
| `CpuAccess.StoredBytes` | opencis/cpu.py:50-96 | Bytes read from lines that hold the parts of a value are its little-endian bytes |
| `CpuAccess.Cpu.StoreThenLoadBytes` | opencis/cpu.py:50-96 | The chunked round trip: after a store of whole lines any prefix loads as the little-endian bytes of the value, and all other lines are unchanged |
| `LdFabric.FlatRelay` | opencis/cxl/component/bind_processor.py:60-65 | A relay between queues keeps all packets and their order |
| `LdFabric.MldFabric.Process` | opencis/cxl/component/bind_processor.py:60-65 | One turn of a relay |
| `LdFabric.StampStep` | opencis/cxl/device/pci_to_pci_bridge_device.py:71-86 | Stamping a packet of LD i with its ID changes what no LD sees |
| `LdFabric.SplitStep` | opencis/cxl/component/cxl_packet_processor.py:272-286 | Splitting by LD-ID changes what no LD sees, and no packet of an unknown LD arrives |
| `LdFabric.ManageStep` | opencis/cxl/component/cxl_mem_manager.py:45-82 | Serving a request is one step of that LD's own memory and of no other |
| `LdFabric.RouteUpStep` | opencis/cxl/device/pci_to_pci_bridge_device.py:151-169 | Routing responses by LD-ID changes what no LD sees |
| `LdFabric.StepView` | opencis/cxl/device/pci_to_pci_bridge_device.py:71-169 | Every step of any process is one step of one LD seen as a private in-order memory, or none |
| `LdFabric.RunKeepsOrder` | opencis/cxl/component/cxl_mem_manager.py:102-130 | Over every run and in every queue state: responses delivered to host i, those under way and those its memory will give are, in order, what that memory alone gives to all requests of host i |
| `LdFabric.MemoryLaw` | opencis/cxl/component/cxl_memory_device_component.py:342-354 | Over every list of requests an LD answers each one before an unsupported opcode, in order; a read gives the data of the last earlier write whose address decodes to the same device address, or the initial content, and 0 where nothing decodes |
| `LdFabric.EachLdIsPrivate` | opencis/cxl/device/pci_to_pci_bridge_device.py:71-169 | Isolation, order and memory: what host i received is a prefix of what its own memory answers to its own requests, and all of it when nothing is under way; each read in it gives what host i itself wrote last to the same device address |
| `LdFabric.RestIsComplete` | opencis/cxl/component/cxl_mem_manager.py:102-144 | When no process can take a turn, every response is delivered and only requests behind an unsupported opcode are unserved |
| `LdFabric.EveryTurnIsProgress` | opencis/cxl/component/bind_processor.py:60-65 | Every turn of every process lowers a bound on the turns still possible, so between two requests the fabric comes to rest, in whatever order the processes run |
| `LdFabric.EveryRequestIsAnswered` | opencis/cxl/component/cxl_mem_manager.py:102-144 | However far a run has got, the processes can go on without new requests to where every host has all the answers its own memory gives to all the requests it made |
| `LdFabric.StampReachesItsLd` | opencis/cxl/transport/transaction.py:1415-1428 | A request is addressed to its LD exactly when the LD number fits the four-bit field |
| `LdFabric.UnknownIdStops` | opencis/cxl/component/cxl_packet_processor.py:272-286 | A packet that names no LD is lost and stops the processor that meets it and no other |
| `LdFabric.MldFabric.PpbDownMemProcess` | opencis/cxl/device/pci_to_pci_bridge_device.py:71-86 | Takes a packet, overwrites its LD-ID and passes it on, which StampStep shows no LD notices |
| `LdFabric.MldFabric.ProcessIncomingPacket` | opencis/cxl/component/cxl_packet_processor.py:262-286 | Hands the packet to the LD its ID names, which SplitStep shows no LD notices; an unknown ID stops this processor and no other |
| `LdFabric.MldFabric.ForwardBack` | opencis/cxl/component/cxl_packet_processor.py:388-396 | A relay step of the way back that all LDs share |
| `LdFabric.MldFabric.ProcessHostToTarget` | opencis/cxl/component/cxl_mem_manager.py:102-144 | Serves the oldest request of the LD by that LD's memory, for which MemoryLaw says what it answers; the answer carries the LD-ID of the request |
| `LdFabric.MldFabric.PpbUpMemProcess` | opencis/cxl/device/pci_to_pci_bridge_device.py:151-169 | Hands the response to the host its LD-ID names, which RouteUpStep shows no LD notices |
| `BarRegister.RoundUpIsLeast` | opencis/util/number.py:14-28 | Up to 4 GB the five shifts and ors give the least power of two that is not below the number |
| `BarRegister.BarLengthIsLeast` | opencis/pci/component/mmio_manager.py:92-105 | A BAR is the least power of two that holds its registers and 4 KB |
| `BarRegister.SizeFound` | opencis/pci/config_space/pci.py:262-267 | For every length and all flags: what the driver makes of the register after all ones is the length within 32 bits less the flags in the low bits, and 0 when there is no BAR |
| `BarRegister.SizeFoundIff` | opencis/drivers/pci_bus_driver.py:322-329 | The length of a BAR is found exactly when no flag is set and it is below 4 GB |
| `BarRegister.DetectedSize` | opencis/drivers/pci_bus_driver.py:394-396 | For the BARs without flags that all devices here have, the length within 32 bits |
| `PciScan.WindowRegisterRoundTrip` | opencis/pci/component/pci.py:176-193 | Base and limit registers keep every window of whole megabytes below 4 GB |
| `PciScan.ScanNumbers` | opencis/drivers/pci_bus_driver.py:530-624 | Buses are numbered depth first and the returned bus exceeds the input by the number of bridges |
| `PciScan.BusesContiguous` | opencis/drivers/pci_bus_driver.py:599-610 | The numbers used are contiguous, each once |
| `PciScan.BridgeRanges` | opencis/drivers/pci_bus_driver.py:600-610 | Each bridge's [secondary, subordinate] is exactly the buses of its subtree, and sibling ranges are disjoint and in order |
| `PciScan.NumberedRanges` | opencis/drivers/pci_bus_driver.py:600-610 | The same for every bridge at every depth of the tree |
| `PciScan.BusRouting` | opencis/pci/component/routing_table.py:116-124 | Every bus number given out, and no other, is routed, to the bus scanned under it |
| `PciScan.ScanSplit` | opencis/drivers/pci_bus_driver.py:530-624 | What the scan of a part of a bus gives out is where the scan of the rest goes on |
| `PciScan.ReadableWhileScanned` | opencis/drivers/pci_bus_driver.py:599-603 | At every moment of the scan a request for the bus that is read gets there past all finished bridges, exactly when its number is at most 0xFF, the last bus every open bridge has in the meantime |
| `PciScan.ClaimedIsRouted` | opencis/pci/component/routing_table.py:116-124 | The finished bridges of a bus claim exactly the numbers that are routed behind them |
| `PciScan.ScanPlaces` | opencis/drivers/pci_bus_driver.py:579-609 | Slots are given out one after the other and each window spans the slots below its bridge |
| `PciScan.BarSlots` | opencis/drivers/pci_bus_driver.py:580-583 | The k-th BAR has the k-th megabyte, and the space used is a megabyte for each BAR |
| `PciScan.BarsApart` | opencis/drivers/pci_bus_driver.py:580-583 | BARs of at most a megabyte do not overlap |
| `PciScan.PlacedWindows` | opencis/drivers/pci_bus_driver.py:605-607 | For every bridge at every depth: its window decodes to exactly the slots below it, there is none exactly when there are no BARs below, and it ends before the window of every later bridge on the same bus begins |
| `PciScan.MemRouting` | opencis/pci/component/routing_table.py:132-139 | For every address: the request is routed by BARs and windows to the function whose BAR has it, or nowhere, if and only if the address is in no BAR that starts at 0 and, but for its last byte, in none that ends at 4 GB, and not beyond 4 GB where such a BAR of a function on the first bus strays |
| `PciScan.Answers` | opencis/pci/component/mmio_manager.py:118-133 | Who answers below 4 GB, also in those two BARs: nobody, but for the last byte |
| `PciScan.NothingAtZero` | opencis/pci/component/mmio_manager.py:121-123 | Nothing answers at address 0, whatever was scanned |
| `PciScan.AddressZeroLost` | opencis/pci/component/routing_table.py:132-139 | Concrete functions placed from 0 on, the first BAR of which cannot be reached |
| `PciScan.LastMegabyteLost` | opencis/pci/config_space/pci.py:400-407 | A concrete BAR at the end of the first 4 GB that is never set, since its address is the answer to a size query |
| `PciScan.ScanMirrors` | opencis/drivers/pci_bus_driver.py:538-573 | Every function that can be seen is found once and in its place, with the length of its BAR within 32 bits |
| `PciScan.FoundIff` | opencis/drivers/pci_bus_driver.py:533-556 | On a bus that is mirrored, a function is found exactly when it is there and is function 0 or function 0 says that the device has several, and once |
| `PciScan.FirstScan` | opencis/drivers/pci_bus_driver.py:192-194 | Any first scan: finds what is there, with the sizes of the hardware's BARs, numbers the buses without gaps, gives every bridge at every depth the range of the buses behind it, in order, uses a megabyte for each BAR, and leaves every bus number routed |
| `PciScan.FirstScanMemory` | opencis/drivers/pci_bus_driver.py:188-194 | Its memory, from any whole megabyte on: BARs do not overlap, all windows are exact and disjoint, and requests are routed to the owner of their address with the exact exceptions |
| `PciScan.FirstScanRegisters` | opencis/drivers/pci_bus_driver.py:593-615 | After a first scan a fabric that has nothing but the registers written routes every bus number and every address as the found tree says: no bridge's registers are written over, and they decode to its range and window |
| `PciScan.DevicesOnce` | opencis/drivers/pci_bus_driver.py:555-573 | The device list has exactly the functions that were programmed, each once |
| `PciScan.PciBusDriver.CheckBarSizeAndSet` | opencis/drivers/pci_bus_driver.py:388-408 | Finds the length of the function's BAR, within 32 bits, and leaves BAR0 at the slot or 0 |
| `PciScan.PciBusDriver.ScanBridge` | opencis/drivers/pci_bus_driver.py:593-615 | Registers of the bridge written before and after the scan behind it end as the scan says, whatever is written in between |
| `PciScan.PciBusDriver.ScanFunction` | opencis/drivers/pci_bus_driver.py:555-624 | One function and all behind it: found tree, registers and device list |
| `PciScan.PciBusDriver.ScanBus` | opencis/drivers/pci_bus_driver.py:530-624 | The recursive scan with its loops and register writes computes the scan function, programs exactly the functions found and appends them in order |
| `HdmDecoder.CodesExact` | opencis/cxl/component/hdm_decoder.py:33-51 | The codes stand for exactly 256 B to 16 KB and 1, 2, 3, 4, 6, 8, 12 and 16 ways, each value having one code |
| `HdmDecoder.CountsExact` | opencis/cxl/component/hdm_decoder.py:194-202 | The register values stand for exactly 1, the even numbers to 16 and the multiples of 4 from 20 to 32 |
| `HdmDecoder.DeviceDecodeExact` | opencis/cxl/component/hdm_decoder.py:98-114 | The bit slicing is offset mod g + g * (offset div (g * ways)) for all eight way encodings, exactly for offsets below 2^52 |
| `HdmDecoder.InterleaveBijection` | opencis/cxl/component/hdm_decoder.py:105-128 | For 1 to 16 ways: a bijection between the host range and targets x [0, size / ways) |
| `HdmDecoder.HostAddressRecovered` | opencis/cxl/component/hdm_decoder.py:124-128 | Target and device address give the host address back |
| `HdmDecoder.TargetRecovered` | opencis/cxl/component/hdm_decoder.py:124-128 | Every target and device address below size / ways comes from a host address of the range |
| `HdmDecoder.OneWayIsOffset` | opencis/cxl/component/hdm_decoder.py:105-117 | Without interleaving the device address is the offset |
| `HdmDecoder.HostAddressRoundTrip` | opencis/cxl/component/hdm_decoder.py:242-258 | For every number of ways: get_hpa gives the address back that get_dpa was given exactly when decoder 0 is not interleaved and its base is the base of the decoder used plus what interleaving skipped |
| `HdmDecoder.OneWayRoundTrip` | opencis/cxl/component/hdm_decoder.py:242-258 | For a decoder that does not interleave: exactly when decoder 0 does not either and has the same base |
| `HdmDecoder.InterleavedFirstDecoderLosesAddress` | opencis/cxl/component/hdm_decoder.py:251-258 | An interleaved decoder 0 gives no address back, whatever decoder was used |
| `HdmDecoder.AddressLostAtConcreteInput` | opencis/cxl/component/hdm_decoder.py:251-258 | Two concrete decoders with the same base and an address that is not given back |
| `HdmDecoder.LookupFirst` | opencis/cxl/component/hdm_decoder.py:175-183 | The first decoder that contains the address decodes it |
| `HdmDecoder.DeviceHdmDecoderManager.constructor` | opencis/cxl/component/hdm_decoder.py:206-210 | As many decoders as the register value says, none of which decodes anything |
| `HdmDecoder.DeviceHdmDecoderManager.GetDecoderFromHpa` | opencis/cxl/component/hdm_decoder.py:175-183 | The first decoder with the address, or none when there is none |
| `HdmDecoder.DeviceHdmDecoderManager.GetDpa` | opencis/cxl/component/hdm_decoder.py:242-249 | The decode of the first decoder that contains the address |
| `HdmDecoder.DeviceHdmDecoderManager.Commit` | opencis/cxl/component/hdm_decoder.py:224-240 | Exactly one decoder changes; a bad interleave code raises after the range was set |
| `HdmDecoder.DeviceCommitDecodes` | opencis/cxl/component/hdm_decoder.py:224-249 | After a commit an address in the committed range that no earlier decoder has is decoded with the committed granularity and ways, other addresses as by the other decoders; a bad code leaves the old code behind the new range |
| `HdmDecoder.TargetDecoderManager.GetTarget` | opencis/cxl/component/hdm_decoder.py:302-307 | The target of the first decoder that contains the address; switch and PBR decoders alike |
| `HdmDecoder.TargetDecoderManager.Commit` | opencis/cxl/component/hdm_decoder.py:281-300 | Exactly one decoder changes; an index past the table is refused and the one just past it raises |
| `HdmDecoder.TargetCommitDecodes` | opencis/cxl/component/hdm_decoder.py:281-307 | After a commit an address in the committed range that no earlier decoder has goes to the entry of the committed list that its granule selects, other addresses as by the other decoders; a bad code leaves the old code and list behind the new range |
| `BitBuffer.ShareableByteArray.WriteBits` | opencis/util/unaligned_bit_structure.py:231-263 | Exactly the slice of the little-endian integer is replaced by the low bits of the value |
| `BitBuffer.ShareableByteArray.ReadBits` | opencis/util/unaligned_bit_structure.py:265-293 | The slice of the little-endian integer |
| `BitBuffer.ShareableByteArray.WriteBytes` | opencis/util/unaligned_bit_structure.py:217-223 | The bytes are replaced, growing the store past its end; a value that does not fit raises |
| `BitBuffer.ShareableByteArray.ReadBytes` | opencis/util/unaligned_bit_structure.py:225-229 | The slice of the little-endian integer, zero past the end |
| `BitBuffer.ShareableByteArray.CopyFrom` | opencis/util/unaligned_bit_structure.py:295-298 | The copied bytes replace exactly their range |
| `BitBuffer.SliceOfInsert` | opencis/util/unaligned_bit_structure.py:231-293 | A slice written is read back modulo its width |
| `BitBuffer.InsertFrame` | opencis/util/unaligned_bit_structure.py:231-293 | Slices beside it read as before |
| `BitBuffer.BitOfInsert` | opencis/util/unaligned_bit_structure.py:231-263 | The same bit by bit |
| `StructureLayout.CheckIfFieldsAreValid` | opencis/util/unaligned_bit_structure.py:359-426 | Accepts exactly the layouts of one kind whose fields follow one another and end on a byte |
| `StructureLayout.LeavesDisjoint` | opencis/util/unaligned_bit_structure.py:388-417 | Leaves of an accepted layout do not overlap, however deeply nested |
| `StructureLayout.LeavesCover` | opencis/util/unaligned_bit_structure.py:388-417 | When structures fill their fields the leaves tile the buffer |
| `StructureLayout.RecordLaw` | opencis/util/unaligned_bit_structure.py:476-587 | After setting one leaf it reads as the value and every other leaf as before, across nested structures |
| `StructureLayout.DefaultsReadBack` | opencis/util/unaligned_bit_structure.py:476-587 | The law of defaults: after its field's default a bit leaf reads the default modulo its width, a byte leaf a default that is not 0 and else what it read before, and every leaf its slice of the outermost default around it that is not 0 |
| `StructureLayout.DefaultsFrame` | opencis/util/unaligned_bit_structure.py:476-587 | Defaults change no bit outside their fields |
| `StructureLayout.DefaultsFailIff` | opencis/util/unaligned_bit_structure.py:217-223 | Defaults can be written exactly when all of bytes and structures fit their fields |
| `StructureLayout.UnalignedBitStructure.Build` | opencis/util/unaligned_bit_structure.py:316-357 | Succeeds exactly for accepted layouts that fit and whose defaults fit; every leaf at every depth then reads by the law of defaults |
| `StructureLayout.UnalignedBitStructure.AddField` | opencis/util/unaligned_bit_structure.py:476-587 | One field reads by the law of defaults, and the structure inside gets its own view of the same buffer |
| `StructureLayout.UnalignedBitStructure.SetLeaf` | opencis/util/unaligned_bit_structure.py:481-517 | Assigning a leaf replaces exactly its bits of the shared buffer |
| `StructureLayout.UnalignedBitStructure.GetLeaf` | opencis/util/unaligned_bit_structure.py:486-523 | Reading a leaf gives its bits of the shared buffer |
| `MaskedRegisters.BitMaskedBitStructure.Build` | opencis/util/unaligned_bit_structure.py:662-683 | Succeeds exactly for accepted layouts that fit, with defaults and masks that fit; every leaf at every depth then reads by the law of defaults, and the object has the mask of the layout |
| `MaskedRegisters.BitMaskedBitStructure.WithMasks` | opencis/util/unaligned_bit_structure.py:670-721 | The masks of a structure and of all structures inside it, each replaced by the mask its field is given |
| `MaskedRegisters.BitMaskedBitStructure.WriteBytes` | opencis/util/unaligned_bit_structure.py:723-741 | The write through all structures it is handed to is one write under the conjunction of their masks |
| `MaskedRegisters.BitMaskedBitStructure.GetStructureField` | opencis/util/unaligned_bit_structure.py:762-780 | The structure field the first byte lies in |
| `MaskedRegisters.EffectiveWithin` | opencis/util/unaligned_bit_structure.py:723-734 | No bit passes that a mask on the way does not have |
| `MaskedRegisters.WriteBit` | opencis/util/unaligned_bit_structure.py:723-741 | A write changes exactly the bits of its range that pass all masks, also past the end of a structure or of the buffer |
| `MaskedRegisters.RunIsLastBit` | opencis/util/unaligned_bit_structure.py:723-741 | After every sequence of writes, wherever they start and end, each bit is what the last write that reaches it through all masks had for it |
| `MaskedRegisters.RunKeepsMaskedBits` | opencis/util/unaligned_bit_structure.py:723-741 | No sequence of writes changes a bit the mask of the structure does not have |
| `MaskedRegisters.ReadOnlyNeverChanges` | opencis/util/unaligned_bit_structure.py:685-741 | A leaf whose mask in the layout is empty, as read-only fields and BARs given the mask 0 are, keeps its value over every sequence of writes, at any depth |
| `MaskedRegisters.MaskedBitNeverChanges` | opencis/util/unaligned_bit_structure.py:685-741 | Over every sequence of writes, wherever they start and end, a bit of a leaf that the mask of the layout does not have keeps its value |
| `MaskedRegisters.UnreachedNeverChanges` | opencis/util/unaligned_bit_structure.py:723-741 | A bit that no write can reach, because at every level it is masked out or lies behind nothing but structures that hand the write on to their own masks, keeps its value over every sequence of writes |
| `MaskedRegisters.ReachedCanChange` | opencis/util/unaligned_bit_structure.py:723-741 | Any other bit is changed by some write, in every state of the buffer |
| `MaskedRegisters.CrossingWriteReachesReadOnly` | opencis/util/unaligned_bit_structure.py:715-734 | A concrete layout in which a write that starts in a byte field reaches the read-only byte behind it, since the mask given for the structure replaced the masks inside |
| `MaskedRegisters.RegisterWrite` | opencis/util/unaligned_bit_structure.py:723-741 | A write of exactly one register, at any depth, leaves the register's old bits outside m and the bits of the value inside m, where m is the conjunction of all masks on its path |
| `MaskedRegisters.FieldWrite` | opencis/util/unaligned_bit_structure.py:723-741 | A write that is handed down to a bit field or byte field at any depth and covers it leaves in it the old bits outside the masks on its path and inside them the bits the value has for it |
| `MaskedRegisters.UnmaskedFieldWrite` | opencis/util/unaligned_bit_structure.py:685-741 | Without masks given on its path each field, as in control and status registers, gets its part of the value if it can be written and keeps its own if it is read-only |
| `MaskedRegisters.OwnMask` | opencis/util/unaligned_bit_structure.py:693-721 | Under structures without masks of their own m is the register's own mask, as for BARs |
| `MaskedRegisters.WritableRegisterIsSet` | opencis/util/unaligned_bit_structure.py:723-741 | Without any mask given on its path, a write of exactly a writable register sets it to the value |
| `MaskedRegisters.LeafMask` | opencis/util/unaligned_bit_structure.py:685-721 | The mask of a layout has on a leaf the slice of the outermost mask given for a structure on its path, or else the leaf's own mask, or else all ones or none |
| `MaskedRegisters.CreateBitFieldMasks` | opencis/util/unaligned_bit_structure.py:685-691 | The or-ed mask is the mask of the layout |
| `MaskedRegisters.CreateByteFieldMasks` | opencis/util/unaligned_bit_structure.py:693-721 | The mask bytes are the mask of the layout; a mask that does not fit raises |
| `SparseMemory.Simple64BitEmulator.Write` | opencis/msim/emulator.py:110-138 | Writes exactly the bytes of the flat memory, and creates exactly the pages from the first to the one after the last byte |
| `SparseMemory.Simple64BitEmulator.Read` | opencis/msim/emulator.py:69-108 | Reads the bytes of the flat memory, the sentinel where nothing was written |
| `SparseMemory.RunIsFlat` | opencis/msim/emulator.py:69-138 | Over every sequence of writes the pages hold the byte last written everywhere, or 0xFE |
| `SparseMemory.ReadAfterWrite` | opencis/msim/emulator.py:69-138 | What was written is read back |
| `SparseMemory.WriteOfView` | opencis/msim/emulator.py:27-28 | A write stores what the view shows exactly when the object behind it starts with that |
| `SparseMemory.ReadOfView` | opencis/msim/emulator.py:27-28 | After a read a view shows the memory, whatever that holds, exactly when it starts where its object does or is empty |
| `CxlIoCodec.ByteEnablesExact` | opencis/cxl/transport/transaction.py:404-411 | First and last byte enables describe exactly the bytes [addr, addr + length) |
| `CxlIoCodec.CxlIoMemReqPacket.Fill` | opencis/cxl/transport/transaction.py:392-429 | After fill the byte enables describe exactly [addr, addr + length), get_address gives the address rounded down to 4 and get_data_size the size modulo 256 DWORDs; addresses from 2^64 on raise |
| `CxlIoCodec.AddressRoundTrip` | opencis/cxl/transport/transaction.py:413-425 | get_address gives the address rounded down to 4, for every address below 2^64 |
| `CxlIoCodec.DataSizeRoundTrip` | opencis/cxl/transport/transaction.py:399-429 | get_data_size is right exactly below 256 DWORDs |
| `CxlIoCodec.CxlIoCfgReqPacket.Fill` | opencis/cxl/transport/transaction.py:535-563 | Byte enables and register numbers, or an error for an illegal address or size |
| `CxlIoCodec.CxlIoCfgReqPacket.GetCfgAddrWriteInfo` | opencis/cxl/transport/transaction.py:569-581 | The loops end and give the lowest enabled byte and the number of enabled bytes |
| `CxlIoCodec.FirstLoopStopsIff` | opencis/cxl/transport/transaction.py:572-575 | The first loop has something to stop at exactly when a byte is enabled |
| `CxlIoCodec.FilledLoopStopsIff` | opencis/cxl/transport/transaction.py:549-575 | For a request that was filled in, exactly when its size is not 0 |
| `CxlIoCodec.EmptyRequest` | opencis/cxl/transport/transaction.py:535-575 | A request of size 0 is accepted, has no enabled byte and gives the first loop nothing to stop at |
| `CxlIoCodec.CxlIoCfgReqPacket.CreateWrite` | opencis/cxl/transport/transaction.py:637-667 | The shifted value, or an error when it does not fit four bytes |
| `CxlIoCodec.CxlIoCfgReqPacket.GetValue` | opencis/cxl/transport/transaction.py:669-674 | The enabled bytes of the value field |
| `CxlIoCodec.CfgWriteRoundTrip` | opencis/cxl/transport/transaction.py:535-674 | Address and size of every legal write come back, and the value exactly when it fits the size |
| `PbrRouting.SetKeepsTables` | opencis/cxl/component/pbr_switch_manager.py:322-363 | A request keeps all tables at 4096 entries, none reserved |
| `PbrRouting.SetIsAllOrNothing` | opencis/cxl/component/pbr_switch_manager.py:322-363 | A request is accepted exactly if its table exists, its entries fit the 4096 and none is reserved; then exactly these entries change |
| `PbrRouting.TablesOverRuns` | opencis/cxl/component/pbr_switch_manager.py:322-363 | Over every run of requests tables keep their size, have no reserved entry, and each entry is the last one written by a request accepted as a whole |
| `PbrRouting.PbrSwitchManager.GetDrt` | opencis/cxl/component/pbr_switch_manager.py:299-320 | The entries asked for, or nothing outside the table |
| `PbrRouting.PbrSwitchManager.SetDrt` | opencis/cxl/component/pbr_switch_manager.py:322-363 | All or nothing: writes every entry or changes no table |
| `PbrRouting.PbrSwitchRouter.RoutePacket` | opencis/cxl/component/pbr_switch_router.py:70-152 | At most one encapsulation, at most one packet on at most one egress queue |
| `PbrRouting.PlainPacketDelivery` | opencis/cxl/component/pbr_switch_router.py:113-152 | A plain packet leaves unchanged at a port exactly when its address decodes to a DPID whose twelve bits are routed there; it is dropped without an address or decoders, and raises exactly when the decoder does |
| `PbrRouting.PbrPacketDelivery` | opencis/cxl/component/pbr_switch_router.py:70-110 | A packet with a PBR header leaves at a port exactly when the first table routes its DPID there, without the header if the inner packet is attached and as it is if not, and never raises |
| `PbrRouting.InterleavedDelivery` | opencis/cxl/component/hdm_decoder.py:310-318 | With an interleaved decoder the port is the one routed for the twelve bits of the DPID of the address's granule |
| `PbrRouting.DpidKept` | opencis/cxl/transport/transaction.py:116-124 | DPID and SPID are kept exactly when they have at most twelve bits, and the inner packet always |
| `PbrRouting.DpidsSharingRoutes` | opencis/cxl/transport/transaction.py:116-124 | Two decoded DPIDs are routed alike by all tables exactly when their low twelve bits agree |

## Left out

- Sockets, asyncio scheduling, logging, configuration files, the command line and demos; queues are sequences and memory files are maps.
- MetaField NO_OP accesses of the host in the coherence stack: they bypass the device cache and force the agent to INIT.
- The home agent and coherency bridge of the host, `cxl_cache_dcoh.py`, WRITE_BACK snoops from a bridge, and uncached accesses.
- More than one load or store of a device cache in progress at a time.
- The queues host packets wait in before the agent's main loop takes them: a turn is given the packets it takes.
- Device operations at addresses inside a line in `MemDcoh`, where lines are named by their first address; `DeviceCache` and `CpuAccess` take any address.
- Memory ranges that do not start and end on a line: the write-back of a line that starts in no range raises in the code, and is done in the model.
- Address translation of host requests and back snoops in `MemDcoh`: lines are named by device address.
- Ranges of type CXL_CACHED skip the ownership request of a store; the model has it answered at once.
- Binding, unbinding and freezing of LDs during traffic, CXL.io and CXL.cache packets and back invalidation of multi-logical devices, and the tag table of CXL.io requests.
- Accesses of an LD that straddle two 64-byte lines of its memory: a request is for one line.
- Rescans of a PCI bus, capabilities, prefetchable windows, and register overflow beyond 255 buses or 4 GB; the scan is given the functions of a bus, which ReadableWhileScanned shows its requests get to.
- 3-, 6- and 12-way interleaving of targets: the code uses `1 << iw` ways for them, and only the device side decodes them.
- Structures with dynamic-length fields, field names and their uniqueness, and dictionaries of fields.
- Reader-writer locking of the memory emulator.
- Request IDs, tags and destination IDs of CXL.io requests, and completions.
- PID assignment and bindings, group routing, and aliasing of table entries with the caller's list.
- OwnershipReadForgetsValue: one run, since StepKeepsFlat states the exact condition for all.
- HostWriteLostToEviction: one run, since StepKeepsFlat states the exact condition for all.
- GetCfgAddrWriteInfo: required to have an enabled byte, because without one the code does not terminate (FirstLoopStopsIff).
- ScanBus: for buses none of whose functions has been programmed before, that is for a first scan.
- EachLdIsPrivate: for at most 16 LDs, the number the LD-ID field can name (StampReachesItsLd).
- MainLoopTurn: for a host that keeps its rules, which is what the results over runs are about.
- InterleaveBijection: for ranges that start and end on a whole stripe, distinct targets and offsets below 2^52.
- CxlMemoryHub.Load: for cached memory; MMIO, configuration and uncached ranges go past the cache to other components.
- CxlMemoryHub.Store: for cached memory, for the same reason.
- HostAddressRoundTrip: for offsets below 2^52, the ones that are decoded exactly (DeviceDecodeExact).
- MemRouting: for BARs of at most a megabyte that end at 4 GB at the latest, as the scan assumes of the hardware.
- DeviceNeverLosesAnUpdate: for hosts that only read without invalidating; HazardLosesUpdate shows what other requests lose.
- RoundUpIsLeast: for numbers up to 4 GB; the five shifts fill 32 bits.
- SizeFound: for lengths that are multiples of 16, which BarLengthIsLeast shows all BARs up to 4 GB have.
- EveryRequestIsAnswered: for at most 16 LDs, as EachLdIsPrivate.
- JoinedByte: for lines that fit 64 bytes.
